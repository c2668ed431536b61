/** `process_caption`: lower-case the caption, strip at most one lead-in phrase,
    delete punctuation, drop repeated words keeping the first occurrence, and join
    the words with underscores. */
module Caption {
  import opened Text

  /** The lead-in phrases, in the order they are tried. */
  const CommonPhrases: seq<string> := [
    "a picture of ", "a photo of ", "an image of ", "picture of ", "photo of ", "image of ",
    "there is a ", "there is an ", "there are ", "this is a ", "this is an ", "this is "
  ]

  /** Removes the first phrase of `phrases`, in list order, that `s` starts with;
      `s` itself when none does. Only a leading part is ever removed. */
  function StripFirstPhrase(s: string, phrases: seq<string>): (r: string)
    ensures |r| <= |s| && r == s[|s| - |r|..]
  {
    if phrases == [] then s
    else if phrases[0] <= s then s[|phrases[0]|..]
    else StripFirstPhrase(s, phrases[1..])
  }

  /** When the `i`-th phrase is the first one `s` starts with, exactly that phrase
      is removed, and nothing more. */
  lemma {:induction false} StripFirstPhraseRemovesFirstMatch(s: string, phrases: seq<string>, i: nat)
    requires i < |phrases| && phrases[i] <= s
    requires forall j :: 0 <= j < i ==> !(phrases[j] <= s)
    ensures StripFirstPhrase(s, phrases) == s[|phrases[i]|..]
  {
    if i > 0 {
      assert !(phrases[0] <= s);
      forall j | 0 <= j < i - 1
        ensures !(phrases[1..][j] <= s)
      {
        assert phrases[1..][j] == phrases[j + 1];
      }
      StripFirstPhraseRemovesFirstMatch(s, phrases[1..], i - 1);
    }
  }

  /** When no phrase starts `s`, nothing is removed. */
  lemma {:induction false} StripFirstPhraseWithoutMatch(s: string, phrases: seq<string>)
    requires forall j :: 0 <= j < |phrases| ==> !(phrases[j] <= s)
    ensures StripFirstPhrase(s, phrases) == s
  {
    if phrases != [] {
      assert !(phrases[0] <= s);
      forall j | 0 <= j < |phrases| - 1
        ensures !(phrases[1..][j] <= s)
      {
        assert phrases[1..][j] == phrases[j + 1];
      }
      StripFirstPhraseWithoutMatch(s, phrases[1..]);
    }
  }

  /** The words of `ws` without repetitions, each kept where it first occurs. The
      result holds exactly the words of `ws`, and no word twice. */
  function Dedup(ws: seq<string>): (r: seq<string>)
    ensures forall w :: w in r <==> w in ws
    ensures forall i, j :: 0 <= i < j < |r| ==> r[i] != r[j]
  {
    if ws == [] then []
    else
      var d := Dedup(ws[..|ws| - 1]);
      var last := ws[|ws| - 1];
      assert ws == ws[..|ws| - 1] + [last];
      if last in d then d else d + [last]
  }

  /** The position of the first occurrence of `w` in `ws`. */
  function FirstIndex(ws: seq<string>, w: string): (k: nat)
    requires w in ws
    ensures k < |ws| && ws[k] == w && w !in ws[..k]
  {
    if ws[0] == w then 0 else 1 + FirstIndex(ws[1..], w)
  }

  lemma FirstIndexInPrefix(ws: seq<string>, m: nat, w: string)
    requires m <= |ws| && w in ws[..m]
    ensures FirstIndex(ws, w) == FirstIndex(ws[..m], w)
  {
    var k, k' := FirstIndex(ws, w), FirstIndex(ws[..m], w);
    assert ws[..m][..k'] == ws[..k'];
  }

  /** `Dedup` keeps the words in the order of their first occurrence in `ws`. */
  lemma {:induction false} DedupKeepsFirstOccurrenceOrder(ws: seq<string>)
    ensures forall i, j :: 0 <= i < j < |Dedup(ws)| ==>
      FirstIndex(ws, Dedup(ws)[i]) < FirstIndex(ws, Dedup(ws)[j])
  {
    if ws != [] {
      var p := ws[..|ws| - 1];
      var last := ws[|ws| - 1];
      var d := Dedup(p);
      DedupKeepsFirstOccurrenceOrder(p);
      assert p == ws[..|p|];
      forall w | w in d
        ensures FirstIndex(ws, w) == FirstIndex(p, w) < |p|
      {
        FirstIndexInPrefix(ws, |p|, w);
      }
      if last !in d {
        assert last !in p;
        assert FirstIndex(ws, last) == |p|;
        assert Dedup(ws) == d + [last];
        forall i, j | 0 <= i < j < |Dedup(ws)|
          ensures FirstIndex(ws, Dedup(ws)[i]) < FirstIndex(ws, Dedup(ws)[j])
        {
          if j < |d| {
            assert Dedup(ws)[i] == d[i] && Dedup(ws)[j] == d[j];
          } else {
            assert Dedup(ws)[i] == d[i] && d[i] in d;
          }
        }
      }
    }
  }

  /** The lower-cased caption with at most one lead-in phrase removed. */
  function StrippedCaption(caption: string): string {
    StripFirstPhrase(Lower(caption), CommonPhrases)
  }

  /** The words of the stripped caption once punctuation is deleted. */
  function CaptionWords(caption: string): seq<string> {
    Words(RemovePunctuation(StrippedCaption(caption)))
  }

  /** What `process_caption(caption)` returns. */
  function NormalizeCaption(caption: string): string {
    Join(Dedup(CaptionWords(caption)), '_')
  }

  /** Every word of the normalised caption is free of upper-case letters,
      whitespace and punctuation (so it holds no `_` either). */
  lemma CaptionWordsAreClean(caption: string)
    ensures forall w :: w in CaptionWords(caption) ==>
      w != [] && forall c :: c in w ==> !IsUpper(c) && !IsWhitespace(c) && !IsPunctuation(c)
  {
    var lowered := Lower(caption);
    var stripped := StrippedCaption(caption);
    assert forall c :: c in stripped ==> c in lowered;
  }

  /** The normalised caption holds no upper-case letter and no whitespace, and its
      only punctuation is the `_` between words. */
  lemma NormalizeCaptionCharacters(caption: string)
    ensures forall c :: c in NormalizeCaption(caption) ==>
      !IsUpper(c) && !IsWhitespace(c) && (IsPunctuation(c) ==> c == '_')
  {
    CaptionWordsAreClean(caption);
  }

  /** Splitting the normalised caption on `_` gives back exactly the de-duplicated
      words: no segment is empty and no two words merge. */
  lemma NormalizeCaptionSplitsIntoWords(caption: string)
    requires CaptionWords(caption) != []
    ensures SplitOn(NormalizeCaption(caption), '_') == Dedup(CaptionWords(caption))
    ensures forall f :: f in SplitOn(NormalizeCaption(caption), '_') ==> f != []
  {
    CaptionWordsAreClean(caption);
    var ws := CaptionWords(caption);
    assert ws[0] in Dedup(ws);
    SplitJoin(Dedup(ws), '_');
  }

  /** The normalised caption is empty exactly when no word survives. */
  lemma NormalizeCaptionEmpty(caption: string)
    ensures NormalizeCaption(caption) == [] <==> CaptionWords(caption) == []
  {
    var ws := CaptionWords(caption);
    if ws != [] {
      assert ws[0] in Dedup(ws);
      var d := Dedup(ws);
      assert d[0] in ws;
    }
  }

  /** The phrase loop of `process_caption`: tries the phrases in list order and
      removes the first one the text starts with, then stops. */
  method StripLeadingPhrase(lowered: string) returns (text: string)
    ensures text == StripFirstPhrase(lowered, CommonPhrases)
  {
    text := lowered;
    var i := 0;
    while i < |CommonPhrases|
      invariant 0 <= i <= |CommonPhrases|
      invariant text == lowered
      invariant StripFirstPhrase(lowered, CommonPhrases) == StripFirstPhrase(lowered, CommonPhrases[i..])
    {
      var phrase := CommonPhrases[i];
      if phrase <= text {
        text := text[|phrase|..];
        return;
      }
      assert CommonPhrases[i..][1..] == CommonPhrases[i + 1..];
      i := i + 1;
    }
  }

  /** The word loop of `process_caption`: keeps a word the first time it is seen,
      remembering the words seen so far in a set. */
  method DropRepeatedWords(words: seq<string>) returns (processedWords: seq<string>)
    ensures processedWords == Dedup(words)
  {
    var seen: set<string> := {};
    processedWords := [];
    for k := 0 to |words|
      invariant processedWords == Dedup(words[..k])
      invariant forall w :: w in seen <==> w in processedWords
    {
      var word := words[k];
      assert words[..k + 1][..k] == words[..k];
      if word !in seen {
        seen := seen + {word};
        processedWords := processedWords + [word];
      }
    }
    assert words[..|words|] == words;
  }

  /** `process_caption`: lower-case, strip one lead-in phrase, delete punctuation,
      split into words, drop repeated words and join them with `_`. */
  method ProcessCaption(caption: string) returns (processed: string)
    ensures processed == NormalizeCaption(caption)
  {
    var text := Lower(caption);
    text := StripLeadingPhrase(text);
    text := RemovePunctuation(text);
    var words := Words(text);
    var processedWords := DropRepeatedWords(words);
    processed := Join(processedWords, '_');
  }
}
