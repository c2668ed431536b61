/** Worked examples of caption normalisation on concrete captions. Each step is its
    own small lemma so that the verifier never unfolds a whole literal at once. */
module CaptionExamples {
  import opened Text
  import opened Caption

  lemma NotPrefixAt(p: string, s: string, k: nat)
    requires k < |p| && k < |s| && p[k] != s[k]
    ensures !(p <= s)
  {
  }

  /** The words of a caption, given its lower-cased form, the phrase-stripped form
      (free of punctuation) and the words that, joined by single spaces, make it. */
  lemma CaptionWordsFromSteps(caption: string, lowered: string, stripped: string, ws: seq<string>)
    requires Lower(caption) == lowered
    requires StripFirstPhrase(lowered, CommonPhrases) == stripped
    requires forall c :: c in stripped ==> !IsPunctuation(c)
    requires forall w :: w in ws ==> w != [] && forall c :: c in w ==> !IsWhitespace(c)
    requires Join(ws, ' ') == stripped
    ensures CaptionWords(caption) == ws
  {
    WordsOfSpaceJoin(ws);
  }

  lemma RepeatedPhraseLowered(caption: string)
    requires caption == "a picture of a picture of a cat"
    ensures Lower(caption) == caption
  {
    LowerKeepsLowerCase(caption);
  }

  /** Only one lead-in phrase is removed, even when the caption repeats it. */
  lemma OnlyOnePhraseStripped(caption: string)
    requires caption == "a picture of a picture of a cat"
    ensures StrippedCaption(caption) == "a picture of a cat"
  {
    RepeatedPhraseLowered(caption);
    StripFirstPhraseRemovesFirstMatch(caption, CommonPhrases, 0);
    assert caption[|CommonPhrases[0]|..] == "a picture of a cat";
  }

  lemma NoPhraseStartsTheCat(caption: string)
    requires caption == "the cat the dog the cat"
    ensures StripFirstPhrase(caption, CommonPhrases) == caption
  {
    forall j | 0 <= j < |CommonPhrases|
      ensures !(CommonPhrases[j] <= caption)
    {
      if j < 6 {
        NotPrefixAt(CommonPhrases[j], caption, 0);
      } else if j < 9 {
        NotPrefixAt(CommonPhrases[j], caption, 3);
      } else {
        NotPrefixAt(CommonPhrases[j], caption, 2);
      }
    }
    StripFirstPhraseWithoutMatch(caption, CommonPhrases);
  }

  lemma TheCatHalves(xs: seq<string>, ys: seq<string>)
    requires xs == ["the", "cat", "the"] && ys == ["dog", "the", "cat"]
    ensures Join(xs, ' ') == "the cat the" && Join(ys, ' ') == "dog the cat"
  {
    JoinThree("the", "cat", "the", ' ');
    JoinThree("dog", "the", "cat", ' ');
  }

  lemma TheCatPieces(x: string, y: string)
    requires x == "the cat the" && y == "dog the cat"
    ensures x + [' '] + y == "the cat the dog the cat"
  {
  }

  lemma TheCatWordShapes(ws: seq<string>)
    requires ws == ["the", "cat", "the", "dog", "the", "cat"]
    ensures forall w :: w in ws ==> w != [] && forall c :: c in w ==> !IsWhitespace(c)
  {
  }

  lemma TheCatSpaced(ws: seq<string>)
    requires ws == ["the", "cat", "the", "dog", "the", "cat"]
    ensures Join(ws, ' ') == "the cat the dog the cat"
    ensures forall w :: w in ws ==> w != [] && forall c :: c in w ==> !IsWhitespace(c)
  {
    var xs, ys := ["the", "cat", "the"], ["dog", "the", "cat"];
    assert ws == xs + ys;
    JoinAppend(xs, ys, ' ');
    TheCatHalves(xs, ys);
    TheCatPieces(Join(xs, ' '), Join(ys, ' '));
    TheCatWordShapes(ws);
  }

  lemma TheCatPlain(caption: string)
    requires caption == "the cat the dog the cat"
    ensures forall c :: c in caption ==> !IsUpper(c) && !IsPunctuation(c)
  {
  }

  lemma TheCatWords(caption: string, ws: seq<string>)
    requires caption == "the cat the dog the cat"
    requires ws == ["the", "cat", "the", "dog", "the", "cat"]
    ensures CaptionWords(caption) == ws
  {
    TheCatPlain(caption);
    LowerKeepsLowerCase(caption);
    NoPhraseStartsTheCat(caption);
    TheCatSpaced(ws);
    CaptionWordsFromSteps(caption, caption, caption, ws);
  }

  lemma TheCatFirstThree(ws: seq<string>)
    requires ws == ["the", "cat", "the"]
    ensures Dedup(ws) == ["the", "cat"]
  {
    assert ws[..1][..0] == [];
    assert Dedup(ws[..1]) == ["the"];
    assert ws[..2][..1] == ws[..1];
    assert Dedup(ws[..2]) == ["the", "cat"];
    assert ws[..2] == ws[..|ws| - 1];
  }

  lemma TheCatDeduplicated(ws: seq<string>)
    requires ws == ["the", "cat", "the", "dog", "the", "cat"]
    ensures Dedup(ws) == ["the", "cat", "dog"]
  {
    TheCatFirstThree(ws[..3]);
    assert ws[..4][..3] == ws[..3];
    assert Dedup(ws[..4]) == ["the", "cat", "dog"];
    assert ws[..5][..4] == ws[..4];
    assert Dedup(ws[..5]) == ["the", "cat", "dog"];
    assert ws[..5] == ws[..|ws| - 1];
  }

  lemma NormalizeFromSteps(caption: string, ws: seq<string>, d: seq<string>)
    requires CaptionWords(caption) == ws && Dedup(ws) == d
    ensures NormalizeCaption(caption) == Join(d, '_')
  {
  }

  lemma TheCatNormalized(caption: string)
    requires caption == "the cat the dog the cat"
    ensures NormalizeCaption(caption) == Join(["the", "cat", "dog"], '_')
  {
    var ws := ["the", "cat", "the", "dog", "the", "cat"];
    TheCatWords(caption, ws);
    TheCatDeduplicated(ws);
    NormalizeFromSteps(caption, ws, ["the", "cat", "dog"]);
  }

  lemma TheCatDogJoined(s: string)
    requires s == Join(["the", "cat", "dog"], '_')
    ensures s == "the_cat_dog"
  {
    JoinThree("the", "cat", "dog", '_');
  }

  /** Repeated words are dropped and first occurrences keep their order. */
  lemma RepeatedWordsDropped(caption: string)
    requires caption == "the cat the dog the cat"
    ensures NormalizeCaption(caption) == "the_cat_dog"
  {
    TheCatNormalized(caption);
    TheCatDogJoined(Join(["the", "cat", "dog"], '_'));
  }

  lemma CatSittingTailPlain(rest: string)
    requires rest == " photo of a cat sitting"
    ensures forall c :: c in rest ==> !IsUpper(c)
  {
  }

  lemma CatSittingHead(rest: string)
    requires rest == " photo of a cat sitting"
    ensures ['a'] + rest == "a photo of a cat sitting"
  {
  }

  lemma CatSittingLowered(caption: string)
    requires caption == "A photo of a cat sitting"
    ensures Lower(caption) == "a photo of a cat sitting"
  {
    var rest := caption[1..];
    CatSittingTailPlain(rest);
    LowerHeadOnly(caption);
    assert LowerChar(caption[0]) == 'a';
    CatSittingHead(rest);
  }

  lemma CatSittingStripped(lowered: string)
    requires lowered == "a photo of a cat sitting"
    ensures StripFirstPhrase(lowered, CommonPhrases) == "a cat sitting"
  {
    NotPrefixAt(CommonPhrases[0], lowered, 3);
    StripFirstPhraseRemovesFirstMatch(lowered, CommonPhrases, 1);
    assert lowered[|CommonPhrases[1]|..] == "a cat sitting";
  }

  lemma CatSittingSpaced(ws: seq<string>)
    requires ws == ["a", "cat", "sitting"]
    ensures Join(ws, ' ') == "a cat sitting"
    ensures forall w :: w in ws ==> w != [] && forall c :: c in w ==> !IsWhitespace(c)
  {
    JoinThree("a", "cat", "sitting", ' ');
  }

  lemma CatSittingDeduplicated(ws: seq<string>)
    requires ws == ["a", "cat", "sitting"]
    ensures Dedup(ws) == ws
  {
    assert ws[..1][..0] == [];
    assert Dedup(ws[..1]) == ["a"];
    assert ws[..2][..1] == ws[..1];
    assert Dedup(ws[..2]) == ["a", "cat"];
    assert ws[..2] == ws[..|ws| - 1];
  }

  lemma CatSittingPlain(stripped: string)
    requires stripped == "a cat sitting"
    ensures forall c :: c in stripped ==> !IsPunctuation(c)
  {
  }

  lemma CatSittingWords(caption: string, ws: seq<string>)
    requires caption == "A photo of a cat sitting"
    requires ws == ["a", "cat", "sitting"]
    ensures CaptionWords(caption) == ws
  {
    var lowered, stripped := "a photo of a cat sitting", "a cat sitting";
    CatSittingLowered(caption);
    CatSittingStripped(lowered);
    CatSittingSpaced(ws);
    CatSittingPlain(stripped);
    CaptionWordsFromSteps(caption, lowered, stripped, ws);
  }

  lemma CatSittingNormalized(caption: string)
    requires caption == "A photo of a cat sitting"
    ensures NormalizeCaption(caption) == Join(["a", "cat", "sitting"], '_')
  {
    var ws := ["a", "cat", "sitting"];
    CatSittingWords(caption, ws);
    CatSittingDeduplicated(ws);
    NormalizeFromSteps(caption, ws, ws);
  }

  lemma CatSittingJoined(s: string)
    requires s == Join(["a", "cat", "sitting"], '_')
    ensures s == "a_cat_sitting"
  {
    JoinThree("a", "cat", "sitting", '_');
  }

  /** Only the phrase "a photo of " is removed: the article after it stays. */
  lemma ArticleAfterPhraseKept(caption: string)
    requires caption == "A photo of a cat sitting"
    ensures NormalizeCaption(caption) == "a_cat_sitting"
  {
    CatSittingNormalized(caption);
    CatSittingJoined(Join(["a", "cat", "sitting"], '_'));
  }
}
