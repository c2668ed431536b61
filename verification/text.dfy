/** ASCII character classes and the Python string operations the renamer relies on:
    `str.lower`, `str.translate` deleting `string.punctuation`, `str.split()`,
    `sep.join(words)` and `str.split(sep)`, all restricted to ASCII. */
module Text {

  /** An ASCII upper-case letter. */
  predicate IsUpper(c: char) {
    'A' <= c <= 'Z'
  }

  /** Python's whitespace on ASCII: `\t \n \x0b \x0c \r`, `\x1c` to `\x1f` and the space. */
  predicate IsWhitespace(c: char) {
    9 <= c as int <= 13 || 28 <= c as int <= 32
  }

  /** A character of `string.punctuation`: the 32 printable ASCII characters that are
      neither letters, digits nor the space (`_` and `.` among them). */
  predicate IsPunctuation(c: char) {
    ('!' <= c <= '/') || (':' <= c <= '@') || ('[' <= c <= '`') || ('{' <= c <= '~')
  }

  function LowerChar(c: char): (d: char)
    ensures !IsUpper(d)
    ensures IsUpper(c) ==> 'a' <= d <= 'z'
    ensures !IsUpper(c) ==> d == c
  {
    if IsUpper(c) then (c as int + 32) as char else c
  }

  /** `s.lower()` on ASCII: each character lower-cased in place, so no upper-case
      letter is left. */
  function Lower(s: string): (r: string)
    ensures |r| == |s|
    ensures forall i :: 0 <= i < |s| ==> r[i] == LowerChar(s[i])
    ensures forall c :: c in r ==> !IsUpper(c)
  {
    if s == [] then [] else [LowerChar(s[0])] + Lower(s[1..])
  }

  lemma {:induction false} LowerKeepsLowerCase(s: string)
    requires forall c :: c in s ==> !IsUpper(c)
    ensures Lower(s) == s
  {
    if s != [] {
      LowerKeepsLowerCase(s[1..]);
      assert [s[0]] + s[1..] == s;
    }
  }

  /** A string whose only capital, if any, is its first character loses just that
      capital. */
  lemma LowerHeadOnly(s: string)
    requires s != [] && forall c :: c in s[1..] ==> !IsUpper(c)
    ensures Lower(s) == [LowerChar(s[0])] + s[1..]
  {
    LowerKeepsLowerCase(s[1..]);
  }

  /** Lower-casing works character by character. */
  lemma {:induction false} LowerConcat(a: string, b: string)
    ensures Lower(a + b) == Lower(a) + Lower(b)
  {
    if a == [] {
      assert a + b == b;
    } else {
      assert (a + b)[0] == a[0] && (a + b)[1..] == a[1..] + b;
      LowerConcat(a[1..], b);
    }
  }

  /** `s.translate(str.maketrans('', '', string.punctuation))`: exactly the
      non-punctuation characters of `s` survive. */
  function RemovePunctuation(s: string): (r: string)
    ensures |r| <= |s|
    ensures forall c :: c in r <==> c in s && !IsPunctuation(c)
    ensures (forall c :: c in s ==> !IsPunctuation(c)) ==> r == s
  {
    if s == [] then []
    else (if IsPunctuation(s[0]) then [] else [s[0]]) + RemovePunctuation(s[1..])
  }

  /** Deleting punctuation from a concatenation deletes it from each part and
      keeps the parts in order; with `RemovePunctuationSingle` this says the
      surviving characters keep their order and their number. */
  lemma {:induction false} RemovePunctuationConcat(a: string, b: string)
    ensures RemovePunctuation(a + b) == RemovePunctuation(a) + RemovePunctuation(b)
  {
    if a != [] {
      assert (a + b)[0] == a[0] && (a + b)[1..] == a[1..] + b;
      RemovePunctuationConcat(a[1..], b);
    } else {
      assert a + b == b;
    }
  }

  /** A punctuation character is deleted and any other character is kept. */
  lemma RemovePunctuationSingle(c: char)
    ensures RemovePunctuation([c]) == if IsPunctuation(c) then [] else [c]
  {
    assert [c][1..] == [];
  }

  /** `s.endswith(suffix)`. */
  predicate EndsWith(s: string, suffix: string) {
    |suffix| <= |s| && s[|s| - |suffix|..] == suffix
  }

  /** The longest prefix of `s` without whitespace. */
  function LeadingWord(s: string): (w: string)
    ensures |w| <= |s| && w == s[..|w|]
    ensures forall c :: c in w ==> !IsWhitespace(c)
    ensures s != [] && !IsWhitespace(s[0]) ==> w != []
  {
    if s == [] || IsWhitespace(s[0]) then [] else [s[0]] + LeadingWord(s[1..])
  }

  /** `s.split()`: the maximal runs of non-whitespace characters, in order.
      Every word is non-empty and free of whitespace, every character of a word
      comes from `s`, and there is no word exactly when `s` is all whitespace. */
  function Words(s: string): (ws: seq<string>)
    ensures forall w :: w in ws ==> w != [] && forall c :: c in w ==> c in s && !IsWhitespace(c)
    ensures ws == [] <==> forall c :: c in s ==> IsWhitespace(c)
    decreases |s|
  {
    if s == [] then []
    else if IsWhitespace(s[0]) then Words(s[1..])
    else
      var w := LeadingWord(s);
      [w] + Words(s[|w|..])
  }

  lemma {:induction false} LeadingWordOf(w: string, rest: string)
    requires forall c :: c in w ==> !IsWhitespace(c)
    requires rest == [] || IsWhitespace(rest[0])
    ensures LeadingWord(w + rest) == w
  {
    if w == [] {
      assert w + rest == rest;
    } else {
      assert (w + rest)[0] == w[0] && (w + rest)[1..] == w[1..] + rest;
      LeadingWordOf(w[1..], rest);
      assert [w[0]] + w[1..] == w;
    }
  }

  /** A word followed by whitespace (or by nothing) is the first word of the split. */
  lemma WordsStartWith(w: string, rest: string)
    requires w != [] && forall c :: c in w ==> !IsWhitespace(c)
    requires rest == [] || IsWhitespace(rest[0])
    ensures Words(w + rest) == [w] + Words(rest)
  {
    LeadingWordOf(w, rest);
    assert (w + rest)[|w|..] == rest;
  }

  lemma WordsSkipWhitespace(c: char, rest: string)
    requires IsWhitespace(c)
    ensures Words([c] + rest) == Words(rest)
  {
    assert ([c] + rest)[1..] == rest;
  }

  /** A word followed by a space and more text is the first word of the split. */
  lemma WordsCons(w: string, rest: string)
    requires w != [] && forall c :: c in w ==> !IsWhitespace(c)
    ensures Words(w + " " + rest) == [w] + Words(rest)
  {
    WordsSkipWhitespace(' ', rest);
    WordsStartWith(w, " " + rest);
    assert w + " " + rest == w + (" " + rest);
  }

  /** `sep.join(ws)` for a one-character separator. */
  function Join(ws: seq<string>, sep: char): (r: string)
    ensures forall c :: c in r ==> c == sep || exists w :: w in ws && c in w
    ensures r == [] <==> ws == [] || (|ws| == 1 && ws[0] == [])
  {
    if ws == [] then []
    else if |ws| == 1 then ws[0]
    else ws[0] + [sep] + Join(ws[1..], sep)
  }

  /** Splitting words joined by single spaces gives the words back. */
  lemma {:induction false} WordsOfSpaceJoin(ws: seq<string>)
    requires forall w :: w in ws ==> w != [] && forall c :: c in w ==> !IsWhitespace(c)
    ensures Words(Join(ws, ' ')) == ws
  {
    if ws != [] {
      assert ws[0] in ws;
    }
    if |ws| == 1 {
      WordsStartWith(ws[0], "");
      assert ws[0] + "" == ws[0];
    } else if |ws| > 1 {
      assert forall w :: w in ws[1..] ==> w in ws;
      WordsOfSpaceJoin(ws[1..]);
      WordsCons(ws[0], Join(ws[1..], ' '));
      assert [ws[0]] + ws[1..] == ws;
    }
  }

  /** Joining two non-empty lists puts one separator between their joins. */
  lemma {:induction false} JoinAppend(xs: seq<string>, ys: seq<string>, sep: char)
    requires xs != [] && ys != []
    ensures Join(xs + ys, sep) == Join(xs, sep) + [sep] + Join(ys, sep)
  {
    if |xs| > 1 {
      assert (xs + ys)[1..] == xs[1..] + ys;
      JoinAppend(xs[1..], ys, sep);
    } else {
      assert (xs + ys)[1..] == ys;
    }
  }

  lemma JoinTwo(a: string, b: string, sep: char)
    ensures Join([a, b], sep) == a + [sep] + b
  {
    assert [a, b][1..] == [b];
  }

  lemma JoinThree(a: string, b: string, c: string, sep: char)
    ensures Join([a, b, c], sep) == a + [sep] + b + [sep] + c
  {
    JoinTwo(b, c, sep);
    assert [a, b, c][1..] == [b, c];
  }

  /** `s.split(sep)` for a one-character separator: never an empty list, and an
      empty field wherever two separators meet or one stands at an end. */
  function SplitOn(s: string, sep: char): (fields: seq<string>)
    ensures |fields| >= 1
  {
    if s == [] then [[]]
    else
      var rest := SplitOn(s[1..], sep);
      if s[0] == sep then [[]] + rest else [[s[0]] + rest[0]] + rest[1..]
  }

  lemma {:induction false} SplitOnFieldWithoutSeparator(w: string, sep: char)
    requires sep !in w
    ensures SplitOn(w, sep) == [w]
  {
    if w != [] {
      SplitOnFieldWithoutSeparator(w[1..], sep);
      assert w[0] != sep && [w[0]] + w[1..] == w;
    }
  }

  lemma {:induction false} SplitOnLeadingField(w: string, t: string, sep: char)
    requires sep !in w
    ensures SplitOn(w + [sep] + t, sep) == [w] + SplitOn(t, sep)
  {
    var s := w + [sep] + t;
    if w == [] {
      assert s[1..] == t;
    } else {
      assert s[1..] == w[1..] + [sep] + t;
      SplitOnLeadingField(w[1..], t, sep);
      assert [s[0]] + w[1..] == w;
    }
  }

  /** Splitting a join on its separator gives the words back, provided there is at
      least one word and no word contains the separator. */
  lemma {:induction false} SplitJoin(ws: seq<string>, sep: char)
    requires ws != []
    requires forall w :: w in ws ==> sep !in w
    ensures SplitOn(Join(ws, sep), sep) == ws
  {
    if |ws| == 1 {
      SplitOnFieldWithoutSeparator(ws[0], sep);
    } else {
      SplitJoin(ws[1..], sep);
      SplitOnLeadingField(ws[0], Join(ws[1..], sep), sep);
      assert [ws[0]] + ws[1..] == ws;
    }
  }
}
