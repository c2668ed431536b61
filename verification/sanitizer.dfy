/** `sanitize_filename`: delete the nine characters that are illegal in file names on
    common file systems, then turn every space into an underscore. */
module Sanitizer {

  /** One of the nine characters of the regular expression's character class:
      backslash, slash, star, question mark, colon, double quote, less-than,
      greater-than and the vertical bar. */
  predicate IsForbidden(c: char) {
    c == '\\' || c == '/' || c == '*' || c == '?' || c == ':' || c == '"' || c == '<' || c == '>' || c == '|'
  }

  /** The `re.sub` step, deleting every forbidden character: exactly the allowed characters survive;
      a string that has no forbidden character is left as it is. */
  function RemoveForbidden(s: string): (r: string)
    ensures |r| <= |s|
    ensures forall c :: c in r <==> c in s && !IsForbidden(c)
    ensures (forall c :: c in s ==> !IsForbidden(c)) ==> r == s
  {
    if s == [] then []
    else (if IsForbidden(s[0]) then [] else [s[0]]) + RemoveForbidden(s[1..])
  }

  /** `s.replace(' ', '_')`: same length, no space left, and a string without
      spaces is left as it is. */
  function SpacesToUnderscores(s: string): (r: string)
    ensures |r| == |s|
    ensures forall c :: c in r ==> c != ' ' && (c in s || c == '_')
    ensures ' ' !in s ==> r == s
  {
    if s == [] then []
    else [if s[0] == ' ' then '_' else s[0]] + SpacesToUnderscores(s[1..])
  }

  /** `sanitize_filename(s)`: the result holds no forbidden character and no space,
      and is never longer than `s`. */
  function SanitizeFilename(s: string): (r: string)
    ensures |r| <= |s|
    ensures forall c :: c in r ==> !IsForbidden(c) && c != ' '
    ensures forall c :: c in r ==> c in s || c == '_'
  {
    SpacesToUnderscores(RemoveForbidden(s))
  }

  lemma {:induction false} RemoveForbiddenConcat(a: string, b: string)
    ensures RemoveForbidden(a + b) == RemoveForbidden(a) + RemoveForbidden(b)
  {
    if a != [] {
      assert (a + b)[0] == a[0] && (a + b)[1..] == a[1..] + b;
      RemoveForbiddenConcat(a[1..], b);
    } else {
      assert a + b == b;
    }
  }

  lemma {:induction false} SpacesToUnderscoresConcat(a: string, b: string)
    ensures SpacesToUnderscores(a + b) == SpacesToUnderscores(a) + SpacesToUnderscores(b)
  {
    if a != [] {
      assert (a + b)[0] == a[0] && (a + b)[1..] == a[1..] + b;
      SpacesToUnderscoresConcat(a[1..], b);
    } else {
      assert a + b == b;
    }
  }

  /** Sanitizing works character by character, in order: it distributes over
      concatenation, and a single character is dropped when forbidden, becomes
      exactly one `_` when it is a space, and is kept otherwise. */
  lemma SanitizeIsCharacterwise(a: string, b: string, c: char)
    ensures SanitizeFilename(a + b) == SanitizeFilename(a) + SanitizeFilename(b)
    ensures SanitizeFilename([c]) == if IsForbidden(c) then [] else if c == ' ' then ['_'] else [c]
  {
    RemoveForbiddenConcat(a, b);
    SpacesToUnderscoresConcat(RemoveForbidden(a), RemoveForbidden(b));
    assert [c][1..] == [];
  }

  /** Sanitizing a sanitized name changes nothing. */
  lemma SanitizeIdempotent(s: string)
    ensures SanitizeFilename(SanitizeFilename(s)) == SanitizeFilename(s)
  {
  }

  /** A string with no forbidden character and no space is its own sanitized form. */
  lemma SanitizeKeepsCleanName(s: string)
    requires forall c :: c in s ==> !IsForbidden(c) && c != ' '
    ensures SanitizeFilename(s) == s
  {
  }
}
