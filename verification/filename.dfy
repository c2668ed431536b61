/** How `rename_image` builds the new file name: the sanitized description, the
    date when dates are appended, and the random suffix, joined with `_`, followed
    by the original extension as `os.path.splitext` finds it. */
module Filename {
  import opened Text
  import opened Sanitizer
  import opened Caption

  predicate IsAsciiAlnum(c: char) {
    ('a' <= c <= 'z') || ('A' <= c <= 'Z') || ('0' <= c <= '9')
  }

  /** What `random_string()` returns: five characters drawn from the ASCII letters
      and digits. */
  predicate IsRandomSuffix(s: string) {
    |s| == 5 && forall c :: c in s ==> IsAsciiAlnum(c)
  }

  /** What `datetime.now().strftime("%Y-%m-%d")` returns: `YYYY-MM-DD`. */
  predicate IsDateString(s: string) {
    |s| == 10 && s[4] == '-' && s[7] == '-' &&
    forall i :: 0 <= i < 10 && i != 4 && i != 7 ==> '0' <= s[i] <= '9'
  }

  /** `s.rfind(c)`: the last position holding `c`, or -1 when there is none. */
  function LastIndexOf(s: string, c: char): (k: int)
    ensures -1 <= k < |s|
    ensures k >= 0 ==> s[k] == c
    ensures forall j :: k < j < |s| ==> s[j] != c
  {
    if s == [] then -1
    else if s[|s| - 1] == c then |s| - 1
    else LastIndexOf(s[..|s| - 1], c)
  }

  /** `os.path.basename(path)`, which is also the tail of `os.path.split(path)`:
      the part of the path after its last `/`. */
  function Basename(path: string): (name: string)
    ensures '/' !in name
    ensures EndsWith(path, name)
    ensures name == path || path[|path| - |name| - 1] == '/'
  {
    path[LastIndexOf(path, '/') + 1..]
  }

  predicate AllDots(s: string) {
    forall c :: c in s ==> c == '.'
  }

  /** `os.path.splitext(name)` for a name without `/`: the extension starts at the
      last dot, unless every character before that dot is a dot (a name such as
      `.jpg` has no extension). Root and extension make up the name again; a
      non-empty extension is one dot followed by no other dot, and the root before
      it holds some character that is not a dot. */
  function SplitExt(name: string): (parts: (string, string))
    ensures parts.0 + parts.1 == name
    ensures parts.1 == [] || (parts.1[0] == '.' && '.' !in parts.1[1..])
    ensures parts.1 != [] ==> !AllDots(parts.0)
  {
    var dot := LastIndexOf(name, '.');
    if dot >= 0 && !AllDots(name[..dot]) then (name[..dot], name[dot..]) else (name, [])
  }

  /** The decomposition `SplitExt` makes is the only one: any root and extension of
      that shape are found again. */
  lemma SplitExtRecoversParts(root: string, ext: string)
    requires ext == [] ==> '.' !in root
    requires ext != [] ==> ext[0] == '.' && '.' !in ext[1..] && !AllDots(root)
    ensures SplitExt(root + ext) == (root, ext)
  {
    var name := root + ext;
    var dot := LastIndexOf(name, '.');
    if ext == [] {
      assert name == root;
    } else {
      assert name[|root|] == '.';
      assert dot == |root|;
      assert name[..dot] == root && name[dot..] == ext;
    }
  }

  /** The date segment: today's date when dates are appended, empty otherwise. */
  function DateString(appendDate: bool, today: string): string {
    if appendDate then today else []
  }

  /** The parts joined by `_` in the new name: the sanitized description, the date
      when it is not empty, and the random suffix. */
  function NameParts(description: string, dateString: string, suffix: string): seq<string> {
    [SanitizeFilename(description)] + (if dateString != [] then [dateString] else []) + [suffix]
  }

  /** The new name without its extension: `"_".join(parts)`. */
  function NameStem(description: string, appendDate: bool, today: string, suffix: string): string {
    Join(NameParts(description, DateString(appendDate, today), suffix), '_')
  }

  /** The new file name `rename_image` builds from the processed description. */
  function NewFilename(description: string, appendDate: bool, today: string, suffix: string, originalFilename: string): string {
    NameStem(description, appendDate, today, suffix) + SplitExt(originalFilename).1
  }

  /** The stem spelled out: description, then `_` and the date when dates are
      appended, then `_` and the suffix. */
  lemma NameStemLayout(description: string, appendDate: bool, today: string, suffix: string)
    requires today != []
    ensures NameStem(description, appendDate, today, suffix) ==
      SanitizeFilename(description) + (if appendDate then "_" + today else []) + "_" + suffix
  {
    var s := SanitizeFilename(description);
    if appendDate {
      assert NameParts(description, DateString(appendDate, today), suffix) == [s, today, suffix];
      JoinThree(s, today, suffix, '_');
    } else {
      assert NameParts(description, DateString(appendDate, today), suffix) == [s, suffix];
      JoinTwo(s, suffix, '_');
    }
  }

  /** The new name keeps the original extension unchanged: it ends with it, and
      `splitext` on the new name finds exactly it again, provided the description
      has no dot (a processed caption never does). */
  lemma NewFilenameKeepsExtension(description: string, appendDate: bool, today: string, suffix: string, originalFilename: string)
    requires '.' !in description
    requires IsRandomSuffix(suffix) && IsDateString(today)
    ensures var name := NewFilename(description, appendDate, today, suffix, originalFilename);
      EndsWith(name, SplitExt(originalFilename).1) && SplitExt(name).1 == SplitExt(originalFilename).1
  {
    NameStemLayout(description, appendDate, today, suffix);
    var ext := SplitExt(originalFilename).1;
    var stem := NameStem(description, appendDate, today, suffix);
    assert '.' !in stem by {
      assert '.' !in SanitizeFilename(description);
      assert forall i :: 0 <= i < |today| ==> today[i] != '.';
    }
    assert !AllDots(stem) by {
      assert suffix[4] in suffix;
      assert stem[|stem| - 1] == suffix[4] && stem[|stem| - 1] in stem;
    }
    SplitExtRecoversParts(stem, ext);
  }

  /** A processed caption is already a valid file-name fragment: sanitizing it
      changes nothing, and it holds no dot. */
  lemma SanitizeKeepsNormalizedCaption(caption: string)
    ensures SanitizeFilename(NormalizeCaption(caption)) == NormalizeCaption(caption)
    ensures '.' !in NormalizeCaption(caption)
  {
    NormalizeCaptionCharacters(caption);
    SanitizeKeepsCleanName(NormalizeCaption(caption));
  }

  /** A file called just `.jpg` has no extension in the sense of `splitext`, so its
      new name carries none. */
  lemma DotFileHasNoExtension(name: string)
    requires name == ".jpg"
    ensures SplitExt(name) == (name, [])
  {
    assert name[0] == '.' && name[1..] == "jpg";
    assert LastIndexOf(name, '.') == 0;
  }
}
