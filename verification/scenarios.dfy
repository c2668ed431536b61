/** A whole batch worked through: `cat1.jpg`, a valid image captioned "A photo of
    a cat sitting", followed by `broken.jpg`, which fails validation, with dates
    not appended. Each step is a small lemma over variables, so that the concrete
    names only ever meet the definitions they need. */
module Scenarios {
  import opened Text
  import opened Caption
  import opened CaptionExamples
  import opened Filename
  import opened Outcomes
  import opened Batch

  /** A path without `/` is its own base name. */
  lemma BasenameOfPlainName(p: string)
    requires '/' !in p
    ensures Basename(p) == p
  {
    assert LastIndexOf(p, '/') == -1;
  }

  lemma CatRootNotDots(root: string)
    requires root == "cat1"
    ensures !AllDots(root)
  {
    assert root[0] in root;
  }

  lemma CatFileParts(name: string)
    requires name == "cat1.jpg"
    ensures Basename(name) == name
    ensures SplitExt(name).1 == ".jpg"
  {
    BasenameOfPlainName(name);
    CatRootNotDots("cat1");
    SplitExtRecoversParts("cat1", ".jpg");
    assert "cat1" + ".jpg" == name;
  }

  lemma BrokenFileName(name: string)
    requires name == "broken.jpg"
    ensures Basename(name) == name
  {
    BasenameOfPlainName(name);
  }

  /** Without dates the new name is the processed caption, `_`, the suffix and the
      extension. */
  lemma NewNameWithoutDate(caption: string, today: string, suffix: string, original: string, processed: string, ext: string)
    requires IsRandomSuffix(suffix) && IsDateString(today)
    requires NormalizeCaption(caption) == processed && SplitExt(original).1 == ext
    ensures NewFilename(NormalizeCaption(caption), false, today, suffix, original) == processed + "_" + suffix + ext
  {
    RenamedName(caption, false, today, suffix, original);
    var name := NewFilename(NormalizeCaption(caption), false, today, suffix, original);
    assert name == NormalizeCaption(caption) + [] + "_" + suffix + SplitExt(original).1;
    assert NormalizeCaption(caption) + [] == processed;
  }

  lemma CatNameAssembled(processed: string, suffix: string, ext: string)
    requires processed == "a_cat_sitting" && ext == ".jpg"
    ensures processed + "_" + suffix + ext == "a_cat_sitting_" + suffix + ".jpg"
  {
  }

  lemma CatNewName(caption: string, today: string, suffix: string, name: string)
    requires caption == "A photo of a cat sitting" && name == "cat1.jpg"
    requires IsRandomSuffix(suffix) && IsDateString(today)
    ensures NewFilename(NormalizeCaption(caption), false, today, suffix, name) == "a_cat_sitting_" + suffix + ".jpg"
  {
    ArticleAfterPhraseKept(caption);
    CatFileParts(name);
    NewNameWithoutDate(caption, today, suffix, name, "a_cat_sitting", ".jpg");
    CatNameAssembled("a_cat_sitting", suffix, ".jpg");
  }

  lemma JpgIsImage(p: string)
    requires forall c :: c in p ==> !IsUpper(c)
    requires EndsWith(p, ".jpg")
    ensures IsImagePath(p)
  {
    LowerKeepsLowerCase(p);
    assert ImageExtensions[1] == ".jpg";
  }

  lemma BothImages(a: string, b: string)
    requires IsImagePath(a) && IsImagePath(b)
    ensures FilterImages([a, b]) == [a, b]
  {
    assert [a, b] == [a] + [b];
    FilterImagesConcat([a], [b]);
    FilterImagesSingle(a);
    FilterImagesSingle(b);
  }

  lemma CatPathShape(p: string)
    requires p == "cat1.jpg"
    ensures (forall c :: c in p ==> !IsUpper(c)) && EndsWith(p, ".jpg")
  {
  }

  lemma BrokenPathShape(p: string)
    requires p == "broken.jpg"
    ensures (forall c :: c in p ==> !IsUpper(c)) && EndsWith(p, ".jpg")
  {
  }

  lemma ScenarioPaths(images: seq<string>)
    requires images == ["cat1.jpg", "broken.jpg"]
    ensures FilterImages(images) == images
  {
    CatPathShape(images[0]);
    BrokenPathShape(images[1]);
    JpgIsImage(images[0]);
    JpgIsImage(images[1]);
    BothImages(images[0], images[1]);
  }

  /** The log of a two-image run is the two rows, in order. */
  lemma ExpectedLogOfTwo(images: seq<string>, envs: seq<FileEnv>, directory: string, first: LogRow, second: LogRow)
    requires |images| == 2 && |envs| == 2
    requires RowFor(images[0], envs[0], directory) == first && RowFor(images[1], envs[1], directory) == second
    ensures ExpectedLog(images, envs, directory, 2) == [first, second]
  {
  }

  lemma RenamedRow(imagePath: string, env: FileEnv, directory: string, original: string, newName: string)
    requires env.world.isValidImage && env.world.caption.Some? && env.world.rename == RenameOk
    requires Basename(imagePath) == original
    requires NewFilename(NormalizeCaption(env.world.caption.value), env.appendDate, env.world.today, env.world.suffix, original) == newName
    ensures RowFor(imagePath, env, directory) == LogRow(Renamed, original, newName, directory, env.timestamp)
  {
  }

  lemma SkippedRow(imagePath: string, env: FileEnv, directory: string, original: string)
    requires !env.world.isValidImage
    requires Basename(imagePath) == original
    ensures RowFor(imagePath, env, directory) == LogRow(Skipped, original, InvalidImageMessage, directory, env.timestamp)
  {
  }

  lemma CatRow(imagePath: string, env: FileEnv, directory: string, caption: string)
    requires imagePath == "cat1.jpg" && caption == "A photo of a cat sitting"
    requires WellFormed(env.world) && !env.appendDate
    requires env.world.isValidImage && env.world.caption == Some(caption) && env.world.rename == RenameOk
    ensures RowFor(imagePath, env, directory)
      == LogRow(Renamed, "cat1.jpg", "a_cat_sitting_" + env.world.suffix + ".jpg", directory, env.timestamp)
  {
    CatFileParts(imagePath);
    CatNewName(caption, env.world.today, env.world.suffix, imagePath);
    RenamedRow(imagePath, env, directory, "cat1.jpg", "a_cat_sitting_" + env.world.suffix + ".jpg");
  }

  lemma BrokenRow(imagePath: string, env: FileEnv, directory: string)
    requires imagePath == "broken.jpg" && !env.world.isValidImage
    ensures RowFor(imagePath, env, directory) == LogRow(Skipped, "broken.jpg", "Invalid image file", directory, env.timestamp)
  {
    BrokenFileName(imagePath);
    SkippedRow(imagePath, env, directory, "broken.jpg");
  }

  /** Both paths pass the extension filter; the log then holds one renamed row
      for `cat1.jpg`, whose new name keeps the article "a" that follows the
      stripped phrase, and one skipped row for `broken.jpg`. */
  lemma CatAndBrokenImage(images: seq<string>, envs: seq<FileEnv>, directory: string, caption: string)
    requires images == ["cat1.jpg", "broken.jpg"]
    requires caption == "A photo of a cat sitting"
    requires |envs| == 2 && WellFormed(envs[0].world) && WellFormed(envs[1].world)
    requires !envs[0].appendDate
    requires envs[0].world.isValidImage && envs[0].world.caption == Some(caption) && envs[0].world.rename == RenameOk
    requires !envs[1].world.isValidImage
    ensures FilterImages(images) == images
    ensures ExpectedLog(images, envs, directory, 2) == [
      LogRow(Renamed, "cat1.jpg", "a_cat_sitting_" + envs[0].world.suffix + ".jpg", directory, envs[0].timestamp),
      LogRow(Skipped, "broken.jpg", "Invalid image file", directory, envs[1].timestamp)]
  {
    ScenarioPaths(images);
    CatRow(images[0], envs[0], directory, caption);
    BrokenRow(images[1], envs[1], directory);
    ExpectedLogOfTwo(images, envs, directory,
      LogRow(Renamed, "cat1.jpg", "a_cat_sitting_" + envs[0].world.suffix + ".jpg", directory, envs[0].timestamp),
      LogRow(Skipped, "broken.jpg", "Invalid image file", directory, envs[1].timestamp));
  }
}
