/** `rename_image`: validate, caption, build the new name, rename, and report one
    `(action, original, detail, directory)` outcome. Image validation, the caption
    model, the random suffix, the clock and `os.rename` are inputs. */
module Outcomes {
  import opened Text
  import opened Sanitizer
  import opened Caption
  import opened Filename

  datatype Option<T> = None | Some(value: T)

  /** The action column of an outcome. */
  datatype Action = Renamed | Skipped | Error

  /** What `os.rename` did: succeeded, or raised an exception with this text. */
  datatype RenameResult = RenameOk | RenameFailed(message: string)

  /** What the outside world supplies for one file: whether it decodes as an image,
      the caption the model produced (None when it failed), the random suffix,
      today's date and the result of the rename. */
  datatype FileWorld = FileWorld(
    isValidImage: bool,
    caption: Option<string>,
    suffix: string,
    today: string,
    rename: RenameResult)

  predicate WellFormed(w: FileWorld) {
    IsRandomSuffix(w.suffix) && IsDateString(w.today)
  }

  datatype Outcome = Outcome(action: Action, original: string, detail: string, directory: string)

  const InvalidImageMessage := "Invalid image file"
  const NoCaptionMessage := "Failed to generate caption"

  /** The outcome `rename_image(imagePath, appendDate, directory)` returns. */
  function RenameOutcome(imagePath: string, appendDate: bool, directory: string, w: FileWorld): Outcome {
    if !w.isValidImage then
      Outcome(Skipped, Basename(imagePath), InvalidImageMessage, directory)
    else if w.caption.None? then
      Outcome(Error, Basename(imagePath), NoCaptionMessage, directory)
    else
      var newName := NewFilename(NormalizeCaption(w.caption.value), appendDate, w.today, w.suffix, Basename(imagePath));
      match w.rename
      case RenameOk => Outcome(Renamed, Basename(imagePath), newName, directory)
      case RenameFailed(message) => Outcome(Error, Basename(imagePath), message, directory)
  }

  /** `rename_image`: returns early when the file is not an image or has no
      caption, otherwise builds the name part by part and renames. */
  method RenameImage(imagePath: string, appendDate: bool, directory: string, w: FileWorld) returns (outcome: Outcome)
    requires WellFormed(w)
    ensures outcome == RenameOutcome(imagePath, appendDate, directory, w)
  {
    if !w.isValidImage {
      return Outcome(Skipped, Basename(imagePath), InvalidImageMessage, directory);
    }
    var originalFilename := Basename(imagePath);
    if w.caption.None? {
      return Outcome(Error, Basename(imagePath), NoCaptionMessage, directory);
    }
    var processedDescription := ProcessCaption(w.caption.value);
    var (baseName, ext) := SplitExt(originalFilename);
    var sanitizedDescription := SanitizeFilename(processedDescription);
    var dateString := if appendDate then w.today else "";
    var newFilenameParts := [sanitizedDescription];
    if dateString != "" {
      newFilenameParts := newFilenameParts + [dateString];
    }
    newFilenameParts := newFilenameParts + [w.suffix];
    assert dateString == DateString(appendDate, w.today);
    assert newFilenameParts == NameParts(processedDescription, dateString, w.suffix);
    var newFilename := Join(newFilenameParts, '_') + ext;
    assert newFilename == NewFilename(processedDescription, appendDate, w.today, w.suffix, originalFilename);
    match w.rename {
      case RenameOk =>
        outcome := Outcome(Renamed, originalFilename, newFilename, directory);
      case RenameFailed(message) =>
        outcome := Outcome(Error, Basename(imagePath), message, directory);
    }
  }

  /** The new name of a renamed file: the processed caption (already safe for a
      file name), `_` and the date when dates are appended, `_` and the suffix,
      then the original extension, which `splitext` finds again on the new name. */
  lemma RenamedName(caption: string, appendDate: bool, today: string, suffix: string, original: string)
    requires IsRandomSuffix(suffix) && IsDateString(today)
    ensures var name := NewFilename(NormalizeCaption(caption), appendDate, today, suffix, original);
      && name == NormalizeCaption(caption) + (if appendDate then "_" + today else []) + "_" + suffix + SplitExt(original).1
      && EndsWith(name, SplitExt(original).1)
      && SplitExt(name).1 == SplitExt(original).1
  {
    var description := NormalizeCaption(caption);
    SanitizeKeepsNormalizedCaption(caption);
    NameStemLayout(description, appendDate, today, suffix);
    NewFilenameKeepsExtension(description, appendDate, today, suffix, original);
  }

  /** The four outcomes. The original name is always the base name and the
      directory is passed through; the file is skipped exactly when it is not an
      image, with the fixed message; it is an error exactly when it is an image
      and either has no caption (fixed message) or the rename fails (the
      exception's message); otherwise it is renamed to the name `NewFilename`
      builds from the processed caption. */
  lemma RenameOutcomeCases(imagePath: string, appendDate: bool, directory: string, w: FileWorld)
    ensures var r := RenameOutcome(imagePath, appendDate, directory, w);
      && r.original == Basename(imagePath) && r.directory == directory
      && (r.action == Skipped <==> !w.isValidImage)
      && (r.action == Skipped ==> r.detail == InvalidImageMessage)
      && (r.action == Error <==> w.isValidImage && (w.caption.None? || w.rename.RenameFailed?))
      && (r.action == Error && w.caption.None? ==> r.detail == NoCaptionMessage)
      && (r.action == Error && w.caption.Some? ==> r.detail == w.rename.message)
      && (r.action == Renamed <==> w.isValidImage && w.caption.Some? && w.rename == RenameOk)
      && (r.action == Renamed ==>
            r.detail == NewFilename(NormalizeCaption(w.caption.value), appendDate, w.today, w.suffix, r.original))
  {
    var r := RenameOutcome(imagePath, appendDate, directory, w);
    if !w.isValidImage {
      assert r.action == Skipped;
    } else if w.caption.None? {
      assert r.action == Error;
    } else if w.rename == RenameOk {
      assert r.action == Renamed;
    } else {
      assert r.action == Error && r.detail == w.rename.message;
    }
  }

  /** A renamed file keeps its extension: `splitext` finds the same extension on
      the new name as on the original one. */
  lemma RenamedKeepsExtension(imagePath: string, appendDate: bool, directory: string, w: FileWorld)
    requires WellFormed(w)
    ensures var r := RenameOutcome(imagePath, appendDate, directory, w);
      r.action == Renamed ==>
        && r.detail == NormalizeCaption(w.caption.value) + (if appendDate then "_" + w.today else []) + "_" + w.suffix
                       + SplitExt(r.original).1
        && EndsWith(r.detail, SplitExt(r.original).1)
        && SplitExt(r.detail).1 == SplitExt(r.original).1
  {
    RenameOutcomeCases(imagePath, appendDate, directory, w);
    if w.isValidImage && w.caption.Some? {
      RenamedName(w.caption.value, appendDate, w.today, w.suffix, Basename(imagePath));
    }
  }
}
