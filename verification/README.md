# AINamify image renamer — a Dafny model

AINamify renames image files after what they show. For each image it does four things:

1. It asks a captioning model for a description.
2. It normalises the caption:
   - lower-cases it;
   - strips one lead-in phrase such as "a photo of ";
   - deletes punctuation;
   - drops repeated words;
   - joins the words with `_`.
3. It sanitizes the result for use as a file name.
4. It renames the file to `<caption>[_<date>]_<suffix><ext>`. The suffix is five random letters or digits, and the extension is the original one.

A batch run filters the selected paths down to image files. It then processes them in order, checks a stop flag before each image, and records one `(action, original, new name or message, directory, timestamp)` row per processed image in a log that can be saved as CSV.

This project models that core, all from `image_renamer.py`:

- **`Text`**: the Python string operations the core uses, restricted to ASCII. These are `str.lower`, deleting `string.punctuation`, `str.split()`, `"_".join` and `str.split(sep)`.
- **`Sanitizer`**: `sanitize_filename`.
- **`Caption`**: `process_caption`.
  - `NormalizeCaption` is its specification.
  - `ProcessCaption` is the imperative version: the phrase loop with its early exit, and the word loop with its `seen` set. It is proved equal to `NormalizeCaption`.
- **`CaptionExamples`**: concrete captions worked through.
- **`Filename`**: `os.path.basename`, `os.path.splitext` and how the new file name is put together.
- **`Outcomes`**: `rename_image`.
  - `RenameOutcome` is its specification, and the method `RenameImage` follows the code.
  - Image validation, the caption, the random suffix, the date and `os.rename` are inputs.
- **`Batch`**: the extension filter and the class `ImageRenamer`.
  - `ImageRenamer` holds the `stopRequested` flag and the `log`.
  - It has the methods `StopProcess` (`stop_process`), `ResetForm` (`reset_form`) and `RenameImages` (`rename_images`).
  - `LogTable` gives the table that `save_log` writes.
- **`Scenarios`**: a two-image run worked through end to end.

The stop button runs on another thread. The model represents it as the input `stopWrites`: `stopWrites[k]` says whether stop has been pressed by the time of the `k`-th check of the flag. Check `|images|` is the one after the loop.

The state of the "append date" checkbox is read again for every image (`image_renamer.py:230`). The model therefore takes it per image, as part of `FileEnv`.

## Where the intended design and the code differ

The model follows the code in each case below.

- **The article after a stripped phrase stays.** For the caption "A photo of a cat sitting" one might expect the article to go too, giving `cat_sitting_<suffix>.jpg`. The code strips only "a photo of ", which gives `a_cat_sitting_<suffix>.jpg`. See `CaptionExamples.ArticleAfterPhraseKept` and `Scenarios.CatAndBrokenImage`.
- **No Idle/Running job state.**
  - `start_renaming_thread` starts a new thread on every press.
  - The Reset button is disabled for the run (`image_renamer.py:185`), but `stop_process` enables it again (`image_renamer.py:339`) while the current image may still be in flight, so a reset can then run before the worker finishes.
  - The model has no state machine. `RenameImages` models one run.
- **The append-date option is not captured at the start.** It is re-read for every file.
- **A stop can be reported after all the work is done.** The flag is checked once more after the loop. A stop pressed after the last image was renamed ends the run "stopped" even though every image was processed. See `Batch.LateStopAfterLastImage`.
- **A failed model download leaves the flag raised.** It sets `stop_requested` after the log has already been cleared (`image_renamer.py:182-183, 300`).
- **A file that passes the filter can still lose its extension.** A file named just `.jpg` passes the extension filter, but `splitext` finds no extension in it, so its new name has none. See `Filename.DotFileHasNoExtension`.
- **More characters count as whitespace.** Besides space, `\t`, `\n`, `\r`, `\x0b` and `\x0c`, Python's `str.split()` also splits on `\x1c`–`\x1f`, and `Text.IsWhitespace` includes them.

## Model

| member | source | states |
|---|---|---|
| Text.Lower | image_renamer.py:37 | Lower-casing keeps the length and lower-cases each character in place. No upper-case letter is left. |
| Text.LowerKeepsLowerCase | image_renamer.py:37 | Text without capitals is unchanged by lower-casing. |
| Text.LowerConcat | image_renamer.py:37 | Lower-casing distributes over concatenation. |
| Text.RemovePunctuation | image_renamer.py:44 | Exactly the characters outside `string.punctuation` survive, and the result is never longer. Text without punctuation is unchanged. |
| Text.RemovePunctuationConcat | image_renamer.py:44 | Deleting punctuation from a concatenation gives the deletions of the two parts in order, so the surviving characters keep their order and number. |
| Text.RemovePunctuationSingle | image_renamer.py:44 | A punctuation character is deleted and any other character is kept. |
| Text.Words | image_renamer.py:46 | `split()` gives non-empty, whitespace-free words made of the text's characters. It gives no word exactly when the text is all whitespace. |
| Text.WordsOfSpaceJoin | image_renamer.py:46 | Splitting words that were joined by single spaces gives the same words back. |
| Text.Join | image_renamer.py:54 | The join contains only the separator and characters from the words. It is empty exactly when there is no word, or a single empty one. |
| Text.JoinAppend | image_renamer.py:54 | Joining two non-empty lists puts one separator between their joins. |
| Text.SplitJoin | image_renamer.py:54 | Splitting a join on its separator gives the words back, when no word contains the separator. |
| Sanitizer.RemoveForbidden | image_renamer.py:26 | Exactly the characters other than the nine forbidden ones (backslash, slash, star, question mark, colon, double quote, angle brackets, vertical bar) survive. A clean string is unchanged. |
| Sanitizer.SpacesToUnderscores | image_renamer.py:27 | Same length, no space left. Other characters stay, and spaces become `_`. |
| Sanitizer.SanitizeFilename | image_renamer.py:24-28 | No forbidden character and no space remain, the result is never longer, and every character comes from the input or is `_`. |
| Sanitizer.SanitizeIsCharacterwise | image_renamer.py:24-28 | Sanitizing goes character by character, in order. A forbidden character is dropped, a space becomes exactly one `_`, and any other character is kept. |
| Sanitizer.SanitizeIdempotent | image_renamer.py:24-28 | Sanitizing twice is the same as sanitizing once. |
| Sanitizer.SanitizeKeepsCleanName | image_renamer.py:24-28 | A name with no forbidden character and no space is its own sanitized form. |
| Caption.StripFirstPhrase | image_renamer.py:33-41 | The result is a suffix of the lower-cased caption: only a leading part is ever removed. |
| Caption.StripFirstPhraseRemovesFirstMatch | image_renamer.py:38-41 | When phrase `i` is the first in list order that the text starts with, exactly that phrase is removed. |
| Caption.StripFirstPhraseWithoutMatch | image_renamer.py:38-41 | When no phrase starts the text, nothing is removed. |
| Caption.Dedup | image_renamer.py:46-52 | The kept words are exactly the caption's words, and no word appears twice. |
| Caption.DedupKeepsFirstOccurrenceOrder | image_renamer.py:46-52 | Kept words appear in the order of their first occurrence. |
| Caption.CaptionWordsAreClean | image_renamer.py:37-46 | Every word is non-empty and free of capitals, whitespace and punctuation. |
| Caption.NormalizeCaptionCharacters | image_renamer.py:37-54 | The processed caption has no capital and no whitespace. Its only punctuation is `_`. |
| Caption.NormalizeCaptionSplitsIntoWords | image_renamer.py:44-54 | Splitting the processed caption on `_` gives exactly the de-duplicated words, with no empty field. |
| Caption.NormalizeCaptionEmpty | image_renamer.py:44-55 | The processed caption is `""` exactly when no word survives. |
| Caption.StripLeadingPhrase | image_renamer.py:38-41 | The phrase loop with its `break` removes the first matching phrase in list order. |
| Caption.DropRepeatedWords | image_renamer.py:46-52 | The `seen`-set loop computes the de-duplicated word list. |
| Caption.ProcessCaption | image_renamer.py:31-55 | The imperative `process_caption` equals `NormalizeCaption`. |
| CaptionExamples.OnlyOnePhraseStripped | image_renamer.py:38-41 | "a picture of a picture of a cat" loses only the first "a picture of ". |
| CaptionExamples.RepeatedWordsDropped | image_renamer.py:46-54 | "the cat the dog the cat" becomes "the_cat_dog". |
| CaptionExamples.ArticleAfterPhraseKept | image_renamer.py:33-54 | "A photo of a cat sitting" becomes "a_cat_sitting". |
| Filename.Basename | image_renamer.py:305-308 | The base name has no `/`, ends the path, and is either the whole path or preceded by a `/`: it is everything after the last `/`. |
| Filename.SplitExt | image_renamer.py:318 | Root plus extension rebuilds the name. The extension is empty or is one dot followed by no other dot, and a non-empty extension follows a root that is not all dots. |
| Filename.SplitExtRecoversParts | image_renamer.py:318 | Any root and extension of that shape are found again: the split is unique. |
| Filename.NameStemLayout | image_renamer.py:323-329 | The stem is the sanitized description, then `_` and the date when dates are appended, then `_` and the suffix. |
| Filename.NewFilenameKeepsExtension | image_renamer.py:318-329 | For a description without a dot, the new name ends with the original extension, and `splitext` finds exactly that extension on it. |
| Filename.SanitizeKeepsNormalizedCaption | image_renamer.py:314-321 | Sanitizing a processed caption changes nothing, and a processed caption has no dot. |
| Filename.DotFileHasNoExtension | image_renamer.py:318 | `splitext(".jpg")` has an empty extension. |
| Outcomes.RenameImage | image_renamer.py:303-335 | The step-by-step `rename_image` returns exactly `RenameOutcome`. |
| Outcomes.RenamedName | image_renamer.py:314-329 | A renamed file's name is the processed caption, the date when appended, the suffix and the original extension, and `splitext` finds that extension again. |
| Outcomes.RenameOutcomeCases | image_renamer.py:303-335 | The four outcomes, each as an if-and-only-if on the inputs: skipped with the fixed message, error without a caption, error with the rename's message, or renamed to `NewFilename`. The original is always the base name and the directory is passed through. |
| Outcomes.RenamedKeepsExtension | image_renamer.py:317-333 | A renamed file's new name keeps the original extension unchanged. |
| Batch.FilterImages | image_renamer.py:209 | The result is exactly the paths whose lower-cased form ends in an image extension, and it is never longer than the input. |
| Batch.FilterImagesConcat | image_renamer.py:209 | The filter distributes over concatenation, so it keeps the original order. |
| Batch.FilterImagesSingle | image_renamer.py:209 | A single path is kept exactly when it has an image extension. |
| Batch.ImagePathIgnoresCase | image_renamer.py:209 | The filter ignores the case of letters. |
| Batch.UpperCaseExtensionAccepted | image_renamer.py:209 | `photo.JPG` is kept and `notes.txt` is dropped. |
| Batch.ExpectedLog | image_renamer.py:222-232 | The log after `n` images has `n` rows. |
| Batch.ExpectedLogStep | image_renamer.py:229-232 | Processing one more image appends its row. |
| Batch.ExpectedLogPrefix | image_renamer.py:222-232 | Processing more images only appends rows. |
| Batch.RowForFacts | image_renamer.py:229-232 | A row holds the image's base name, the directory, its timestamp and its outcome, and a renamed image keeps its extension. |
| Batch.ExpectedLogRows | image_renamer.py:222-232 | Row `i` describes image `i`, in image order. |
| Batch.FirstStop | image_renamer.py:222-225 | The first check that sees the stop. No earlier check sees it. |
| Batch.FirstStopAt | image_renamer.py:222-225 | A stop first seen before image `k` leaves exactly `k` images processed. |
| Batch.FirstStopFrom | image_renamer.py:222-225 | Looking at more checks does not move the first stop. |
| Batch.NoStopProcessesAll | image_renamer.py:222-226 | Without a stop, every image is processed. |
| Batch.StopDuringThirdImage | image_renamer.py:222-225 | With five images and stop pressed during the third, three are processed and the run ends stopped. |
| Batch.LateStopAfterLastImage | image_renamer.py:222-240 | A stop pressed after the last image has been renamed still ends the run "stopped", with every image processed. |
| Batch.LogTable | image_renamer.py:363-375 | Nothing is saved for an empty log. Otherwise the table is the five-column header followed by one five-field row per log row, in order. |
| Batch.ImageRenamer.constructor | image_renamer.py:93-94 | Starts with the flag down and an empty log. |
| Batch.ImageRenamer.StopProcess | image_renamer.py:337-338 | Raises the flag and leaves the log alone. |
| Batch.ImageRenamer.ResetForm | image_renamer.py:344-361 | After a confirmed reset the run is stopped and the log is empty. Otherwise nothing changes. |
| Batch.ImageRenamer.ProcessImage | image_renamer.py:226-232 | Appends exactly the image's row to the log. The flag is unchanged. |
| Batch.ImageRenamer.ProcessImages | image_renamer.py:222-240 | Processes images until the first check that sees the stop. The log is then exactly the rows of the processed images, and the final flag says whether any check, including the last one, saw the stop. |
| Batch.ImageRenamer.RenameImages | image_renamer.py:177-243 | The four ways a run ends, and the resulting counter, flag and log in each. With nothing selected, nothing changes. If the model is unavailable, the log is cleared and the flag is raised exactly when the download failed. With no images, the log is empty. Otherwise `processed_images` equals the first stop, the log holds exactly that many rows in image order, and the status is "stopped" exactly when some check saw the stop. |
| Scenarios.CatAndBrokenImage | image_renamer.py:209-232 | For `cat1.jpg` (captioned "A photo of a cat sitting") followed by `broken.jpg` (invalid), the log is one renamed row, `a_cat_sitting_<suffix>.jpg`, and one skipped row. |

## Left out

- **User interface.** The Tkinter window, the text-box progress messages, button states, message boxes and file dialogs are presentation only.
- **Captioning model.** BLIP captioning (`generate_caption`) is a foreign neural network. Its result is an optional caption input.
- **Model loading.** `check_and_download_model` loads or downloads the model. Its result is the `ModelStatus` input: ready, download declined, or download failed.
- **Image validation.** PIL decoding in `is_valid_image` is replaced by a boolean input.
- **Filesystem.**
  - The listing of a directory (`os.listdir`, `os.path.isfile`) is left out; the list of files is the `allFiles` input.
  - `os.rename` is an ok-or-message input.
- **Randomness and clock.** `random_string` and `datetime.now()` are inputs. Their shapes are stated by `IsRandomSuffix` and `IsDateString`, and the log timestamp is a free string.
- **Threading.** `start_renaming_thread` starts a thread, and `stop_process` writes the flag from another thread. Neither is modelled. The stop flag is the `stopWrites` input. A `reset_form` racing with a run in progress is not modelled either.
- **CSV export.** The quoting and file writing by Python's `csv` module are not modelled. `LogTable` gives the rows that are handed to the writer.
- **Unicode.** Lower-casing, punctuation and whitespace are ASCII only. Python's full-Unicode `lower()` and `split()` are not modelled.
- **Other exceptions.**
  - Inside the `try` of `rename_image` (`image_renamer.py:307-335`), exceptions other than the rename failing become an "Error" outcome in the code. The model only lets the rename fail.
  - `is_valid_image` runs before that `try` (`image_renamer.py:304`) and catches only `UnidentifiedImageError` and `IOError` (`image_renamer.py:80`). Any other exception it raises escapes `rename_image` and `rename_images` and ends the worker thread in the middle of the batch. The final status message and the re-enabling of the Save and Reset buttons (`image_renamer.py:237-243`) then never happen. This abort is not modelled: validation is a boolean input.
  - `Basename` treats `/` as the only path separator (POSIX).
- **Job state.** The GUI fields that `reset_form` also clears (selected path, directory, mode) are not modelled.
