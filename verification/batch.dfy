/** The batch part of the application: `rename_images` filters the selected paths
    down to images, renames them one at a time while watching the stop flag, and
    appends one five-field row per processed image to the log; `stop_process` sets
    the stop flag, `reset_form` clears the log, and `save_log` turns the log into
    the rows of a CSV table. */
module Batch {
  import opened Text
  import opened Filename
  import opened Outcomes

  /** The extensions `rename_images` accepts, compared case-insensitively. */
  const ImageExtensions: seq<string> := [".png", ".jpg", ".jpeg", ".gif", ".bmp", ".tiff"]

  /** `p.lower().endswith(('.png', '.jpg', '.jpeg', '.gif', '.bmp', '.tiff'))`. */
  predicate IsImagePath(p: string) {
    exists e :: e in ImageExtensions && EndsWith(Lower(p), e)
  }

  /** The image paths among `files`, in their original order. */
  function FilterImages(files: seq<string>): (images: seq<string>)
    ensures |images| <= |files|
    ensures forall p :: p in images <==> p in files && IsImagePath(p)
  {
    if files == [] then []
    else (if IsImagePath(files[0]) then [files[0]] else []) + FilterImages(files[1..])
  }

  /** Filtering a concatenation filters each part and keeps them in order; with
      `FilterImagesSingle` this says the filter keeps exactly the image paths and
      never reorders them. */
  lemma {:induction false} FilterImagesConcat(a: seq<string>, b: seq<string>)
    ensures FilterImages(a + b) == FilterImages(a) + FilterImages(b)
  {
    if a == [] {
      assert a + b == b;
    } else {
      assert (a + b)[0] == a[0] && (a + b)[1..] == a[1..] + b;
      FilterImagesConcat(a[1..], b);
    }
  }

  lemma FilterImagesSingle(p: string)
    ensures FilterImages([p]) == if IsImagePath(p) then [p] else []
  {
    assert [p][1..] == [];
  }

  /** A path keeps its image status whatever the case of its letters. */
  lemma ImagePathIgnoresCase(p: string)
    ensures IsImagePath(Lower(p)) <==> IsImagePath(p)
  {
    LowerKeepsLowerCase(Lower(p));
  }

  lemma LowerPhotoJpg(p: string)
    requires p == "photo.JPG"
    ensures Lower(p) == "photo.jpg"
  {
    var lowered := "photo.jpg";
    assert p[..6] == lowered[..6];
    LowerKeepsLowerCase(p[..6]);
    assert p == p[..6] + "JPG";
    assert Lower("JPG") == "jpg";
    assert Lower(p[..6] + "JPG") == Lower(p[..6]) + Lower("JPG") by {
      LowerConcat(p[..6], "JPG");
    }
  }

  /** An upper-case extension is accepted; a text file is not. */
  lemma UpperCaseExtensionAccepted(p: string, q: string)
    requires p == "photo.JPG" && q == "notes.txt"
    ensures FilterImages([p, q]) == [p]
  {
    LowerPhotoJpg(p);
    assert EndsWith(Lower(p), ImageExtensions[1]);
    LowerKeepsLowerCase(q);
    forall e | e in ImageExtensions
      ensures !EndsWith(Lower(q), e)
    {
      assert Lower(q)[|q| - 1] == 't';
    }
    assert [p, q][1..] == [q];
    FilterImagesSingle(q);
  }

  /** One row of the log: `[action, original_filename, new_filename_or_message,
      directory, timestamp]`. */
  datatype LogRow = LogRow(action: Action, original: string, detail: string, directory: string, timestamp: string)

  /** What the outside world supplies for the image at one position of the batch:
      the state of the "append date" checkbox when that image is reached, the
      results of validation, captioning and renaming, and the log timestamp. */
  datatype FileEnv = FileEnv(appendDate: bool, world: FileWorld, timestamp: string)

  /** The log row for one image. */
  function RowFor(imagePath: string, env: FileEnv, directory: string): LogRow {
    var o := RenameOutcome(imagePath, env.appendDate, directory, env.world);
    LogRow(o.action, o.original, o.detail, o.directory, env.timestamp)
  }

  /** The log after the first `n` images have been processed. */
  function ExpectedLog(images: seq<string>, envs: seq<FileEnv>, directory: string, n: nat): (rows: seq<LogRow>)
    requires n <= |images| <= |envs|
    ensures |rows| == n
  {
    seq(n, i requires 0 <= i < n => RowFor(images[i], envs[i], directory))
  }

  /** Processing one more image appends its row. */
  lemma ExpectedLogStep(images: seq<string>, envs: seq<FileEnv>, directory: string, n: nat, row: LogRow)
    requires n < |images| <= |envs|
    requires row == RowFor(images[n], envs[n], directory)
    ensures ExpectedLog(images, envs, directory, n + 1) == ExpectedLog(images, envs, directory, n) + [row]
  {
  }

  /** Processing more images only appends rows: the log after `m` images is a
      prefix of the log after `n >= m` images. */
  lemma ExpectedLogPrefix(images: seq<string>, envs: seq<FileEnv>, directory: string, m: nat, n: nat)
    requires m <= n <= |images| <= |envs|
    ensures ExpectedLog(images, envs, directory, m) == ExpectedLog(images, envs, directory, n)[..m]
  {
  }

  /** The row for one image: its base name, the directory, the timestamp taken
      for it, and its outcome; a renamed image keeps its extension. */
  lemma RowForFacts(imagePath: string, env: FileEnv, directory: string)
    requires WellFormed(env.world)
    ensures var row := RowFor(imagePath, env, directory);
      && row.original == Basename(imagePath)
      && row.directory == directory
      && row.timestamp == env.timestamp
      && (row.action == Skipped <==> !env.world.isValidImage)
      && (row.action == Renamed <==> env.world.isValidImage && env.world.caption.Some? && env.world.rename == RenameOk)
      && (row.action == Renamed ==> EndsWith(row.detail, SplitExt(row.original).1))
  {
    RenameOutcomeCases(imagePath, env.appendDate, directory, env.world);
    RenamedKeepsExtension(imagePath, env.appendDate, directory, env.world);
  }

  /** Row `i` of the log describes image `i`. */
  lemma ExpectedLogRows(images: seq<string>, envs: seq<FileEnv>, directory: string, n: nat)
    requires n <= |images| <= |envs|
    requires forall i :: 0 <= i < |envs| ==> WellFormed(envs[i].world)
    ensures forall i :: 0 <= i < n ==>
      var row := ExpectedLog(images, envs, directory, n)[i];
      && row.original == Basename(images[i])
      && row.directory == directory
      && row.timestamp == envs[i].timestamp
      && (row.action == Skipped <==> !envs[i].world.isValidImage)
      && (row.action == Renamed <==> envs[i].world.isValidImage && envs[i].world.caption.Some? && envs[i].world.rename == RenameOk)
      && (row.action == Renamed ==> EndsWith(row.detail, SplitExt(row.original).1))
  {
    forall i | 0 <= i < n
      ensures var row := ExpectedLog(images, envs, directory, n)[i];
        && row.original == Basename(images[i])
        && row.directory == directory
        && row.timestamp == envs[i].timestamp
        && (row.action == Skipped <==> !envs[i].world.isValidImage)
        && (row.action == Renamed <==> envs[i].world.isValidImage && envs[i].world.caption.Some? && envs[i].world.rename == RenameOk)
        && (row.action == Renamed ==> EndsWith(row.detail, SplitExt(row.original).1))
    {
      RowForFacts(images[i], envs[i], directory);
    }
  }

  /** Whether the stop button has been pressed by the time of the `k`-th check of
      the stop flag (check `|images|` is the one after the loop). */
  predicate StopSeen(stopWrites: seq<bool>, k: nat) {
    k < |stopWrites| && stopWrites[k]
  }

  /** The first check, among the first `n`, that sees the stop button pressed;
      `n` when none does. */
  function FirstStop(stopWrites: seq<bool>, n: nat): (k: nat)
    ensures k <= n
    ensures forall j :: 0 <= j < k ==> !StopSeen(stopWrites, j)
    ensures k < n ==> StopSeen(stopWrites, k)
  {
    if n == 0 then 0
    else
      var k := FirstStop(stopWrites, n - 1);
      if k < n - 1 then k else if StopSeen(stopWrites, n - 1) then n - 1 else n
  }

  /** A stop first seen before image `k` leaves exactly `k` images processed,
      however many there are. */
  lemma FirstStopAt(stopWrites: seq<bool>, n: nat, k: nat)
    requires k < n && StopSeen(stopWrites, k)
    requires forall j :: 0 <= j < k ==> !StopSeen(stopWrites, j)
    ensures FirstStop(stopWrites, n) == k
  {
  }

  /** Once the first stop is at `k`, looking at more checks does not move it. */
  lemma FirstStopFrom(stopWrites: seq<bool>, k: nat, n: nat)
    requires k < n && FirstStop(stopWrites, k) == k && StopSeen(stopWrites, k)
    ensures FirstStop(stopWrites, n) == k
  {
  }

  /** Without a stop nothing is cut short. */
  lemma NoStopProcessesAll(stopWrites: seq<bool>, n: nat)
    requires forall j :: 0 <= j < |stopWrites| ==> !stopWrites[j]
    ensures FirstStop(stopWrites, n) == n
  {
  }

  /** Five images, stop pressed while the third is being renamed: the check
      before the fourth image sees it, so three images are processed and the run
      ends stopped. */
  lemma StopDuringThirdImage(stopWrites: seq<bool>)
    requires stopWrites == [false, false, false, true, true, true]
    ensures FirstStop(stopWrites, 5) == 3
    ensures FirstStop(stopWrites, 6) <= 5
  {
    FirstStopAt(stopWrites, 5, 3);
    FirstStopAt(stopWrites, 6, 3);
  }

  /** A stop pressed after the last image has been renamed is still seen by the
      check after the loop: every image is processed, yet the run ends stopped. */
  lemma LateStopAfterLastImage(stopWrites: seq<bool>, n: nat)
    requires |stopWrites| == n + 1 && stopWrites[n]
    requires forall j :: 0 <= j < n ==> !stopWrites[j]
    ensures FirstStop(stopWrites, n) == n
    ensures FirstStop(stopWrites, n + 1) <= n
  {
    FirstStopAt(stopWrites, n + 1, n);
  }

  /** Whether the model files could be loaded: already present, download declined
      by the user, or download attempted and failed. */
  datatype ModelStatus = ModelReady | DownloadDeclined | DownloadFailed

  /** How a call of `rename_images` ends. */
  datatype JobStatus = NothingSelected | ModelUnavailable | NoImages | Completed | Stopped

  /** The column names `save_log` writes above the rows. */
  const LogHeader: seq<string> := ["Action", "Original Filename", "New Filename/Message", "Directory", "Timestamp"]

  function ActionText(a: Action): string {
    match a
    case Renamed => "Renamed"
    case Skipped => "Skipped"
    case Error => "Error"
  }

  /** The table `save_log` hands to the CSV writer: nothing when the log is empty,
      otherwise the header followed by one row of five fields per log row, in
      order. */
  function LogTable(log: seq<LogRow>): (table: Option<seq<seq<string>>>)
    ensures table.None? <==> log == []
    ensures table.Some? ==> |table.value| == |log| + 1 && table.value[0] == LogHeader
    ensures table.Some? ==> forall i :: 0 <= i < |log| ==>
      (|table.value[i + 1]| == |LogHeader|
       && table.value[i + 1][0] == ActionText(log[i].action)
       && table.value[i + 1][1] == log[i].original
       && table.value[i + 1][2] == log[i].detail
       && table.value[i + 1][3] == log[i].directory
       && table.value[i + 1][4] == log[i].timestamp)
  {
    if log == [] then None
    else Some([LogHeader] + seq(|log|, i requires 0 <= i < |log| =>
      [ActionText(log[i].action), log[i].original, log[i].detail, log[i].directory, log[i].timestamp]))
  }

  class ImageRenamer {
    var stopRequested: bool
    var log: seq<LogRow>

    constructor ()
      ensures !stopRequested && log == []
    {
      stopRequested := false;
      log := [];
    }

    /** `stop_process`: raise the stop flag; the log is untouched. */
    method StopProcess()
      modifies this
      ensures stopRequested && log == old(log)
    {
      stopRequested := true;
    }

    /** `reset_form`: when the user confirms, stop and clear the log; otherwise
        nothing changes. */
    method ResetForm(confirmed: bool)
      modifies this
      ensures confirmed ==> stopRequested && log == []
      ensures !confirmed ==> stopRequested == old(stopRequested) && log == old(log)
    {
      if confirmed {
        StopProcess();
        log := [];
      }
    }

    /** One iteration of the loop of `rename_images`: rename the image and append
        its row, with the timestamp taken after the rename, to the log. */
    method ProcessImage(imagePath: string, directory: string, env: FileEnv)
      requires WellFormed(env.world)
      modifies this
      ensures log == old(log) + [RowFor(imagePath, env, directory)]
      ensures stopRequested == old(stopRequested)
    {
      var outcome := RenameImage(imagePath, env.appendDate, directory, env.world);
      log := log + [LogRow(outcome.action, outcome.original, outcome.detail, outcome.directory, env.timestamp)];
    }

    /** The loop of `rename_images` over a non-empty list of images, started with
        the flag down and the log empty, followed by the check of the flag after the
        loop: processes images until the first check that sees the stop, one log
        row per processed image. */
    method ProcessImages(images: seq<string>, directory: string, envs: seq<FileEnv>, stopWrites: seq<bool>)
      returns (processed: nat)
      requires |images| <= |envs|
      requires forall i :: 0 <= i < |envs| ==> WellFormed(envs[i].world)
      requires !stopRequested && log == []
      modifies this
      ensures processed == FirstStop(stopWrites, |images|)
      ensures log == ExpectedLog(images, envs, directory, processed)
      ensures stopRequested == (FirstStop(stopWrites, |images| + 1) <= |images|)
    {
      processed := 0;
      var totalImages := |images|;
      var i := 0;
      while i < totalImages
        invariant 0 <= i <= totalImages
        invariant processed == i
        invariant !stopRequested
        invariant log == ExpectedLog(images, envs, directory, i)
        invariant FirstStop(stopWrites, i) == i
      {
        if StopSeen(stopWrites, i) {
          StopProcess();
        }
        if stopRequested {
          FirstStopFrom(stopWrites, i, totalImages);
          FirstStopFrom(stopWrites, i, totalImages + 1);
          break;
        }
        processed := processed + 1;
        ProcessImage(images[i], directory, envs[i]);
        ExpectedLogStep(images, envs, directory, i, RowFor(images[i], envs[i], directory));
        i := i + 1;
      }
      if StopSeen(stopWrites, i) {
        StopProcess();
      }
    }

    /** `rename_images` for one run. `selected` says whether anything was chosen,
        `model` how loading the captioning model went, `allFiles` the chosen files
        or the directory listing, `envs[i]` the world seen by the `i`-th image and
        `stopWrites[k]` whether stop was pressed by the `k`-th check of the flag.
        Returns how the run ended and the `processed_images` counter. */
    method RenameImages(selected: bool, model: ModelStatus, allFiles: seq<string>, directory: string,
                        envs: seq<FileEnv>, stopWrites: seq<bool>) returns (status: JobStatus, processed: nat)
      requires |FilterImages(allFiles)| <= |envs|
      requires forall i :: 0 <= i < |envs| ==> WellFormed(envs[i].world)
      modifies this
      ensures !selected ==>
        status == NothingSelected && processed == 0 && stopRequested == old(stopRequested) && log == old(log)
      ensures selected && model != ModelReady ==>
        status == ModelUnavailable && processed == 0 && stopRequested == (model == DownloadFailed) && log == []
      ensures selected && model == ModelReady && FilterImages(allFiles) == [] ==>
        status == NoImages && processed == 0 && !stopRequested && log == []
      ensures selected && model == ModelReady && FilterImages(allFiles) != [] ==>
        var images := FilterImages(allFiles);
        && processed == FirstStop(stopWrites, |images|)
        && log == ExpectedLog(images, envs, directory, processed)
        && status == (if FirstStop(stopWrites, |images| + 1) <= |images| then Stopped else Completed)
        && stopRequested == (status == Stopped)
    {
      processed := 0;
      if !selected {
        return NothingSelected, 0;
      }
      stopRequested := false;
      log := [];
      if model != ModelReady {
        if model == DownloadFailed {
          stopRequested := true;
        }
        return ModelUnavailable, 0;
      }
      var images := FilterImages(allFiles);
      var totalImages := |images|;
      if totalImages == 0 {
        return NoImages, 0;
      }
      processed := ProcessImages(images, directory, envs, stopWrites);
      status := if !stopRequested then Completed else Stopped;
      assert log == ExpectedLog(images, envs, directory, processed);
    }
  }
}
