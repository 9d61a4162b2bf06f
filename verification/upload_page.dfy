/**
 * The upload widget (app/upload/page.tsx): client-side validation of picked or
 * dropped files, the pending selection, and the status and progress of one
 * upload request. The request itself is replaced by its observable outcome:
 * the sequence of progress events and how the request settled.
 */
module UploadPage {
  import opened Wrappers
  import opened Common

  // ---------------------------------------------------------------------------
  // Validation of one file
  // ---------------------------------------------------------------------------

  const AllowedFileTypes: seq<string> := [
    "text/csv",
    "application/vnd.ms-excel",
    "application/vnd.openxmlformats-officedocument.spreadsheetml.sheet"
  ]

  /** 10 MiB. */
  const MaxFileSize: nat := 10 * 1024 * 1024

  const InvalidTypeMessage: string := "Invalid file type. Please upload CSV or Excel files."
  const TooLargeMessage: string := "File is too large. Maximum size is 10MB."

  datatype Verdict = Accepted | Rejected(message: string)

  /**
   * `validateFile`, without its side effects: a file passes exactly when its
   * declared type is allowed and it is at most 10 MiB; the type is checked
   * first, so a file failing both is reported as of the wrong type.
   */
  function ValidateFile(f: File): (v: Verdict)
    ensures v == Accepted <==> f.mimeType in AllowedFileTypes && f.size <= MaxFileSize
    ensures f.mimeType !in AllowedFileTypes ==> v == Rejected(InvalidTypeMessage)
    ensures f.mimeType in AllowedFileTypes && f.size > MaxFileSize ==> v == Rejected(TooLargeMessage)
  {
    if f.mimeType !in AllowedFileTypes then Rejected(InvalidTypeMessage)
    else if f.size > MaxFileSize then Rejected(TooLargeMessage)
    else Accepted
  }

  /** The limit is inclusive: a file of exactly 10 MiB passes and one byte more does not. */
  lemma SizeLimitInclusive(f: File)
    requires f.mimeType in AllowedFileTypes
    ensures f.size == MaxFileSize ==> ValidateFile(f) == Accepted
    ensures f.size == MaxFileSize + 1 ==> ValidateFile(f) == Rejected(TooLargeMessage)
  {
  }

  // ---------------------------------------------------------------------------
  // A batch of files: `files.filter(validateFile)`
  // ---------------------------------------------------------------------------

  /** The files of the batch that pass validation, in batch order. */
  function ValidFiles(batch: seq<File>): (valid: seq<File>)
    ensures |valid| <= |batch|
  {
    if batch == [] then []
    else
      var last := batch[|batch| - 1];
      ValidFiles(batch[..|batch| - 1]) + (if ValidateFile(last) == Accepted then [last] else [])
  }

  /** The message of the last rejected file of the batch, the one `validateFile` wrote last. */
  function LastRejection(batch: seq<File>): (m: Option<string>)
    ensures m.Some? ==> m.value == InvalidTypeMessage || m.value == TooLargeMessage
  {
    if batch == [] then None
    else
      match ValidateFile(batch[|batch| - 1])
      case Rejected(m) => Some(m)
      case Accepted => LastRejection(batch[..|batch| - 1])
  }

  /** `xs` is `ys` with some elements left out and the rest kept in order. */
  ghost predicate IsSubsequence<T>(xs: seq<T>, ys: seq<T>) {
    if xs == [] then true
    else if ys == [] then false
    else
      (xs[|xs| - 1] == ys[|ys| - 1] && IsSubsequence(xs[..|xs| - 1], ys[..|ys| - 1]))
      || IsSubsequence(xs, ys[..|ys| - 1])
  }

  /**
   * The candidate selection is exactly the valid files of the batch, kept in
   * their order: every file in it passes, and every passing file is in it.
   */
  lemma ValidFilesIsFilter(batch: seq<File>)
    ensures IsSubsequence(ValidFiles(batch), batch)
    ensures forall f :: f in ValidFiles(batch) ==> ValidateFile(f) == Accepted
    ensures forall i :: 0 <= i < |batch| && ValidateFile(batch[i]) == Accepted ==> batch[i] in ValidFiles(batch)
    ensures forall f :: multiset(ValidFiles(batch))[f] == if ValidateFile(f) == Accepted then multiset(batch)[f] else 0
  {
    ValidFilesInOrder(batch);
    ValidFilesCounts(batch);
    forall f | f in ValidFiles(batch) ensures ValidateFile(f) == Accepted {
      assert f in multiset(ValidFiles(batch));
    }
    forall i | 0 <= i < |batch| && ValidateFile(batch[i]) == Accepted ensures batch[i] in ValidFiles(batch) {
      assert batch[i] in multiset(batch);
    }
  }

  /** The selection keeps the batch order. */
  lemma {:induction false} ValidFilesInOrder(batch: seq<File>)
    ensures IsSubsequence(ValidFiles(batch), batch)
  {
    if batch != [] {
      var init := batch[..|batch| - 1];
      var last := batch[|batch| - 1];
      ValidFilesInOrder(init);
      if ValidateFile(last) == Accepted {
        assert ValidFiles(batch)[..|ValidFiles(batch)| - 1] == ValidFiles(init);
      } else {
        assert ValidFiles(batch) == ValidFiles(init);
        assert batch == init + [last];
        SubsequenceOfPrefix(ValidFiles(init), init, last);
      }
    }
  }

  /** Each passing file occurs in the selection as often as in the batch; a failing one not at all. */
  lemma {:induction false} ValidFilesCounts(batch: seq<File>)
    ensures forall f :: multiset(ValidFiles(batch))[f] == if ValidateFile(f) == Accepted then multiset(batch)[f] else 0
  {
    if batch != [] {
      var init := batch[..|batch| - 1];
      var last := batch[|batch| - 1];
      ValidFilesCounts(init);
      assert batch == init + [last];
      assert multiset(batch) == multiset(init) + multiset{last};
    }
  }

  lemma SubsequenceOfPrefix<T>(xs: seq<T>, ys: seq<T>, y: T)
    requires IsSubsequence(xs, ys)
    ensures IsSubsequence(xs, ys + [y])
  {
  }

  /** No file is rejected exactly when the whole batch is kept, and exactly when no message is left. */
  lemma NoRejectionKeepsBatch(batch: seq<File>)
    ensures LastRejection(batch) == None <==> ValidFiles(batch) == batch
    ensures LastRejection(batch) == None <==> forall i :: 0 <= i < |batch| ==> ValidateFile(batch[i]) == Accepted
  {
    NoRejectionAllPass(batch);
    AllPassKeepsBatch(batch);
  }

  lemma {:induction false} NoRejectionAllPass(batch: seq<File>)
    ensures LastRejection(batch) == None <==> forall i :: 0 <= i < |batch| ==> ValidateFile(batch[i]) == Accepted
  {
    if batch != [] {
      var init := batch[..|batch| - 1];
      NoRejectionAllPass(init);
      if ValidateFile(batch[|batch| - 1]) == Accepted {
        forall i | 0 <= i < |init| ensures batch[i] == init[i] { }
      }
    }
  }

  lemma {:induction false} AllPassKeepsBatch(batch: seq<File>)
    ensures (forall i :: 0 <= i < |batch| ==> ValidateFile(batch[i]) == Accepted) <==> ValidFiles(batch) == batch
  {
    if batch != [] {
      var init := batch[..|batch| - 1];
      var last := batch[|batch| - 1];
      AllPassKeepsBatch(init);
      if ValidateFile(last) == Accepted {
        assert batch == init + [last];
        forall i | 0 <= i < |init| ensures batch[i] == init[i] { }
      } else {
        assert |ValidFiles(batch)| < |batch|;
      }
    }
  }

  /** The message left is that of the last rejected file: every file after it passed. */
  lemma {:induction false} LastRejectionIsLastRejected(batch: seq<File>)
    requires LastRejection(batch).Some?
    ensures exists j :: 0 <= j < |batch| && ValidateFile(batch[j]) == Rejected(LastRejection(batch).value)
              && forall k :: j < k < |batch| ==> ValidateFile(batch[k]) == Accepted
  {
    var init := batch[..|batch| - 1];
    var last := batch[|batch| - 1];
    if ValidateFile(last) == Accepted {
      LastRejectionIsLastRejected(init);
      var j :| 0 <= j < |init| && ValidateFile(init[j]) == Rejected(LastRejection(init).value)
                && forall k :: j < k < |init| ==> ValidateFile(init[k]) == Accepted;
      assert batch[j] == init[j];
      forall k | j < k < |batch| ensures ValidateFile(batch[k]) == Accepted {
        if k < |init| {
          assert batch[k] == init[k];
        }
      }
    } else {
      assert ValidateFile(batch[|batch| - 1]) == Rejected(LastRejection(batch).value);
    }
  }

  // ---------------------------------------------------------------------------
  // Removing one pending file: `prevFiles.filter((_, i) => i !== index)`
  // ---------------------------------------------------------------------------

  /** Keeps every element whose position is not `index`. */
  function RemoveAt<T>(s: seq<T>, index: int): (r: seq<T>)
    ensures 0 <= index < |s| ==> r == s[..index] + s[index + 1..]
    ensures !(0 <= index < |s|) ==> r == s
  {
    if s == [] then []
    else
      var init := s[..|s| - 1];
      var kept := RemoveAt(init, index);
      if index == |s| - 1 then
        assert kept == init;
        kept
      else
        assert 0 <= index < |init| ==> s[index + 1..] == init[index + 1..] + [s[|s| - 1]];
        assert s == init + [s[|s| - 1]];
        kept + [s[|s| - 1]]
  }

  // ---------------------------------------------------------------------------
  // Progress percentage and size display
  // ---------------------------------------------------------------------------

  /**
   * A progress event of the request body upload. `lengthComputable` holds
   * exactly when `total` is non-zero, as the XMLHttpRequest standard sets it.
   */
  datatype ProgressEvent = ProgressEvent(loaded: nat, total: nat)

  predicate LengthComputable(e: ProgressEvent) {
    e.total > 0
  }

  /**
   * `Math.round((loaded * 100) / total)`: the integer nearest to the exact
   * percentage, halves rounded up.
   */
  function Percent(loaded: nat, total: nat): (p: nat)
    requires total > 0
    ensures 2 * total * p <= 200 * loaded + total < 2 * total * (p + 1)
  {
    (200 * loaded + total) / (2 * total)
  }

  /** Cancelling a positive factor from a strict inequality. */
  lemma MulCancel(a: int, x: int, y: int)
    requires a > 0 && a * x < a * y
    ensures x < y
  {
  }

  /** The percentage never exceeds 100 while no more than the total was sent, and reaches 100 at the total. */
  lemma PercentBounds(loaded: nat, total: nat)
    requires total > 0
    ensures loaded <= total ==> Percent(loaded, total) <= 100
    ensures Percent(total, total) == 100
  {
    if loaded <= total {
      MulCancel(2 * total, Percent(loaded, total), 101);
    }
    var q := Percent(total, total);
    MulCancel(2 * total, q, 101);
    MulCancel(2 * total, 99, q + 1);
  }

  /** More bytes sent never gives a smaller percentage. */
  lemma PercentMonotonic(loaded1: nat, loaded2: nat, total: nat)
    requires total > 0 && loaded1 <= loaded2
    ensures Percent(loaded1, total) <= Percent(loaded2, total)
  {
    MulCancel(2 * total, Percent(loaded1, total), Percent(loaded2, total) + 1);
  }

  /** The values `setUploadProgress` receives for a stream of progress events. */
  function ProgressTrace(events: seq<ProgressEvent>): (trace: seq<nat>)
    ensures |trace| <= |events|
  {
    if events == [] then []
    else
      var last := events[|events| - 1];
      ProgressTrace(events[..|events| - 1]) + (if LengthComputable(last) then [Percent(last.loaded, last.total)] else [])
  }

  /** `uploadProgress` after the events, starting from `start`. */
  function LastProgress(events: seq<ProgressEvent>, start: nat): nat {
    if events == [] then start
    else
      var last := events[|events| - 1];
      if LengthComputable(last) then Percent(last.loaded, last.total) else LastProgress(events[..|events| - 1], start)
  }

  /** The progress left after the events is the last value reported, or the starting value when none was. */
  lemma {:induction false} LastProgressIsLastReported(events: seq<ProgressEvent>, start: nat)
    ensures var trace := ProgressTrace(events);
            LastProgress(events, start) == if trace == [] then start else trace[|trace| - 1]
  {
    if events != [] {
      LastProgressIsLastReported(events[..|events| - 1], start);
    }
  }

  /** The events of one request: one total, and a count of bytes sent that only grows up to it. */
  ghost predicate SteadyUpload(events: seq<ProgressEvent>, total: nat) {
    && total > 0
    && (forall i :: 0 <= i < |events| ==> events[i].total == total && events[i].loaded <= total)
    && (forall i, j :: 0 <= i < j < |events| ==> events[i].loaded <= events[j].loaded)
  }

  /** During one request the reported percentages stay within 0..100 and never go down. */
  lemma {:induction false} ProgressTraceNonDecreasing(events: seq<ProgressEvent>, total: nat)
    requires SteadyUpload(events, total)
    ensures |ProgressTrace(events)| == |events|
    ensures forall i :: 0 <= i < |events| ==> ProgressTrace(events)[i] == Percent(events[i].loaded, total) <= 100
    ensures forall i, j :: 0 <= i < j < |events| ==> ProgressTrace(events)[i] <= ProgressTrace(events)[j]
  {
    if events != [] {
      var init := events[..|events| - 1];
      ProgressTraceNonDecreasing(init, total);
      var t := ProgressTrace(events);
      forall i | 0 <= i < |events| ensures t[i] == Percent(events[i].loaded, total) <= 100 {
        PercentBounds(events[i].loaded, total);
        if i < |init| {
          assert events[i] == init[i];
        }
      }
      forall i, j | 0 <= i < j < |events| ensures t[i] <= t[j] {
        PercentMonotonic(events[i].loaded, events[j].loaded, total);
      }
    }
  }

  /** A 1,000,000-byte body sent in four equal chunks reports 25, 50, 75 and 100. */
  lemma FourEqualChunks()
    ensures ProgressTrace([ProgressEvent(250000, 1000000), ProgressEvent(500000, 1000000),
                           ProgressEvent(750000, 1000000), ProgressEvent(1000000, 1000000)])
            == [25, 50, 75, 100]
  {
    var e := [ProgressEvent(250000, 1000000), ProgressEvent(500000, 1000000),
              ProgressEvent(750000, 1000000), ProgressEvent(1000000, 1000000)];
    assert ProgressTrace(e[..1]) == [25] by {
      assert e[..1][..0] == [];
    }
    assert ProgressTrace(e[..2]) == [25, 50] by {
      assert e[..2][..1] == e[..1];
    }
    assert ProgressTrace(e[..3]) == [25, 50, 75] by {
      assert e[..3][..2] == e[..2];
    }
    assert e[..3] == e[..|e| - 1];
  }

  /**
   * `(file.size / 1024).toFixed(0)`: the size in KiB rounded to the nearest
   * integer, halves rounded up.
   */
  function KiloBytes(size: nat): (kb: nat)
    ensures 1024 * kb <= size + 512 < 1024 * (kb + 1)
  {
    (size + 512) / 1024
  }

  /** A whole number of KiB is shown exactly. */
  lemma KiloBytesOfWholeKiB(k: nat)
    ensures KiloBytes(1024 * k) == k
  {
  }

  /** The size text next to a pending file. */
  function SizeLabel(size: nat): string {
    NatToString(KiloBytes(size)) + " KB"
  }

  /** A 100-byte file is listed as 0 KB. */
  lemma SizeLabelOfSmallFile()
    ensures SizeLabel(100) == "0 KB"
  {
  }

  // ---------------------------------------------------------------------------
  // The widget state
  // ---------------------------------------------------------------------------

  datatype UploadStatus = Idle | Success | Error

  /** How the XMLHttpRequest settled: loaded with an HTTP status, or failed in transport. */
  datatype Outcome = Completed(httpStatus: int, statusText: string) | NetworkFailure

  predicate Succeeded(o: Outcome) {
    o.Completed? && 200 <= o.httpStatus < 300
  }

  /** The message of the Error the request promise rejects with. */
  function FailureMessage(o: Outcome): (m: string)
    requires !Succeeded(o)
    ensures m != ""
  {
    match o
    case Completed(_, text) => if text == "" then "Request failed" else text
    case NetworkFailure => "Network error"
  }

  class Widget {
    var files: seq<File>
    var uploading: bool
    var progress: nat
    var status: UploadStatus
    var errorMessage: string

    /** The initial `useState` values. */
    constructor ()
      ensures files == [] && !uploading && progress == 0 && status == Idle && errorMessage == ""
    {
      files := [];
      uploading := false;
      progress := 0;
      status := Idle;
      errorMessage := "";
    }

    /** The "Upload Files" button is disabled with nothing selected or a request in flight. */
    predicate UploadDisabled()
      reads this
    {
      |files| == 0 || uploading
    }

    /** `validateFile` with its side effects: a rejection writes the message and the error status. */
    method Validate(f: File) returns (ok: bool)
      modifies this`status, this`errorMessage
      ensures ok <==> ValidateFile(f) == Accepted
      ensures ok ==> status == old(status) && errorMessage == old(errorMessage)
      ensures !ok ==> status == Error && errorMessage == ValidateFile(f).message
    {
      match ValidateFile(f)
      case Accepted =>
        ok := true;
      case Rejected(m) =>
        errorMessage := m;
        status := Error;
        ok := false;
    }

    /**
     * `batch.filter(validateFile)` followed by the conditional `setFiles`: the
     * selection is replaced by the valid files only when there are some.
     */
    method ApplyBatch(batch: seq<File>)
      modifies this`files, this`status, this`errorMessage
      ensures files == (if |ValidFiles(batch)| > 0 then ValidFiles(batch) else old(files))
      ensures LastRejection(batch) == None ==> status == old(status) && errorMessage == old(errorMessage)
      ensures LastRejection(batch).Some? ==> status == Error && errorMessage == LastRejection(batch).value
    {
      var valid: seq<File> := [];
      for i := 0 to |batch|
        invariant valid == ValidFiles(batch[..i])
        invariant files == old(files)
        invariant LastRejection(batch[..i]) == None ==> status == old(status) && errorMessage == old(errorMessage)
        invariant LastRejection(batch[..i]).Some? ==> status == Error && errorMessage == LastRejection(batch[..i]).value
      {
        assert batch[..i + 1][..i] == batch[..i];
        var ok := Validate(batch[i]);
        if ok {
          valid := valid + [batch[i]];
        }
      }
      assert batch[..|batch|] == batch;
      if |valid| > 0 {
        files := valid;
      }
    }

    /** `onDrop`: clear the message, then take the dropped batch. */
    method OnDrop(dropped: seq<File>)
      modifies this`files, this`status, this`errorMessage
      ensures files == (if |ValidFiles(dropped)| > 0 then ValidFiles(dropped) else old(files))
      ensures status == (if LastRejection(dropped).Some? then Error else Idle)
      ensures errorMessage == LastRejection(dropped).GetOr("")
      ensures uploading == old(uploading) && progress == old(progress)
    {
      errorMessage := "";
      status := Idle;
      ApplyBatch(dropped);
    }

    /** `onFileInputChange`: like a drop, but the picker may report no file list or an empty one. */
    method OnFileInputChange(picked: Option<seq<File>>)
      modifies this`files, this`status, this`errorMessage
      ensures picked.None? || picked.value == [] ==> files == old(files) && status == Idle && errorMessage == ""
      ensures picked.Some? ==>
                && files == (if |ValidFiles(picked.value)| > 0 then ValidFiles(picked.value) else old(files))
                && status == (if LastRejection(picked.value).Some? then Error else Idle)
                && errorMessage == LastRejection(picked.value).GetOr("")
      ensures uploading == old(uploading) && progress == old(progress)
    {
      errorMessage := "";
      status := Idle;
      if picked.Some? && |picked.value| > 0 {
        ApplyBatch(picked.value);
      }
    }

    /** `removeFile`: drop the file at `index` and clear any message. */
    method RemoveFile(index: int)
      modifies this`files, this`status, this`errorMessage
      ensures 0 <= index < |old(files)| ==> files == old(files)[..index] + old(files)[index + 1..]
      ensures !(0 <= index < |old(files)|) ==> files == old(files)
      ensures status == Idle && errorMessage == ""
    {
      files := RemoveAt(files, index);
      status := Idle;
      errorMessage := "";
    }

    /** The start of `uploadFiles`: nothing happens with an empty selection. */
    method StartUpload() returns (started: bool)
      modifies this`uploading, this`progress, this`status
      ensures started <==> |files| > 0
      ensures started ==> uploading && progress == 0 && status == Idle
      ensures !started ==> uploading == old(uploading) && progress == old(progress) && status == old(status)
      ensures started ==> UploadDisabled()
      ensures !started ==> UploadDisabled()
    {
      if |files| == 0 {
        return false;
      }
      uploading := true;
      progress := 0;
      status := Idle;
      started := true;
    }

    /** The upload `progress` listener. */
    method OnProgress(e: ProgressEvent)
      modifies this`progress
      ensures progress == (if LengthComputable(e) then Percent(e.loaded, e.total) else old(progress))
    {
      if LengthComputable(e) {
        progress := Percent(e.loaded, e.total);
      }
    }

    /** The request settles: `onload` / `onerror`, the `catch` and the `finally` of `uploadFiles`. */
    method OnSettled(o: Outcome)
      modifies this`uploading, this`status, this`errorMessage
      ensures !uploading
      ensures Succeeded(o) ==> status == Success && errorMessage == old(errorMessage)
      ensures !Succeeded(o) ==> status == Error && errorMessage == FailureMessage(o)
    {
      if Succeeded(o) {
        status := Success;
      } else {
        status := Error;
        errorMessage := FailureMessage(o);
      }
      uploading := false;
    }

    /**
     * `uploadFiles` from start to end, for a request that reports `events`
     * and then settles with `o`.
     */
    method UploadFiles(events: seq<ProgressEvent>, o: Outcome)
      modifies this`uploading, this`progress, this`status, this`errorMessage
      ensures files == old(files)
      ensures |files| == 0 ==>
                uploading == old(uploading) && progress == old(progress)
                && status == old(status) && errorMessage == old(errorMessage)
      ensures |files| > 0 ==>
                && !uploading
                && progress == LastProgress(events, 0)
                && status == (if Succeeded(o) then Success else Error)
                && errorMessage == (if Succeeded(o) then old(errorMessage) else FailureMessage(o))
    {
      var started := StartUpload();
      if !started {
        return;
      }
      for i := 0 to |events|
        invariant progress == LastProgress(events[..i], 0)
        invariant errorMessage == old(errorMessage)
      {
        assert events[..i + 1][..i] == events[..i];
        OnProgress(events[i]);
      }
      assert events[..|events|] == events;
      OnSettled(o);
    }
  }
}
