/**
 * The dataset upload endpoint (app/api/upload/route.ts): every file of the
 * multipart request is written into the uploads directory under the name
 * `<id>-<sanitised timestamp>.<extension>`, and one metadata record per file
 * is returned. The UUID generator and the clock are replaced by parameters.
 */
module UploadRoute {
  import opened Wrappers
  import opened Common

  /** Length of the text form of a version-4 UUID, as `uuidv4()` returns it. */
  const UuidLength: nat := 36

  const NoFilesError: string := "No files uploaded"
  const UploadFailedError: string := "File upload failed"

  // ---------------------------------------------------------------------------
  // Stored-name derivation
  // ---------------------------------------------------------------------------

  /** Position of the last occurrence of `c` in `s`. */
  function LastIndexOf(s: string, c: char): (r: Option<nat>)
    ensures r.Some? ==> r.value < |s| && s[r.value] == c && c !in s[r.value + 1..]
    ensures r.None? ==> c !in s
  {
    if s == [] then None
    else if s[|s| - 1] == c then Some(|s| - 1)
    else LastIndexOf(s[..|s| - 1], c)
  }

  /**
   * A suffix of `s` that holds no `sep` and is either all of `s` or directly
   * preceded by `sep`: the last piece when `s` is cut at every `sep`.
   */
  ghost predicate IsLastPiece(t: string, s: string, sep: char) {
    |t| <= |s| && t == s[|s| - |t|..] && sep !in t
    && (|t| < |s| ==> s[|s| - |t| - 1] == sep)
  }

  /** There is only one last piece. */
  lemma LastPieceUnique(t1: string, t2: string, s: string, sep: char)
    requires IsLastPiece(t1, s, sep) && IsLastPiece(t2, s, sep)
    ensures t1 == t2
  {
  }

  /**
   * `originalFilename.split('.').pop()`: the text after the last `.`, or the
   * whole name when it has no `.`.
   */
  function Extension(name: string): (ext: string)
    ensures '.' !in name ==> ext == name
  {
    match LastIndexOf(name, '.')
    case None => name
    case Some(i) => name[i + 1..]
  }

  /** The extension is the dot-free suffix of the name that is the whole name or follows a dot. */
  lemma ExtensionIsLastPiece(name: string)
    ensures IsLastPiece(Extension(name), name, '.')
  {
  }

  /** `String.prototype.split` with a one-character separator: the reference definition. */
  function Split(s: string, sep: char): (pieces: seq<string>)
    ensures |pieces| >= 1
  {
    if s == [] then [[]]
    else
      var init := Split(s[..|s| - 1], sep);
      var c := s[|s| - 1];
      if c == sep then init + [[]]
      else init[..|init| - 1] + [init[|init| - 1] + [c]]
  }

  /** `split(sep).pop()`: the last piece. */
  function LastPiece(s: string, sep: char): string {
    var pieces := Split(s, sep);
    pieces[|pieces| - 1]
  }

  /** The last piece of `split` is the separator-free tail; there is one piece exactly when that tail is everything. */
  lemma {:induction false} SplitLastIsLastPiece(s: string, sep: char)
    ensures IsLastPiece(LastPiece(s, sep), s, sep)
    ensures |Split(s, sep)| == 1 <==> |LastPiece(s, sep)| == |s|
  {
    if s != [] {
      var init := s[..|s| - 1];
      var c := s[|s| - 1];
      SplitLastIsLastPiece(init, sep);
      var pieces := Split(init, sep);
      var t := LastPiece(init, sep);
      if c == sep {
        assert Split(s, sep) == pieces + [[]];
      } else {
        assert Split(s, sep) == pieces[..|pieces| - 1] + [t + [c]];
        assert LastPiece(s, sep) == t + [c];
        assert s[|s| - |t| - 1..] == init[|init| - |t|..] + [c];
      }
    }
  }

  /** `Extension` agrees with what `split('.').pop()` returns, on every name. */
  lemma ExtensionIsLastSplitPiece(name: string)
    ensures Extension(name) == LastPiece(name, '.')
  {
    SplitLastIsLastPiece(name, '.');
    ExtensionIsLastPiece(name);
    LastPieceUnique(Extension(name), LastPiece(name, '.'), name, '.');
  }

  /** `toISOString().replace(/[:.]/g, '-')`: every `:` and `.` becomes `-`, all else is kept. */
  function Sanitize(stamp: string): (r: string)
    ensures |r| == |stamp|
    ensures forall i :: 0 <= i < |stamp| ==>
              r[i] == (if stamp[i] == ':' || stamp[i] == '.' then '-' else stamp[i])
  {
    if stamp == [] then []
    else Sanitize(stamp[..|stamp| - 1]) + [if stamp[|stamp| - 1] in ":." then '-' else stamp[|stamp| - 1]]
  }

  /** The sanitised timestamp is safe in a file name, and sanitising twice changes nothing more. */
  lemma SanitizeProperties(stamp: string)
    ensures ':' !in Sanitize(stamp) && '.' !in Sanitize(stamp)
    ensures Sanitize(Sanitize(stamp)) == Sanitize(stamp)
  {
  }

  /** The template `${datasetId}-${timestamp}.${fileExtension}`. */
  function StoredName(id: string, timestamp: string, ext: string): string {
    id + "-" + timestamp + "." + ext
  }

  /** The stored name the handler derives for one file. */
  function StoredNameFor(f: File, id: string, stamp: string): string {
    StoredName(id, Sanitize(stamp), Extension(f.name))
  }

  /** The identifier can be read back from the front of a stored name. */
  lemma StoredNameStartsWithId(id: string, timestamp: string, ext: string)
    ensures StoredName(id, timestamp, ext)[..|id|] == id
    ensures StoredName(id, timestamp, ext)[|id|] == '-'
  {
  }

  /** A stored file keeps the extension of the original file. */
  lemma StoredNameKeepsExtension(f: File, id: string, stamp: string)
    ensures Extension(StoredNameFor(f, id, stamp)) == Extension(f.name)
  {
    var ext := Extension(f.name);
    var n := StoredNameFor(f, id, stamp);
    ExtensionIsLastPiece(f.name);
    ExtensionIsLastPiece(n);
    assert n == (id + "-" + Sanitize(stamp) + ".") + ext;
    assert n[|n| - |ext|..] == ext;
    assert n[|n| - |ext| - 1] == '.';
    LastPieceUnique(Extension(n), ext, n, '.');
  }

  /** Identifiers of one length that differ give stored names that differ. */
  lemma StoredNamesDistinct(id1: string, id2: string, ts1: string, ts2: string, ext1: string, ext2: string)
    requires |id1| == |id2| && id1 != id2
    ensures StoredName(id1, ts1, ext1) != StoredName(id2, ts2, ext2)
  {
    StoredNameStartsWithId(id1, ts1, ext1);
    StoredNameStartsWithId(id2, ts2, ext2);
  }

  // ---------------------------------------------------------------------------
  // The directory writes
  // ---------------------------------------------------------------------------

  /** One `writeFile`: the stored name and the bytes written under it. */
  datatype Entry = Entry(name: string, content: seq<byte>)

  /** The entries of a batch, in the order of the files. */
  function Entries(files: seq<File>, ids: seq<string>, stamps: seq<string>): (es: seq<Entry>)
    requires |ids| == |files| && |stamps| == |files|
    ensures |es| == |files|
    ensures forall i :: 0 <= i < |files| ==>
              es[i] == Entry(StoredNameFor(files[i], ids[i], stamps[i]), files[i].content)
  {
    seq(|files|, i requires 0 <= i < |files| => Entry(StoredNameFor(files[i], ids[i], stamps[i]), files[i].content))
  }

  /** The directory after writing `es` one after the other (a later write to a name replaces an earlier one). */
  function StoreAll(d: Dir, es: seq<Entry>): Dir {
    if es == [] then d
    else StoreAll(d, es[..|es| - 1])[es[|es| - 1].name := es[|es| - 1].content]
  }

  /** A prefix one element longer. */
  lemma PrefixStep<T>(s: seq<T>, i: nat)
    requires i < |s|
    ensures s[..i + 1] == s[..i] + [s[i]]
  {
  }

  /** Writing one more entry after the others. */
  lemma StoreAllAppend(d: Dir, es: seq<Entry>, e: Entry)
    ensures StoreAll(d, es + [e]) == StoreAll(d, es)[e.name := e.content]
  {
    assert (es + [e])[..|es|] == es;
  }

  ghost predicate DistinctNames(es: seq<Entry>) {
    forall i, j :: 0 <= i < j < |es| ==> es[i].name != es[j].name
  }

  /** A name is in the directory after the writes exactly when it was before or some entry wrote it. */
  lemma {:induction false} StoreAllKeys(d: Dir, es: seq<Entry>, k: string)
    ensures k in StoreAll(d, es) <==> k in d || exists i :: 0 <= i < |es| && es[i].name == k
  {
    if es != [] {
      var init := es[..|es| - 1];
      StoreAllKeys(d, init, k);
      if exists i :: 0 <= i < |init| && init[i].name == k {
        var i :| 0 <= i < |init| && init[i].name == k;
        assert es[i].name == k;
      }
      if exists i :: 0 <= i < |es| && es[i].name == k {
        var i :| 0 <= i < |es| && es[i].name == k;
        if i < |init| {
          assert init[i].name == k;
        }
      }
    }
  }

  /** Writing entries with distinct names, none already present, adds exactly one entry per write. */
  lemma {:induction false} StoreAllSize(d: Dir, es: seq<Entry>)
    requires DistinctNames(es)
    requires forall i :: 0 <= i < |es| ==> es[i].name !in d
    ensures |StoreAll(d, es)| == |d| + |es|
  {
    if es != [] {
      var init := es[..|es| - 1];
      var last := es[|es| - 1];
      StoreAllSize(d, init);
      var prev := StoreAll(d, init);
      StoreAllKeys(d, init, last.name);
      assert prev[last.name := last.content].Keys == prev.Keys + {last.name};
    }
  }

  /** With distinct names, every entry holds the bytes written under it. */
  lemma {:induction false} StoreAllContent(d: Dir, es: seq<Entry>)
    requires DistinctNames(es)
    ensures forall i :: 0 <= i < |es| ==> es[i].name in StoreAll(d, es) && StoreAll(d, es)[es[i].name] == es[i].content
  {
    if es != [] {
      var init := es[..|es| - 1];
      StoreAllContent(d, init);
      forall i | 0 <= i < |es|
        ensures es[i].name in StoreAll(d, es) && StoreAll(d, es)[es[i].name] == es[i].content
      {
        if i < |init| {
          assert init[i] == es[i];
        }
      }
    }
  }

  /** Writes under new names leave the entries already in the directory as they were. */
  lemma {:induction false} StoreAllKeeps(d: Dir, es: seq<Entry>)
    requires forall i :: 0 <= i < |es| ==> es[i].name !in d
    ensures forall k :: k in d ==> k in StoreAll(d, es) && StoreAll(d, es)[k] == d[k]
  {
    if es != [] {
      StoreAllKeeps(d, es[..|es| - 1]);
    }
  }

  /** Every identifier has the UUID text length and no two are equal. */
  ghost predicate UniqueUuids(ids: seq<string>) {
    && (forall i :: 0 <= i < |ids| ==> |ids[i]| == UuidLength)
    && (forall i, j :: 0 <= i < j < |ids| ==> ids[i] != ids[j])
  }

  /** Distinct identifiers make the stored names of a batch distinct. */
  lemma EntriesDistinct(files: seq<File>, ids: seq<string>, stamps: seq<string>)
    requires |ids| == |files| && |stamps| == |files|
    requires UniqueUuids(ids)
    ensures DistinctNames(Entries(files, ids, stamps))
  {
    var es := Entries(files, ids, stamps);
    forall i, j | 0 <= i < j < |es| ensures es[i].name != es[j].name {
      StoredNamesDistinct(ids[i], ids[j], Sanitize(stamps[i]), Sanitize(stamps[j]),
                          Extension(files[i].name), Extension(files[j].name));
    }
  }

  /**
   * A batch with fresh UUIDs whose names are not yet taken: afterwards each file's
   * bytes are under its stored name, every earlier entry is untouched, and the
   * directory has grown by exactly the number of files.
   */
  lemma BatchStoredInFull(d: Dir, files: seq<File>, ids: seq<string>, stamps: seq<string>)
    requires |ids| == |files| && |stamps| == |files|
    requires UniqueUuids(ids)
    requires forall i :: 0 <= i < |files| ==> StoredNameFor(files[i], ids[i], stamps[i]) !in d
    ensures var after := StoreAll(d, Entries(files, ids, stamps));
            && (forall i :: 0 <= i < |files| ==>
                  StoredNameFor(files[i], ids[i], stamps[i]) in after
                  && after[StoredNameFor(files[i], ids[i], stamps[i])] == files[i].content)
            && (forall k :: k in d ==> k in after && after[k] == d[k])
            && |after| == |d| + |files|
  {
    var es := Entries(files, ids, stamps);
    EntriesDistinct(files, ids, stamps);
    StoreAllContent(d, es);
    StoreAllKeeps(d, es);
    StoreAllSize(d, es);
  }

  // ---------------------------------------------------------------------------
  // Writes that fail
  // ---------------------------------------------------------------------------

  /**
   * The entries whose write goes through when the writes at the indices in
   * `failed` throw: every other entry, in batch order. A throwing write does
   * not stop the writes of the other files.
   */
  function Surviving(es: seq<Entry>, failed: set<nat>): (kept: seq<Entry>)
    ensures |kept| <= |es|
  {
    if es == [] then []
    else
      var kept := Surviving(es[..|es| - 1], failed);
      if |es| - 1 in failed then kept else kept + [es[|es| - 1]]
  }

  /** None of the first `n` writes throws. */
  predicate AllWritesSucceed(n: nat, failed: set<nat>) {
    forall i :: 0 <= i < n ==> i !in failed
  }

  /** The first `i + 1` writes succeed when the first `i` do and the next one does. */
  lemma AllWritesStep(i: nat, failed: set<nat>)
    ensures AllWritesSucceed(i + 1, failed) <==> AllWritesSucceed(i, failed) && i !in failed
  {
  }

  /** One more write of the batch. */
  lemma SurvivingStep(es: seq<Entry>, failed: set<nat>, i: nat)
    requires i < |es|
    ensures Surviving(es[..i + 1], failed)
            == if i in failed then Surviving(es[..i], failed) else Surviving(es[..i], failed) + [es[i]]
  {
    assert es[..i + 1][..i] == es[..i];
  }

  /** With no failing write, every entry is written. */
  lemma {:induction false} SurvivingAll(es: seq<Entry>, failed: set<nat>)
    requires AllWritesSucceed(|es|, failed)
    ensures Surviving(es, failed) == es
  {
    if es != [] {
      SurvivingAll(es[..|es| - 1], failed);
    }
  }

  /** The entries written are exactly those at the indices that do not fail. */
  lemma {:induction false} SurvivingMembers(es: seq<Entry>, failed: set<nat>)
    ensures forall i :: 0 <= i < |es| && i !in failed ==> es[i] in Surviving(es, failed)
    ensures forall e :: e in Surviving(es, failed) ==> exists i :: 0 <= i < |es| && i !in failed && es[i] == e
  {
    if es != [] {
      var init := es[..|es| - 1];
      SurvivingMembers(init, failed);
      forall i | 0 <= i < |es| && i !in failed ensures es[i] in Surviving(es, failed) {
        if i < |init| {
          assert es[i] == init[i];
        }
      }
      forall e | e in Surviving(es, failed)
        ensures exists i :: 0 <= i < |es| && i !in failed && es[i] == e
      {
        if e in Surviving(init, failed) {
          var i :| 0 <= i < |init| && i !in failed && init[i] == e;
          assert es[i] == e;
        } else {
          assert es[|es| - 1] == e;
        }
      }
    }
  }

  /** Leaving writes out keeps the names distinct. */
  lemma {:induction false} SurvivingDistinct(es: seq<Entry>, failed: set<nat>)
    requires DistinctNames(es)
    ensures DistinctNames(Surviving(es, failed))
  {
    if es != [] {
      var init := es[..|es| - 1];
      var last := es[|es| - 1];
      assert DistinctNames(init);
      SurvivingDistinct(init, failed);
      if |es| - 1 !in failed {
        var kept := Surviving(init, failed);
        SurvivingMembers(init, failed);
        forall j | 0 <= j < |kept| ensures kept[j].name != last.name {
          assert kept[j] in kept;
          var i :| 0 <= i < |init| && i !in failed && init[i] == kept[j];
          assert es[i] == kept[j];
        }
      }
    }
  }

  /** The entries written carry names not yet in the directory when all the batch's names are new. */
  lemma SurvivingFresh(d: Dir, es: seq<Entry>, failed: set<nat>)
    requires forall i :: 0 <= i < |es| ==> es[i].name !in d
    ensures forall j :: 0 <= j < |Surviving(es, failed)| ==> Surviving(es, failed)[j].name !in d
  {
    var kept := Surviving(es, failed);
    SurvivingMembers(es, failed);
    forall j | 0 <= j < |kept| ensures kept[j].name !in d {
      assert kept[j] in kept;
      var i :| 0 <= i < |es| && i !in failed && es[i] == kept[j];
    }
  }

  /** A write that throws leaves no entry under its name. */
  lemma FailedWriteAbsent(d: Dir, es: seq<Entry>, failed: set<nat>, i: nat)
    requires DistinctNames(es)
    requires forall k :: 0 <= k < |es| ==> es[k].name !in d
    requires i < |es| && i in failed
    ensures es[i].name !in StoreAll(d, Surviving(es, failed))
  {
    var kept := Surviving(es, failed);
    SurvivingMembers(es, failed);
    forall j | 0 <= j < |kept| ensures kept[j].name != es[i].name {
      assert kept[j] in kept;
      var i' :| 0 <= i' < |es| && i' !in failed && es[i'] == kept[j];
      assert i' != i;
    }
    StoreAllKeys(d, kept, es[i].name);
  }

  /** A write that does not throw leaves its bytes under its name. */
  lemma SurvivingWritten(d: Dir, es: seq<Entry>, failed: set<nat>, i: nat)
    requires DistinctNames(es)
    requires i < |es| && i !in failed
    ensures es[i].name in StoreAll(d, Surviving(es, failed))
    ensures StoreAll(d, Surviving(es, failed))[es[i].name] == es[i].content
  {
    var kept := Surviving(es, failed);
    SurvivingMembers(es, failed);
    SurvivingDistinct(es, failed);
    StoreAllContent(d, kept);
    var j :| 0 <= j < |kept| && kept[j] == es[i];
  }

  /**
   * A batch with fresh UUIDs whose names are not yet taken, where the writes at
   * the indices in `failed` throw: afterwards a file's stored name is present
   * exactly when its write did not throw, and then holds its bytes; every
   * earlier entry is untouched.
   */
  lemma BatchStoredExceptFailed(d: Dir, files: seq<File>, ids: seq<string>, stamps: seq<string>, failed: set<nat>)
    requires |ids| == |files| && |stamps| == |files|
    requires UniqueUuids(ids)
    requires forall i :: 0 <= i < |files| ==> StoredNameFor(files[i], ids[i], stamps[i]) !in d
    ensures var after := StoreAll(d, Surviving(Entries(files, ids, stamps), failed));
            && (forall i :: 0 <= i < |files| ==>
                  (StoredNameFor(files[i], ids[i], stamps[i]) in after <==> i !in failed))
            && (forall i :: 0 <= i < |files| && i !in failed ==>
                  after[StoredNameFor(files[i], ids[i], stamps[i])] == files[i].content)
            && (forall k :: k in d ==> k in after && after[k] == d[k])
  {
    var es := Entries(files, ids, stamps);
    EntriesDistinct(files, ids, stamps);
    SurvivingFresh(d, es, failed);
    StoreAllKeeps(d, Surviving(es, failed));
    forall i | 0 <= i < |es| && i in failed
      ensures es[i].name !in StoreAll(d, Surviving(es, failed))
    {
      FailedWriteAbsent(d, es, failed, i);
    }
    forall i | 0 <= i < |es| && i !in failed
      ensures es[i].name in StoreAll(d, Surviving(es, failed))
              && StoreAll(d, Surviving(es, failed))[es[i].name] == es[i].content
    {
      SurvivingWritten(d, es, failed, i);
    }
  }

  // ---------------------------------------------------------------------------
  // The POST handler
  // ---------------------------------------------------------------------------

  /** The I/O failures the handler's `try` block can meet. */
  datatype Faults = Faults(
    malformedRequest: bool,      // `request.formData()` throws
    mkdirFails: bool,            // creating the missing uploads directory throws
    failedWrites: set<nat>)      // reading or writing the files at these indices throws

  /** The metadata returned for one stored file. */
  datatype FileRecord = FileRecord(
    datasetId: string,
    originalName: string,
    storedName: string,
    path: string,
    size: nat,
    mimeType: string,
    uploadedAt: string)

  /** The JSON body and status of the response. */
  datatype UploadResponse =
    | UploadOk(message: string, datasetIds: seq<string>, files: seq<FileRecord>)
    | UploadFailed(status: nat, error: string)

  function SuccessMessage(count: nat): string {
    NatToString(count) + " file(s) uploaded successfully"
  }

  /** The metadata record the handler returns for one file. */
  function RecordFor(f: File, id: string, stamp: string, uploadedAt: string, uploadsDir: string): FileRecord {
    var name := StoredNameFor(f, id, stamp);
    FileRecord(id, f.name, name, uploadsDir + "/" + name, f.size, f.mimeType, uploadedAt)
  }

  /** The records of a whole batch, in file order. */
  function Records(files: seq<File>, ids: seq<string>, stamps: seq<string>, uploadedAt: seq<string>,
                   uploadsDir: string): (rs: seq<FileRecord>)
    requires |ids| == |files| && |stamps| == |files| && |uploadedAt| == |files|
    ensures |rs| == |files|
    ensures forall i :: 0 <= i < |files| ==> rs[i] == RecordFor(files[i], ids[i], stamps[i], uploadedAt[i], uploadsDir)
  {
    seq(|files|, i requires 0 <= i < |files| => RecordFor(files[i], ids[i], stamps[i], uploadedAt[i], uploadsDir))
  }

  /**
   * The per-file step of the handler, run over the batch in order: write the
   * file under its stored name and collect its record. A write that throws
   * leaves no entry, and the other files are still written, as `Promise.all`
   * does not cancel the promises it waits for.
   */
  method WriteFiles(d0: Dir, files: seq<File>, ids: seq<string>, stamps: seq<string>,
                    uploadedAt: seq<string>, uploadsDir: string, failedWrites: set<nat>)
    returns (d: Dir, records: seq<FileRecord>, ok: bool)
    requires |ids| == |files| && |stamps| == |files| && |uploadedAt| == |files|
    ensures ok <==> AllWritesSucceed(|files|, failedWrites)
    ensures d == StoreAll(d0, Surviving(Entries(files, ids, stamps), failedWrites))
    ensures ok ==> records == Records(files, ids, stamps, uploadedAt, uploadsDir)
  {
    var es := Entries(files, ids, stamps);
    var all := Records(files, ids, stamps, uploadedAt, uploadsDir);
    d := d0;
    records := [];
    ok := true;
    for i := 0 to |files|
      invariant d == StoreAll(d0, Surviving(es[..i], failedWrites))
      invariant ok <==> AllWritesSucceed(i, failedWrites)
      invariant ok ==> records == all[..i]
    {
      SurvivingStep(es, failedWrites, i);
      AllWritesStep(i, failedWrites);
      if i in failedWrites {
        ok := false;
      } else {
        StoreAllAppend(d0, Surviving(es[..i], failedWrites), es[i]);
        d := d[es[i].name := es[i].content];
        PrefixStep(all, i);
        records := records + [all[i]];
      }
    }
    assert es[..|files|] == es;
    assert all[..|files|] == all;
  }

  /**
   * `POST`: `files` is the `files` field of the form, `uploads` the directory
   * (None when it does not exist), `ids`, `stamps` and `uploadedAt` what
   * `uuidv4()` and the two `new Date().toISOString()` calls return for each file.
   */
  method Post(files: seq<File>, uploads: Option<Dir>, ids: seq<string>, stamps: seq<string>,
              uploadedAt: seq<string>, uploadsDir: string, faults: Faults)
    returns (response: UploadResponse, uploads': Option<Dir>)
    requires |ids| == |files| && |stamps| == |files| && |uploadedAt| == |files|
    // a request that cannot be read is a server error and touches nothing
    ensures faults.malformedRequest ==> response == UploadFailed(500, UploadFailedError) && uploads' == uploads
    // an empty batch is a client error and touches nothing
    ensures !faults.malformedRequest && |files| == 0 ==>
              response == UploadFailed(400, NoFilesError) && uploads' == uploads
    // the directory is created only when missing; if that fails nothing is written
    ensures !faults.malformedRequest && |files| > 0 && uploads.None? && faults.mkdirFails ==>
              response == UploadFailed(500, UploadFailedError) && uploads' == None
    // otherwise every write that does not throw lands, whether or not another one throws
    ensures !faults.malformedRequest && |files| > 0 && !(uploads.None? && faults.mkdirFails) ==>
              uploads' == Some(StoreAll(uploads.GetOr(map[]), Surviving(Entries(files, ids, stamps), faults.failedWrites)))
    // success exactly when every write went through; every failure is one of the two error bodies
    ensures response.UploadOk? <==>
              !faults.malformedRequest && |files| > 0 && !(uploads.None? && faults.mkdirFails)
              && AllWritesSucceed(|files|, faults.failedWrites)
    ensures response.UploadFailed? ==>
              response == UploadFailed(400, NoFilesError) || response == UploadFailed(500, UploadFailedError)
    // the success body: the count, the ids in file order, and one record per file
    ensures response.UploadOk? ==>
              && response.message == SuccessMessage(|files|)
              && response.datasetIds == ids
              && |response.files| == |files|
              && forall i :: 0 <= i < |files| ==>
                   && response.files[i].datasetId == ids[i]
                   && response.files[i].originalName == files[i].name
                   && response.files[i].storedName == StoredNameFor(files[i], ids[i], stamps[i])
                   && response.files[i].path == uploadsDir + "/" + response.files[i].storedName
                   && response.files[i].size == files[i].size
                   && response.files[i].mimeType == files[i].mimeType
                   && response.files[i].uploadedAt == uploadedAt[i]
  {
    if faults.malformedRequest {
      return UploadFailed(500, UploadFailedError), uploads;
    }
    if |files| == 0 {
      return UploadFailed(400, NoFilesError), uploads;
    }
    var d: Dir;
    if uploads.None? {
      if faults.mkdirFails {
        return UploadFailed(500, UploadFailedError), None;
      }
      d := map[];
    } else {
      d := uploads.value;
    }
    var records, ok;
    d, records, ok := WriteFiles(d, files, ids, stamps, uploadedAt, uploadsDir, faults.failedWrites);
    uploads' := Some(d);
    if !ok {
      return UploadFailed(500, UploadFailedError), uploads';
    }
    var datasetIds := seq(|records|, j requires 0 <= j < |records| => records[j].datasetId);
    response := UploadOk(SuccessMessage(|files|), datasetIds, records);
  }
}
