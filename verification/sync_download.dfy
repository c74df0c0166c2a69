/**
 * Syncing one planned item into the output directory: the existence and
 * completeness check with its repair of a broken album, resolution of the
 * download descriptor, the request, the status and length checks, writing
 * the body (an album's archive next to its directory, a track straight to
 * its file), extraction of an album, and the removal of the archive.
 *
 * The network is abstracted as the outcome of each remote step (the page
 * fetch, the GET of the download URL) and the archive reader as a function
 * from the downloaded bytes to what it reads. The progress bars and the
 * concurrency of the command are not modelled.
 */
module SyncDownload {
  import opened Outcomes
  import opened Strings
  import opened FileSystem
  import opened Items
  import opened Downloads
  import opened Extract

  // ---------------------------------------------------------------------------
  // Remote inputs and outcomes
  // ---------------------------------------------------------------------------

  /** The body as io.Copy delivers it: all of it, or the bytes written before a read or write error. */
  datatype Body = Complete(data: Bytes) | Broken(written: Bytes, msg: string)

  /** The response to the GET of the download URL. A length of -1 stands for "unknown". */
  datatype Response = Response(status: int, contentLength: int, body: Body)

  /** Building and sending the GET request. */
  datatype Fetch = Unbuildable(msg: string) | Unsent(msg: string) | Received(resp: Response)

  const StatusOK: int := 200

  datatype SyncError =
    | Resolve(why: ResolveError)     // "download: ..." from GetItemDownload
    | RequestInvalid(msg: string)    // "request: ..." from http.NewRequest
    | SendError(msg: string)         // the client's error, returned unwrapped
    | BadStatus(code: int)           // StatusError for any status but 200
    | EmptyPayload                   // fs.ErrNotExist for a zero Content-Length
    | CreateDir(dirError: FsError)    // "create dir: ..." from MkdirAll of the parent
    | CreateFile(fileError: FsError)   // "create: ..." from os.Create
    | Copy(msg: string)              // "copy: ..." from io.Copy
    | EmailMissing(email: string)    // the archive is not a zip: the account's email is unconfirmed
    | ExtractFailed(extractError: ExtractError)

  datatype Outcome = Skipped | Synced | Failed(error: SyncError)

  datatype SyncResult = SyncResult(fs: FS, outcome: Outcome)

  /** The bytes that end up in the created file. */
  function Delivered(b: Body): Bytes {
    match b
    case Complete(data) => data
    case Broken(written, _) => written
  }

  // ---------------------------------------------------------------------------
  // The existence and completeness check
  // ---------------------------------------------------------------------------

  datatype Decision = Skip | Proceed | RepairThenProceed

  /** fmt.Sprintf("%02d %s%s", number, title, extension): the file a track of an album is looked up as. */
  function TrackFileName(t: Track, enc: Encoding): (r: string)
    ensures 0 <= t.number < 100 ==> |r| > 3 && AllDigits(r[..2]) && ValueOf(r[..2]) == t.number && r[2] == ' '
    ensures 0 <= t.number < 100 ==>
      |r| == 3 + |t.title| + |Extension(enc)| && r[3..|r| - |Extension(enc)|] == t.title
    ensures |r| >= |Extension(enc)| && r[|r| - |Extension(enc)|..] == Extension(enc)
  {
    var p := PadTwo(t.number);
    var r := p + " " + t.title + Extension(enc);
    TwoDigitValue(t.number);
    assert 0 <= t.number < 100 ==> r[..2] == p;
    r
  }

  /** The album loop as written: every track's "%02d <title><ext>" path exists under `dir`. */
  function AlbumSyncedAsWritten(fs: FS, dir: string, tracks: seq<Track>, enc: Encoding): (r: bool)
    ensures r <==> forall i :: 0 <= i < |tracks| ==> Join(dir, TrackFileName(tracks[i], enc)) in fs
    decreases |tracks|
  {
    if |tracks| == 0 then true
    else
      var rest := AlbumSyncedAsWritten(fs, dir, tracks[1..], enc);
      assert forall i :: 1 <= i < |tracks| ==> tracks[i] == tracks[1..][i - 1];
      Join(dir, TrackFileName(tracks[0], enc)) in fs && rest
  }

  /**
   * The name extraction gives the entry of a track: the same last-segment
   * and whitelist rewriting, applied to the "%02d <title><ext>" name.
   */
  function ExtractedTrackName(t: Track, enc: Encoding): string {
    EntryFileName(TrackFileName(t, enc))
  }

  /** The album loop, corrected: every track's file exists under `dir` as extraction names it. */
  function AlbumSynced(fs: FS, dir: string, tracks: seq<Track>, enc: Encoding): (r: bool)
    ensures r <==> forall i :: 0 <= i < |tracks| ==> Join(dir, ExtractedTrackName(tracks[i], enc)) in fs
    decreases |tracks|
  {
    if |tracks| == 0 then true
    else
      var rest := AlbumSynced(fs, dir, tracks[1..], enc);
      assert forall i :: 1 <= i < |tracks| ==> tracks[i] == tracks[1..][i - 1];
      Join(dir, ExtractedTrackName(tracks[0], enc)) in fs && rest
  }

  /**
   * The decision shared by both checks: a missing path or --force proceeds;
   * an existing track, or an existing album found complete, is skipped; an
   * existing album found incomplete is removed and downloaded again.
   */
  function Classify(present: bool, force: bool, item: Item, complete: bool): (r: Decision)
    ensures r == Proceed <==> !present || force
    ensures r == RepairThenProceed <==> present && !force && item.itemType != TrackType && !complete
  {
    if !present || force then Proceed
    else if item.itemType == TrackType then Skip
    else if complete then Skip
    else RepairThenProceed
  }

  /** The check as written, looking for the "%02d <title><ext>" files. */
  function DecideAsWritten(fs: FS, path: string, item: Item, force: bool, enc: Encoding): (r: Decision)
    ensures r == Proceed <==> path !in fs || force
    ensures r == RepairThenProceed <==>
      && path in fs && !force && item.itemType != TrackType
      && exists i :: 0 <= i < |item.tracks| && Join(path, TrackFileName(item.tracks[i], enc)) !in fs
  {
    Classify(path in fs, force, item, AlbumSyncedAsWritten(fs, path, item.tracks, enc))
  }

  /** The corrected check, looking for the files under the names extraction gives them. */
  function Decide(fs: FS, path: string, item: Item, force: bool, enc: Encoding): (r: Decision)
    ensures r == Proceed <==> path !in fs || force
    ensures r == Skip <==>
      && path in fs && !force
      && (item.itemType == TrackType
          || forall i :: 0 <= i < |item.tracks| ==> Join(path, ExtractedTrackName(item.tracks[i], enc)) in fs)
    ensures r == RepairThenProceed <==>
      && path in fs && !force && item.itemType != TrackType
      && exists i :: 0 <= i < |item.tracks| && Join(path, ExtractedTrackName(item.tracks[i], enc)) !in fs
  {
    Classify(path in fs, force, item, AlbumSynced(fs, path, item.tracks, enc))
  }

  /** Which completeness check a sync runs: the loop as written, or the corrected one. */
  datatype Check = AsWritten | Corrected

  /**
   * The decision of the chosen check. The two checks differ only in the
   * album loop: on a missing path, under --force and for a track they agree.
   */
  function Verdict(check: Check, fs: FS, path: string, item: Item, force: bool, enc: Encoding): (r: Decision)
    ensures r == Proceed <==> path !in fs || force
    ensures item.itemType == TrackType ==> r == (if path !in fs || force then Proceed else Skip)
    ensures check == AsWritten ==> r == DecideAsWritten(fs, path, item, force, enc)
    ensures check == Corrected ==> r == Decide(fs, path, item, force, enc)
  {
    match check
    case AsWritten => DecideAsWritten(fs, path, item, force, enc)
    case Corrected => Decide(fs, path, item, force, enc)
  }

  /**
   * The repair removes the album directory and nothing outside it, after
   * which both checks, evaluated again, proceed without another removal.
   */
  lemma {:induction false} RepairedProceeds(fs: FS, path: string, item: Item, force: bool, enc: Encoding)
    ensures var cleared := RemoveAll(fs, path);
      && Decide(cleared, path, item, force, enc) == Proceed
      && DecideAsWritten(cleared, path, item, force, enc) == Proceed
      && forall q :: q != path && !Under(q, path) ==> (q in cleared <==> q in fs)
  {
  }

  // ---------------------------------------------------------------------------
  // Fetching and storing
  // ---------------------------------------------------------------------------

  /** The response checks, status first: any status but 200 fails, then a zero length does. */
  function CheckResponse(resp: Response): (r: Option<SyncError>)
    ensures r.None? <==> resp.status == StatusOK && resp.contentLength != 0
    ensures resp.status != StatusOK ==> r == Some(BadStatus(resp.status))
    ensures resp.status == StatusOK && resp.contentLength == 0 ==> r == Some(EmptyPayload)
  {
    if resp.status != StatusOK then Some(BadStatus(resp.status))
    else if resp.contentLength == 0 then Some(EmptyPayload)
    else None
  }

  /** Where the body is written: "<path>.zip" for an album, the path itself for any other item. */
  function DownloadTarget(path: string, item: Item): (r: string)
    ensures item.itemType == AlbumType ==> r == path + ".zip"
    ensures item.itemType != AlbumType ==> r == path
  {
    if item.itemType == AlbumType then path + ".zip" else path
  }

  /** The result of extractAlbum as the command reports it: a format error means the email is missing. */
  function ExtractionOutcome(x: Extraction, email: string): (r: Outcome)
    ensures r == Synced <==> x.failure.None?
    ensures x.failure == Some(ArchiveFormat) ==> r == Failed(EmailMissing(email))
    ensures x.failure.Some? && x.failure.value != ArchiveFormat ==> r == Failed(ExtractFailed(x.failure.value))
  {
    match x.failure
    case None => Synced
    case Some(ArchiveFormat) => Failed(EmailMissing(email))
    case Some(e) => Failed(ExtractFailed(e))
  }

  /**
   * Create the target, copy the body into it, and for anything but a track
   * extract the copied archive into `path`.
   */
  function WriteBody(fs: FS, path: string, target: string, item: Item, email: string, body: Body,
                     readZip: Bytes -> ArchiveRead): (r: SyncResult)
    ensures WriteFile(fs, target, Delivered(body)).Err? ==>
      r == SyncResult(fs, Failed(CreateFile(WriteFile(fs, target, Delivered(body)).error)))
    ensures WriteFile(fs, target, Delivered(body)).Ok? && body.Broken? ==>
      r == SyncResult(WriteFile(fs, target, Delivered(body)).value, Failed(Copy(body.msg)))
    ensures r.outcome != Skipped
  {
    match WriteFile(fs, target, Delivered(body))
    case Err(e) => SyncResult(fs, Failed(CreateFile(e)))
    case Ok(fs2) =>
      match body
      case Broken(_, msg) => SyncResult(fs2, Failed(Copy(msg)))
      case Complete(data) =>
        if item.itemType == TrackType then SyncResult(fs2, Synced)
        else
          var x := ExtractAlbum(fs2, readZip(data), path);
          SyncResult(x.fs, ExtractionOutcome(x, email))
  }

  /** A path the deferred os.Remove has run on is not a file afterwards, whatever it was. */
  lemma {:induction false} RemoveLeavesNoFile(fs: FS, p: string)
    ensures !IsFile(Remove(fs, p), p)
  {
    if IsFile(fs, p) {
      assert Remove(fs, p) == fs - {p};
    }
  }

  /**
   * Everything after the response checks: create the parent directory,
   * write the body, and for an album remove the archive on every way out.
   */
  function Store(fs: FS, path: string, item: Item, email: string, body: Body,
                 readZip: Bytes -> ArchiveRead): (r: SyncResult)
    ensures MkdirAll(fs, Parent(path)).Err? ==> r == SyncResult(fs, Failed(CreateDir(MkdirAll(fs, Parent(path)).error)))
    ensures item.itemType == AlbumType && MkdirAll(fs, Parent(path)).Ok? ==> !IsFile(r.fs, path + ".zip")
    ensures r.outcome != Skipped
  {
    match MkdirAll(fs, Parent(path))
    case Err(e) => SyncResult(fs, Failed(CreateDir(e)))
    case Ok(fs1) =>
      var target := DownloadTarget(path, item);
      var written := WriteBody(fs1, path, target, item, email, body, readZip);
      if item.itemType == AlbumType then
        RemoveLeavesNoFile(written.fs, target);
        SyncResult(Remove(written.fs, target), written.outcome)
      else written
  }

  /**
   * From GetItemDownload to the end: every failure before the body is
   * stored leaves the filesystem as it was.
   */
  function Transfer(fs: FS, path: string, item: Item, descriptor: Result<Download, ResolveError>,
                    fetch: Fetch, readZip: Bytes -> ArchiveRead): (r: SyncResult)
    ensures descriptor.Err? ==> r == SyncResult(fs, Failed(Resolve(descriptor.error)))
    ensures descriptor.Ok? && fetch.Unbuildable? ==> r == SyncResult(fs, Failed(RequestInvalid(fetch.msg)))
    ensures descriptor.Ok? && fetch.Unsent? ==> r == SyncResult(fs, Failed(SendError(fetch.msg)))
    ensures descriptor.Ok? && fetch.Received? && CheckResponse(fetch.resp).Some? ==>
      r == SyncResult(fs, Failed(CheckResponse(fetch.resp).value))
    ensures descriptor.Ok? && fetch.Received? && CheckResponse(fetch.resp).None? ==>
      r == Store(fs, path, item, descriptor.value.email, fetch.resp.body, readZip)
    ensures r.outcome != Skipped
  {
    match descriptor
    case Err(e) => SyncResult(fs, Failed(Resolve(e)))
    case Ok(d) =>
      match fetch
      case Unbuildable(msg) => SyncResult(fs, Failed(RequestInvalid(msg)))
      case Unsent(msg) => SyncResult(fs, Failed(SendError(msg)))
      case Received(resp) =>
        match CheckResponse(resp)
        case Some(e) => SyncResult(fs, Failed(e))
        case None => Store(fs, path, item, d.email, resp.body, readZip)
  }

  /**
   * Download: sync `item` to `output`/`name`, deciding with `check`;
   * `AsWritten` is the command as it stands. `page` and `unmarshal` feed
   * GetItemDownload, `fetch` is the GET of the descriptor's URL and
   * `readZip` what the archive reader makes of the downloaded bytes.
   */
  function SyncItem(check: Check, fs: FS, output: string, name: string, item: Item, force: bool, enc: Encoding,
                    page: PageFetch, unmarshal: string -> Result<PageData, string>, fetch: Fetch,
                    readZip: Bytes -> ArchiveRead): (r: SyncResult)
    ensures r.outcome == Skipped <==> Verdict(check, fs, Join(output, name), item, force, enc) == Skip
    ensures r.outcome == Skipped ==> r.fs == fs
    ensures Verdict(check, fs, Join(output, name), item, force, enc) == RepairThenProceed ==>
      r == Transfer(RemoveAll(fs, Join(output, name)), Join(output, name), item,
                    GetItemDownload(page, unmarshal, enc.Label()), fetch, readZip)
    ensures Verdict(check, fs, Join(output, name), item, force, enc) == Proceed ==>
      r == Transfer(fs, Join(output, name), item, GetItemDownload(page, unmarshal, enc.Label()), fetch, readZip)
  {
    var path := Join(output, name);
    match Verdict(check, fs, path, item, force, enc)
    case Skip => SyncResult(fs, Skipped)
    case Proceed => Transfer(fs, path, item, GetItemDownload(page, unmarshal, enc.Label()), fetch, readZip)
    case RepairThenProceed =>
      Transfer(RemoveAll(fs, path), path, item, GetItemDownload(page, unmarshal, enc.Label()), fetch, readZip)
  }

  // ---------------------------------------------------------------------------
  // Properties of one sync
  // ---------------------------------------------------------------------------

  /** Directories MkdirAll creates for the parent of `path` are shorter than `path` and everything below it. */
  lemma {:induction false} ParentAncestryShort(path: string)
    requires |path| >= 2
    ensures forall q :: q in Ancestry(Parent(path)) ==> |q| < |path|
  {
    ParentShorter(path);
    AncestryNoLonger(Parent(path));
  }

  /** Storing a track at a free path whose parents are not blocked by a file writes the delivered bytes there. */
  lemma {:induction false} StoreTrack(fs: FS, path: string, item: Item, email: string, body: Body,
                                      readZip: Bytes -> ArchiveRead)
    requires item.itemType == TrackType && |path| >= 2 && path !in fs
    requires forall q :: q in Ancestry(Parent(path)) ==> !IsFile(fs, q)
    ensures var r := Store(fs, path, item, email, body, readZip);
      && path in r.fs && r.fs[path] == File(Delivered(body))
      && r.outcome == (if body.Complete? then Synced else Failed(Copy(body.msg)))
  {
    ParentAncestryShort(path);
    var fs1 := MkdirAll(fs, Parent(path)).value;
    assert Parent(path) in Ancestry(Parent(path));
    assert path !in fs1;
    assert DownloadTarget(path, item) == path;
    assert WriteFile(fs1, path, Delivered(body)).Ok?;
  }

  /** Storing an album whose archive is not a zip reports the missing email and creates no album directory. */
  lemma {:induction false} StoreNotZip(fs: FS, path: string, item: Item, email: string, data: Bytes,
                                       readZip: Bytes -> ArchiveRead)
    requires item.itemType == AlbumType && |path| >= 2 && path !in fs && !IsDir(fs, path + ".zip")
    requires forall q :: q in Ancestry(Parent(path)) ==> !IsFile(fs, q)
    requires readZip(data) == FormatError
    ensures var r := Store(fs, path, item, email, Complete(data), readZip);
      && r.outcome == Failed(EmailMissing(email))
      && path !in r.fs
  {
    var zip := path + ".zip";
    ParentAncestryShort(path);
    var fs1 := MkdirAll(fs, Parent(path)).value;
    assert Parent(path) in Ancestry(Parent(path));
    assert NoSlash(".zip");
    ParentAppend(path, ".zip");
    assert zip !in Ancestry(Parent(path));
    assert WriteFile(fs1, zip, data).Ok?;
    var fs2 := WriteFile(fs1, zip, data).value;
    assert path !in fs2;
    assert WriteBody(fs1, path, zip, item, email, Complete(data), readZip) == SyncResult(fs2, Failed(EmailMissing(email)));
  }

  /** The stages a successful album store went through: the parent was made, the archive written and fully extracted, then removed. */
  lemma {:induction false} StoreAlbumStages(fs: FS, path: string, item: Item, email: string, data: Bytes,
                                            readZip: Bytes -> ArchiveRead, es: seq<Entry>)
    requires item.itemType == AlbumType && readZip(data) == Archive(es)
    requires Store(fs, path, item, email, Complete(data), readZip).outcome == Synced
    ensures MkdirAll(fs, Parent(path)).Ok?
    ensures WriteFile(MkdirAll(fs, Parent(path)).value, path + ".zip", data).Ok?
    ensures var fs2 := WriteFile(MkdirAll(fs, Parent(path)).value, path + ".zip", data).value;
      var x := ExtractAlbum(fs2, Archive(es), path);
      && x.failure.None?
      && Store(fs, path, item, email, Complete(data), readZip).fs == Remove(x.fs, path + ".zip")
  {
    var zip := path + ".zip";
    assert MkdirAll(fs, Parent(path)).Ok?;
    var fs1 := MkdirAll(fs, Parent(path)).value;
    assert DownloadTarget(path, item) == zip;
    var w := WriteBody(fs1, path, zip, item, email, Complete(data), readZip);
    assert Store(fs, path, item, email, Complete(data), readZip) == SyncResult(Remove(w.fs, zip), w.outcome);
    assert WriteFile(fs1, zip, data).Ok?;
  }

  /** One path below the album directory, followed through the stages of AlbumStagesContents. */
  lemma {:induction false} AlbumStagesPath(fs: FS, path: string, data: Bytes, es: seq<Entry>, q: string)
    requires |path| >= 2 && Under(q, path) && MkdirAll(fs, Parent(path)).Ok?
    requires WriteFile(MkdirAll(fs, Parent(path)).value, path + ".zip", data).Ok?
    requires ExtractAlbum(WriteFile(MkdirAll(fs, Parent(path)).value, path + ".zip", data).value, Archive(es), path).failure.None?
    ensures var fs2 := WriteFile(MkdirAll(fs, Parent(path)).value, path + ".zip", data).value;
      var rfs := Remove(ExtractAlbum(fs2, Archive(es), path).fs, path + ".zip");
      q in rfs <==> q in fs || exists i :: 0 <= i < |es| && Target(path, es[i]) == q
  {
    var zip := path + ".zip";
    var fs1 := MkdirAll(fs, Parent(path)).value;
    var fs2 := WriteFile(fs1, zip, data).value;
    var x := ExtractAlbum(fs2, Archive(es), path);
    ExtractAlbumContents(fs2, path, es);
    UnderNotSibling(q, path, ".zip");
    assert q in Remove(x.fs, zip) <==> q in x.fs;
    assert q in fs2 <==> q in fs1;
    ParentAncestryShort(path);
    assert q !in Ancestry(Parent(path));
    assert q in fs1 <==> q in fs;
  }

  /**
   * The paths below the album directory after making its parent, writing the
   * archive beside it, extracting every entry and removing the archive.
   */
  lemma {:induction false} AlbumStagesContents(fs: FS, path: string, data: Bytes, es: seq<Entry>)
    requires |path| >= 2 && MkdirAll(fs, Parent(path)).Ok?
    requires WriteFile(MkdirAll(fs, Parent(path)).value, path + ".zip", data).Ok?
    requires ExtractAlbum(WriteFile(MkdirAll(fs, Parent(path)).value, path + ".zip", data).value, Archive(es), path).failure.None?
    ensures var fs2 := WriteFile(MkdirAll(fs, Parent(path)).value, path + ".zip", data).value;
      var rfs := Remove(ExtractAlbum(fs2, Archive(es), path).fs, path + ".zip");
      && path in rfs
      && forall q :: Under(q, path) ==> (q in rfs <==> q in fs || exists i :: 0 <= i < |es| && Target(path, es[i]) == q)
  {
    var fs2 := WriteFile(MkdirAll(fs, Parent(path)).value, path + ".zip", data).value;
    ExtractAlbumContents(fs2, path, es);
    assert path != path + ".zip";
    forall q | Under(q, path)
      ensures var rfs := Remove(ExtractAlbum(fs2, Archive(es), path).fs, path + ".zip");
        q in rfs <==> q in fs || exists i :: 0 <= i < |es| && Target(path, es[i]) == q
    {
      AlbumStagesPath(fs, path, data, es, q);
    }
  }

  /**
   * Storing an album successfully leaves its directory in place, and below
   * it exactly what was there plus the entries' targets.
   */
  lemma {:induction false} StoreAlbumContents(fs: FS, path: string, item: Item, email: string, data: Bytes,
                                              readZip: Bytes -> ArchiveRead, es: seq<Entry>)
    requires item.itemType == AlbumType && |path| >= 2 && readZip(data) == Archive(es)
    requires Store(fs, path, item, email, Complete(data), readZip).outcome == Synced
    ensures var r := Store(fs, path, item, email, Complete(data), readZip);
      && path in r.fs
      && forall q :: Under(q, path) ==> (q in r.fs <==> q in fs || exists i :: 0 <= i < |es| && Target(path, es[i]) == q)
  {
    StoreAlbumStages(fs, path, item, email, data, readZip, es);
    AlbumStagesContents(fs, path, data, es);
  }

  /**
   * A track whose path is free is written in full, or up to where the copy
   * broke, provided no file blocks its parent directories; either way the
   * next run without --force skips it.
   */
  lemma {:induction false} TrackDownload(check: Check, fs: FS, output: string, name: string, item: Item, enc: Encoding,
                                         page: PageFetch, unmarshal: string -> Result<PageData, string>,
                                         d: Download, len: int, body: Body, readZip: Bytes -> ArchiveRead)
    requires item.itemType == TrackType && |name| > 0 && Join(output, name) !in fs
    requires GetItemDownload(page, unmarshal, enc.Label()) == Ok(d) && len != 0
    requires forall q :: q in Ancestry(Parent(Join(output, name))) ==> !IsFile(fs, q)
    ensures var path := Join(output, name);
      var r := SyncItem(check, fs, output, name, item, false, enc, page, unmarshal, Received(Response(StatusOK, len, body)), readZip);
      && path in r.fs && r.fs[path] == File(Delivered(body))
      && r.outcome == (if body.Complete? then Synced else Failed(Copy(body.msg)))
      && DecideAsWritten(r.fs, path, item, false, enc) == Skip
      && Decide(r.fs, path, item, false, enc) == Skip
  {
    var path := Join(output, name);
    var fetch := Received(Response(StatusOK, len, body));
    assert Verdict(check, fs, path, item, false, enc) == Proceed;
    assert CheckResponse(fetch.resp).None?;
    StoreTrack(fs, path, item, d.email, body, readZip);
  }

  /**
   * An album whose archive turns out not to be a zip reports the missing
   * email; its directory is never created and the archive is removed.
   */
  lemma {:induction false} EmailMissingReported(check: Check, fs: FS, output: string, name: string, item: Item, enc: Encoding,
                                                page: PageFetch, unmarshal: string -> Result<PageData, string>,
                                                d: Download, len: int, data: Bytes, readZip: Bytes -> ArchiveRead)
    requires item.itemType == AlbumType && |name| > 0 && Join(output, name) !in fs
    requires GetItemDownload(page, unmarshal, enc.Label()) == Ok(d) && len != 0
    requires readZip(data) == FormatError
    requires forall q :: q in Ancestry(Parent(Join(output, name))) ==> !IsFile(fs, q)
    requires Join(output, name) + ".zip" !in fs
    ensures var path := Join(output, name);
      var r := SyncItem(check, fs, output, name, item, false, enc, page, unmarshal, Received(Response(StatusOK, len, Complete(data))), readZip);
      && r.outcome == Failed(EmailMissing(d.email))
      && path !in r.fs
      && !IsFile(r.fs, path + ".zip")
  {
    var path := Join(output, name);
    var fetch := Received(Response(StatusOK, len, Complete(data)));
    assert Verdict(check, fs, path, item, false, enc) == Proceed;
    assert CheckResponse(fetch.resp).None?;
    StoreNotZip(fs, path, item, d.email, data, readZip);
    NoArchiveLeftBehind(check, fs, output, name, item, false, enc, page, unmarshal, fetch, readZip);
  }

  /**
   * No run leaves an album's archive behind as a file, unless one was there
   * to begin with.
   */
  lemma {:induction false} NoArchiveLeftBehind(check: Check, fs: FS, output: string, name: string, item: Item, force: bool,
                                               enc: Encoding, page: PageFetch,
                                               unmarshal: string -> Result<PageData, string>, fetch: Fetch,
                                               readZip: Bytes -> ArchiveRead)
    requires item.itemType == AlbumType && !IsFile(fs, Join(output, name) + ".zip")
    ensures !IsFile(SyncItem(check, fs, output, name, item, force, enc, page, unmarshal, fetch, readZip).fs, Join(output, name) + ".zip")
  {
    var path := Join(output, name);
    var fs0 := if Verdict(check, fs, path, item, force, enc) == RepairThenProceed then RemoveAll(fs, path) else fs;
    assert !IsFile(fs0, path + ".zip");
    var desc := GetItemDownload(page, unmarshal, enc.Label());
    if desc.Ok? && fetch.Received? && CheckResponse(fetch.resp).None? && MkdirAll(fs0, Parent(path)).Ok? {
      assert !IsFile(Store(fs0, path, item, desc.value.email, fetch.resp.body, readZip).fs, path + ".zip");
    }
  }

  /**
   * The files a successful album sync leaves below the album directory: the
   * extracted entries, plus what was there already when the directory was
   * neither repaired nor absent.
   */
  lemma {:induction false} SyncedAlbumContents(check: Check, fs: FS, output: string, name: string, item: Item, force: bool,
                                               enc: Encoding, page: PageFetch,
                                               unmarshal: string -> Result<PageData, string>, fetch: Fetch,
                                               readZip: Bytes -> ArchiveRead, es: seq<Entry>)
    requires item.itemType == AlbumType && |name| > 0
    requires fetch.Received? && fetch.resp.body.Complete? && readZip(fetch.resp.body.data) == Archive(es)
    requires SyncItem(check, fs, output, name, item, force, enc, page, unmarshal, fetch, readZip).outcome == Synced
    ensures var path := Join(output, name);
      var r := SyncItem(check, fs, output, name, item, force, enc, page, unmarshal, fetch, readZip);
      && path in r.fs
      && forall q :: Under(q, path) ==>
           (q in r.fs <==> (q in fs && Verdict(check, fs, path, item, force, enc) == Proceed)
                           || exists i :: 0 <= i < |es| && Target(path, es[i]) == q)
  {
    var path := Join(output, name);
    var decision := Verdict(check, fs, path, item, force, enc);
    var fs0 := if decision == RepairThenProceed then RemoveAll(fs, path) else fs;
    var desc := GetItemDownload(page, unmarshal, enc.Label());
    var r := SyncItem(check, fs, output, name, item, force, enc, page, unmarshal, fetch, readZip);
    assert r == Transfer(fs0, path, item, desc, fetch, readZip);
    assert desc.Ok? && CheckResponse(fetch.resp).None?;
    assert r == Store(fs0, path, item, desc.value.email, fetch.resp.body, readZip);
    StoreAlbumContents(fs0, path, item, desc.value.email, fetch.resp.body.data, readZip, es);
    forall q | Under(q, path)
      ensures q in fs0 <==> q in fs && decision == Proceed
    {
    }
  }

  /** Joining two different names to the same directory gives two different paths. */
  lemma {:induction false} JoinInjective(dir: string, a: string, b: string)
    requires Join(dir, a) == Join(dir, b)
    ensures a == b
  {
    assert a == Join(dir, a)[|dir| + 1..];
    assert b == Join(dir, b)[|dir| + 1..];
  }

  // ---------------------------------------------------------------------------
  // The completeness check against what extraction writes
  // ---------------------------------------------------------------------------

  /**
   * The check as written, after an album sync that succeeded: a track whose
   * "%02d <title><ext>" name no entry was written under, and which was not
   * there before, is still missing, so the next run without --force removes
   * the album and downloads it again.
   */
  lemma {:induction false} AsWrittenRepairsSyncedAlbum(check: Check, fs: FS, output: string, name: string, item: Item,
                                                       force: bool, enc: Encoding, page: PageFetch,
                                                       unmarshal: string -> Result<PageData, string>, fetch: Fetch,
                                                       readZip: Bytes -> ArchiveRead, es: seq<Entry>, k: nat)
    requires item.itemType == AlbumType && |name| > 0 && k < |item.tracks|
    requires fetch.Received? && fetch.resp.body.Complete? && readZip(fetch.resp.body.data) == Archive(es)
    requires SyncItem(check, fs, output, name, item, force, enc, page, unmarshal, fetch, readZip).outcome == Synced
    requires Join(Join(output, name), TrackFileName(item.tracks[k], enc)) !in fs
    requires forall i :: 0 <= i < |es| ==> EntryFileName(es[i].name) != TrackFileName(item.tracks[k], enc)
    ensures var r := SyncItem(check, fs, output, name, item, force, enc, page, unmarshal, fetch, readZip);
      DecideAsWritten(r.fs, Join(output, name), item, false, enc) == RepairThenProceed
  {
    var path := Join(output, name);
    var r := SyncItem(check, fs, output, name, item, force, enc, page, unmarshal, fetch, readZip);
    var q := Join(path, TrackFileName(item.tracks[k], enc));
    SyncedAlbumContents(check, fs, output, name, item, force, enc, page, unmarshal, fetch, readZip, es);
    JoinUnder(path, TrackFileName(item.tracks[k], enc));
    forall i | 0 <= i < |es| ensures Target(path, es[i]) != q {
      if Target(path, es[i]) == q {
        JoinInjective(path, EntryFileName(es[i].name), TrackFileName(item.tracks[k], enc));
      }
    }
    assert q !in r.fs;
  }

  /**
   * A track whose title holds a character outside the extraction whitelist
   * is looked up under a "%02d <title><ext>" name that extraction never
   * writes, whatever the archive entry is called.
   */
  lemma {:induction false} UnsanitizedTitleNeverWritten(t: Track, enc: Encoding, k: nat, name: string)
    requires k < |t.title| && !Whitelisted(t.title[k])
    ensures EntryFileName(name) != TrackFileName(t, enc)
  {
    var file := TrackFileName(t, enc);
    var at := |PadTwo(t.number)| + 1 + k;
    var written := SanitizeUnicode(LastSegment(name, Separator));
    SanitizeUnicodeWhitelisted(LastSegment(name, Separator));
    TitleAt(t, enc, k);
    if at < |written| {
      assert Whitelisted(written[at]);
    }
  }

  /** In the looked-up name, the title starts right after the padded number and its space. */
  lemma {:induction false} TitleAt(t: Track, enc: Encoding, k: nat)
    requires k < |t.title|
    ensures |PadTwo(t.number)| + 1 + k < |TrackFileName(t, enc)|
    ensures TrackFileName(t, enc)[|PadTwo(t.number)| + 1 + k] == t.title[k]
  {
    assert TrackFileName(t, enc) == PadTwo(t.number) + " " + t.title + Extension(enc);
  }

  /**
   * The check as written, after an album sync that succeeded: an album
   * with a track whose title holds a character outside the extraction
   * whitelist, and whose "%02d <title><ext>" file was not there before, is
   * removed and downloaded again by the next run without --force, whatever
   * the archive held.
   */
  lemma {:induction false} AsWrittenRepairsUnsanitizedTitle(check: Check, fs: FS, output: string, name: string,
                                                            item: Item, force: bool, enc: Encoding, page: PageFetch,
                                                            unmarshal: string -> Result<PageData, string>,
                                                            fetch: Fetch, readZip: Bytes -> ArchiveRead,
                                                            es: seq<Entry>, k: nat, j: nat)
    requires item.itemType == AlbumType && |name| > 0 && k < |item.tracks|
    requires j < |item.tracks[k].title| && !Whitelisted(item.tracks[k].title[j])
    requires fetch.Received? && fetch.resp.body.Complete? && readZip(fetch.resp.body.data) == Archive(es)
    requires SyncItem(check, fs, output, name, item, force, enc, page, unmarshal, fetch, readZip).outcome == Synced
    requires Join(Join(output, name), TrackFileName(item.tracks[k], enc)) !in fs
    ensures var r := SyncItem(check, fs, output, name, item, force, enc, page, unmarshal, fetch, readZip);
      DecideAsWritten(r.fs, Join(output, name), item, false, enc) == RepairThenProceed
  {
    forall i | 0 <= i < |es| ensures EntryFileName(es[i].name) != TrackFileName(item.tracks[k], enc) {
      UnsanitizedTitleNeverWritten(item.tracks[k], enc, j, es[i].name);
    }
    AsWrittenRepairsSyncedAlbum(check, fs, output, name, item, force, enc, page, unmarshal, fetch, readZip, es, k);
  }

  /**
   * The corrected check after an album sync that succeeded: when every track
   * has an entry that extraction names as the track, the next run without
   * --force skips the album.
   */
  lemma {:induction false} SyncedAlbumSkipped(check: Check, fs: FS, output: string, name: string, item: Item,
                                              force: bool, enc: Encoding, page: PageFetch,
                                              unmarshal: string -> Result<PageData, string>, fetch: Fetch,
                                              readZip: Bytes -> ArchiveRead, es: seq<Entry>)
    requires item.itemType == AlbumType && |name| > 0
    requires fetch.Received? && fetch.resp.body.Complete? && readZip(fetch.resp.body.data) == Archive(es)
    requires SyncItem(check, fs, output, name, item, force, enc, page, unmarshal, fetch, readZip).outcome == Synced
    requires forall k :: 0 <= k < |item.tracks| ==>
      exists i :: 0 <= i < |es| && EntryFileName(es[i].name) == ExtractedTrackName(item.tracks[k], enc)
    ensures var r := SyncItem(check, fs, output, name, item, force, enc, page, unmarshal, fetch, readZip);
      Decide(r.fs, Join(output, name), item, false, enc) == Skip
  {
    var path := Join(output, name);
    var r := SyncItem(check, fs, output, name, item, force, enc, page, unmarshal, fetch, readZip);
    SyncedAlbumContents(check, fs, output, name, item, force, enc, page, unmarshal, fetch, readZip, es);
    forall k | 0 <= k < |item.tracks| ensures Join(path, ExtractedTrackName(item.tracks[k], enc)) in r.fs {
      var i :| 0 <= i < |es| && EntryFileName(es[i].name) == ExtractedTrackName(item.tracks[k], enc);
      JoinUnder(path, ExtractedTrackName(item.tracks[k], enc));
      assert Target(path, es[i]) == Join(path, ExtractedTrackName(item.tracks[k], enc));
    }
  }

  /**
   * Entries named "<artist> - %02d <title><ext>" with dash-free parts are
   * written exactly under the names the corrected check looks for.
   */
  lemma {:induction false} ArtistEntryExtracted(artist: string, t: Track, enc: Encoding, e: Entry)
    requires DashFree(artist) && DashFree(TrackFileName(t, enc))
    requires e.name == artist + Separator + TrackFileName(t, enc)
    ensures EntryFileName(e.name) == ExtractedTrackName(t, enc)
  {
    var file := TrackFileName(t, enc);
    ArtistTitleSegment(artist, file);
    DashFreeNoSeparator(file);
    NotContainedNotFound(file, Separator);
    NoOccurrence(file, Separator);
  }

  /** The "%02d <title><ext>" name of the fifth track "Track Name!" in FLAC. */
  lemma {:induction false} BangTrackFileName()
    ensures TrackFileName(Track(5, "Track Name!"), Flac) == "05 Track Name!.flac"
  {
    assert FormatInt(5) == "5";
    assert PadTwo(5) == "05";
    assert Extension(Flac) == ".flac";
  }

  /**
   * The concrete case: an album with the single track "Track Name!", whose
   * archive holds "Artist - 05 Track Name!.flac", syncs, and is then found
   * incomplete by the check as written but complete by the corrected one.
   */
  lemma {:induction false} BangTitleRedownloaded(check: Check, fs: FS, output: string, name: string, item: Item,
                                                 force: bool, page: PageFetch,
                                                 unmarshal: string -> Result<PageData, string>, fetch: Fetch,
                                                 readZip: Bytes -> ArchiveRead, es: seq<Entry>)
    requires item.itemType == AlbumType && |name| > 0 && item.tracks == [Track(5, "Track Name!")]
    requires fetch.Received? && fetch.resp.body.Complete? && readZip(fetch.resp.body.data) == Archive(es)
    requires |es| == 1 && es[0].name == "Artist" + Separator + "05 Track Name!.flac"
    requires SyncItem(check, fs, output, name, item, force, Flac, page, unmarshal, fetch, readZip).outcome == Synced
    requires Join(Join(output, name), "05 Track Name!.flac") !in fs
    ensures var r := SyncItem(check, fs, output, name, item, force, Flac, page, unmarshal, fetch, readZip);
      && DecideAsWritten(r.fs, Join(output, name), item, false, Flac) == RepairThenProceed
      && Decide(r.fs, Join(output, name), item, false, Flac) == Skip
  {
    var t := item.tracks[0];
    var file := TrackFileName(t, Flac);
    BangTrackFileName();
    BangEntryNames();
    SingleEntry(es, file, ExtractedTrackName(t, Flac));
    AsWrittenRepairsSyncedAlbum(check, fs, output, name, item, force, Flac, page, unmarshal, fetch, readZip, es, 0);
    SyncedAlbumSkipped(check, fs, output, name, item, force, Flac, page, unmarshal, fetch, readZip, es);
  }

  /**
   * What a one-entry archive writes, restated over all of its entries: a step
   * kept in its own lemma to keep the solver's cost low.
   */
  lemma {:induction false} SingleEntry(es: seq<Entry>, missing: string, present: string)
    requires |es| == 1 && EntryFileName(es[0].name) != missing && EntryFileName(es[0].name) == present
    ensures forall i :: 0 <= i < |es| ==> EntryFileName(es[i].name) != missing
    ensures exists i :: 0 <= i < |es| && EntryFileName(es[i].name) == present
  {
  }

  /**
   * The names of the concrete case: the entry is written as
   * "05 Track Name_.flac", which is not the looked-up "05 Track Name!.flac"
   * but is what extraction makes of that name.
   */
  lemma {:induction false} BangEntryNames()
    ensures EntryFileName("Artist" + Separator + "05 Track Name!.flac") != "05 Track Name!.flac"
    ensures EntryFileName("05 Track Name!.flac") == EntryFileName("Artist" + Separator + "05 Track Name!.flac")
  {
    var file, written := "05 Track Name!.flac", "05 Track Name_.flac";
    ArtistTitleExample("Artist", file);
    BangFileName(file, written);
    BangDiffers(written, file);
  }

  /** The written and the looked-up name differ in the sanitized character. */
  lemma {:induction false} BangDiffers(written: string, file: string)
    requires written == "05 Track Name_.flac" && file == "05 Track Name!.flac"
    ensures written != file
  {
    assert written[13] != file[13];
  }

  /** A name without " - " is sanitized whole: "05 Track Name!.flac" is written as "05 Track Name_.flac". */
  lemma {:induction false} BangFileName(file: string, written: string)
    requires file == "05 Track Name!.flac" && written == "05 Track Name_.flac"
    ensures EntryFileName(file) == written
  {
    ExampleSanitized(file);
    assert DashFree(file) by {
      assert forall i :: 0 <= i < |file| ==> file[i] in "05 TrackNme!.fl";
    }
    DashFreeNoSeparator(file);
    NotContainedNotFound(file, Separator);
    NoOccurrence(file, Separator);
  }
}
