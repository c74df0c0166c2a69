/**
 * Unpacking a downloaded album archive into its directory: every entry is a
 * track file, named after the last " - " segment of its archive name passed
 * through a strict ASCII whitelist, and written over whatever file already
 * has that name.
 *
 * The archive reader is abstracted as its verdict on the downloaded bytes:
 * a format error, or the list of entries with their contents.
 */
module Extract {
  import opened Outcomes
  import opened Strings
  import opened FileSystem

  datatype Entry = Entry(name: string, isDir: bool, data: Bytes)

  /** What zip.NewReader makes of the downloaded file. */
  datatype ArchiveRead = FormatError | Archive(entries: seq<Entry>)

  datatype ExtractError =
    | ArchiveFormat                  // zip.ErrFormat: not a readable archive
    | MakeDir(cause: FsError)        // the album directory could not be created
    | UnexpectedDirectory            // an entry is a directory
    | WriteFailed(cause: FsError)    // an entry's file could not be written

  /** The filesystem after extraction, and the error that stopped it, if any. */
  datatype Extraction = Extraction(fs: FS, failure: Option<ExtractError>)

  // ---------------------------------------------------------------------------
  // File names
  // ---------------------------------------------------------------------------

  /** ASCII letters and digits, space, '-', '.' and '_'. */
  predicate Whitelisted(c: char) {
    ('a' <= c <= 'z') || ('A' <= c <= 'Z') || ('0' <= c <= '9') || c == ' ' || c == '-' || c == '.' || c == '_'
  }

  function WhitelistChar(c: char): char {
    if Whitelisted(c) then c else '_'
  }

  /** sanitizeUnicode: keep whitelisted characters and turn every other one into '_'. */
  function SanitizeUnicode(s: string): (r: string)
    ensures |r| == |s|
    ensures forall i :: 0 <= i < |s| ==> (Whitelisted(s[i]) ==> r[i] == s[i]) && (!Whitelisted(s[i]) ==> r[i] == '_')
  {
    MapChars(s, WhitelistChar)
  }

  /** The sanitized name is whitelisted ASCII through and through. */
  lemma {:induction false} SanitizeUnicodeWhitelisted(s: string)
    ensures forall i :: 0 <= i < |s| ==> Whitelisted(SanitizeUnicode(s)[i]) && SanitizeUnicode(s)[i] < 128 as char
    ensures NoSlash(SanitizeUnicode(s))
  {
  }

  /** Sanitizing is the identity on whitelisted names, and hence idempotent. */
  lemma {:induction false} SanitizeUnicodeIdempotent(s: string)
    ensures (forall i :: 0 <= i < |s| ==> Whitelisted(s[i])) ==> SanitizeUnicode(s) == s
    ensures SanitizeUnicode(SanitizeUnicode(s)) == SanitizeUnicode(s)
  {
  }

  const Separator: string := " - "

  /** The name an entry is written under: the sanitized last " - " segment of its archive name. */
  function EntryFileName(name: string): (r: string)
    ensures NoSlash(r)
  {
    SanitizeUnicode(LastSegment(name, Separator))
  }

  /** The candidate before sanitizing is the whole name without a separator, and never holds one. */
  lemma {:induction false} EntryFileNameCandidate(name: string)
    ensures var c := LastSegment(name, Separator);
      && !Contains(c, Separator)
      && (!Contains(name, Separator) ==> c == name)
      && |c| <= |name| && name[|name| - |c|..] == c
    ensures EntryFileName(name) == SanitizeUnicode(LastSegment(name, Separator))
  {
    LastSegmentProperties(name, Separator);
  }

  /** No '-' anywhere in `s`. */
  predicate DashFree(s: string) {
    forall i :: 0 <= i < |s| ==> s[i] != '-'
  }

  /** A dash-free string cannot contain the separator, whose middle character is '-'. */
  lemma {:induction false} DashFreeNoSeparator(s: string)
    requires DashFree(s)
    ensures !Contains(s, Separator)
  {
    forall i: nat | i <= |s| ensures !OccursAt(s, Separator, i) {
      if i + 3 <= |s| {
        assert s[i..i + 3][1] == s[i + 1];
      }
    }
  }

  /**
   * For the usual "<artist> - <title>" entry name with dash-free parts, the
   * candidate name is the title.
   */
  lemma {:induction false} ArtistTitleSegment(artist: string, title: string)
    requires DashFree(artist) && DashFree(title)
    ensures LastSegment(artist + Separator + title, Separator) == title
  {
    var s := artist + Separator + title;
    var k := |artist|;
    assert s[k..k + 3] == Separator;
    forall j: nat | j < k ensures !OccursAt(s, Separator, j) {
      assert s[j..j + 3][1] == s[j + 1];
      assert j + 1 < k ==> s[j + 1] == artist[j + 1];
    }
    FirstOccurrence(s, Separator, k);
    SplitStep(s, Separator, k);
    assert s[k + 3..] == title;
    DashFreeNoSeparator(title);
    NotContainedNotFound(title, Separator);
    NoOccurrence(title, Separator);
  }

  /**
   * The entry `Artist - 05 Track Name!.flac` is written as
   * `05 Track Name_.flac`: the artist prefix is dropped, the spaces stay and
   * the '!' becomes '_'.
   */
  lemma {:induction false} EntryFileNameExample()
    ensures EntryFileName("Artist" + Separator + "05 Track Name!.flac") == "05 Track Name_.flac"
  {
    ArtistTitleExample("Artist", "05 Track Name!.flac");
  }

  /** The same entry, with the artist and the file name passed in as parameters. */
  lemma {:induction false} ArtistTitleExample(artist: string, title: string)
    requires artist == "Artist" && title == "05 Track Name!.flac"
    ensures EntryFileName(artist + Separator + title) == "05 Track Name_.flac"
  {
    assert DashFree(artist) by {
      assert forall i :: 0 <= i < |artist| ==> artist[i] in "Artist";
    }
    assert DashFree(title) by {
      assert forall i :: 0 <= i < |title| ==> title[i] in "05 TrackNme!.fl";
    }
    ArtistTitleSegment(artist, title);
    ExampleSanitized(title);
  }

  /** `05 Track Name!.flac` sanitizes to `05 Track Name_.flac`: only the '!' is outside the whitelist. */
  lemma {:induction false} ExampleSanitized(rest: string)
    requires rest == "05 Track Name!.flac"
    ensures SanitizeUnicode(rest) == "05 Track Name_.flac"
  {
    var expected := "05 Track Name_.flac";
    var r := SanitizeUnicode(rest);
    forall i | 0 <= i < |expected| ensures r[i] == expected[i] {
      if i == 13 {
        assert !Whitelisted(rest[i]);
      } else {
        assert Whitelisted(rest[i]) && rest[i] == expected[i];
      }
    }
  }

  function Target(dir: string, e: Entry): (r: string)
    ensures Under(r, dir) && NoSlash(r[|dir| + 1..])
  {
    var r := Join(dir, EntryFileName(e.name));
    assert r[|dir| + 1..] == EntryFileName(e.name);
    r
  }

  // ---------------------------------------------------------------------------
  // Writing the entries
  // ---------------------------------------------------------------------------

  /** The entry loop of extractAlbum: stop at a directory entry or a failed write, otherwise write and go on. */
  function WriteEntries(fs: FS, dir: string, es: seq<Entry>): (r: Extraction)
    ensures r.failure.None? ==> forall i :: 0 <= i < |es| ==> !es[i].isDir
    ensures r.failure == Some(UnexpectedDirectory) ==> exists i :: 0 <= i < |es| && es[i].isDir
    decreases |es|
  {
    if |es| == 0 then Extraction(fs, None)
    else if es[0].isDir then Extraction(fs, Some(UnexpectedDirectory))
    else
      match WriteFile(fs, Target(dir, es[0]), es[0].data)
      case Err(e) => Extraction(fs, Some(WriteFailed(e)))
      case Ok(fs') =>
        var r := WriteEntries(fs', dir, es[1..]);
        assert forall i :: 1 <= i < |es| ==> es[i] == es[1..][i - 1];
        r
  }

  /**
   * extractAlbum: a format error is returned before the directory is
   * created; otherwise the directory is created and the entries written.
   */
  function ExtractAlbum(fs: FS, archive: ArchiveRead, dir: string): (r: Extraction)
    ensures archive.FormatError? ==> r == Extraction(fs, Some(ArchiveFormat))
    ensures archive.Archive? && MkdirAll(fs, dir).Err? ==> r == Extraction(fs, Some(MakeDir(MkdirAll(fs, dir).error)))
    ensures archive.Archive? && MkdirAll(fs, dir).Ok? ==> r == WriteEntries(MkdirAll(fs, dir).value, dir, archive.entries)
  {
    match archive
    case FormatError => Extraction(fs, Some(ArchiveFormat))
    case Archive(entries) =>
      match MkdirAll(fs, dir)
      case Err(e) => Extraction(fs, Some(MakeDir(e)))
      case Ok(fs') => WriteEntries(fs', dir, entries)
  }

  /** Writing a concatenation is writing the first part, then, if that succeeded, the second. */
  lemma {:induction false} WriteEntriesAppend(fs: FS, dir: string, a: seq<Entry>, b: seq<Entry>)
    ensures WriteEntries(fs, dir, a + b) ==
      (var x := WriteEntries(fs, dir, a); if x.failure.Some? then x else WriteEntries(x.fs, dir, b))
    decreases |a|
  {
    if |a| > 0 {
      assert (a + b)[0] == a[0];
      assert (a + b)[1..] == a[1..] + b;
      if !a[0].isDir && WriteFile(fs, Target(dir, a[0]), a[0].data).Ok? {
        WriteEntriesAppend(WriteFile(fs, Target(dir, a[0]), a[0].data).value, dir, a[1..], b);
      }
    } else {
      assert a + b == b;
    }
  }

  /**
   * A directory entry fails the extraction with "unexpected directory": the
   * entries before it stay written and those after it are never looked at.
   */
  lemma {:induction false} DirectoryEntryStops(fs: FS, dir: string, es: seq<Entry>, k: nat)
    requires k < |es| && es[k].isDir
    requires WriteEntries(fs, dir, es[..k]).failure.None?
    ensures WriteEntries(fs, dir, es) == Extraction(WriteEntries(fs, dir, es[..k]).fs, Some(UnexpectedDirectory))
  {
    assert es == es[..k] + es[k..];
    WriteEntriesAppend(fs, dir, es[..k], es[k..]);
  }

  /** The contents written, per path: each target holds the bytes of the last entry aimed at it. */
  function Written(dir: string, es: seq<Entry>): map<string, Bytes>
    decreases |es|
  {
    if |es| == 0 then map[]
    else Written(dir, es[..|es| - 1])[Target(dir, es[|es| - 1]) := es[|es| - 1].data]
  }

  /** `fs` with each path of `w` holding the bytes `w` gives it. */
  function Overlay(fs: FS, w: map<string, Bytes>): FS {
    fs + map p | p in w :: File(w[p])
  }

  /** The paths written are exactly the entries' targets. */
  lemma {:induction false} WrittenKeys(dir: string, es: seq<Entry>)
    ensures forall p :: p in Written(dir, es) <==> exists i :: 0 <= i < |es| && Target(dir, es[i]) == p
    decreases |es|
  {
    if |es| > 0 {
      var init := es[..|es| - 1];
      WrittenKeys(dir, init);
      assert forall i :: 0 <= i < |init| ==> init[i] == es[i];
    }
  }

  /** Later entries win: a target holds the bytes of the last entry that sanitizes to it. */
  lemma {:induction false} WrittenLastWins(dir: string, es: seq<Entry>, j: nat)
    requires j < |es|
    requires forall k :: j < k < |es| ==> Target(dir, es[k]) != Target(dir, es[j])
    ensures Target(dir, es[j]) in Written(dir, es) && Written(dir, es)[Target(dir, es[j])] == es[j].data
    decreases |es|
  {
    if j < |es| - 1 {
      var init := es[..|es| - 1];
      assert init[j] == es[j];
      assert forall k :: j < k < |init| ==> init[k] == es[k];
      WrittenLastWins(dir, init, j);
    }
  }

  /**
   * After a successful run of the entry loop, the filesystem is the old one
   * with every target overwritten by the bytes of its last entry, and
   * nothing else changed.
   */
  lemma {:induction false} WriteEntriesSuccess(fs: FS, dir: string, es: seq<Entry>)
    requires WriteEntries(fs, dir, es).failure.None?
    ensures WriteEntries(fs, dir, es).fs == Overlay(fs, Written(dir, es))
    decreases |es|
  {
    if |es| == 0 {
      assert Overlay(fs, map[]) == fs;
    } else {
      var init := es[..|es| - 1];
      var last := es[|es| - 1];
      LastSplit(es);
      WriteEntriesAppend(fs, dir, init, [last]);
      var x := WriteEntries(fs, dir, init);
      WriteEntriesSuccess(fs, dir, init);
      WriteOne(x.fs, dir, last);
      OverlayUpdate(fs, Written(dir, init), Target(dir, last), last.data);
    }
  }

  /**
   * A non-empty list is its prefix followed by its last entry: a step kept in
   * its own lemma to keep the solver's cost low.
   */
  lemma {:induction false} LastSplit(es: seq<Entry>)
    requires |es| > 0
    ensures es == es[..|es| - 1] + [es[|es| - 1]]
  {
  }

  /** A successful run over a single entry writes its bytes at its target. */
  lemma {:induction false} WriteOne(fs: FS, dir: string, e: Entry)
    requires WriteEntries(fs, dir, [e]).failure.None?
    ensures WriteEntries(fs, dir, [e]).fs == fs[Target(dir, e) := File(e.data)]
  {
    assert [e][0] == e && [e][1..] == [];
  }

  /** Writing one more path on top of an overlay is overlaying the extended map. */
  lemma {:induction false} OverlayUpdate(fs: FS, w: map<string, Bytes>, p: string, d: Bytes)
    ensures Overlay(fs, w)[p := File(d)] == Overlay(fs, w[p := d])
  {
  }

  /** The entry loop never removes a path or turns a directory into a file. */
  lemma {:induction false} WriteEntriesKeepsDirectories(fs: FS, dir: string, es: seq<Entry>)
    ensures fs.Keys <= WriteEntries(fs, dir, es).fs.Keys
    ensures forall p :: IsDir(fs, p) ==> IsDir(WriteEntries(fs, dir, es).fs, p)
    decreases |es|
  {
    if |es| > 0 && !es[0].isDir && WriteFile(fs, Target(dir, es[0]), es[0].data).Ok? {
      WriteEntriesKeepsDirectories(WriteFile(fs, Target(dir, es[0]), es[0].data).value, dir, es[1..]);
    }
  }

  /** The entry loop touches only paths strictly inside the album directory. */
  lemma {:induction false} WriteEntriesFrame(fs: FS, dir: string, es: seq<Entry>, p: string)
    requires |dir| > 0 && !Under(p, dir)
    ensures p in WriteEntries(fs, dir, es).fs <==> p in fs
    ensures p in fs ==> WriteEntries(fs, dir, es).fs[p] == fs[p]
    decreases |es|
  {
    if |es| > 0 && !es[0].isDir {
      ParentOfJoin(dir, EntryFileName(es[0].name));
      if WriteFile(fs, Target(dir, es[0]), es[0].data).Ok? {
        WriteEntriesFrame(WriteFile(fs, Target(dir, es[0]), es[0].data).value, dir, es[1..], p);
      }
    }
  }

  /**
   * Once the directory exists, the only ways the loop can fail are a
   * directory entry and a target that is itself a directory.
   */
  lemma {:induction false} WriteEntriesSucceeds(fs: FS, dir: string, es: seq<Entry>)
    requires |dir| > 0 && IsDir(fs, dir)
    requires forall i :: 0 <= i < |es| ==> !es[i].isDir && !IsDir(fs, Target(dir, es[i]))
    ensures WriteEntries(fs, dir, es).failure.None?
    decreases |es|
  {
    if |es| > 0 {
      var t := Target(dir, es[0]);
      ParentOfJoin(dir, EntryFileName(es[0].name));
      var fs' := WriteFile(fs, t, es[0].data).value;
      assert forall i :: 0 <= i < |es[1..]| ==> es[1..][i] == es[i + 1];
      WriteEntriesSucceeds(fs', dir, es[1..]);
    }
  }

  /**
   * A readable archive whose entries are all files lands completely in the
   * album directory: the directory exists and every target holds its last
   * entry's bytes, provided no target is already a directory.
   */
  lemma {:induction false} ExtractAlbumSuccess(fs: FS, dir: string, es: seq<Entry>)
    requires |dir| > 0 && MkdirAll(fs, dir).Ok?
    requires forall i :: 0 <= i < |es| ==> !es[i].isDir && !IsDir(fs, Target(dir, es[i]))
    ensures var r := ExtractAlbum(fs, Archive(es), dir); var w := Written(dir, es);
      && r.failure.None?
      && IsDir(r.fs, dir)
      && r.fs == Overlay(MkdirAll(fs, dir).value, w)
  {
    var fs1 := MkdirAll(fs, dir).value;
    AncestryNoLonger(dir);
    forall i | 0 <= i < |es| ensures !IsDir(fs1, Target(dir, es[i])) {
      var t := Target(dir, es[i]);
      assert |t| > |dir|;
      assert t !in Ancestry(dir);
    }
    WriteEntriesSucceeds(fs1, dir, es);
    WriteEntriesSuccess(fs1, dir, es);
    WriteEntriesKeepsDirectories(fs1, dir, es);
  }

  /**
   * After a successful extraction the album directory exists, and the paths
   * longer than it are those there before plus the entries' targets.
   */
  lemma {:induction false} ExtractAlbumContents(fs: FS, dir: string, es: seq<Entry>)
    requires ExtractAlbum(fs, Archive(es), dir).failure.None?
    ensures var x := ExtractAlbum(fs, Archive(es), dir);
      && IsDir(x.fs, dir)
      && forall q :: |q| > |dir| ==> (q in x.fs <==> q in fs || exists i :: 0 <= i < |es| && Target(dir, es[i]) == q)
  {
    var fs1 := MkdirAll(fs, dir).value;
    WriteEntriesSuccess(fs1, dir, es);
    WrittenKeys(dir, es);
    WriteEntriesKeepsDirectories(fs1, dir, es);
    AncestryNoLonger(dir);
  }
}
