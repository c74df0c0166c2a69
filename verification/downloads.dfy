/**
 * Resolution of an item's download descriptor: the fixed table of encoding
 * extensions, the scan of the download page for its embedded `data-blob`
 * attribute, and the choice of the offered download whose encoding matches
 * the requested format.
 *
 * The HTML tokenizer is abstracted as the list of tokens it yields and JSON
 * decoding as a function parameter. The decoded `downloads` object is a Go
 * map whose iteration order is unspecified; it is modelled as the list of its
 * entries in the order one iteration visits them, so "the first match in the
 * list" ranges over every entry the Go loop could return.
 */
module Downloads {
  import opened Outcomes

  // ---------------------------------------------------------------------------
  // Encodings and their file extensions
  // ---------------------------------------------------------------------------

  /** Encoding name to the file extension its downloads carry. */
  const Extensions: map<string, string> := map[
    "mp3-v0" := ".mp3",
    "mp3-320" := ".mp3",
    "flac" := ".flac",
    "aac-hi" := ".m4a",
    "vorbis" := ".ogg",
    "alac" := ".m4a",
    "wav" := ".wav",
    "aiff-lossless" := ".aiff"
  ]

  /** The formats the sync command accepts. */
  datatype Encoding = Mp3V0 | Mp3320 | Flac | AacHi | Vorbis | Alac | Wav | AiffLossless {
    /** The name the storefront and the command line use for the format. */
    function Label(): string {
      match this
      case Mp3V0 => "mp3-v0"
      case Mp3320 => "mp3-320"
      case Flac => "flac"
      case AacHi => "aac-hi"
      case Vorbis => "vorbis"
      case Alac => "alac"
      case Wav => "wav"
      case AiffLossless => "aiff-lossless"
    }
  }

  /** The extension a file downloaded in encoding `e` gets, looked up in the table. */
  function Extension(e: Encoding): (r: string)
    ensures r in Extensions.Values
  {
    assert e.Label() in Extensions;
    Extensions[e.Label()]
  }

  /** Every accepted format has an entry, and its extension is a '.' and a lower-case alphanumeric word. */
  lemma {:induction false} ExtensionShape(e: Encoding)
    ensures e.Label() in Extensions && Extension(e) == Extensions[e.Label()]
    ensures |Extension(e)| >= 2 && Extension(e)[0] == '.'
    ensures forall i :: 1 <= i < |Extension(e)| ==> 'a' <= Extension(e)[i] <= 'z' || '0' <= Extension(e)[i] <= '9'
  {
  }

  /** The table has eight entries. */
  lemma {:induction false} ExtensionTableSize()
    ensures |Extensions| == 8
  {
    var keys := {"mp3-v0", "mp3-320", "flac", "aac-hi", "vorbis", "alac", "wav", "aiff-lossless"};
    assert Extensions.Keys == keys;
    assert |keys| == 8;
  }

  /** Each extension in the table is dotted, and two pairs of formats share one. */
  lemma {:induction false} ExtensionTable()
    ensures forall k :: k in Extensions ==> |Extensions[k]| > 1 && Extensions[k][0] == '.'
    ensures Extensions["mp3-v0"] == Extensions["mp3-320"] == ".mp3"
    ensures Extensions["aac-hi"] == Extensions["alac"] == ".m4a"
  {
  }

  /** The accepted formats are exactly the table's keys, each named once. */
  lemma {:induction false} EncodingsMatchTable()
    ensures forall e: Encoding :: e.Label() in Extensions
    ensures forall k :: k in Extensions ==> exists e: Encoding :: e.Label() == k
    ensures forall a: Encoding, b: Encoding :: a.Label() == b.Label() ==> a == b
  {
    forall k | k in Extensions ensures exists e: Encoding :: e.Label() == k {
      if k == "mp3-v0" { assert Mp3V0.Label() == k; }
      else if k == "mp3-320" { assert Mp3320.Label() == k; }
      else if k == "flac" { assert Flac.Label() == k; }
      else if k == "aac-hi" { assert AacHi.Label() == k; }
      else if k == "vorbis" { assert Vorbis.Label() == k; }
      else if k == "alac" { assert Alac.Label() == k; }
      else if k == "wav" { assert Wav.Label() == k; }
      else { assert AiffLossless.Label() == k; }
    }
  }

  // ---------------------------------------------------------------------------
  // The download page
  // ---------------------------------------------------------------------------

  /** One offered download; `email` is not part of the page's entry and is filled in from the page. */
  datatype Download = Download(email: string, sizeMb: string, encoding: string, url: string)

  /** One element of `download_items`: its `downloads` object, entries in iteration order. */
  datatype DownloadItem = DownloadItem(downloads: seq<(string, Download)>)

  /** The decoded blob: the account's email and the downloadable items. */
  datatype PageData = PageData(fanEmail: string, items: seq<DownloadItem>)

  datatype Attr = Attr(key: string, val: string)

  datatype TokenKind = StartTag | EndTag | SelfClosingTag | Text | Comment | Doctype

  /** What the HTML tokenizer yields: a token, or its error token (end of input or a read failure). */
  datatype Token = Tag(kind: TokenKind, attrs: seq<Attr>) | ErrorToken(atEof: bool, msg: string)

  /** The outcome of fetching the download page. */
  datatype PageFetch = RequestFailed(msg: string) | TransportFailed(msg: string) | Page(tokens: seq<Token>)

  datatype ResolveError =
    | Request(msg: string)          // the request could not be built
    | Transport(msg: string)        // the request could not be sent
    | Tokenize(msg: string)         // the tokenizer failed before the end of input
    | BlobMissing                   // fs.ErrNotExist: no non-empty data-blob found
    | Json(msg: string)             // the blob is not the expected JSON
    | NoDownloadItems               // `download_items` is empty (the source indexes it unchecked)
    | Unavailable(format: string)   // "format <f> unavailable"

  const BlobKey: string := "data-blob"

  /** The value of the first `data-blob` attribute of a tag, if it has one. */
  function FirstBlob(attrs: seq<Attr>): (r: Option<string>)
    ensures r.Some? <==> exists i :: 0 <= i < |attrs| && attrs[i].key == BlobKey
    ensures r.Some? ==>
              exists i :: 0 <= i < |attrs| && attrs[i].key == BlobKey && attrs[i].val == r.value &&
                          (forall j :: 0 <= j < i ==> attrs[j].key != BlobKey)
  {
    if |attrs| == 0 then None
    else if attrs[0].key == BlobKey then Some(attrs[0].val)
    else
      var r := FirstBlob(attrs[1..]);
      assert forall i :: 1 <= i < |attrs| ==> attrs[i] == attrs[1..][i - 1];
      r
  }

  /** The blob value a token carries: only start tags count. */
  function Carried(t: Token): Option<string> {
    if t.Tag? && t.kind == StartTag then FirstBlob(t.attrs) else None
  }

  predicate NoErrorTokens(ts: seq<Token>) {
    forall i :: 0 <= i < |ts| ==> ts[i].Tag?
  }

  /** The check after the token loop: an empty blob is fs.ErrNotExist, whether absent or explicitly empty. */
  function FinishBlob(blob: string): (r: Result<string, ResolveError>)
    ensures r.Ok? <==> blob != ""
    ensures r.Err? ==> r.error == BlobMissing
    ensures r.Ok? ==> r.value == blob
  {
    if blob == "" then Err(BlobMissing) else Ok(blob)
  }

  /** The token loop of decodeBlob, with `blob` the value kept so far. */
  function ScanBlob(ts: seq<Token>, blob: string): (r: Result<string, ResolveError>)
    ensures r.Ok? ==> r.value != ""
    ensures r.Ok? ==> r.value == blob || exists i :: 0 <= i < |ts| && Carried(ts[i]) == Some(r.value)
    ensures r.Err? ==> r.error == BlobMissing || r.error.Tokenize?
    decreases |ts|
  {
    if |ts| == 0 then FinishBlob(blob)
    else
      match ts[0]
      case ErrorToken(eof, msg) => if eof then FinishBlob(blob) else Err(Tokenize(msg))
      case Tag(kind, attrs) =>
        var r := ScanBlob(ts[1..], Carried(ts[0]).GetOr(blob));
        assert forall i :: 1 <= i < |ts| ==> ts[i] == ts[1..][i - 1];
        r
  }

  /** decodeBlob up to the JSON step: the blob to decode, or why there is none. */
  function DecodeBlob(ts: seq<Token>): (r: Result<string, ResolveError>)
    ensures r.Ok? ==> r.value != "" && exists i :: 0 <= i < |ts| && Carried(ts[i]) == Some(r.value)
    ensures r.Err? ==> r.error == BlobMissing || r.error.Tokenize?
  {
    ScanBlob(ts, "")
  }

  /** With no carrying start tag left, the loop ends with the value it already holds. */
  lemma {:induction false} ScanNoCarrier(ts: seq<Token>, blob: string)
    requires NoErrorTokens(ts)
    requires forall j :: 0 <= j < |ts| ==> Carried(ts[j]).None?
    ensures ScanBlob(ts, blob) == FinishBlob(blob)
    decreases |ts|
  {
    if |ts| > 0 {
      assert ts[0].Tag? && Carried(ts[0]).None?;
      ScanNoCarrier(ts[1..], blob);
    }
  }

  /** The blob is the value of the last start tag that carries one. */
  lemma {:induction false} ScanLastCarrier(ts: seq<Token>, blob: string, i: nat, v: string)
    requires NoErrorTokens(ts)
    requires i < |ts| && Carried(ts[i]) == Some(v)
    requires forall j :: i < j < |ts| ==> Carried(ts[j]).None?
    ensures ScanBlob(ts, blob) == FinishBlob(v)
    decreases |ts|
  {
    assert ts[0].Tag?;
    if i == 0 {
      ScanNoCarrier(ts[1..], v);
    } else {
      ScanLastCarrier(ts[1..], Carried(ts[0]).GetOr(blob), i - 1, v);
    }
  }

  /** The first error token ends the loop: at end of input like running out of tokens, otherwise with its error. */
  lemma {:induction false} ScanStopsAtError(ts: seq<Token>, blob: string, k: nat)
    requires k < |ts| && ts[k].ErrorToken? && NoErrorTokens(ts[..k])
    ensures ScanBlob(ts, blob) == if ts[k].atEof then ScanBlob(ts[..k], blob) else Err(Tokenize(ts[k].msg))
    decreases k
  {
    if k > 0 {
      assert ts[0] == ts[..k][0] && ts[0].Tag?;
      assert ts[1..][..k - 1] == ts[..k][1..];
      ScanStopsAtError(ts[1..], Carried(ts[0]).GetOr(blob), k - 1);
    }
  }

  /** Tokens other than start tags are ignored wherever they occur. */
  lemma {:induction false} ScanIgnoresOtherTokens(a: seq<Token>, t: Token, b: seq<Token>, blob: string)
    requires NoErrorTokens(a) && t.Tag? && t.kind != StartTag
    ensures ScanBlob(a + [t] + b, blob) == ScanBlob(a + b, blob)
    decreases |a|
  {
    if |a| == 0 {
      assert (a + [t] + b)[1..] == a + b;
    } else {
      assert (a + [t] + b)[0] == a[0] && (a + b)[0] == a[0] && a[0].Tag?;
      assert (a + [t] + b)[1..] == a[1..] + [t] + b;
      assert (a + b)[1..] == a[1..] + b;
      ScanIgnoresOtherTokens(a[1..], t, b, Carried(a[0]).GetOr(blob));
    }
  }

  /**
   * decodeBlob's outcome on a page read to the end: the value of the last
   * carrying start tag when it is non-empty, and fs.ErrNotExist when there
   * is no carrier or the last one carries "".
   */
  lemma {:induction false} DecodeBlobRule(ts: seq<Token>)
    requires NoErrorTokens(ts)
    ensures (forall j :: 0 <= j < |ts| ==> Carried(ts[j]).None?) ==> DecodeBlob(ts) == Err(BlobMissing)
    ensures forall i :: 0 <= i < |ts| && Carried(ts[i]).Some? && (forall j :: i < j < |ts| ==> Carried(ts[j]).None?) ==>
      DecodeBlob(ts) == (if Carried(ts[i]).value == "" then Err(BlobMissing) else Ok(Carried(ts[i]).value))
  {
    if forall j :: 0 <= j < |ts| ==> Carried(ts[j]).None? {
      ScanNoCarrier(ts, "");
    }
    forall i | 0 <= i < |ts| && Carried(ts[i]).Some? && (forall j :: i < j < |ts| ==> Carried(ts[j]).None?)
      ensures DecodeBlob(ts) == (if Carried(ts[i]).value == "" then Err(BlobMissing) else Ok(Carried(ts[i]).value))
    {
      ScanLastCarrier(ts, "", i, Carried(ts[i]).value);
    }
  }

  // ---------------------------------------------------------------------------
  // Choosing the download
  // ---------------------------------------------------------------------------

  /** The loop over `downloads`: the first entry (in iteration order) with the requested encoding, stamped with the email. */
  function SelectDownload(downloads: seq<(string, Download)>, format: string, email: string): (r: Option<Download>)
    ensures r.Some? <==> exists i :: 0 <= i < |downloads| && downloads[i].1.encoding == format
    ensures r.Some? ==> r.value.encoding == format && r.value.email == email
    ensures r.Some? ==> exists i :: 0 <= i < |downloads| && r.value == downloads[i].1.(email := email)
  {
    if |downloads| == 0 then None
    else if downloads[0].1.encoding == format then Some(downloads[0].1.(email := email))
    else
      var r := SelectDownload(downloads[1..], format, email);
      assert forall i :: 1 <= i < |downloads| ==> downloads[i] == downloads[1..][i - 1];
      r
  }

  /** What GetItemDownload does with the decoded page: only the first of `download_items` is consulted. */
  function ChooseFromPage(data: PageData, format: string): (r: Result<Download, ResolveError>)
    ensures r.Ok? <==> |data.items| > 0 && exists i :: 0 <= i < |data.items[0].downloads| && data.items[0].downloads[i].1.encoding == format
    ensures r.Ok? ==> r.value.encoding == format && r.value.email == data.fanEmail
    ensures r == Err(NoDownloadItems) <==> |data.items| == 0
    ensures r.Err? && |data.items| > 0 ==> r == Err(Unavailable(format))
  {
    if |data.items| == 0 then Err(NoDownloadItems)
    else
      match SelectDownload(data.items[0].downloads, format, data.fanEmail)
      case Some(d) => Ok(d)
      case None => Err(Unavailable(format))
  }

  /** Only the first element of `download_items` and the page's email matter. */
  lemma {:induction false} FirstItemOnly(a: PageData, b: PageData, format: string)
    requires |a.items| > 0 && |b.items| > 0
    requires a.fanEmail == b.fanEmail && a.items[0] == b.items[0]
    ensures ChooseFromPage(a, format) == ChooseFromPage(b, format)
  {
  }

  /**
   * GetItemDownload: fetch the page, find its blob, decode it with
   * `unmarshal`, and choose the download in the requested format.
   */
  function GetItemDownload(page: PageFetch, unmarshal: string -> Result<PageData, string>, format: string)
    : (r: Result<Download, ResolveError>)
    ensures r.Ok? ==> r.value.encoding == format
    ensures page.RequestFailed? ==> r == Err(Request(page.msg))
    ensures page.TransportFailed? ==> r == Err(Transport(page.msg))
    ensures page.Page? && DecodeBlob(page.tokens).Err? ==> r == Err(DecodeBlob(page.tokens).error)
    ensures page.Page? && DecodeBlob(page.tokens).Ok? && unmarshal(DecodeBlob(page.tokens).value).Err? ==>
      r == Err(Json(unmarshal(DecodeBlob(page.tokens).value).error))
    ensures page.Page? && DecodeBlob(page.tokens).Ok? && unmarshal(DecodeBlob(page.tokens).value).Ok? ==>
      r == ChooseFromPage(unmarshal(DecodeBlob(page.tokens).value).value, format)
  {
    match page
    case RequestFailed(msg) => Err(Request(msg))
    case TransportFailed(msg) => Err(Transport(msg))
    case Page(tokens) =>
      match DecodeBlob(tokens)
      case Err(e) => Err(e)
      case Ok(blob) =>
        match unmarshal(blob)
        case Err(msg) => Err(Json(msg))
        case Ok(data) => ChooseFromPage(data, format)
  }
}
