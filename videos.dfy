/** The video table of the admin console: records loaded from a loosely typed
    server payload and defaulted field by field, delete, the report download's
    file name, and the status rules for the badge and the download button.
    Server replies, the answer to the delete confirmation, the clock and the
    translated placeholder title are inputs. */
module Videos {
  import opened Api
  import Rows

  // ---------------------------------------------------------------------------
  // The raw payload and JavaScript truthiness
  // ---------------------------------------------------------------------------

  /** One property of a raw server record: missing, `null`, or holding a value. */
  datatype Field<T> = Absent | Null | Given(value: T)

  /** What `new Date(...)` is given: a timestamp string or a number of milliseconds.
      The Date object built from it is not modelled further. */
  datatype Stamp = Text(text: string) | Millis(ms: int)

  /** A record of the videos reply. Properties are named after their wire names
      (`original_filename`, `storage_path`, `thumbnail_url`, `uploaded_at`,
      `file_size`, `user_id`), each typed by the kind of value it is meant to hold. */
  datatype RawVideo = RawVideo(
    id: string,
    originalFilename: Field<string>,
    duration: Field<real>,
    status: Field<string>,
    storagePath: Field<string>,
    thumbnailUrl: Field<string>,
    uploadedAt: Field<Stamp>,
    resolution: Field<string>,
    fps: Field<real>,
    fileSize: Field<real>,
    tags: Field<seq<string>>,
    userId: Field<string>)

  /** The fully defaulted row the table shows. */
  datatype Video = Video(
    id: string,
    title: string,
    duration: real,
    status: string,
    url: string,
    thumbnail: string,
    uploadDate: Stamp,
    resolution: string,
    fps: real,
    fileSize: real,
    tags: seq<string>,
    userId: string)

  /** ECMAScript ToBoolean (section 7.1.2 of ECMA-262) for a field: `undefined`
      and `null` are falsy, and so is a value for which `falsy` holds. */
  predicate Truthy<T>(f: Field<T>, falsy: T -> bool)
  {
    f.Given? && !falsy(f.value)
  }

  /** `f || fallback`: the field's own value when it is truthy, else the fallback. */
  function Or<T>(f: Field<T>, falsy: T -> bool, fallback: T): T
  {
    if Truthy(f, falsy) then f.value else fallback
  }

  /** The one falsy string. */
  predicate EmptyText(s: string)
  {
    s == ""
  }

  /** The falsy numbers (NaN has no counterpart among the reals). */
  predicate IsZero(n: real)
  {
    n == 0.0
  }

  /** The falsy arguments `new Date(...)` can receive. */
  predicate FalsyStamp(s: Stamp)
  {
    s == Text("") || s == Millis(0)
  }

  /** Arrays are objects, and objects are always truthy, the empty array included. */
  predicate NeverFalsy(xs: seq<string>)
  {
    false
  }

  // ---------------------------------------------------------------------------
  // Normalisation
  // ---------------------------------------------------------------------------

  /** The default status and resolution. */
  const Pending := "pending"
  const UnknownResolution := "Unknown"

  /** The record built for one raw video; `untitled` is the translated
      placeholder title and `now` the value `Date.now()` returns. The id is
      kept, status and resolution are never empty, and with a non-empty
      placeholder neither is the title. */
  function Normalize(raw: RawVideo, untitled: string, now: int): (v: Video)
    ensures v.id == raw.id
    ensures v.status != "" && v.resolution != ""
    ensures untitled != "" ==> v.title != ""
  {
    Video(
      raw.id,
      Or(raw.originalFilename, EmptyText, untitled),
      Or(raw.duration, IsZero, 0.0),
      Or(raw.status, EmptyText, Pending),
      Or(raw.storagePath, EmptyText, ""),
      Or(raw.thumbnailUrl, EmptyText, ""),
      Or(raw.uploadedAt, FalsyStamp, Millis(now)),
      Or(raw.resolution, EmptyText, UnknownResolution),
      Or(raw.fps, IsZero, 0.0),
      Or(raw.fileSize, IsZero, 0.0),
      Or(raw.tags, NeverFalsy, []),
      Or(raw.userId, EmptyText, ""))
  }

  /** `response.data.map(...)`: every record normalised, in the reply's order. */
  function NormalizeAll(raws: seq<RawVideo>, untitled: string, now: int): (vs: seq<Video>)
    ensures |vs| == |raws|
    ensures forall i :: 0 <= i < |raws| ==> vs[i] == Normalize(raws[i], untitled, now)
    ensures forall i :: 0 <= i < |raws| ==> vs[i].id == raws[i].id
  {
    if raws == [] then [] else [Normalize(raws[0], untitled, now)] + NormalizeAll(raws[1..], untitled, now)
  }

  /** A string property that is missing, `null` or `""`. */
  predicate MissingText(f: Field<string>)
  {
    f == Absent || f == Null || f == Given("")
  }

  /** A numeric property that is missing, `null` or `0`. */
  predicate MissingNumber(f: Field<real>)
  {
    f == Absent || f == Null || f == Given(0.0)
  }

  /** An upload date that is missing, `null`, `""` or `0`. */
  predicate MissingStamp(f: Field<Stamp>)
  {
    f == Absent || f == Null || f == Given(Text("")) || f == Given(Millis(0))
  }

  /** Every missing, `null` or falsy property takes its default; the tags
      fall back only when missing or `null`. */
  lemma NormalizeDefaults(raw: RawVideo, untitled: string, now: int)
    ensures var v := Normalize(raw, untitled, now);
      && (MissingText(raw.originalFilename) ==> v.title == untitled)
      && (MissingNumber(raw.duration) ==> v.duration == 0.0)
      && (MissingText(raw.status) ==> v.status == "pending")
      && (MissingText(raw.storagePath) ==> v.url == "")
      && (MissingText(raw.thumbnailUrl) ==> v.thumbnail == "")
      && (MissingStamp(raw.uploadedAt) ==> v.uploadDate == Millis(now))
      && (MissingText(raw.resolution) ==> v.resolution == "Unknown")
      && (MissingNumber(raw.fps) ==> v.fps == 0.0)
      && (MissingNumber(raw.fileSize) ==> v.fileSize == 0.0)
      && (raw.tags == Absent || raw.tags == Null ==> v.tags == [])
      && (MissingText(raw.userId) ==> v.userId == "")
  {
  }

  /** Every other property passes through unchanged, the empty tag list
      included, and the id always does. */
  lemma NormalizePassesThrough(raw: RawVideo, untitled: string, now: int)
    ensures var v := Normalize(raw, untitled, now);
      && v.id == raw.id
      && (raw.originalFilename.Given? && raw.originalFilename.value != "" ==> v.title == raw.originalFilename.value)
      && (raw.duration.Given? && raw.duration.value != 0.0 ==> v.duration == raw.duration.value)
      && (raw.status.Given? && raw.status.value != "" ==> v.status == raw.status.value)
      && (raw.storagePath.Given? && raw.storagePath.value != "" ==> v.url == raw.storagePath.value)
      && (raw.thumbnailUrl.Given? && raw.thumbnailUrl.value != "" ==> v.thumbnail == raw.thumbnailUrl.value)
      && (raw.uploadedAt.Given? && raw.uploadedAt.value != Text("") && raw.uploadedAt.value != Millis(0) ==>
            v.uploadDate == raw.uploadedAt.value)
      && (raw.resolution.Given? && raw.resolution.value != "" ==> v.resolution == raw.resolution.value)
      && (raw.fps.Given? && raw.fps.value != 0.0 ==> v.fps == raw.fps.value)
      && (raw.fileSize.Given? && raw.fileSize.value != 0.0 ==> v.fileSize == raw.fileSize.value)
      && (raw.tags.Given? ==> v.tags == raw.tags.value)
      && (raw.userId.Given? && raw.userId.value != "" ==> v.userId == raw.userId.value)
  {
  }

  /** A shown row written back as a raw record, every property present. */
  function Encode(v: Video): (raw: RawVideo)
    ensures raw.id == v.id
  {
    RawVideo(v.id, Given(v.title), Given(v.duration), Given(v.status), Given(v.url),
             Given(v.thumbnail), Given(v.uploadDate), Given(v.resolution), Given(v.fps),
             Given(v.fileSize), Given(v.tags), Given(v.userId))
  }

  /** Normalised rows are fully defaulted: sending one back through the
      normalisation changes nothing, whatever the clock reads the second time.
      This needs a first reading other than 0, since a stamp of 0 is falsy and
      would take the second reading; an empty placeholder title is harmless,
      as it falls back to itself. */
  lemma NormalizeFixedPoint(raw: RawVideo, untitled: string, now: int, later: int)
    requires now != 0
    ensures Normalize(Encode(Normalize(raw, untitled, now)), untitled, later) == Normalize(raw, untitled, now)
  {
  }

  /** Which properties are optional in the payload decides nothing about the
      list: normalising a concatenation normalises each part. */
  lemma NormalizeAllAppend(a: seq<RawVideo>, b: seq<RawVideo>, untitled: string, now: int)
    ensures NormalizeAll(a + b, untitled, now) == NormalizeAll(a, untitled, now) + NormalizeAll(b, untitled, now)
  {
  }

  // ---------------------------------------------------------------------------
  // Delete
  // ---------------------------------------------------------------------------

  /** The key `handleDelete` compares against. */
  function VideoId(v: Video): string
  {
    v.id
  }

  /** A successful `handleDelete`: `videos.filter(video => video.id !== videoId)`. */
  function RemoveVideo(videos: seq<Video>, id: string): (r: seq<Video>)
    ensures forall i :: 0 <= i < |r| ==> r[i].id != id && r[i] in videos
    ensures forall i :: 0 <= i < |videos| && videos[i].id != id ==> videos[i] in r
  {
    Rows.Without(videos, VideoId, id)
  }

  // ---------------------------------------------------------------------------
  // The report file name: `${title.replace(/\s+/g, '_')}_report.json`
  // ---------------------------------------------------------------------------

  /** The characters `\s` matches: ECMAScript WhiteSpace and LineTerminator
      (sections 12.2 and 12.3 of ECMA-262), which are tab, line feed, vertical
      tab, form feed, carriage return, space, no-break space, the byte order
      mark, the Unicode space separators, and the line and paragraph separators. */
  predicate IsWhitespace(c: char)
  {
    var n := c as int;
    (0x09 <= n <= 0x0D) || n == 0x20 || n == 0xA0 || n == 0x1680 ||
    (0x2000 <= n <= 0x200A) || n == 0x2028 || n == 0x2029 || n == 0x202F ||
    n == 0x205F || n == 0x3000 || n == 0xFEFF
  }

  predicate NoWhitespace(s: string)
  {
    forall i :: 0 <= i < |s| ==> !IsWhitespace(s[i])
  }

  /** The replacement as one left-to-right scan: `afterSpace` says that the
      previous character was whitespace, so the current run already has its
      underscore. */
  function Sanitize(s: string, afterSpace: bool): (r: string)
    ensures NoWhitespace(r)
    ensures |r| <= |s|
  {
    if s == [] then [] else Lead(s[0], afterSpace) + Sanitize(s[1..], IsWhitespace(s[0]))
  }

  /** What one character contributes to the scan: itself, the underscore that
      opens a whitespace run, or nothing inside a run. */
  function Lead(c: char, afterSpace: bool): (r: string)
    ensures NoWhitespace(r) && |r| <= 1
  {
    if !IsWhitespace(c) then [c] else if afterSpace then "" else "_"
  }

  /** `s.replace(/\s+/g, '_')`: each maximal whitespace run becomes one underscore. */
  function Underscored(s: string): (r: string)
    ensures NoWhitespace(r)
    ensures |r| <= |s|
    ensures r == [] <==> s == []
  {
    Sanitize(s, false)
  }

  const ReportSuffix := "_report.json"

  /** The download's file name: the sanitised title followed by `_report.json`. */
  function ReportFileName(title: string): (name: string)
    ensures NoWhitespace(name)
    ensures |name| >= |ReportSuffix| && name[|name| - |ReportSuffix|..] == ReportSuffix
    ensures NoWhitespace(title) ==> name == title + ReportSuffix
  {
    assert NoWhitespace(ReportSuffix);
    assert NoWhitespace(title) ==> Underscored(title) == title by {
      if NoWhitespace(title) {
        SanitizeIdentity(title, false);
      }
    }
    Underscored(title) + ReportSuffix
  }

  /** A string without whitespace passes the scan unchanged. */
  lemma {:induction false} SanitizeIdentity(s: string, afterSpace: bool)
    requires NoWhitespace(s)
    ensures Sanitize(s, afterSpace) == s
  {
    if s != [] {
      SanitizeIdentity(s[1..], false);
      assert [s[0]] + s[1..] == s;
    }
  }

  /** A title without whitespace is left as it is. */
  lemma UnderscoredIdentity(s: string)
    requires NoWhitespace(s)
    ensures Underscored(s) == s
  {
    SanitizeIdentity(s, false);
  }

  /** Sanitising twice is sanitising once. */
  lemma UnderscoredIdempotent(s: string)
    ensures Underscored(Underscored(s)) == Underscored(s)
  {
    SanitizeIdentity(Underscored(s), false);
  }

  /** The file name is already sanitised. */
  lemma ReportFileNameStable(title: string)
    ensures Underscored(ReportFileName(title)) == ReportFileName(title)
  {
    SanitizeIdentity(ReportFileName(title), false);
  }

  /** Whether the scan is inside a whitespace run after reading `a`. */
  function AfterScan(a: string, afterSpace: bool): bool
  {
    if a == [] then afterSpace else IsWhitespace(a[|a| - 1])
  }

  /** The scan of a concatenation continues from where the first part left it. */
  lemma {:induction false} SanitizeAppend(a: string, b: string, afterSpace: bool)
    ensures Sanitize(a + b, afterSpace) == Sanitize(a, afterSpace) + Sanitize(b, AfterScan(a, afterSpace))
  {
    if a == [] {
      assert a + b == b;
    } else {
      var c, tail := a[0], a[1..];
      assert a + b == [c] + (tail + b);
      SanitizeAppend(tail, b, IsWhitespace(c));
      assert AfterScan(tail, IsWhitespace(c)) == AfterScan(a, afterSpace);
    }
  }

  /** A text that does not open with whitespace is scanned alike in or out of a run. */
  lemma SanitizeFresh(s: string)
    requires s == [] || !IsWhitespace(s[0])
    ensures Sanitize(s, true) == Sanitize(s, false)
  {
  }

  /** A whitespace run yields one underscore, or nothing when a run is already open. */
  lemma {:induction false} SanitizeRun(w: string, afterSpace: bool)
    requires w != [] && forall i :: 0 <= i < |w| ==> IsWhitespace(w[i])
    ensures Sanitize(w, afterSpace) == if afterSpace then "" else "_"
  {
    var tail := w[1..];
    if tail != [] {
      assert forall i :: 0 <= i < |tail| ==> tail[i] == w[i + 1];
      SanitizeRun(tail, true);
    }
  }

  /** Sanitising splits at any point that is not inside a whitespace run. */
  lemma UnderscoredAppend(a: string, b: string)
    requires a == [] || b == [] || !IsWhitespace(a[|a| - 1]) || !IsWhitespace(b[0])
    ensures Underscored(a + b) == Underscored(a) + Underscored(b)
  {
    SanitizeAppend(a, b, false);
    if b == [] || !IsWhitespace(b[0]) {
      SanitizeFresh(b);
    }
  }

  /** The replacement as the regular expression states it: a maximal
      whitespace run `w` between `p` and `s` becomes exactly one underscore,
      and the text on either side is sanitised on its own. */
  lemma UnderscoredRun(p: string, w: string, s: string)
    requires p == [] || !IsWhitespace(p[|p| - 1])
    requires w != [] && forall i :: 0 <= i < |w| ==> IsWhitespace(w[i])
    requires s == [] || !IsWhitespace(s[0])
    ensures Underscored(p + w + s) == Underscored(p) + "_" + Underscored(s)
  {
    SanitizeAppend(p + w, s, false);
    SanitizeAppend(p, w, false);
    SanitizeRun(w, false);
    SanitizeFresh(s);
    assert AfterScan(p + w, false) by {
      assert (p + w)[|p + w| - 1] == w[|w| - 1];
    }
  }

  /** The text a reader sees in a name: everything but whitespace and underscores. */
  function Visible(s: string): string
  {
    if s == [] then []
    else if IsWhitespace(s[0]) || s[0] == '_' then Visible(s[1..])
    else [s[0]] + Visible(s[1..])
  }

  /** The scan keeps every visible character, in order, and adds none. */
  lemma {:induction false} SanitizeVisible(s: string, afterSpace: bool)
    ensures Visible(Sanitize(s, afterSpace)) == Visible(s)
  {
    if s != [] {
      var lead, rest := Lead(s[0], afterSpace), Sanitize(s[1..], IsWhitespace(s[0]));
      SanitizeVisible(s[1..], IsWhitespace(s[0]));
      if lead == [] {
        assert lead + rest == rest;
      } else {
        assert (lead + rest)[0] == lead[0] && (lead + rest)[1..] == rest;
      }
    }
  }

  /** Sanitising keeps every visible character of the title, in order, and adds none. */
  lemma UnderscoredVisible(s: string)
    ensures Visible(Underscored(s)) == Visible(s)
  {
    SanitizeVisible(s, false);
  }

  // ---------------------------------------------------------------------------
  // Status rules
  // ---------------------------------------------------------------------------

  const Completed := "completed"
  const Failed := "error"

  /** The status badge's colour: green, red or yellow. */
  datatype Badge = SuccessBadge | ErrorBadge | PendingBadge

  /** The badge of a shown status: green for completed, red for error,
      yellow for every other status. */
  function BadgeFor(status: string): Badge
  {
    if status == Completed then SuccessBadge
    else if status == Failed then ErrorBadge
    else PendingBadge
  }

  /** The badge of every row the table can show, read off the raw record: a
      missing, `null` or empty status (shown as "pending") is never green or red. */
  lemma ShownBadge(raw: RawVideo, untitled: string, now: int)
    ensures BadgeFor(Normalize(raw, untitled, now).status) ==
      if raw.status == Given("completed") then SuccessBadge
      else if raw.status == Given("error") then ErrorBadge
      else PendingBadge
  {
  }

  /** The download button is enabled (`disabled={video.status !== 'completed'}`)
      exactly for the rows with the green badge. */
  predicate DownloadEnabled(status: string): (b: bool)
    ensures b <==> BadgeFor(status) == SuccessBadge
  {
    status == Completed
  }

  /** The translation key of the download button's tooltip: it offers the
      download exactly when the button is enabled, and otherwise says that
      processing is not complete. */
  function DownloadTitleKey(status: string): (k: string)
    ensures k == "downloadReport" <==> DownloadEnabled(status)
    ensures k != "downloadReport" ==> k == "processingNotComplete"
  {
    if status != Completed then "processingNotComplete" else "downloadReport"
  }

  /** A record without a status shows the pending badge and cannot be downloaded. */
  lemma MissingStatusIsPending(raw: RawVideo, untitled: string, now: int)
    requires !Truthy(raw.status, EmptyText)
    ensures BadgeFor(Normalize(raw, untitled, now).status) == PendingBadge
    ensures !DownloadEnabled(Normalize(raw, untitled, now).status)
  {
  }

  // ---------------------------------------------------------------------------
  // The component
  // ---------------------------------------------------------------------------

  /** The requests the table sends besides the list fetch. */
  datatype Request =
    | DeleteVideo(id: string)  // DELETE /dashboard/videos/{id}
    | GetReport(id: string)    // GET /dashboard/videos/{id}/report

  /** The file the browser is asked to save: its name and the report document. */
  datatype Download = Download(fileName: string, report: string)

  /** The state of the video table component and its handlers. */
  class VideoTable {
    var videos: seq<Video>
    var loading: bool

    /** The `useState` initial values. */
    constructor ()
      ensures videos == [] && !loading
    {
      videos := [];
      loading := false;
    }

    /** `fetchVideos`: install the normalised reply, or toast the failure and
        empty the list; `loading` ends false. */
    method FetchVideos(response: Response<seq<RawVideo>>, untitled: string, now: int) returns (toast: Toast)
      modifies this
      ensures videos == (if response.Ok? then NormalizeAll(response.data, untitled, now) else [])
      ensures toast == (if response.Ok? then NoToast else ErrorToast("videosFetchFailed"))
      ensures !loading
    {
      loading := true;
      if response.Ok? {
        videos := NormalizeAll(response.data, untitled, now);
        toast := NoToast;
      } else {
        toast := ErrorToast("videosFetchFailed");
        videos := [];
      }
      loading := false;
    }

    /** `handleDelete(videoId)`: a declined confirmation sends nothing and
        changes nothing; otherwise the delete is sent, and on success the rows
        with that id are filtered out. */
    method HandleDelete(id: string, confirmed: bool, response: Response<()>) returns (req: Option<Request>, toast: Toast)
      modifies this
      ensures !confirmed ==> req == None && toast == NoToast && videos == old(videos)
      ensures confirmed ==> req == Some(DeleteVideo(id))
      ensures confirmed ==> videos == (if response.Ok? then RemoveVideo(old(videos), id) else old(videos))
      ensures confirmed ==> toast == (if response.Ok? then SuccessToast("videoDeleted") else ErrorToast("videoDeleteFailed"))
      ensures loading == old(loading)
    {
      if !confirmed {
        return None, NoToast;
      }
      req := Some(DeleteVideo(id));
      if response.Ok? {
        videos := RemoveVideo(videos, id);
        toast := SuccessToast("videoDeleted");
      } else {
        toast := ErrorToast("videoDeleteFailed");
      }
    }

    /** `handleDownloadReport(videoId, videoTitle)`: fetch the report and, on
        success, hand the browser a file named after the title; the table's
        state is untouched. */
    method HandleDownloadReport(id: string, title: string, response: Response<string>)
      returns (req: Request, download: Option<Download>, toast: Toast)
      ensures req == GetReport(id)
      ensures response.Ok? ==> download == Some(Download(ReportFileName(title), response.data))
      ensures response.Ok? ==> toast == SuccessToast("reportDownloaded")
      ensures response.Err? ==> download == None && toast == ErrorToast("reportDownloadFailed")
    {
      req := GetReport(id);
      if response.Ok? {
        download := Some(Download(ReportFileName(title), response.data));
        toast := SuccessToast("reportDownloaded");
      } else {
        download := None;
        toast := ErrorToast("reportDownloadFailed");
      }
    }

    /** Clicking a row's download button: a button disabled because the video
        is not completed sends nothing, offers nothing and shows nothing; an
        enabled one runs `handleDownloadReport(video.id, video.title)`. So
        every report that reaches the browser belongs to a completed video. */
    method ClickDownload(v: Video, response: Response<string>)
      returns (req: Option<Request>, download: Option<Download>, toast: Toast)
      ensures !DownloadEnabled(v.status) ==> req == None && download == None && toast == NoToast
      ensures DownloadEnabled(v.status) ==> req == Some(GetReport(v.id))
      ensures DownloadEnabled(v.status) && response.Ok? ==>
                download == Some(Download(ReportFileName(v.title), response.data)) &&
                toast == SuccessToast("reportDownloaded")
      ensures DownloadEnabled(v.status) && response.Err? ==>
                download == None && toast == ErrorToast("reportDownloadFailed")
      ensures download.Some? ==> v.status == "completed" && BadgeFor(v.status) == SuccessBadge
    {
      if !DownloadEnabled(v.status) {
        return None, None, NoToast;
      }
      var r;
      r, download, toast := HandleDownloadReport(v.id, v.title, response);
      req := Some(r);
    }
  }
}
