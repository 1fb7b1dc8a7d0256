/**
 * The file-session controller of the page (src/app/page.tsx): the state
 * `files`, `busy`, `msg`, `open` and `pick`, the four operations that talk
 * to the storage API, and the status line. Each awaited API call is replaced
 * by a parameter holding how that call settled; each operation runs to its
 * `finally` in one step.
 */
module Session {
  import opened Wrappers
  import opened Types
  import opened FileList
  import opened Disposition
  import opened Blobs

  /** The file chosen in the upload dialog. */
  datatype Payload = Payload(name: string, blob: Blob)

  /** One request sent to the storage API. */
  datatype Request =
    | ListFiles                   // GET /files
    | UploadFile(file: Payload)   // POST /files/upload
    | GetMetadata(id: string)     // GET /files/metadata/{id}
    | DownloadFile(id: string)    // GET /files/download/{id}
    | DeleteFile(id: string)      // DELETE /files/del/{id}

  /** A resolved download: the blob and the Content-Disposition header, if the response had one. */
  datatype Download = Download(body: Blob, disposition: Option<string>)

  /** The state visible while a request is in flight. */
  datatype Snapshot = Snapshot(busy: bool, msg: string)

  /** The status line `busy ? "Working…" : msg || "Ready."`. */
  function StatusOf(busy: bool, msg: string): (s: string)
    ensures |s| > 0
    ensures busy ==> s == "Working\U{2026}"
    ensures !busy ==> (msg != "" && s == msg) || (msg == "" && s == "Ready.")
  {
    if busy then "Working\U{2026}" else if msg != "" then msg else "Ready."
  }

  /** `up.data?.data?.FileID`, kept only when truthy (the guard `if (!id)`). */
  function UploadedId(body: Option<UploadResponse>): (id: Option<string>)
    ensures id.Some? <==> body.Some? && body.value.data.Some? && body.value.data.value.FileID != ""
    ensures id.Some? ==> id.value == body.value.data.value.FileID
  {
    if body.Some? && body.value.data.Some? && body.value.data.value.FileID != "" then
      Some(body.value.data.value.FileID)
    else
      None
  }

  /** Whether `doUpload` reaches "Upload complete.": both calls resolved and a FileID came back. */
  predicate UploadSucceeds(uploaded: Outcome<Option<UploadResponse>>, metadata: Outcome<FileMeta>)
  {
    uploaded.Ok? && UploadedId(uploaded.value).Some? && metadata.Ok?
  }

  /** The requests `doUpload` sends once a file is picked: the metadata request only after a FileID. */
  function UploadRequests(p: Payload, uploaded: Outcome<Option<UploadResponse>>): (rs: seq<Request>)
    ensures 1 <= |rs| <= 2 && rs[0] == UploadFile(p)
    ensures |rs| == 2 <==> uploaded.Ok? && UploadedId(uploaded.value).Some?
    ensures |rs| == 2 ==> rs[1] == GetMetadata(UploadedId(uploaded.value).value)
  {
    if uploaded.Ok? && UploadedId(uploaded.value).Some? then
      [UploadFile(p), GetMetadata(UploadedId(uploaded.value).value)]
    else
      [UploadFile(p)]
  }

  /** The browser requests of one completed download: create, save, revoke, all with the same URL. */
  function DownloadEffects(u: Url, body: Blob, name: string): (es: seq<Effect>)
    ensures |es| == 3
    ensures CreatedCount(es, u) == 1 && RevokedCount(es, u) == 1
    ensures es[0].Created? && es[1].Saved? && es[2].Revoked?
    ensures forall i :: 0 <= i < 3 ==> es[i].url == u
  {
    var last := [Revoked(u)];
    assert last[1..] == [];
    assert CreatedCount(last, u) == 0 && RevokedCount(last, u) == 1;
    var rest := [Saved(u, name)] + last;
    assert rest[1..] == last;
    assert CreatedCount(rest, u) == 0 && RevokedCount(rest, u) == 1;
    var es := [Created(u, body)] + rest;
    assert es[1..] == rest;
    es
  }

  /**
   * Lines 112-119: a temporary object URL for the blob, a click on an anchor
   * that downloads it under the name, and the URL's revocation.
   */
  method SaveThroughObjectUrl(browser: Browser, body: Blob, name: string)
    requires browser.Valid()
    modifies browser
    ensures browser.Valid() && browser.live == old(browser.live)
    ensures browser.issued == old(browser.issued) + 1
    ensures browser.log == old(browser.log) + DownloadEffects(Url(old(browser.issued)), body, name)
    ensures CreatedCount(browser.log, Url(old(browser.issued))) == 1
    ensures RevokedCount(browser.log, Url(old(browser.issued))) == RevokedCount(old(browser.log), Url(old(browser.issued))) + 1
  {
    var u := browser.CreateObjectUrl(body);
    browser.SaveAs(u, name);
    browser.RevokeObjectUrl(u);
    DownloadHistory(old(browser.log), u, body, name);
  }

  class Page {
    var files: seq<FileRow>
    var busy: bool
    var msg: string
    var open: bool
    var pick: Option<Payload>
    /** The state at every await: what the page shows while a request is in flight. */
    ghost var trace: seq<Snapshot>
    /** The requests sent to the storage API, oldest first. */
    ghost var sent: seq<Request>

    /** The initial state of lines 51-56 (the preset API key is not part of this model). */
    constructor()
      ensures files == [] && !busy && msg == "" && !open && pick == None
      ensures trace == [] && sent == []
    {
      files := [];
      busy := false;
      msg := "";
      open := false;
      pick := None;
      trace := [];
      sent := [];
    }

    /** The status line under the toolbar: "Working…" while busy, else the message or "Ready.". */
    function Status(): (s: string)
      reads this
      ensures busy ==> s == "Working\U{2026}"
      ensures !busy && msg != "" ==> s == msg
      ensures !busy && msg == "" ==> s == "Ready."
    {
      StatusOf(busy, msg)
    }

    /** `onOpenChange={setOpen}` and the Cancel button: the upload dialog opens or closes. */
    method SetOpen(b: bool)
      modifies this
      ensures open == b
      ensures files == old(files) && busy == old(busy) && msg == old(msg) && pick == old(pick)
      ensures trace == old(trace) && sent == old(sent)
    {
      open := b;
    }

    /** The file input's `onChange`: the first chosen file, or null when none is. */
    method Choose(p: Option<Payload>)
      modifies this
      ensures pick == p
      ensures files == old(files) && busy == old(busy) && msg == old(msg) && open == old(open)
      ensures trace == old(trace) && sent == old(sent)
    {
      pick := p;
    }

    /** `refresh`: list the files; the list is replaced wholesale, or kept when the call fails. */
    method Refresh(res: Outcome<Option<seq<FileRow>>>)
      modifies this
      ensures !busy
      ensures res.Ok? ==> files == res.value.GetOr([]) && msg == "Loaded."
      ensures res.Err? ==> files == old(files) && msg == "Failed to load files."
      ensures open == old(open) && pick == old(pick)
      ensures trace == old(trace) + [Snapshot(true, "Loading files\U{2026}")]
      ensures sent == old(sent) + [ListFiles]
    {
      busy := true;
      msg := "Loading files\U{2026}";
      sent := sent + [ListFiles];
      trace := trace + [Snapshot(busy, msg)];
      match res {
        case Ok(data) =>
          files := data.GetOr([]);
          msg := "Loaded.";
        case Err =>
          msg := "Failed to load files.";
      }
      busy := false;
    }

    /**
     * `doUpload`: upload the picked file, then fetch its metadata and put that
     * record in front of the list. Without a picked file nothing happens.
     */
    method DoUpload(uploaded: Outcome<Option<UploadResponse>>, metadata: Outcome<FileMeta>)
      modifies this
      ensures old(pick).None? ==> (files == old(files) && busy == old(busy) && msg == old(msg)
        && open == old(open) && pick == old(pick) && trace == old(trace) && sent == old(sent))
      ensures old(pick).Some? ==> !busy && !open && pick.None?
      ensures old(pick).Some? && UploadSucceeds(uploaded, metadata) ==>
        (files == [metadata.value.Row()] + old(files) && msg == "Upload complete.")
      ensures old(pick).Some? && !UploadSucceeds(uploaded, metadata) ==>
        (files == old(files) && msg == "Upload failed.")
      ensures old(pick).Some? ==> sent == old(sent) + UploadRequests(old(pick).value, uploaded)
      ensures old(pick).Some? ==> trace == old(trace) + seq(|UploadRequests(old(pick).value, uploaded)|, _ => Snapshot(true, "Uploading\U{2026}"))
    {
      if pick.None? {
        return;
      }
      var p := pick.value;
      busy := true;
      msg := "Uploading\U{2026}";
      sent := sent + [UploadFile(p)];
      trace := trace + [Snapshot(busy, msg)];
      var id := if uploaded.Ok? then UploadedId(uploaded.value) else None;
      if id.None? {
        msg := "Upload failed.";
      } else {
        sent := sent + [GetMetadata(id.value)];
        trace := trace + [Snapshot(busy, msg)];
        match metadata {
          case Ok(m) =>
            files := [m.Row()] + files;
            msg := "Upload complete.";
          case Err =>
            msg := "Upload failed.";
        }
      }
      busy := false;
      open := false;
      pick := None;
    }

    /**
     * `doDownload`: fetch the blob, derive the filename, and hand the blob to
     * the browser through a temporary object URL that is revoked right after
     * the click. A malformed escape in the header fails the download before
     * any URL is created.
     */
    method DoDownload(id: string, fallbackName: Option<string>, res: Outcome<Download>, browser: Browser)
      requires browser.Valid()
      modifies this, browser
      ensures !busy && files == old(files) && open == old(open) && pick == old(pick)
      ensures trace == old(trace) + [Snapshot(true, "Downloading\U{2026}")]
      ensures sent == old(sent) + [DownloadFile(id)]
      ensures browser.Valid() && browser.live == old(browser.live)
      ensures res.Ok? && DownloadName(id, fallbackName, res.value.disposition).Some? ==>
        (msg == "Download complete."
        && browser.issued == old(browser.issued) + 1
        && browser.log == old(browser.log)
          + DownloadEffects(Url(old(browser.issued)), res.value.body, DownloadName(id, fallbackName, res.value.disposition).value)
        && CreatedCount(browser.log, Url(old(browser.issued))) == 1
        && RevokedCount(browser.log, Url(old(browser.issued))) == RevokedCount(old(browser.log), Url(old(browser.issued))) + 1)
      ensures res.Err? || DownloadName(id, fallbackName, res.value.disposition).None? ==>
        (msg == "Download failed." && browser.issued == old(browser.issued) && browser.log == old(browser.log))
    {
      busy := true;
      msg := "Downloading\U{2026}";
      sent := sent + [DownloadFile(id)];
      trace := trace + [Snapshot(busy, msg)];
      if res.Err? {
        msg := "Download failed.";
      } else {
        var filename := DownloadName(id, fallbackName, res.value.disposition);
        if filename.None? {
          msg := "Download failed.";
        } else {
          SaveThroughObjectUrl(browser, res.value.body, filename.value);
          msg := "Download complete.";
        }
      }
      busy := false;
    }

    /** `doDelete`: delete on the server, then drop every row with that ID. */
    method DoDelete(id: string, res: Outcome<()>)
      modifies this
      ensures !busy && open == old(open) && pick == old(pick)
      ensures res.Ok? ==> files == RemoveById(old(files), id) && msg == "Deleted."
      ensures res.Err? ==> files == old(files) && msg == "Delete failed."
      ensures trace == old(trace) + [Snapshot(true, "Deleting\U{2026}")]
      ensures sent == old(sent) + [DeleteFile(id)]
    {
      busy := true;
      msg := "Deleting\U{2026}";
      sent := sent + [DeleteFile(id)];
      trace := trace + [Snapshot(busy, msg)];
      if res.Ok? {
        files := RemoveById(files, id);
        msg := "Deleted.";
      } else {
        msg := "Delete failed.";
      }
      busy := false;
    }
  }

  /**
   * While any request is in flight the status line reads "Working…", so the
   * progress message set at the start of an operation is never displayed.
   */
  lemma ProgressMessageHidden(m: string)
    ensures StatusOf(true, m) == "Working\U{2026}"
    ensures m != "Working\U{2026}" ==> StatusOf(true, m) != m
  {
  }

  /**
   * Over the browser's whole history, the URL of a completed download is
   * created exactly once, and revoked once more than before.
   */
  lemma DownloadHistory(log: seq<Effect>, u: Url, body: Blob, name: string)
    requires IssuedBefore(log, u.serial)
    ensures CreatedCount(log + DownloadEffects(u, body, name), u) == 1
    ensures RevokedCount(log + DownloadEffects(u, body, name), u) == RevokedCount(log, u) + 1
  {
    NotYetCreated(log, u);
    CountsAppend(log, DownloadEffects(u, body, name), u);
  }

  /** After an upload succeeds the list holds the new record once more than before, in front. */
  lemma UploadPrependsOnce(m: FileMeta, xs: seq<FileRow>)
    ensures |[m.Row()] + xs| == |xs| + 1
    ensures ([m.Row()] + xs)[1..] == xs
    ensures multiset([m.Row()] + xs)[m.Row()] == multiset(xs)[m.Row()] + 1
  {
    assert ([m.Row()] + xs)[1..] == xs;
  }

  /** After a successful delete no row has the ID and every other row keeps its place in the order. */
  lemma DeleteOutcome(xs: seq<FileRow>, id: string)
    ensures !HasId(RemoveById(xs, id), id)
    ensures SubsequenceOf(RemoveById(xs, id), xs)
    ensures forall x: FileRow :: x.ID != id ==> multiset(RemoveById(xs, id))[x] == multiset(xs)[x]
  {
    RemoveKeepsOrder(xs, id);
    forall x: FileRow | x.ID != id ensures multiset(RemoveById(xs, id))[x] == multiset(xs)[x] {
      RemoveCounts(xs, id, x);
    }
  }
}
