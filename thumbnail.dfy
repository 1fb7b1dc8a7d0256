/**
 * The thumbnail logic of one grid card (src/components/grid-card.tsx): the
 * `img` decision, the effect that fetches the file and turns it into an
 * object URL, the `active` flag its cleanup clears, and the choice between
 * the preview image and the "No preview" placeholder. The `thumb` string is
 * an optional object URL; the empty string is None.
 */
module Thumbnail {
  import opened Wrappers
  import opened Types
  import opened Utils
  import opened Blobs

  /**
   * One run of the effect: the file ID and `img` it saw, the `thumb` its
   * cleanup closure captured, its `active` flag, and whether its fetch is
   * still in flight.
   */
  datatype Run = Run(id: string, img: bool, captured: Option<Url>, active: bool, pending: bool)

  /** `isImageExt(ext(filename))`: whether a file gets a preview at all. */
  function ImageFile(filename: string): (img: bool)
    ensures img <==> Ext(filename) in ImageExts
    ensures img ==> Ext(filename) != ""
  {
    ImageExtOfExt(filename);
    IsImageExt(Ext(filename))
  }

  class GridCard {
    /** The `f` prop. */
    var f: FileRow
    /** The `thumb` state. */
    var thumb: Option<Url>
    /** Every run of the effect so far, oldest first. */
    var runs: seq<Run>

    /** Only the latest run can still be active, and a run only fetches for an image file. */
    predicate Valid()
      reads this
    {
      && (forall i :: 0 <= i < |runs| - 1 ==> !runs[i].active)
      && (forall i :: 0 <= i < |runs| && runs[i].pending ==> runs[i].img)
    }

    /** The first render: `thumb` starts as "". */
    constructor(f: FileRow)
      ensures Valid()
      ensures this.f == f && thumb == None && runs == []
    {
      this.f := f;
      thumb := None;
      runs := [];
    }

    /** `img` of lines 25-26, for the current props. */
    function Img(): (img: bool)
      reads this
      ensures img <==> Ext(f.Filename) in ImageExts
      ensures img ==> Ext(f.Filename) != ""
    {
      ImageFile(f.Filename)
    }

    /** Line 50: the preview is drawn exactly when the file is an image and `thumb` is non-empty. */
    function ShowsPreview(): (shows: bool)
      reads this
      ensures shows <==> Ext(f.Filename) in ImageExts && thumb.Some?
    {
      Img() && thumb.Some?
    }

    /** A re-render with new props; `thumb` is state and survives it. */
    method SetProps(g: FileRow)
      modifies this
      ensures f == g && thumb == old(thumb) && runs == old(runs)
    {
      f := g;
    }

    /**
     * The effect runs (on mount, and after a cleanup when `f.ID` changed): a
     * fresh `active` flag, the current `thumb` captured for the cleanup, and a
     * fetch only for an image file.
     */
    method RunEffect()
      requires Valid() && (runs == [] || !runs[|runs| - 1].active)
      modifies this
      ensures Valid()
      ensures runs == old(runs) + [Run(f.ID, Img(), thumb, true, Img())]
      ensures f == old(f) && thumb == old(thumb)
    {
      runs := runs + [Run(f.ID, Img(), thumb, true, Img())];
    }

    /**
     * The fetch of run k settles. On success an object URL is created for the
     * blob and stored only if that run is still active; a failure is swallowed.
     */
    method Resolve(k: nat, res: Outcome<Blob>, browser: Browser)
      requires Valid() && browser.Valid()
      requires k < |runs| && runs[k].pending
      modifies this, browser
      ensures Valid() && browser.Valid()
      ensures f == old(f)
      ensures runs == old(runs)[k := old(runs[k]).(pending := false)]
      ensures res.Err? ==> (thumb == old(thumb)
        && browser.live == old(browser.live) && browser.issued == old(browser.issued) && browser.log == old(browser.log))
      ensures res.Ok? ==> (browser.log == old(browser.log) + [Created(Url(old(browser.issued)), res.value)]
        && browser.live == old(browser.live) + {Url(old(browser.issued))} && browser.issued == old(browser.issued) + 1)
      ensures res.Ok? && old(runs[k].active) ==> thumb == Some(Url(old(browser.issued)))
      ensures !old(runs[k].active) ==> thumb == old(thumb)
    {
      var r := runs[k];
      if res.Ok? {
        var u := browser.CreateObjectUrl(res.value);
        if r.active {
          thumb := Some(u);
        }
      }
      runs := runs[k := r.(pending := false)];
    }

    /**
     * The cleanup of run k: its `active` flag is cleared and the `thumb` it
     * captured, if non-empty, is revoked. The current `thumb` is left alone.
     */
    method Cleanup(k: nat, browser: Browser)
      requires Valid() && browser.Valid()
      requires k < |runs| && runs[k].active
      modifies this, browser
      ensures Valid() && browser.Valid()
      ensures f == old(f) && thumb == old(thumb)
      ensures runs == old(runs)[k := old(runs[k]).(active := false)]
      ensures browser.issued == old(browser.issued)
      ensures old(runs[k].captured).None? ==> (browser.live == old(browser.live) && browser.log == old(browser.log))
      ensures old(runs[k].captured).Some? ==>
        (browser.live == old(browser.live) - {old(runs[k].captured.value)}
        && browser.log == old(browser.log) + [Revoked(old(runs[k].captured.value))])
    {
      var r := runs[k];
      runs := runs[k := r.(active := false)];
      if r.captured.Some? {
        browser.RevokeObjectUrl(r.captured.value);
      }
    }
  }

  /**
   * Mount, fetch, unmount: the cleanup captured the `thumb` of the first
   * render, which was "", so the object URL the fetch produced stays live.
   */
  method UnmountKeepsThumbLive(f: FileRow, blob: Blob) returns (browser: Browser, card: GridCard)
    requires ImageFile(f.Filename)
    ensures card.thumb == Some(Url(0)) && card.ShowsPreview()
    ensures card.runs == [Run(f.ID, true, None, false, false)]
    ensures browser.live == {Url(0)} && browser.log == [Created(Url(0), blob)]
  {
    browser := new Browser();
    card := new GridCard(f);
    card.RunEffect();
    card.Resolve(0, Ok(blob), browser);
    card.Cleanup(0, browser);
  }

  /**
   * Mount, unmount, then the fetch resolves: the late URL is created but not
   * stored, and nothing will ever revoke it.
   */
  method LateResultIsDropped(f: FileRow, blob: Blob) returns (browser: Browser, card: GridCard)
    requires ImageFile(f.Filename)
    ensures card.thumb == None && !card.ShowsPreview()
    ensures card.runs == [Run(f.ID, true, None, false, false)]
    ensures browser.live == {Url(0)} && browser.log == [Created(Url(0), blob)]
  {
    browser := new Browser();
    card := new GridCard(f);
    card.RunEffect();
    card.Cleanup(0, browser);
    card.Resolve(0, Ok(blob), browser);
  }

  /** A card for a file that is not an image never fetches: its run is not pending and `thumb` stays "". */
  method NonImageNeverFetches(f: FileRow) returns (card: GridCard)
    requires !ImageFile(f.Filename)
    ensures card.runs == [Run(f.ID, false, None, true, false)]
    ensures card.thumb == None && !card.ShowsPreview()
  {
    card := new GridCard(f);
    card.RunEffect();
  }
}
