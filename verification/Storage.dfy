/**
 The paged database file: dense page ids from zero, never reused. Unless the
 storage is reliable, an input or output failure can strike any call; a failed
 write leaves the target page, and only that page, with unknown bytes.
 */
module Storage {
  import opened Bytes
  import opened Results

  class PageStorage {
    const reliable: bool  // no call into the operating system fails
    var pages: seq<Page>
    var open: bool

    constructor (existing: seq<Page>, reliable: bool)
      requires |existing| <= INVALID_ID
      ensures pages == existing && open && this.reliable == reliable
    {
      this.reliable := reliable;
      pages := existing;
      open := true;
    }

    /** Whether the operating system fails the call in progress. */
    method Fails() returns (yes: bool)
      ensures reliable ==> !yes
    {
      yes := *;
      if reliable { yes := false; }
    }

    method NumPages() returns (s: Status, count: nat)
      ensures s.Ok? ==> open && count == |pages|
      ensures s.Error? ==> s.code == (if open then IoError else BadState)
      ensures reliable && open ==> s.Ok?
    {
      if !open { return Error(BadState), 0; }
      var fails := Fails();
      if fails { return Error(IoError), 0; }
      return Ok, |pages|;
    }

    /** Answers no when the size cannot be read, too. */
    method PageExists(id: nat) returns (yes: bool)
      ensures yes ==> open && id < |pages|
      ensures reliable && open ==> yes == (id < |pages|)
    {
      var s, count := NumPages();
      return s.Ok? && id < count;
    }

    method ReadPage(id: nat) returns (s: Status, page: Page)
      ensures s.Ok? ==> open && id < |pages| && page == pages[id]
      ensures s == Error(NotFound) ==> open && id >= |pages|
      ensures s.Error? ==> s.code in {BadState, NotFound, IoError}
      ensures reliable && open ==> s == if id < |pages| then Ok else Error(NotFound)
    {
      page := ZERO_PAGE;
      var count;
      s, count := NumPages();
      if s.Error? { return s, page; }
      if id >= count { return Error(NotFound), page; }
      var fails := Fails();
      if fails { return Error(IoError), page; }
      return Ok, pages[id];
    }

    /** Only allocated pages can be written; a failed write may tear the page. */
    method WritePage(id: nat, data: Page) returns (s: Status)
      modifies this
      ensures open == old(open)
      ensures s.Ok? ==> open && id < |old(pages)| && pages == old(pages)[id := data]
      ensures s.Error? && id >= |old(pages)| ==> pages == old(pages)
      ensures s.Error? && id < |old(pages)| ==> |pages| == |old(pages)| && pages == old(pages)[id := pages[id]]
      ensures s.Error? && id < |old(pages)| <= INVALID_ID ==> s.code in {BadState, IoError}
      ensures s.Error? ==> s.code in {InvalidArgument, BadState, NotFound, IoError}
      ensures reliable && open && id < |old(pages)| <= INVALID_ID ==> s.Ok?
    {
      if id == INVALID_ID { return Error(InvalidArgument); }
      var count;
      s, count := NumPages();
      if s.Error? { return s; }
      if id >= count { return Error(NotFound); }
      var fails := Fails();
      if fails {
        var junk: Page := *;
        pages := pages[id := junk];
        return Error(IoError);
      }
      pages := pages[id := data];
      return Ok;
    }

    /** The new id is the previous page count, and the new page is zero. */
    method AllocatePage() returns (s: Status, id: nat)
      requires |pages| <= INVALID_ID
      modifies this
      ensures open == old(open) && |pages| <= INVALID_ID
      ensures s.Ok? ==> open && id == |old(pages)| < INVALID_ID && pages == old(pages) + [ZERO_PAGE]
      ensures s.Error? ==> pages == old(pages) && s.code in {BadState, IoError}
      ensures reliable && open ==> (s.Ok? <==> |old(pages)| < INVALID_ID)
    {
      id := INVALID_ID;
      var count;
      s, count := NumPages();
      if s.Error? { return s, id; }
      if count == INVALID_ID { return Error(IoError), id; }
      var fails := Fails();
      if fails { return Error(IoError), id; }
      pages := pages + [ZERO_PAGE];
      return Ok, count;
    }

    method Close() returns (s: Status)
      modifies this
      ensures !open && pages == old(pages) && (reliable ==> s.Ok?)
    {
      if !open { return Ok; }
      open := false;
      var fails := Fails();
      if fails { return Error(IoError); }
      return Ok;
    }
  }
}
