/**
 The executable-memory allocator: pages from the operating system, filled from the bottom up, the
 first listed page with room serving a request.
 */
module MemoryArena {
  import opened Wrappers
  import opened LiteMutableArrays

  datatype Permission = ReadWrite | ReadExecute

  datatype Chunk = Chunk(address: nat, length: nat)

  datatype Page = Page(address: nat, length: nat, cursor: nat, permission: Permission, chunks: seq<Chunk>)

  // ---------------------------------------------------------------- the allocator on values

  predicate Fits(p: Page, size: nat, permission: Permission) {
    p.permission == permission && p.cursor + size < p.address + p.length
  }

  // The first page with room, or |pages|.
  function FirstFit(pages: seq<Page>, size: nat, permission: Permission): (i: nat)
    ensures i <= |pages|
    ensures i < |pages| ==> Fits(pages[i], size, permission)
    ensures forall j :: 0 <= j < i ==> !Fits(pages[j], size, permission)
  {
    if pages == [] then 0
    else if Fits(pages[0], size, permission) then 0
    else 1 + FirstFit(pages[1..], size, permission)
  }

  lemma FirstFitUnique(pages: seq<Page>, size: nat, permission: Permission, i: nat)
    requires i <= |pages| && (i < |pages| ==> Fits(pages[i], size, permission))
    requires forall j :: 0 <= j < i ==> !Fits(pages[j], size, permission)
    ensures i == FirstFit(pages, size, permission)
  {
  }

  function Place(p: Page, size: nat): Page {
    p.(cursor := p.cursor + size, chunks := p.chunks + [Chunk(p.cursor, size)])
  }

  function NewPage(address: nat, pageSize: nat, permission: Permission): Page {
    Page(address, pageSize, address, permission, [])
  }

  // The answer to a request, the pages then listed, and a page handed out that could not be listed.
  datatype Allocation = Allocation(chunk: Option<Chunk>, pages: seq<Page>, unlisted: seq<Page>)

  // One request; `offered` is the operating system's answer should a page be needed, and `listed`
  // whether there is room to list that page. It is used either way.
  function Allocate(pages: seq<Page>, size: nat, permission: Permission, pageSize: nat, offered: Option<nat>, listed: bool)
    : Allocation
  {
    var i := FirstFit(pages, size, permission);
    if i < |pages| then Allocation(Some(Chunk(pages[i].cursor, size)), pages[i := Place(pages[i], size)], [])
    else if offered.None? then Allocation(None, pages, [])
    else
      var page := Place(NewPage(offered.value, pageSize, permission), size);
      if listed then Allocation(Some(Chunk(offered.value, size)), pages + [page], [])
      else Allocation(Some(Chunk(offered.value, size)), pages, [page])
  }

  // ---------------------------------------------------------------- the static page list

  class PageChunk {
    const address: nat
    const length: nat
    const permission: Permission
    var cursor: nat
    var chunks: seq<Chunk>

    constructor (address: nat, length: nat, permission: Permission)
      ensures View() == NewPage(address, length, permission)
    {
      this.address, this.length, this.permission := address, length, permission;
      this.cursor, this.chunks := address, [];
    }

    ghost function View(): Page
      reads this
    {
      Page(address, length, cursor, permission, chunks)
    }

    method Carve(size: nat) returns (chunk: Chunk)
      modifies this
      ensures chunk == Chunk(old(cursor), size) && View() == Place(old(View()), size)
    {
      chunk := Chunk(cursor, size);
      chunks := chunks + [chunk];
      cursor := cursor + size;
    }
  }

  ghost predicate Listed(ps: seq<PageChunk?>) {
    && (forall i :: 0 <= i < |ps| ==> ps[i] != null)
    && (forall i, j :: 0 <= i < j < |ps| ==> ps[i] != ps[j])
  }

  ghost function Views(ps: seq<PageChunk?>): (vs: seq<Page>)
    requires Listed(ps)
    reads ps
    ensures |vs| == |ps| && forall i :: 0 <= i < |ps| ==> vs[i] == ps[i].View()
    decreases |ps|
  {
    if ps == [] then [] else Views(ps[..|ps| - 1]) + [ps[|ps| - 1].View()]
  }

  class Arena {
    const pageSize: nat
    const pages: LiteMutableArray<PageChunk?>

    ghost predicate Valid()
      reads this, pages, pages.data
    {
      pages.Valid() && Listed(pages.Contents())
    }

    constructor (pageSize: nat)
      ensures Valid() && pages.Contents() == [] && this.pageSize == pageSize
    {
      this.pageSize := pageSize;
      this.pages := new LiteMutableArray<PageChunk?>(8);
    }

    method FindPage(size: nat, permission: Permission) returns (found: PageChunk?, ghost at: nat)
      requires Valid()
      ensures at == FirstFit(Views(pages.Contents()), size, permission)
      ensures var k := FirstFit(Views(pages.Contents()), size, permission);
              found == if k < |pages.Contents()| then pages.Contents()[k] else null
    {
      ghost var views := Views(pages.Contents());
      var i := 0;
      while i < pages.count
        invariant 0 <= i <= pages.count
        invariant forall j :: 0 <= j < i ==> !Fits(views[j], size, permission)
      {
        var page := pages.GetObject(i);
        if page.permission == permission && page.cursor + size < page.address + page.length {
          FirstFitUnique(views, size, permission, i);
          return page, i;
        }
        i := i + 1;
      }
      FirstFitUnique(views, size, permission, i);
      return null, i;
    }

    // `room`: the heap has room for a larger list. A page that cannot be listed is returned as well.
    method AddPage(address: nat, permission: Permission, room: bool) returns (page: PageChunk, listed: bool)
      requires Valid()
      modifies pages, pages.data
      ensures Valid() && fresh(page) && (pages.data == old(pages.data) || fresh(pages.data))
      ensures page.View() == NewPage(address, pageSize, permission)
      ensures listed <==> room || old(pages.count < pages.data.Length)
      ensures pages.Contents() == old(pages.Contents()) + if listed then [page] else []
      ensures Views(pages.Contents()) == old(Views(pages.Contents())) + if listed then [page.View()] else []
    {
      hide Views;
      page := new PageChunk(address, pageSize, permission);
      listed := pages.PushObject(page, room);
    }

    method Carve(page: PageChunk, size: nat, ghost at: nat) returns (chunk: Chunk)
      requires Valid() && at < pages.count && pages.Contents()[at] == page
      modifies page
      ensures Valid() && pages.Contents() == old(pages.Contents())
      ensures chunk == Chunk(old(Views(pages.Contents()))[at].cursor, size)
      ensures Views(pages.Contents()) == old(Views(pages.Contents())[at := Place(Views(pages.Contents())[at], size)])
    {
      hide Views, Place;
      chunk := page.Carve(size);
    }

    // `offered`: what the operating system answers if it is asked for a page.
    method AllocateChunk(size: nat, permission: Permission, offered: Option<nat>, room: bool) returns (chunk: Option<Chunk>)
      requires Valid()
      modifies pages, pages.data, pages.Contents()
      ensures Valid()
      ensures var listed := room || old(pages.count < pages.data.Length);
              var r := Allocate(old(Views(pages.Contents())), size, permission, pageSize, offered, listed);
              chunk == r.chunk && Views(pages.Contents()) == r.pages
    {
      hide Views, Place, Fits, FirstFit;
      ghost var views := Views(pages.Contents());
      var page, at := FindPage(size, permission);
      if page == null {
        if offered.None? {
          return None;
        }
        var listed;
        page, listed := AddPage(offered.value, permission, room);
        if !listed {
          var carved := CarveUnlisted(page, size);
          return Some(carved);
        }
        ghost var added := NewPage(offered.value, pageSize, permission);
        assert (views + [added])[at := Place(added, size)] == views + [Place(added, size)];
      }
      var carved := Carve(page, size, at);
      chunk := Some(carved);
    }

    method CarveUnlisted(page: PageChunk, size: nat) returns (chunk: Chunk)
      requires Valid() && page !in pages.Contents()
      modifies page
      ensures Valid() && pages.Contents() == old(pages.Contents())
      ensures chunk == Chunk(old(page.cursor), size) && Views(pages.Contents()) == old(Views(pages.Contents()))
    {
      hide Views, Place;
      chunk := page.Carve(size);
    }
  }
}
