/**
 Whole runs of the allocator: whatever is requested, live chunks never overlap.
 */
module MemoryArenaRuns {
  import opened Wrappers
  import opened MemoryArena

  datatype Request = Request(size: nat, permission: Permission, offered: Option<nat>, listed: bool)

  // After some requests: the answers, the pages listed, and the pages in use that are not.
  datatype History = History(answers: seq<Option<Chunk>>, pages: seq<Page>, unlisted: seq<Page>)

  function All(h: History): seq<Page> {
    h.pages + h.unlisted
  }

  function Step(pages: seq<Page>, r: Request, pageSize: nat): Allocation {
    Allocate(pages, r.size, r.permission, pageSize, r.offered, r.listed)
  }

  function Extend(h: History, r: Request, pageSize: nat): History {
    var a := Step(h.pages, r, pageSize);
    History(h.answers + [a.chunk], a.pages, h.unlisted + a.unlisted)
  }

  function Run(requests: seq<Request>, pageSize: nat): (h: History)
    ensures |h.answers| == |requests|
  {
    if requests == [] then History([], [], [])
    else Extend(Run(requests[..|requests| - 1], pageSize), requests[|requests| - 1], pageSize)
  }

  predicate Apart(a: nat, n: nat, b: nat, m: nat) {
    a + n <= b || b + m <= a
  }

  predicate Overlapping(c: Chunk, d: Chunk) {
    !Apart(c.address, c.length, d.address, d.length)
  }

  predicate Inside(c: Chunk, p: Page) {
    p.address <= c.address && c.address + c.length <= p.address + p.length
  }

  // The operating system hands out only memory that no page in use covers.
  ghost predicate Offers(pages: seq<Page>, pageSize: nat, offered: Option<nat>) {
    offered.Some? ==> forall i :: 0 <= i < |pages| ==> Apart(pages[i].address, pages[i].length, offered.value, pageSize)
  }

  ghost predicate Honest(requests: seq<Request>, pageSize: nat) {
    requests != [] ==>
      var front := requests[..|requests| - 1];
      Honest(front, pageSize) && Offers(All(Run(front, pageSize)), pageSize, requests[|requests| - 1].offered)
  }

  // ---------------------------------------------------------------- the page invariant

  // The chunks fill the range from one address to the other without gap or overlap.
  ghost predicate Tiles(chunks: seq<Chunk>, from: nat, to: nat) {
    if chunks == [] then from == to
    else
      var last := chunks[|chunks| - 1];
      last.address + last.length == to && Tiles(chunks[..|chunks| - 1], from, last.address)
  }

  ghost predicate PageGood(p: Page, pageSize: nat) {
    Tiles(p.chunks, p.address, p.cursor) && p.cursor <= p.address + p.length && p.length == pageSize
  }

  ghost predicate Good(pages: seq<Page>, pageSize: nat) {
    && (forall i :: 0 <= i < |pages| ==> PageGood(pages[i], pageSize))
    && (forall i, j :: 0 <= i < j < |pages| ==> Apart(pages[i].address, pages[i].length, pages[j].address, pages[j].length))
  }

  lemma {:induction false} TilesBound(chunks: seq<Chunk>, from: nat, to: nat, c: Chunk)
    requires Tiles(chunks, from, to)
    ensures from <= to
    ensures c in chunks ==> from <= c.address && c.address + c.length <= to
  {
    if chunks != [] {
      var n := |chunks| - 1;
      TilesBound(chunks[..n], from, chunks[n].address, c);
      assert c in chunks ==> c in chunks[..n] || c == chunks[n];
    }
  }

  lemma PlaceGood(p: Page, size: nat, pageSize: nat)
    requires PageGood(p, pageSize) && p.cursor + size <= p.address + p.length
    ensures PageGood(Place(p, size), pageSize)
  {
    assert Place(p, size).chunks[..|p.chunks|] == p.chunks;
  }

  // One more page, in any place, apart from all others.
  lemma InsertGood(before: seq<Page>, after: seq<Page>, p: Page, pageSize: nat)
    requires Good(before + after, pageSize) && PageGood(p, pageSize)
    requires forall i :: 0 <= i < |before + after| ==>
               Apart((before + after)[i].address, (before + after)[i].length, p.address, p.length)
    ensures Good(before + [p] + after, pageSize)
  {
    hide PageGood;
    var previous, all := before + after, before + [p] + after;
    assert forall i :: 0 <= i < |before| ==> all[i] == previous[i];
    assert forall i :: |before| < i < |all| ==> all[i] == previous[i - 1];
    assert all[|before|] == p;
  }

  lemma ReplaceGood(pages: seq<Page>, i: nat, p: Page, pageSize: nat)
    requires Good(pages, pageSize) && i < |pages| && PageGood(p, pageSize)
    requires p.address == pages[i].address && p.length == pages[i].length
    ensures Good(pages[i := p], pageSize)
  {
    hide PageGood;
  }

  lemma ExtendGood(h: History, r: Request, pageSize: nat)
    requires Good(All(h), pageSize) && Offers(All(h), pageSize, r.offered) && r.size <= pageSize
    ensures Good(All(Extend(h, r, pageSize)), pageSize)
  {
    hide Tiles, Place, PageGood, Good, FirstFit, Fits;
    var after := Extend(h, r, pageSize);
    var i := FirstFit(h.pages, r.size, r.permission);
    if i < |h.pages| {
      var p := h.pages[i];
      assert All(h)[i] == p;
      GoodAt(All(h), i, pageSize);
      FitHasRoom(h.pages, r);
      PlaceGood(p, r.size, pageSize);
      PlaceKeeps(p, r.size);
      ReplaceGood(All(h), i, Place(p, r.size), pageSize);
      assert All(after) == All(h)[i := Place(p, r.size)];
    } else if r.offered.Some? {
      var added := NewPage(r.offered.value, pageSize, r.permission);
      var p := Place(added, r.size);
      NewPageGood(r.offered.value, pageSize, r.permission);
      PlaceGood(added, r.size, pageSize);
      PlaceKeeps(added, r.size);
      if r.listed {
        InsertGood(h.pages, h.unlisted, p, pageSize);
        assert All(after) == h.pages + [p] + h.unlisted;
      } else {
        assert All(h) + [] == All(h);
        InsertGood(All(h), [], p, pageSize);
        assert All(after) == All(h) + [p] + [];
      }
    } else {
      assert All(after) == All(h);
    }
  }

  lemma GoodAt(pages: seq<Page>, i: nat, pageSize: nat)
    requires Good(pages, pageSize) && i < |pages|
    ensures PageGood(pages[i], pageSize)
  {
  }

  lemma FitHasRoom(pages: seq<Page>, r: Request)
    requires FirstFit(pages, r.size, r.permission) < |pages|
    ensures var p := pages[FirstFit(pages, r.size, r.permission)];
            p.cursor + r.size <= p.address + p.length
  {
  }

  lemma NewPageGood(address: nat, pageSize: nat, permission: Permission)
    ensures PageGood(NewPage(address, pageSize, permission), pageSize)
  {
  }

  lemma PlaceKeeps(p: Page, size: nat)
    ensures var q := Place(p, size);
            q.address == p.address && q.length == p.length && q.permission == p.permission
  {
  }

  // ---------------------------------------------------------------- one request

  ghost predicate Held(c: Chunk, pages: seq<Page>) {
    exists i :: 0 <= i < |pages| && c in pages[i].chunks
  }

  // A chunk just handed out overlaps no chunk of any page in use.
  lemma NewChunkApart(h: History, r: Request, pageSize: nat, c: Chunk)
    requires Good(All(h), pageSize) && Offers(All(h), pageSize, r.offered) && r.size <= pageSize && Held(c, All(h))
    ensures var answer := Step(h.pages, r, pageSize).chunk;
            answer.Some? ==> !Overlapping(c, answer.value)
  {
    hide Tiles;
    var all := All(h);
    var k :| 0 <= k < |all| && c in all[k].chunks;
    assert PageGood(all[k], pageSize);
    TilesBound(all[k].chunks, all[k].address, all[k].cursor, c);
    var i := FirstFit(h.pages, r.size, r.permission);
    if i < |h.pages| {
      assert all[i] == h.pages[i] && PageGood(all[i], pageSize);
      TilesBound(all[i].chunks, all[i].address, all[i].cursor, c);
    }
  }

  // The page an answer was cut from: in use, of the requested permission, and holding the chunk.
  ghost predicate Source(c: Chunk, r: Request, pages: seq<Page>, i: nat) {
    i < |pages| && pages[i].permission == r.permission && c in pages[i].chunks && c.length == r.size
  }

  // Where the page of an answer stands among the pages in use.
  function SourceAt(h: History, r: Request): nat {
    var i := FirstFit(h.pages, r.size, r.permission);
    if i < |h.pages| || r.listed then i else i + |h.unlisted|
  }

  // An answer is cut from the first page that fits, or from a new page; there is none exactly when
  // no page fits and the system refuses one.
  lemma AllocateSource(h: History, r: Request, pageSize: nat)
    ensures var answer, after := Step(h.pages, r, pageSize).chunk, Extend(h, r, pageSize);
            && (answer.None? <==> FirstFit(h.pages, r.size, r.permission) == |h.pages| && r.offered.None?)
            && (answer.Some? ==> Source(answer.value, r, All(after), SourceAt(h, r)))
  {
    var answer, after := Step(h.pages, r, pageSize).chunk, Extend(h, r, pageSize);
    if answer.Some? {
      var p := All(after)[SourceAt(h, r)];
      var n := |p.chunks| - 1;
      assert p.chunks[n] == answer.value;
    }
  }

  // The bytes left in a page.
  function Left(p: Page): int {
    p.address + p.length - p.cursor
  }

  // Which page serves a request, by the bytes left: the first of the permission with more left than
  // asked for; a new one is needed if and only if there is none.
  lemma ServedByFirst(pages: seq<Page>, r: Request, pageSize: nat)
    ensures var a := Step(pages, r, pageSize);
            if exists i :: 0 <= i < |pages| && pages[i].permission == r.permission && Left(pages[i]) > r.size then
              exists i :: && 0 <= i < |pages| && pages[i].permission == r.permission && Left(pages[i]) > r.size
                          && (forall j :: 0 <= j < i ==> pages[j].permission != r.permission || Left(pages[j]) <= r.size)
                          && a.chunk == Some(Chunk(pages[i].cursor, r.size)) && a.unlisted == []
                          && |a.pages| == |pages| && Left(a.pages[i]) == Left(pages[i]) - r.size
                          && forall j :: 0 <= j < |pages| && j != i ==> a.pages[j] == pages[j]
            else if r.offered.None? then a == Allocation(None, pages, [])
            else
              && a.chunk == Some(Chunk(r.offered.value, r.size))
              && |a.pages| + |a.unlisted| == |pages| + 1 && (r.listed <==> a.unlisted == []) && pages <= a.pages
              && Left((a.pages + a.unlisted)[|pages|]) == pageSize - r.size
  {
    var i := FirstFit(pages, r.size, r.permission);
    if i < |pages| {
      assert pages[i].permission == r.permission && Left(pages[i]) > r.size;
      assert Left(Step(pages, r, pageSize).pages[i]) == Left(pages[i]) - r.size;
    }
  }

  // Chunks in use stay in use, in the same page.
  lemma SourceStays(c: Chunk, r0: Request, h: History, r: Request, pageSize: nat, i: nat) returns (j: nat)
    requires Source(c, r0, All(h), i)
    ensures var after := All(Extend(h, r, pageSize));
            && Source(c, r0, after, j)
            && after[j].address == All(h)[i].address && after[j].length == All(h)[i].length
  {
    j := if i < |h.pages| then i else i + |Extend(h, r, pageSize).pages| - |h.pages|;
  }

  // The one request the page does not bound is the first of a new page: its chunk stays inside the
  // page exactly when it is no larger than the page.
  lemma ChunkInsideIff(h: History, r: Request, pageSize: nat)
    requires Good(All(h), pageSize)
    ensures var answer, after := Step(h.pages, r, pageSize).chunk, All(Extend(h, r, pageSize));
            answer.Some? ==> (Inside(answer.value, after[SourceAt(h, r)]) <==> r.size <= pageSize)
  {
    var i := FirstFit(h.pages, r.size, r.permission);
    if i < |h.pages| {
      assert All(h)[i] == h.pages[i] && PageGood(All(h)[i], pageSize);
      TilesBound(h.pages[i].chunks, h.pages[i].address, h.pages[i].cursor, Chunk(0, 0));
    }
  }

  // ---------------------------------------------------------------- every run

  ghost predicate Bounded(requests: seq<Request>, pageSize: nat) {
    forall i :: 0 <= i < |requests| ==> requests[i].size <= pageSize
  }

  ghost predicate Served(answer: Option<Chunk>, r: Request, pages: seq<Page>) {
    answer.Some? ==> exists i: nat :: Source(answer.value, r, pages, i) && Inside(answer.value, pages[i])
  }

  ghost predicate NoneOverlap(answers: seq<Option<Chunk>>) {
    forall i, j :: 0 <= i < j < |answers| && answers[i].Some? && answers[j].Some? ==> !Overlapping(answers[i].value, answers[j].value)
  }

  lemma {:induction false} RunSafe(requests: seq<Request>, pageSize: nat)
    requires Bounded(requests, pageSize) && Honest(requests, pageSize)
    ensures var h := Run(requests, pageSize);
            && Good(All(h), pageSize)
            && NoneOverlap(h.answers)
            && forall i :: 0 <= i < |requests| ==> Served(h.answers[i], requests[i], All(h))
  {
    hide Step, All, PageGood, Apart, Inside, Source, Overlapping, Offers;
    if requests == [] {
      assert All(Run(requests, pageSize)) == [] by {
        NoPages();
      }
    } else {
      var n := |requests| - 1;
      var front, r := requests[..n], requests[n];
      RunSafe(front, pageSize);
      var h := Run(front, pageSize);
      var answer, after := Step(h.pages, r, pageSize).chunk, All(Extend(h, r, pageSize));
      ExtendGood(h, r, pageSize);
      AllocateSource(h, r, pageSize);
      ChunkInsideIff(h, r, pageSize);
      forall i | 0 <= i < n
        ensures Served(h.answers[i], requests[i], after)
        ensures h.answers[i].Some? && answer.Some? ==> !Overlapping(h.answers[i].value, answer.value)
      {
        assert front[i] == requests[i] && Served(h.answers[i], front[i], All(h));
        ServedStays(h.answers[i], requests[i], h, r, pageSize);
      }
    }
  }

  lemma NoPages()
    ensures All(History([], [], [])) == []
  {
  }

  lemma ServedStays(answer: Option<Chunk>, r0: Request, h: History, r: Request, pageSize: nat)
    requires Served(answer, r0, All(h))
    requires Good(All(h), pageSize) && Offers(All(h), pageSize, r.offered) && r.size <= pageSize
    ensures var next, after := Step(h.pages, r, pageSize).chunk, All(Extend(h, r, pageSize));
            && Served(answer, r0, after)
            && (answer.Some? && next.Some? ==> !Overlapping(answer.value, next.value))
  {
    hide Good, Offers, Step, All, Extend, Overlapping;
    if answer.Some? {
      var i: nat :| Source(answer.value, r0, All(h), i) && Inside(answer.value, All(h)[i]);
      var j := SourceStays(answer.value, r0, h, r, pageSize, i);
      NewChunkApart(h, r, pageSize, answer.value);
    }
  }
}
