/**
 The allocator that serves chunks near a position: it scans its pages, and when none will do it
 searches the memory layout for a page within range and scans again.
 */
module NearMemoryArena {
  import opened Wrappers
  import opened NearWindow
  import opened MemoryArena

  // The process's regions: sorted, not overlapping, ending below the top of the address space.
  ghost predicate Layout(regions: seq<Region>) {
    && (forall i :: 0 <= i < |regions| ==> regions[i].start + regions[i].length < W)
    && (forall i, j :: 0 <= i < j < |regions| ==> regions[i].start + regions[i].length <= regions[j].start)
  }

  function End(r: Region): address {
    Wrap(r.start + r.length)
  }

  // ---------------------------------------------------------------- the requests of a search

  predicate Within(r: Region, min: address, max: address) {
    End(r) < max && r.start >= min
  }

  predicate LeftBlank(regions: seq<Region>, i: nat, min: address, max: address, assumed: address, ps: int)
    requires i < |regions| && PageSize(ps)
  {
    && Within(regions[i], min, max) && i >= 1 && assumed == min
    && regions[i].start > NextPage(End(regions[i - 1]), ps)
  }

  predicate RightBlank(regions: seq<Region>, i: nat, min: address, max: address)
    requires i < |regions|
  {
    Within(regions[i], min, max) && i + 1 < |regions| && End(regions[i]) < regions[i + 1].start
  }

  function LeftRequest(regions: seq<Region>, i: nat, min: address, ps: int): address
    requires 1 <= i < |regions| && PageSize(ps)
  {
    AddrMax(min, NextPage(End(regions[i - 1]), ps))
  }

  // The pages asked for while walking the regions from i on, `assumed` being the last one asked for.
  function Walk(regions: seq<Region>, i: nat, min: address, max: address, assumed: address, ps: int): seq<address>
    requires i <= |regions| && PageSize(ps)
    decreases |regions| - i
  {
    if i == |regions| then []
    else
      var left := if LeftBlank(regions, i, min, max, assumed, ps) then [LeftRequest(regions, i, min, ps)] else [];
      var asked := if left == [] then assumed else left[0];
      var right := if RightBlank(regions, i, min, max) then [NextPage(End(regions[i]), ps)] else [];
      left + right + Walk(regions, i + 1, min, max, if right == [] then asked else right[0], ps)
  }

  // Every page a search asks for as long as it is refused.
  function Candidates(regions: seq<Region>, min: address, max: address, ps: int): seq<address>
    requires |regions| > 0 && PageSize(ps)
  {
    (if min < regions[0].start then [min] else [])
    + (if max < End(regions[|regions| - 1]) then [min] else [])
    + Walk(regions, 0, min, max, min, ps)
  }

  // The operating system's answer to the first request it grants, and what was asked up to it.
  function FirstGranted(asked: seq<address>, os: address -> address): address {
    if asked == [] then 0 else if os(asked[0]) != 0 then os(asked[0]) else FirstGranted(asked[1..], os)
  }

  function Asked(asked: seq<address>, os: address -> address): seq<address> {
    if asked == [] then []
    else [asked[0]] + if os(asked[0]) != 0 then [] else Asked(asked[1..], os)
  }

  ghost predicate Honours(os: address -> address) {
    forall a :: os(a) == 0 || os(a) == a
  }

  // ---------------------------------------------------------------- requests stay near

  ghost predicate Near(a: address, pos: address, range: address, ps: int)
    requires ps > 0
  {
    Aligned(a, ps) && pos - range < a < pos + range && a + 2 * ps <= W
  }

  lemma LeftInWindow(regions: seq<Region>, i: nat, min: address, max: address, assumed: address, ps: int)
    requires Layout(regions) && i < |regions| && PageSize(ps) && Aligned(min, ps)
    requires LeftBlank(regions, i, min, max, assumed, ps)
    ensures var a := LeftRequest(regions, i, min, ps);
            Aligned(a, ps) && min <= a <= max
  {
    hide NextPage;
    NextPageIs(End(regions[i - 1]), ps);
  }

  lemma RightInWindow(regions: seq<Region>, i: nat, min: address, max: address, ps: int)
    requires Layout(regions) && i < |regions| && PageSize(ps) && Aligned(max, ps) && max + 2 * ps <= W
    requires RightBlank(regions, i, min, max)
    ensures var a := NextPage(End(regions[i]), ps);
            Aligned(a, ps) && min <= a <= max
  {
    hide NextPage, Aligned;
    var e := End(regions[i]);
    NextPageIs(e, ps);
    var a := NextPage(e, ps);
    if max < a {
      AlignedGap(max, a, ps);
    }
  }

  lemma {:induction false} WalkInWindow(regions: seq<Region>, i: nat, min: address, max: address, assumed: address, ps: int, a: address)
    requires Layout(regions) && i <= |regions| && PageSize(ps)
    requires Aligned(min, ps) && Aligned(max, ps) && max + 2 * ps <= W
    requires a in Walk(regions, i, min, max, assumed, ps)
    ensures Aligned(a, ps) && min <= a <= max
    decreases |regions| - i
  {
    hide NextPage, Aligned, RightBlank, LeftRequest, Layout;
    if i < |regions| {
      var left := if LeftBlank(regions, i, min, max, assumed, ps) then [LeftRequest(regions, i, min, ps)] else [];
      var asked := if left == [] then assumed else left[0];
      var right := if RightBlank(regions, i, min, max) then [NextPage(End(regions[i]), ps)] else [];
      var next := if right == [] then asked else right[0];
      if a in left {
        LeftInWindow(regions, i, min, max, assumed, ps);
      } else if a in right {
        RightInWindow(regions, i, min, max, ps);
      } else {
        WalkInWindow(regions, i + 1, min, max, next, ps, a);
      }
    }
  }

  // Every request of a search is for a page within range of the position.
  lemma CandidatesNear(regions: seq<Region>, pos: address, range: address, ps: int, a: address)
    requires Layout(regions) && |regions| > 0 && PageSize(ps) && range > 0
    requires MinPage(pos, range, ps) <= MaxPage(pos, range, ps)
    requires a in Candidates(regions, MinPage(pos, range, ps), MaxPage(pos, range, ps), ps)
    ensures MinPage(pos, range, ps) <= a <= MaxPage(pos, range, ps) && Near(a, pos, range, ps)
  {
    hide MinPage, MaxPage, Walk, Aligned, Layout;
    var min, max := MinPage(pos, range, ps), MaxPage(pos, range, ps);
    WindowIs(pos, range, ps);
    if a != min {
      WalkInWindow(regions, 0, min, max, min, ps, a);
    }
    WindowNear(pos, range, ps, a);
  }

  // In an empty window no region lies within, so only `min` is ever asked for.
  lemma {:induction false} WalkEmpty(regions: seq<Region>, i: nat, min: address, max: address, assumed: address, ps: int)
    requires Layout(regions) && i <= |regions| && PageSize(ps) && max < min
    ensures Walk(regions, i, min, max, assumed, ps) == []
    decreases |regions| - i
  {
    hide NextPage, LeftRequest;
    if i < |regions| {
      assert !Within(regions[i], min, max);
      WalkEmpty(regions, i + 1, min, max, assumed, ps);
    }
  }

  // The blanks next to a region inside the window: the page behind its end, if another region begins
  // later, and the page behind the region before it, if that leaves a gap.
  ghost predicate BlankBehind(regions: seq<Region>, i: nat, min: address, max: address, ps: int, a: address)
    requires PageSize(ps)
  {
    && i + 1 < |regions| && min <= regions[i].start && regions[i].start + regions[i].length < max
    && regions[i].start + regions[i].length < regions[i + 1].start
    && a == NextPage(End(regions[i]), ps)
  }

  ghost predicate BlankBefore(regions: seq<Region>, i: nat, min: address, max: address, ps: int, a: address)
    requires PageSize(ps)
  {
    && 1 <= i < |regions| && min <= regions[i].start && regions[i].start + regions[i].length < max
    && NextPage(End(regions[i - 1]), ps) < regions[i].start
    && a == if NextPage(End(regions[i - 1]), ps) < min then min else NextPage(End(regions[i - 1]), ps)
  }

  ghost predicate Blank(regions: seq<Region>, from: nat, min: address, max: address, ps: int, a: address)
    requires PageSize(ps)
  {
    exists i: nat :: from <= i && (BlankBehind(regions, i, min, max, ps, a) || BlankBefore(regions, i, min, max, ps, a))
  }

  lemma EndIs(regions: seq<Region>, i: nat)
    requires Layout(regions) && i < |regions|
    ensures End(regions[i]) == regions[i].start + regions[i].length
  {
  }

  // A region between one in the window and one that ends below its top is in the window too.
  lemma WithinBetween(regions: seq<Region>, j: nat, k: nat, i: nat, min: address, max: address)
    requires Layout(regions) && j < k < i < |regions|
    requires Within(regions[j], min, max) && Within(regions[i], min, max)
    ensures Within(regions[k], min, max)
  {
    EndIs(regions, j);
    EndIs(regions, k);
    EndIs(regions, i);
  }

  // Nothing in the window so far, so the page assumed is still the lowest.
  ghost predicate StillLowest(regions: seq<Region>, i: nat, min: address, max: address, assumed: address) {
    (forall j :: 0 <= j < i && j < |regions| ==> !Within(regions[j], min, max)) ==> assumed == min
  }

  // Behind a region in the window the next page is above the lowest.
  lemma BehindIsAbove(regions: seq<Region>, i: nat, min: address, max: address, ps: int)
    requires Layout(regions) && i < |regions| && PageSize(ps) && Within(regions[i], min, max) && max + 2 * ps <= W
    ensures NextPage(End(regions[i]), ps) > min
  {
    hide NextPage;
    EndIs(regions, i);
    NextPageIs(End(regions[i]), ps);
  }

  // The walk asks for exactly the blanks, from a region on.
  lemma {:induction false} WalkIsBlanks(regions: seq<Region>, i: nat, min: address, max: address, assumed: address, ps: int, a: address)
    requires Layout(regions) && i <= |regions| && PageSize(ps) && max + 2 * ps <= W
    requires StillLowest(regions, i, min, max, assumed)
    ensures a in Walk(regions, i, min, max, assumed, ps) ==> Blank(regions, i, min, max, ps, a)
    ensures Blank(regions, i, min, max, ps, a) ==>
              a in Walk(regions, i, min, max, assumed, ps) || (i > 0 && BlankBehind(regions, i - 1, min, max, ps, a))
    decreases |regions| - i
  {
    hide NextPage, Layout, LeftBlank, RightBlank, LeftRequest, BlankBehind, BlankBefore, Blank, StillLowest;
    if i == |regions| {
      BlankPast(regions, i, min, max, ps, a);
    } else {
      var left := if LeftBlank(regions, i, min, max, assumed, ps) then (LeftInBounds(regions, i, min, max, assumed, ps); [LeftRequest(regions, i, min, ps)]) else [];
      var asked := if left == [] then assumed else left[0];
      var right := if RightBlank(regions, i, min, max) then [NextPage(End(regions[i]), ps)] else [];
      var next := if right == [] then asked else right[0];
      assert Walk(regions, i, min, max, assumed, ps) == left + right + Walk(regions, i + 1, min, max, next, ps);
      OutsideAsksNothing(regions, i, min, max, assumed, ps);
      NextLowest(regions, i, min, max, assumed, ps, next);
      WalkIsBlanks(regions, i + 1, min, max, next, ps, a);
      RightIs(regions, i, min, max, ps, a);
      LeftIs(regions, i, min, max, assumed, ps, a);
      BlankStep(regions, i, min, max, ps, a);
    }
  }

  lemma LeftInBounds(regions: seq<Region>, i: nat, min: address, max: address, assumed: address, ps: int)
    requires i < |regions| && PageSize(ps) && LeftBlank(regions, i, min, max, assumed, ps)
    ensures i >= 1
  {
  }

  lemma OutsideAsksNothing(regions: seq<Region>, i: nat, min: address, max: address, assumed: address, ps: int)
    requires i < |regions| && PageSize(ps)
    ensures !Within(regions[i], min, max) ==> !LeftBlank(regions, i, min, max, assumed, ps) && !RightBlank(regions, i, min, max)
  {
  }

  lemma BlankStep(regions: seq<Region>, i: nat, min: address, max: address, ps: int, a: address)
    requires PageSize(ps)
    ensures Blank(regions, i, min, max, ps, a) <==>
            || BlankBehind(regions, i, min, max, ps, a) || BlankBefore(regions, i, min, max, ps, a)
            || Blank(regions, i + 1, min, max, ps, a)
  {
    hide BlankBehind, BlankBefore;
  }

  lemma BlankPast(regions: seq<Region>, i: nat, min: address, max: address, ps: int, a: address)
    requires PageSize(ps) && i >= |regions|
    ensures !Blank(regions, i, min, max, ps, a)
  {
  }

  lemma NextLowest(regions: seq<Region>, i: nat, min: address, max: address, assumed: address, ps: int, next: address)
    requires i < |regions| && PageSize(ps) && StillLowest(regions, i, min, max, assumed)
    requires !Within(regions[i], min, max) ==> next == assumed
    ensures StillLowest(regions, i + 1, min, max, next)
  {
    hide Within;
  }

  lemma RightIs(regions: seq<Region>, i: nat, min: address, max: address, ps: int, a: address)
    requires Layout(regions) && i < |regions| && PageSize(ps)
    ensures BlankBehind(regions, i, min, max, ps, a) <==> RightBlank(regions, i, min, max) && a == NextPage(End(regions[i]), ps)
  {
    hide NextPage;
    EndIs(regions, i);
  }

  // A blank before region i is asked for at i, or was asked for behind region i - 1.
  lemma LeftIs(regions: seq<Region>, i: nat, min: address, max: address, assumed: address, ps: int, a: address)
    requires Layout(regions) && i < |regions| && PageSize(ps) && max + 2 * ps <= W && StillLowest(regions, i, min, max, assumed)
    ensures LeftBlank(regions, i, min, max, assumed, ps) ==> BlankBefore(regions, i, min, max, ps, LeftRequest(regions, i, min, ps))
    ensures BlankBefore(regions, i, min, max, ps, a) ==>
              i >= 1 && ((LeftBlank(regions, i, min, max, assumed, ps) && a == LeftRequest(regions, i, min, ps))
                         || BlankBehind(regions, i - 1, min, max, ps, a))
  {
    hide NextPage, Layout;
    EndIs(regions, i);
    if i > 0 && Within(regions[i], min, max) {
      EndIs(regions, i - 1);
      NextPageIs(End(regions[i - 1]), ps);
      EndsBelow(regions, i);
      if Within(regions[i - 1], min, max) {
        BehindIsAbove(regions, i - 1, min, max, ps);
      } else {
        forall j | 0 <= j < i
          ensures !Within(regions[j], min, max)
        {
          if j < i - 1 && Within(regions[j], min, max) {
            WithinBetween(regions, j, i - 1, i, min, max);
          }
        }
      }
    }
  }

  lemma EndsBelow(regions: seq<Region>, i: nat)
    requires Layout(regions) && 1 <= i < |regions|
    ensures regions[i - 1].start + regions[i - 1].length <= regions[i].start
  {
  }

  // Exactly what a search asks for as long as it is refused: the lowest page, if the first region
  // begins above it or the last ends above the window, and every blank next to a region in the window.
  lemma CandidatesExactly(regions: seq<Region>, pos: address, range: address, ps: int, a: address)
    requires Layout(regions) && |regions| > 0 && PageSize(ps) && range > 0
    ensures var min, max := MinPage(pos, range, ps), MaxPage(pos, range, ps);
            var last := regions[|regions| - 1];
            a in Candidates(regions, min, max, ps) <==>
            || (a == min && (min < regions[0].start || max < last.start + last.length))
            || Blank(regions, 0, min, max, ps, a)
  {
    hide MinPage, MaxPage, Walk, Blank, Layout;
    WindowIs(pos, range, ps);
    EndIs(regions, |regions| - 1);
    var min, max := MinPage(pos, range, ps), MaxPage(pos, range, ps);
    WalkIsBlanks(regions, 0, min, max, min, ps, a);
  }

  predicate InRange(a: address, pos: address, range: address) {
    pos - range < a < pos + range
  }

  // Exactly when a search asks only for pages within range: its window is not empty, or nothing is
  // asked for at all, or the one page asked for is within range.
  lemma CandidatesNearIff(regions: seq<Region>, pos: address, range: address, ps: int)
    requires Layout(regions) && |regions| > 0 && PageSize(ps) && range > 0
    ensures var min, max := MinPage(pos, range, ps), MaxPage(pos, range, ps);
            (forall a :: a in Candidates(regions, min, max, ps) ==> InRange(a, pos, range)) <==>
            || min <= max
            || (min >= regions[0].start && max >= End(regions[|regions| - 1]))
            || InRange(min, pos, range)
  {
    hide MinPage, MaxPage, Walk, Layout;
    var min, max := MinPage(pos, range, ps), MaxPage(pos, range, ps);
    if min <= max {
      forall a | a in Candidates(regions, min, max, ps)
        ensures InRange(a, pos, range)
      {
        CandidatesNear(regions, pos, range, ps, a);
      }
    } else {
      WalkEmpty(regions, 0, min, max, min, ps);
      if min < regions[0].start || max < End(regions[|regions| - 1]) {
        assert min in Candidates(regions, min, max, ps);
      }
    }
  }

  lemma {:induction false} GrantedAsked(asked: seq<address>, os: address -> address)
    requires Honours(os)
    ensures var r := FirstGranted(asked, os);
            r != 0 ==> r in asked && Asked(asked, os) != [] && r == Asked(asked, os)[|Asked(asked, os)| - 1]
    ensures FirstGranted(asked, os) == 0 <==> forall i :: 0 <= i < |asked| ==> os(asked[i]) == 0
    ensures Asked(asked, os) <= asked
  {
    if asked != [] {
      GrantedAsked(asked[1..], os);
      assert asked == [asked[0]] + asked[1..];
    }
  }

  // ---------------------------------------------------------------- the search

  // `requests` were refused and the search has `rest` still to ask for.
  ghost predicate Pending(all: seq<address>, requests: seq<address>, rest: seq<address>, os: address -> address) {
    Asked(all, os) == requests + Asked(rest, os) && FirstGranted(all, os) == FirstGranted(rest, os)
  }

  lemma AskNext(all: seq<address>, requests: seq<address>, a: address, rest: seq<address>, os: address -> address)
    requires Pending(all, requests, [a] + rest, os)
    ensures os(a) == 0 ==> Pending(all, requests + [a], rest, os)
    ensures os(a) != 0 ==> Asked(all, os) == requests + [a] && FirstGranted(all, os) == os(a)
  {
    var next := [a] + rest;
    assert next[0] == a && next[1..] == rest;
    if os(a) == 0 {
      assert Asked(next, os) == [a] + Asked(rest, os);
      assert requests + ([a] + Asked(rest, os)) == requests + [a] + Asked(rest, os);
    } else {
      assert Asked(next, os) == [a];
    }
  }

  // The loop reads the region behind the last: it is in the branch for a region in the window that is
  // not the last by the unsigned comparison with `size() - 2`, and yet there is no next region.
  ghost predicate ReadsPast(regions: seq<Region>, min: address, max: address) {
    exists i: nat :: i < |regions| && Within(regions[i], min, max) && i <= Wrap(|regions| - 2) && i + 1 == |regions|
  }

  // That comparison wraps for a single region, and only then.
  lemma ReadsPastIff(regions: seq<Region>, min: address, max: address)
    requires |regions| < W
    ensures ReadsPast(regions, min, max) <==> |regions| == 1 && Within(regions[0], min, max)
  {
    if |regions| == 1 && Within(regions[0], min, max) {
      assert 0 < |regions| && Within(regions[0], min, max) && 0 <= Wrap(|regions| - 2) && 0 + 1 == |regions|;
    }
  }

  method SearchNearBlankPage(pos: address, range: address, regions: seq<Region>, ps: int, os: address -> address)
    returns (result: address, requests: seq<address>, inBounds: bool)
    requires 0 < |regions| < W && PageSize(ps)
    ensures var min, max := MinPage(pos, range, ps), MaxPage(pos, range, ps);
            var candidates := Candidates(regions, min, max, ps);
            && result == FirstGranted(candidates, os) && requests == Asked(candidates, os)
            && (inBounds <==> result != 0 || !ReadsPast(regions, min, max))
  {
    hide Asked, FirstGranted, MinPage, MaxPage, NextPage, Pending, Within, Walk;
    var min, max := MinPage(pos, range, ps), MaxPage(pos, range, ps);
    ghost var all := Candidates(regions, min, max, ps);
    ghost var walk := Walk(regions, 0, min, max, min, ps);
    ghost var last := if max < End(regions[|regions| - 1]) then [min] else [];
    requests, inBounds := [], true;
    ReadsPastIff(regions, min, max);
    PendingStart(all, os);
    if min < regions[0].start {
      assert all == [min] + (last + walk);
      AskNext(all, requests, min, last + walk, os);
      requests := requests + [min];
      result := os(min);
      if result != 0 {
        return;
      }
    } else {
      assert all == last + walk;
    }
    assert Pending(all, requests, last + walk, os);
    if max < End(regions[|regions| - 1]) {
      AskNext(all, requests, min, walk, os);
      requests := requests + [min];
      result := os(min);
      if result != 0 {
        return;
      }
    } else {
      assert last + walk == walk;
    }
    result := 0;
    var assumed: address, i := min, 0;
    while i < |regions|
      invariant 0 <= i <= |regions|
      invariant Pending(all, requests, Walk(regions, i, min, max, assumed, ps), os)
      invariant i > 0 ==> !ReadsPast(regions, min, max)
    {
      if Within(regions[i], min, max) && i <= Wrap(|regions| - 2) && i + 1 >= |regions| {
        OneRegion(regions, min, max, assumed, ps);
        PendingEnd(all, requests, os);
        return 0, requests, false;
      }
      result, assumed, requests := AskAround(regions, i, min, max, assumed, ps, os, requests, all);
      if result != 0 {
        return;
      }
      i := i + 1;
    }
    WalkEnd(regions, min, max, assumed, ps);
    PendingEnd(all, requests, os);
  }

  lemma OneRegion(regions: seq<Region>, min: address, max: address, assumed: address, ps: int)
    requires |regions| == 1 && PageSize(ps)
    ensures Walk(regions, 0, min, max, assumed, ps) == []
  {
    assert Walk(regions, 1, min, max, assumed, ps) == [];
  }

  lemma WalkEnd(regions: seq<Region>, min: address, max: address, assumed: address, ps: int)
    requires PageSize(ps)
    ensures Walk(regions, |regions|, min, max, assumed, ps) == []
  {
  }

  lemma PendingStart(all: seq<address>, os: address -> address)
    ensures Pending(all, [], all, os)
  {
  }

  lemma PendingEnd(all: seq<address>, requests: seq<address>, os: address -> address)
    requires Pending(all, requests, [], os)
    ensures FirstGranted(all, os) == 0 && Asked(all, os) == requests
  {
  }

  // The body of the search's loop: the blanks to the left and to the right of one region.
  method AskAround(regions: seq<Region>, i: nat, min: address, max: address, before: address, ps: int, os: address -> address,
                   refused: seq<address>, ghost all: seq<address>)
    returns (result: address, assumed: address, requests: seq<address>)
    requires i < |regions| && PageSize(ps)
    requires Pending(all, refused, Walk(regions, i, min, max, before, ps), os)
    ensures result == 0 ==> Pending(all, requests, Walk(regions, i + 1, min, max, assumed, ps), os)
    ensures result != 0 ==> Asked(all, os) == requests && FirstGranted(all, os) == result
  {
    hide Asked, FirstGranted, NextPage, Pending, Within;
    result, assumed, requests := 0, before, refused;
    var region := regions[i];
    ghost var left := if LeftBlank(regions, i, min, max, before, ps) then [LeftRequest(regions, i, min, ps)] else [];
    ghost var right := if RightBlank(regions, i, min, max) then [NextPage(End(region), ps)] else [];
    ghost var later := Walk(regions, i + 1, min, max, if right != [] then right[0] else if left != [] then left[0] else before, ps);
    assert Walk(regions, i, min, max, before, ps) == left + right + later;
    if Within(region, min, max) {
      if i >= 1 && assumed == min {
        var previousEnd := NextPage(End(regions[i - 1]), ps);
        if region.start > previousEnd {
          assumed := AddrMax(min, previousEnd);
          assert left + right + later == [assumed] + (right + later);
          AskNext(all, requests, assumed, right + later, os);
          requests, result := requests + [assumed], os(assumed);
          if result != 0 {
            return;
          }
        }
      }
      assert left == [] ==> left + right + later == right + later;
      if i + 1 < |regions| {
        if End(region) < regions[i + 1].start {
          assumed := NextPage(End(region), ps);
          AskNext(all, requests, assumed, later, os);
          requests, result := requests + [assumed], os(assumed);
          if result != 0 {
            return;
          }
        }
      }
      assert right == [] ==> right + later == later;
    }
    assert left == right == [] ==> left + right + later == later;
  }

  // ---------------------------------------------------------------- the allocator on values

  datatype Want = Want(pos: address, range: address, size: nat, permission: Permission)

  // What one search meets: the memory layout and the system's answers.
  datatype World = World(regions: seq<Region>, os: address -> address)

  // PastLayout: the search read behind its layout. Searching: every search so far was granted a page
  // that did not suit, and the next is due.
  datatype Answer = Given(chunk: Option<Chunk>) | PastLayout | Searching

  datatype Served = Served(answer: Answer, pages: seq<Page>, scans: nat)

  predicate Suits(p: Page, w: Want) {
    && p.permission == w.permission
    && Distance(Wrap(p.cursor), w.pos) < w.range
    && Wrap(p.cursor + w.size) < Wrap(p.address + p.length)
  }

  // The same in plain arithmetic, for pages below the top of the address space: the permission, less
  // than the range between the cursor and the position, directly or around, and room.
  ghost predicate Qualifies(p: Page, w: Want) {
    && p.permission == w.permission
    && (w.pos - w.range < p.cursor < w.pos + w.range || p.cursor + W < w.pos + w.range || w.pos + W < p.cursor + w.range)
    && p.cursor + w.size < p.address + p.length
  }

  lemma SuitsIff(p: Page, w: Want)
    requires p.cursor + w.size < W && p.address + p.length < W
    ensures Suits(p, w) <==> Qualifies(p, w)
  {
    hide Wrap;
    Unwrapped(p.cursor);
    Unwrapped(p.cursor + w.size);
    Unwrapped(p.address + p.length);
  }

  // The first page that suits, or |pages|.
  function FirstSuiting(pages: seq<Page>, w: Want): (i: nat)
    ensures i <= |pages| && (i < |pages| ==> Suits(pages[i], w))
    ensures forall j :: 0 <= j < i ==> !Suits(pages[j], w)
  {
    if pages == [] || Suits(pages[0], w) then 0 else 1 + FirstSuiting(pages[1..], w)
  }

  lemma FirstSuitingUnique(pages: seq<Page>, w: Want, i: nat)
    requires i <= |pages| && (i < |pages| ==> Suits(pages[i], w))
    requires forall j :: 0 <= j < i ==> !Suits(pages[j], w)
    ensures i == FirstSuiting(pages, w)
  {
    hide Suits;
  }

  function Granted(w: Want, world: World, ps: int): address
    requires 0 < |world.regions| < W && PageSize(ps)
  {
    FirstGranted(Candidates(world.regions, MinPage(w.pos, w.range, ps), MaxPage(w.pos, w.range, ps), ps), world.os)
  }

  ghost predicate Overread(w: Want, world: World, ps: int)
    requires 0 < |world.regions| < W && PageSize(ps)
  {
    Granted(w, world, ps) == 0 && ReadsPast(world.regions, MinPage(w.pos, w.range, ps), MaxPage(w.pos, w.range, ps))
  }

  predicate AllLaidOut(worlds: seq<World>) {
    forall i :: 0 <= i < |worlds| ==> 0 < |worlds[i].regions| < W
  }

  // `cave`: what the search of live memory would find.
  function Fallback(w: Want, cave: Option<Chunk>): Option<Chunk> {
    if w.permission.ReadWrite? then None else cave
  }

  // Scan, and as long as no page suits search and scan again, the searches meeting `worlds`.
  ghost function Serve(pages: seq<Page>, w: Want, worlds: seq<World>, pageSize: nat, ps: int, cave: Option<Chunk>): Served
    requires AllLaidOut(worlds) && PageSize(ps)
    decreases |worlds|
  {
    var at := FirstSuiting(pages, w);
    if at < |pages| then
      Served(Given(Some(Chunk(pages[at].cursor, w.size))), pages[at := Place(pages[at], w.size)], 1)
    else if worlds == [] then Served(Searching, pages, 1)
    else if Overread(w, worlds[0], ps) then Served(PastLayout, pages, 1)
    else
      var granted := Granted(w, worlds[0], ps);
      if granted == 0 then Served(Given(Fallback(w, cave)), pages, 1)
      else Again(Serve(pages + [NewPage(granted, pageSize, w.permission)], w, worlds[1..], pageSize, ps, cave))
  }

  // After some scans, `rest` is still to come of `all`.
  ghost predicate Remains(all: Served, scans: nat, rest: Served) {
    all == rest.(scans := rest.scans + scans)
  }

  function Again(r: Served): Served {
    r.(scans := r.scans + 1)
  }

  // One round, with i searches done.
  lemma ServeRound(pages: seq<Page>, w: Want, worlds: seq<World>, i: nat, pageSize: nat, ps: int, cave: Option<Chunk>)
    requires AllLaidOut(worlds) && PageSize(ps) && i <= |worlds|
    ensures var r, at := Serve(pages, w, worlds[i..], pageSize, ps, cave), FirstSuiting(pages, w);
            if at < |pages| then
              r == Served(Given(Some(Chunk(pages[at].cursor, w.size))), pages[at := Place(pages[at], w.size)], 1)
            else if i == |worlds| then r == Served(Searching, pages, 1)
            else if Granted(w, worlds[i], ps) == 0 then
              r == Served(if Overread(w, worlds[i], ps) then PastLayout else Given(Fallback(w, cave)), pages, 1)
            else r == Again(Serve(pages + [NewPage(Granted(w, worlds[i], ps), pageSize, w.permission)], w, worlds[i + 1..], pageSize, ps, cave))
  {
    hide FirstSuiting, Granted, ReadsPast, Place, NewPage, PageSize;
    if i < |worlds| {
      assert worlds[i..][0] == worlds[i] && worlds[i..][1..] == worlds[i + 1..];
    }
  }

  // ---------------------------------------------------------------- what it guarantees

  lemma Unwrapped(x: int)
    requires 0 <= x < W
    ensures Wrap(x) == x
  {
  }

  // A page fresh from the search passes the scan exactly when it is near and the request is smaller
  // than it.
  lemma NewPageSuits(a: address, pageSize: nat, w: Want)
    requires a + pageSize < W && a + w.size < W
    ensures Suits(NewPage(a, pageSize, w.permission), w) <==> Distance(a, w.pos) < w.range && w.size < pageSize
  {
    hide Distance, Wrap;
    Unwrapped(a);
    Unwrapped(a + w.size);
    Unwrapped(a + pageSize);
  }

  lemma AllUnsuited(pages: seq<Page>, added: Page, w: Want)
    requires FirstSuiting(pages, w) == |pages|
    ensures FirstSuiting(pages + [added], w) == |pages| + if Suits(added, w) then 0 else 1
  {
    hide Suits, FirstSuiting;
    var all := pages + [added];
    assert all[|pages|] == added && forall j :: 0 <= j < |pages| ==> all[j] == pages[j];
    FirstSuitingUnique(all, w, |pages| + if Suits(added, w) then 0 else 1);
  }

  // When no page suits and a search is granted a page: the next scan cuts it if it suits, and
  // otherwise only the list has grown.
  lemma ServeGranted(pages: seq<Page>, w: Want, worlds: seq<World>, pageSize: nat, ps: int, cave: Option<Chunk>)
    requires AllLaidOut(worlds) && PageSize(ps) && worlds != [] && FirstSuiting(pages, w) == |pages|
    requires Granted(w, worlds[0], ps) != 0
    ensures var a := Granted(w, worlds[0], ps);
            var page := NewPage(a, pageSize, w.permission);
            var r := Serve(pages, w, worlds, pageSize, ps, cave);
            if Suits(page, w) then r == Served(Given(Some(Chunk(a, w.size))), pages + [Place(page, w.size)], 2)
            else r == Again(Serve(pages + [page], w, worlds[1..], pageSize, ps, cave)) && FirstSuiting(pages + [page], w) == |pages| + 1
  {
    hide Suits, FirstSuiting, Candidates, FirstGranted, MinPage, MaxPage;
    var page := NewPage(Granted(w, worlds[0], ps), pageSize, w.permission);
    AllUnsuited(pages, page, w);
    if Suits(page, w) {
      assert (pages + [page])[|pages| := Place(page, w.size)] == pages + [Place(page, w.size)];
    }
  }

  // The pages granted to all searches.
  function GrantedPages(w: Want, worlds: seq<World>, pageSize: nat, ps: int): seq<Page>
    requires AllLaidOut(worlds) && PageSize(ps)
  {
    if worlds == [] then []
    else [NewPage(Granted(w, worlds[0], ps), pageSize, w.permission)] + GrantedPages(w, worlds[1..], pageSize, ps)
  }

  // As long as searches are granted pages that do not suit, the allocator goes on searching: after
  // any number of them it has listed every page and answered nothing.
  lemma {:induction false} SearchesOn(pages: seq<Page>, w: Want, worlds: seq<World>, pageSize: nat, ps: int, cave: Option<Chunk>)
    requires AllLaidOut(worlds) && PageSize(ps) && FirstSuiting(pages, w) == |pages|
    requires forall i :: 0 <= i < |worlds| ==> Unhelpful(w, worlds[i], pageSize, ps)
    ensures Serve(pages, w, worlds, pageSize, ps, cave)
            == Served(Searching, pages + GrantedPages(w, worlds, pageSize, ps), |worlds| + 1)
    decreases |worlds|
  {
    hide Granted, FirstSuiting, Suits;
    if worlds == [] {
      assert pages + [] == pages;
    } else {
      assert Unhelpful(w, worlds[0], pageSize, ps);
      ServeGranted(pages, w, worlds, pageSize, ps, cave);
      var page := NewPage(Granted(w, worlds[0], ps), pageSize, w.permission);
      SearchesOn(pages + [page], w, worlds[1..], pageSize, ps, cave);
      assert pages + [page] + GrantedPages(w, worlds[1..], pageSize, ps) == pages + GrantedPages(w, worlds, pageSize, ps);
    }
  }

  // A search is granted a page that is out of range, or no larger than the request.
  ghost predicate Unhelpful(w: Want, world: World, pageSize: nat, ps: int)
    requires PageSize(ps)
  {
    && 0 < |world.regions| < W && Granted(w, world, ps) != 0
    && !Suits(NewPage(Granted(w, world, ps), pageSize, w.permission), w)
  }

  // The pages lie below the top of the address space, and so does what is asked of them.
  ghost predicate InSpace(pages: seq<Page>, size: nat) {
    forall i :: 0 <= i < |pages| ==> pages[i].cursor + size < W && pages[i].address + pages[i].length < W
  }

  // The request is cut from page `at`, which qualifies, while no page before it does.
  ghost predicate CutAt(r: Served, pages: seq<Page>, w: Want, at: nat) {
    && at < |pages| && Qualifies(pages[at], w) && (forall j :: 0 <= j < at ==> !Qualifies(pages[j], w))
    && r.answer == Given(Some(Chunk(pages[at].cursor, w.size)))
    && r.pages == pages[at := pages[at].(cursor := pages[at].cursor + w.size, chunks := pages[at].chunks + [Chunk(pages[at].cursor, w.size)])]
  }

  lemma FirstCut(pages: seq<Page>, w: Want, worlds: seq<World>, pageSize: nat, ps: int, cave: Option<Chunk>)
    requires AllLaidOut(worlds) && PageSize(ps) && InSpace(pages, w.size)
    ensures var at := FirstSuiting(pages, w);
            if at < |pages| then CutAt(Serve(pages, w, worlds, pageSize, ps, cave), pages, w, at)
            else forall j :: 0 <= j < |pages| ==> !Qualifies(pages[j], w)
  {
    hide Suits, Qualifies, FirstSuiting;
    forall j | 0 <= j < |pages|
      ensures Suits(pages[j], w) <==> Qualifies(pages[j], w)
    {
      SuitsIff(pages[j], w);
    }
  }

  // With a window that is not empty, a request below the page size and a system that grants the
  // address asked for or refuses, two scans are enough. If a listed page qualifies the first one is
  // cut. Otherwise the page granted to the search is, at its address and within range; and if none
  // is granted nothing changes.
  lemma ServedNear(pages: seq<Page>, w: Want, worlds: seq<World>, pageSize: nat, ps: int, cave: Option<Chunk>)
    requires AllLaidOut(worlds) && PageSize(ps) && worlds != [] && InSpace(pages, w.size)
    requires Layout(worlds[0].regions) && Honours(worlds[0].os)
    requires w.range > 0 && MinPage(w.pos, w.range, ps) <= MaxPage(w.pos, w.range, ps)
    requires w.size < pageSize <= ps
    ensures var r, a := Serve(pages, w, worlds, pageSize, ps, cave), Granted(w, worlds[0], ps);
            if exists j :: 0 <= j < |pages| && Qualifies(pages[j], w) then
              r.scans == 1 && exists at :: CutAt(r, pages, w, at)
            else if a != 0 then
              && r.scans == 2 && CutAt(r, pages + [Page(a, pageSize, a, w.permission, [])], w, |pages|)
              && w.pos - w.range < a < w.pos + w.range
            else
              && r.scans == 1 && r.pages == pages
              && r.answer == if |worlds[0].regions| == 1 && Within(worlds[0].regions[0], MinPage(w.pos, w.range, ps), MaxPage(w.pos, w.range, ps))
                             then PastLayout else Given(if w.permission == ReadWrite then None else cave)
  {
    hide MinPage, MaxPage, Candidates, FirstGranted, Layout, Honours, FirstSuiting, Qualifies, ReadsPast, InSpace, CutAt, Suits;
    FirstCut(pages, w, worlds, pageSize, ps, cave);
    ReadsPastIff(worlds[0].regions, MinPage(w.pos, w.range, ps), MaxPage(w.pos, w.range, ps));
    var a, at := Granted(w, worlds[0], ps), FirstSuiting(pages, w);
    if at < |pages| {
      FirstCutQualifies(Serve(pages, w, worlds, pageSize, ps, cave), pages, w, at);
    } else if a != 0 {
      SecondCut(pages, w, worlds, pageSize, ps, cave);
    }
  }

  lemma FirstCutQualifies(r: Served, pages: seq<Page>, w: Want, at: nat)
    requires CutAt(r, pages, w, at)
    ensures at < |pages| && Qualifies(pages[at], w)
  {
  }

  lemma SecondCut(pages: seq<Page>, w: Want, worlds: seq<World>, pageSize: nat, ps: int, cave: Option<Chunk>)
    requires AllLaidOut(worlds) && PageSize(ps) && worlds != [] && InSpace(pages, w.size)
    requires Layout(worlds[0].regions) && Honours(worlds[0].os)
    requires w.range > 0 && MinPage(w.pos, w.range, ps) <= MaxPage(w.pos, w.range, ps)
    requires w.size < pageSize <= ps && FirstSuiting(pages, w) == |pages| && Granted(w, worlds[0], ps) != 0
    ensures var r, a := Serve(pages, w, worlds, pageSize, ps, cave), Granted(w, worlds[0], ps);
            && r.scans == 2 && CutAt(r, pages + [Page(a, pageSize, a, w.permission, [])], w, |pages|)
            && w.pos - w.range < a < w.pos + w.range
  {
    hide MinPage, MaxPage, Granted, Layout, Honours, FirstSuiting, Suits, Serve, Aligned, Qualifies;
    var a := Granted(w, worlds[0], ps);
    var page := Page(a, pageSize, a, w.permission, []);
    GrantedNear(w, worlds[0], ps);
    NewPageSuits(a, pageSize, w);
    SuitsIff(page, w);
    ServeGranted(pages, w, worlds, pageSize, ps, cave);
    var all := pages + [page];
    forall j | 0 <= j < |pages|
      ensures !Qualifies(all[j], w)
    {
      assert all[j] == pages[j];
      SuitsIff(pages[j], w);
    }
    assert all[|pages|] == page;
    assert all[|pages| := Place(page, w.size)] == pages + [Place(page, w.size)];
  }

  lemma GrantedNear(w: Want, world: World, ps: int)
    requires 0 < |world.regions| < W && PageSize(ps) && Layout(world.regions) && Honours(world.os)
    requires w.range > 0 && MinPage(w.pos, w.range, ps) <= MaxPage(w.pos, w.range, ps)
    requires Granted(w, world, ps) != 0
    ensures var a := Granted(w, world, ps);
            Aligned(a, ps) && w.pos - w.range < a < w.pos + w.range && Distance(a, w.pos) < w.range && a + 2 * ps <= W
  {
    hide MinPage, MaxPage, Candidates, FirstGranted, Asked, Layout, Aligned;
    var min, max := MinPage(w.pos, w.range, ps), MaxPage(w.pos, w.range, ps);
    GrantedAsked(Candidates(world.regions, min, max, ps), world.os);
    CandidatesNear(world.regions, w.pos, w.range, ps, Granted(w, world, ps));
  }

  // ---------------------------------------------------------------- the allocator

  class NearArena {
    const store: Arena
    const allocPageSize: int

    constructor (pageSize: nat, allocPageSize: int)
      ensures store.Valid() && store.pages.Contents() == [] && store.pageSize == pageSize && this.allocPageSize == allocPageSize
    {
      this.store := new Arena(pageSize);
      this.allocPageSize := allocPageSize;
    }

    method FindNearPage(w: Want) returns (found: PageChunk?, ghost at: nat)
      requires store.Valid()
      ensures at == FirstSuiting(Views(store.pages.Contents()), w)
      ensures var k := FirstSuiting(Views(store.pages.Contents()), w);
              found == if k < |store.pages.Contents()| then store.pages.Contents()[k] else null
    {
      hide Suits, FirstSuiting, Views;
      ghost var views := Views(store.pages.Contents());
      var i := 0;
      while i < store.pages.count
        invariant 0 <= i <= store.pages.count
        invariant forall j :: 0 <= j < i ==> !Suits(views[j], w)
      {
        var page := store.pages.GetObject(i);
        var suits := DoesSuit(page, w);
        if suits {
          FirstSuitingUnique(views, w, i);
          return page, i;
        }
        i := i + 1;
      }
      FirstSuitingUnique(views, w, i);
      return null, i;
    }

    method DoesSuit(page: PageChunk, w: Want) returns (suits: bool)
      ensures suits == Suits(page.View(), w)
    {
      suits := false;
      if page.permission == w.permission {
        if Distance(Wrap(page.cursor), w.pos) < w.range {
          suits := Wrap(page.cursor + w.size) < Wrap(page.address + page.length);
        }
      }
    }

    // One pass over the page list: the first page that suits is cut.
    method Scan(w: Want) returns (chunk: Option<Chunk>)
      requires store.Valid()
      modifies store.pages.Contents()
      ensures store.Valid() && store.pages.Contents() == old(store.pages.Contents())
      ensures var before, after := old(Views(store.pages.Contents())), Views(store.pages.Contents());
              var at := FirstSuiting(before, w);
              if at < |before| then chunk == Some(Chunk(before[at].cursor, w.size)) && after == before[at := Place(before[at], w.size)]
              else chunk == None && after == before
    {
      hide Views, Place, FirstSuiting, Suits;
      var page, at := FindNearPage(w);
      if page == null {
        chunk := None;
      } else {
        var carved := store.Carve(page, w.size, at);
        chunk := Some(carved);
      }
    }

    // A search: the page it is granted is listed, otherwise the request is answered.
    method SearchAndPush(w: Want, world: World, cave: Option<Chunk>) returns (pushed: PageChunk?, answer: Answer)
      requires store.Valid() && 0 < |world.regions| < W && PageSize(allocPageSize)
      modifies store.pages, store.pages.data
      ensures store.Valid() && (store.pages.data == old(store.pages.data) || fresh(store.pages.data))
      ensures pushed != null <==> Granted(w, world, allocPageSize) != 0
      ensures pushed == null ==>
                && store.pages.Contents() == old(store.pages.Contents())
                && Views(store.pages.Contents()) == old(Views(store.pages.Contents()))
                && answer == if Overread(w, world, allocPageSize) then PastLayout else Given(Fallback(w, cave))
      ensures pushed != null ==>
                && fresh(pushed) && store.pages.Contents() == old(store.pages.Contents()) + [pushed]
                && Views(store.pages.Contents())
                   == old(Views(store.pages.Contents())) + [NewPage(Granted(w, world, allocPageSize), store.pageSize, w.permission)]
    {
      hide Views, MinPage, MaxPage, NewPage, Candidates, FirstGranted, Asked, PageSize, ReadsPast;
      var blank, requests, inBounds := SearchNearBlankPage(w.pos, w.range, world.regions, allocPageSize, world.os);
      if blank == 0 {
        return null, if inBounds then Given(Fallback(w, cave)) else PastLayout;
      }
      var listed;
      answer := Searching;
      pushed, listed := store.AddPage(blank, w.permission, true);
    }

    method AllocateChunk(w: Want, worlds: seq<World>, cave: Option<Chunk>) returns (answer: Answer, scans: nat)
      requires store.Valid() && AllLaidOut(worlds) && PageSize(allocPageSize)
      modifies store.pages, store.pages.data, store.pages.Contents()
      ensures store.Valid()
      ensures Served(answer, Views(store.pages.Contents()), scans)
              == Serve(old(Views(store.pages.Contents())), w, worlds, store.pageSize, allocPageSize, cave)
    {
      hide Suits, Views, FirstSuiting, Granted, NewPage, Place, PageSize, Serve, Overread, Fallback;
      ghost var all := Serve(Views(store.pages.Contents()), w, worlds, store.pageSize, allocPageSize, cave);
      ghost var n := |store.pages.Contents()|;
      scans := 0;
      var i := 0;
      assert worlds[0..] == worlds;
      while true
        invariant store.Valid() && 0 <= i <= |worlds| && scans == i
        invariant |store.pages.Contents()| == n + i && store.pages.Contents()[..n] == old(store.pages.Contents())
        invariant forall j :: n <= j < n + i ==> fresh(store.pages.Contents()[j])
        invariant store.pages.data == old(store.pages.data) || fresh(store.pages.data)
        invariant Remains(all, scans, Serve(Views(store.pages.Contents()), w, worlds[i..], store.pageSize, allocPageSize, cave))
        decreases |worlds| - i
      {
        ServeRound(Views(store.pages.Contents()), w, worlds, i, store.pageSize, allocPageSize, cave);
        var chunk := Scan(w);
        scans := scans + 1;
        if chunk.Some? {
          return Given(chunk), scans;
        }
        if i == |worlds| {
          return Searching, scans;
        }
        var pushed, last := SearchAndPush(w, worlds[i], cave);
        if pushed == null {
          return last, scans;
        }
        i := i + 1;
      }
    }
  }
}
