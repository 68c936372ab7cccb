/**
 The Thumb-2 assembler's literal pool: literal loads are emitted unlinked, and RelocBind
 places each label's word behind the code and patches the loads that wait for it.
 */
module ThumbLiteral {
  import opened Wrappers

  type half = x: int | 0 <= x < 0x1_0000
  type word = x: int | 0 <= x < 0x1_0000_0000
  type register = x: int | 0 <= x < 16

  // ---------------------------------------------------------------- little-endian memory

  function HalfAt(code: seq<byte>, p: nat): half
    requires p + 2 <= |code|
  {
    var low: int, high: int := code[p], code[p + 1];
    low + 256 * high
  }

  function WordAt(code: seq<byte>, p: nat): word
    requires p + 4 <= |code|
  {
    var low: int, high: int := HalfAt(code, p), HalfAt(code, p + 2);
    low + 0x1_0000 * high
  }

  function HalfBytes(h: half): seq<byte> {
    [h % 256, h / 256]
  }

  function WordBytes(w: word): seq<byte> {
    HalfBytes(w % 0x1_0000) + HalfBytes(w / 0x1_0000)
  }

  function PutHalf(code: seq<byte>, p: nat, h: half): seq<byte>
    requires p + 2 <= |code|
  {
    code[p := h % 256][p + 1 := h / 256]
  }

  // ---------------------------------------------------------------- literal loads

  // LDR (literal), encoding T2: the register and the position it loads from, for a buffer at a
  // word-aligned address.
  datatype Load = Load(rt: register, position: int) | NotLoad

  function AlignDown(p: nat): nat {
    p / 4 * 4
  }

  function Decode(code: seq<byte>, q: nat): Load
    requires q + 4 <= |code|
  {
    var h1, h2 := HalfAt(code, q), HalfAt(code, q + 2);
    var imm12 := h2 % 4096;
    if h1 == 0xF8DF then Load(h2 / 4096, AlignDown(q + 4) + imm12)
    else if h1 == 0xF85F then Load(h2 / 4096, AlignDown(q + 4) - imm12)
    else NotLoad
  }

  // The bitwise or of two four-bit numbers.
  function NibbleOr(a: register, b: register): (r: register)
    ensures b == 0 ==> r == a
    ensures r % 2 == 1 <==> a % 2 == 1 || b % 2 == 1
    ensures r / 2 % 2 == 1 <==> a / 2 % 2 == 1 || b / 2 % 2 == 1
    ensures r / 4 % 2 == 1 <==> a / 4 % 2 == 1 || b / 4 % 2 == 1
    ensures r / 8 == 1 <==> a / 8 == 1 || b / 8 == 1
  {
    var bit := (x: int, y: int) => if x == 1 || y == 1 then 1 else 0;
    bit(a % 2, b % 2) + 2 * bit(a / 2 % 2, b / 2 % 2) + 4 * bit(a / 4 % 2, b / 4 % 2) + 8 * bit(a / 8, b / 8)
  }

  // The second halfword. The offset is not masked: one of 4096 or more runs into the register.
  function LoadSecond(rt: register, imm: nat): half {
    NibbleOr(rt, imm / 4096 % 16) * 4096 + imm % 4096
  }

  // EmitThumb2LoadLiteral
  function LoadBytes(rt: register, offset: int): seq<byte> {
    if offset > 0 then HalfBytes(0xF8DF) + HalfBytes(LoadSecond(rt, offset))
    else HalfBytes(0xF85F) + HalfBytes(LoadSecond(rt, -offset))
  }

  // The offset's bits above the twelfth run into the register.
  lemma LoadSecondFields(rt: register, high: nat, low: nat)
    requires low < 4096
    ensures var h := LoadSecond(rt, 4096 * high + low);
            h % 4096 == low && h / 4096 == NibbleOr(rt, high % 16)
  {
  }

  // Below 4096 the register is kept.
  lemma LoadSecondKeeps(rt: register, imm: nat)
    requires imm < 4096
    ensures LoadSecond(rt, imm) == rt * 4096 + imm
  {
  }

  // A load emitted for an unbound label: offset 0.
  predicate IsOpen(code: seq<byte>, q: nat) {
    q + 4 <= |code| && HalfAt(code, q) == 0xF85F && HalfAt(code, q + 2) % 4096 == 0
  }

  // h | B7, in terms of the value of bit 7
  function SetBit7(h: half): half {
    if h / 128 % 2 == 0 then h + 128 else h
  }

  // link_confused_instructions for one load: None when CHECK(imm12 < 4096) fails.
  function LinkLoad(code: seq<byte>, q: nat, target: nat): Option<seq<byte>> {
    if q + 4 > |code| then None
    else
      var offset := target - AlignDown(q) - 4;
      if 0 <= offset < 4096
      then Some(PutHalf(PutHalf(code, q, SetBit7(HalfAt(code, q))), q + 2, HalfAt(code, q + 2) / 4096 * 4096 + offset))
      else None
  }

  function LinkLoads(code: seq<byte>, links: seq<nat>, target: nat): Option<seq<byte>> {
    if links == [] then Some(code)
    else
      var before := LinkLoads(code, links[..|links| - 1], target);
      if before.None? then None else LinkLoad(before.value, links[|links| - 1], target)
  }

  // A label: the loads waiting for it and the word it stands for.
  datatype Entry = Entry(links: seq<nat>, data: word)

  function BindEntry(code: seq<byte>, e: Entry): Option<seq<byte>> {
    var linked := LinkLoads(code, e.links, |code|);
    if linked.None? then None else Some(linked.value + WordBytes(e.data))
  }

  function BindEntries(code: seq<byte>, entries: seq<Entry>): Option<seq<byte>> {
    if entries == [] then Some(code)
    else
      var before := BindEntries(code, entries[..|entries| - 1]);
      if before.None? then None else BindEntry(before.value, entries[|entries| - 1])
  }

  // ---------------------------------------------------------------- what linking does

  lemma PutHalfFrame(code: seq<byte>, p: nat, h: half)
    requires p + 2 <= |code|
    ensures var c := PutHalf(code, p, h);
            && |c| == |code| && HalfAt(c, p) == h
            && forall i :: 0 <= i < |code| && i != p && i != p + 1 ==> c[i] == code[i]
  {
  }

  // The load at q of `before`, linked to `target` in `after`.
  ghost predicate LinkedTo(before: seq<byte>, after: seq<byte>, q: nat, target: nat) {
    && q + 4 <= |before| && q + 4 <= |after|
    && Decode(after, q) == Load(HalfAt(before, q + 2) / 4096, target)
  }

  ghost predicate InReach(q: nat, target: nat) {
    0 <= target - AlignDown(q) - 4 < 4096
  }

  lemma LinkLoadMeaning(code: seq<byte>, q: nat, target: nat)
    requires IsOpen(code, q)
    ensures LinkLoad(code, q, target).Some? <==> InReach(q, target)
    ensures LinkLoad(code, q, target).Some? ==>
              var after := LinkLoad(code, q, target).value;
              && |after| == |code| && LinkedTo(code, after, q, target)
              && forall i :: 0 <= i < |code| && !(q <= i < q + 4) ==> after[i] == code[i]
  {
    if InReach(q, target) {
      var offset := target - AlignDown(q) - 4;
      var h1, h2 := SetBit7(HalfAt(code, q)), HalfAt(code, q + 2) / 4096 * 4096 + offset;
      var first := PutHalf(code, q, h1);
      PutHalfFrame(code, q, h1);
      PutHalfFrame(first, q + 2, h2);
      assert h1 == 0xF8DF && h2 % 4096 == offset && h2 / 4096 == HalfAt(code, q + 2) / 4096;
      assert AlignDown(q + 4) == AlignDown(q) + 4;
    }
  }

  // Two loads do not overlap.
  predicate Apart(p: nat, q: nat) {
    p + 4 <= q || q + 4 <= p
  }

  ghost predicate AllApart(links: seq<nat>) {
    forall i, j :: 0 <= i < j < |links| ==> Apart(links[i], links[j])
  }

  ghost predicate AllOpen(code: seq<byte>, links: seq<nat>) {
    forall i :: 0 <= i < |links| ==> IsOpen(code, links[i])
  }

  predicate InSlots(links: seq<nat>, p: nat) {
    exists i :: 0 <= i < |links| && links[i] <= p < links[i] + 4
  }

  // The four bytes of a slot decide whether a load is open and what it is.
  lemma SlotDecides(a: seq<byte>, b: seq<byte>, q: nat)
    requires q + 4 <= |a| && q + 4 <= |b| && forall i :: q <= i < q + 4 ==> a[i] == b[i]
    ensures IsOpen(a, q) == IsOpen(b, q) && HalfAt(a, q + 2) == HalfAt(b, q + 2) && Decode(a, q) == Decode(b, q)
  {
  }

  // `after` has every load of `links` linked to `target` and nothing else changed.
  ghost predicate LinksDone(code: seq<byte>, after: seq<byte>, links: seq<nat>, target: nat) {
    && |after| == |code|
    && (forall i :: 0 <= i < |links| ==> LinkedTo(code, after, links[i], target))
    && (forall p :: 0 <= p < |code| && !InSlots(links, p) ==> after[p] == code[p])
  }

  lemma OutsideSlots(front: seq<nat>, q: nat, p: nat)
    requires forall i :: 0 <= i < |front| ==> Apart(front[i], q)
    requires q <= p < q + 4
    ensures !InSlots(front, p)
  {
  }

  lemma SlotsOfFront(links: seq<nat>, p: nat)
    requires links != []
    ensures InSlots(links, p) <==> InSlots(links[..|links| - 1], p) || links[|links| - 1] <= p < links[|links| - 1] + 4
  {
    var front := links[..|links| - 1];
    if InSlots(front, p) {
      var i :| 0 <= i < |front| && front[i] <= p < front[i] + 4;
      assert links[i] <= p < links[i] + 4;
    }
  }

  // One more load linked after those of `front`.
  lemma LinksDoneStep(code: seq<byte>, before: seq<byte>, after: seq<byte>, links: seq<nat>, target: nat)
    requires links != [] && AllApart(links)
    requires LinksDone(code, before, links[..|links| - 1], target)
    requires var q := links[|links| - 1];
             && |after| == |before| && LinkedTo(code, after, q, target)
             && forall i :: 0 <= i < |before| && !(q <= i < q + 4) ==> after[i] == before[i]
    ensures LinksDone(code, after, links, target)
  {
    hide Decode, HalfAt, IsOpen, InSlots;
    var front, q := links[..|links| - 1], links[|links| - 1];
    forall i | 0 <= i < |links|
      ensures LinkedTo(code, after, links[i], target)
    {
      if i < |front| {
        assert LinkedTo(code, before, front[i], target);
        assert front[i] == links[i] && Apart(links[i], q);
        SlotDecides(after, before, links[i]);
      }
    }
    forall p | 0 <= p < |code| && !InSlots(links, p)
      ensures after[p] == code[p]
    {
      SlotsOfFront(links, p);
    }
  }

  lemma {:induction false} LinkLoadsMeaning(code: seq<byte>, links: seq<nat>, target: nat)
    requires AllOpen(code, links) && AllApart(links)
    ensures LinkLoads(code, links, target).Some? <==> forall i :: 0 <= i < |links| ==> InReach(links[i], target)
    ensures LinkLoads(code, links, target).Some? ==> LinksDone(code, LinkLoads(code, links, target).value, links, target)
  {
    hide Decode, LinkLoad, InSlots, InReach, HalfAt, IsOpen;
    if links != [] {
      var n := |links| - 1;
      var front, q := links[..n], links[n];
      assert forall i :: 0 <= i < n ==> front[i] == links[i];
      LinkLoadsMeaning(code, front, target);
      var before := LinkLoads(code, front, target);
      if before.Some? {
        forall p | q <= p < q + 4
          ensures !InSlots(front, p)
        {
          OutsideSlots(front, q, p);
        }
        assert IsOpen(code, links[n]);
        OpenFits(code, q);
        SlotDecides(before.value, code, q);
        LinkLoadMeaning(before.value, q, target);
        var after := LinkLoad(before.value, q, target);
        if after.Some? {
          LinksDoneStep(code, before.value, after.value, links, target);
        }
      }
    }
  }

  lemma OpenFits(code: seq<byte>, q: nat)
    requires IsOpen(code, q)
    ensures q + 4 <= |code|
  {
  }

  // ---------------------------------------------------------------- binding all labels

  // Every waiting load is emitted and still open, and no two overlap.
  ghost predicate Waiting(code: seq<byte>, entries: seq<Entry>) {
    && (forall k :: 0 <= k < |entries| ==> AllOpen(code, entries[k].links) && AllApart(entries[k].links))
    && (forall j, k :: 0 <= j < k < |entries| ==> NoOverlap(entries[j].links, entries[k].links))
  }

  ghost predicate NoOverlap(a: seq<nat>, b: seq<nat>) {
    forall i, j :: 0 <= i < |a| && 0 <= j < |b| ==> Apart(a[i], b[j])
  }

  ghost predicate EntryBound(code: seq<byte>, after: seq<byte>, e: Entry, target: nat) {
    && (forall i :: 0 <= i < |e.links| ==> LinkedTo(code, after, e.links[i], target))
    && target + 4 <= |after| && WordAt(after, target) == e.data
  }

  ghost predicate InAnySlot(entries: seq<Entry>, p: nat) {
    exists k :: 0 <= k < |entries| && InSlots(entries[k].links, p)
  }

  // What RelocBind is for: the words lie behind the code in label order, each load reads its
  // label's word into the register it was emitted for, and no other byte of the code changed.
  ghost predicate AllBound(code: seq<byte>, after: seq<byte>, entries: seq<Entry>) {
    && |after| == |code| + 4 * |entries|
    && (forall k :: 0 <= k < |entries| ==> EntryBound(code, after, entries[k], |code| + 4 * k))
    && (forall p :: 0 <= p < |code| && !InAnySlot(entries, p) ==> after[p] == code[p])
  }

  ghost predicate AllReach(e: Entry, target: nat) {
    forall i :: 0 <= i < |e.links| ==> InReach(e.links[i], target)
  }

  ghost predicate AllInReach(entries: seq<Entry>, start: nat) {
    forall k :: 0 <= k < |entries| ==> AllReach(entries[k], start + 4 * k)
  }

  lemma WordBytesAt(code: seq<byte>, w: word)
    ensures |WordBytes(w)| == 4 && WordAt(code + WordBytes(w), |code|) == w
  {
    var c := code + WordBytes(w);
    assert c[|code|] == w % 0x1_0000 % 256 && c[|code| + 1] == w % 0x1_0000 / 256;
    assert c[|code| + 2] == w / 0x1_0000 % 256 && c[|code| + 3] == w / 0x1_0000 / 256;
  }

  // A bound entry stays bound while the bytes of its loads and its word stay the same.
  lemma EntryBoundStays(code: seq<byte>, before: seq<byte>, after: seq<byte>, e: Entry, target: nat)
    requires EntryBound(code, before, e, target) && |before| <= |after|
    requires forall i, p :: 0 <= i < |e.links| && e.links[i] <= p < e.links[i] + 4 && p < |before| ==> after[p] == before[p]
    requires forall p :: target <= p < target + 4 ==> after[p] == before[p]
    ensures EntryBound(code, after, e, target)
  {
    hide Decode;
    forall i | 0 <= i < |e.links|
      ensures LinkedTo(code, after, e.links[i], target)
    {
      assert LinkedTo(code, before, e.links[i], target);
      SlotDecides(after, before, e.links[i]);
    }
  }

  // Binding the last label leaves the earlier ones bound.
  lemma BoundStep(code: seq<byte>, before: seq<byte>, linked: seq<byte>, entries: seq<Entry>)
    requires entries != [] && Waiting(code, entries)
    requires AllBound(code, before, entries[..|entries| - 1])
    requires LinksDone(before, linked, entries[|entries| - 1].links, |before|)
    requires var links := entries[|entries| - 1].links;
             forall i :: 0 <= i < |links| ==> SameSlot(code, before, links[i])
    ensures AllBound(code, linked + WordBytes(entries[|entries| - 1].data), entries)
  {
    hide Decode, HalfAt, WordAt, IsOpen, InSlots, WordBytes;
    var n := |entries| - 1;
    var front, last := entries[..n], entries[n];
    var after := linked + WordBytes(last.data);
    WordBytesAt(linked, last.data);
    forall i | 0 <= i < |last.links|
      ensures LinkedTo(code, after, last.links[i], |code| + 4 * n)
    {
      assert LinkedTo(before, linked, last.links[i], |before|) && SameSlot(code, before, last.links[i]);
      SlotDecides(after, linked, last.links[i]);
      SlotDecides(code, before, last.links[i]);
    }
    forall k | 0 <= k < n
      ensures EntryBound(code, after, entries[k], |code| + 4 * k)
    {
      assert front[k] == entries[k] && NoOverlap(entries[k].links, last.links);
      assert EntryBound(code, before, front[k], |code| + 4 * k);
      forall i, p | 0 <= i < |front[k].links| && front[k].links[i] <= p < front[k].links[i] + 4 && p < |before|
        ensures after[p] == before[p]
      {
        ApartSlots(last.links, front[k].links[i], p);
      }
      forall p | |code| <= p < |before|
        ensures after[p] == before[p]
      {
        OpenSlots(code, last.links, p);
      }
      EntryBoundStays(code, before, after, entries[k], |code| + 4 * k);
    }
    forall p | 0 <= p < |code| && !InAnySlot(entries, p)
      ensures after[p] == code[p]
    {
      AnySlotOfFront(entries, p);
    }
  }

  ghost predicate SameSlot(a: seq<byte>, b: seq<byte>, q: nat) {
    q + 4 <= |a| && q + 4 <= |b| && forall p :: q <= p < q + 4 ==> a[p] == b[p]
  }

  lemma ApartSlots(links: seq<nat>, q: nat, p: nat)
    requires forall i :: 0 <= i < |links| ==> Apart(q, links[i])
    requires q <= p < q + 4
    ensures !InSlots(links, p)
  {
  }

  lemma OpenSlots(code: seq<byte>, links: seq<nat>, p: nat)
    requires AllOpen(code, links) && |code| <= p
    ensures !InSlots(links, p)
  {
  }

  lemma AnySlotOfFront(entries: seq<Entry>, p: nat)
    requires entries != []
    ensures InAnySlot(entries, p) <==> InAnySlot(entries[..|entries| - 1], p) || InSlots(entries[|entries| - 1].links, p)
  {
    hide InSlots;
    var front := entries[..|entries| - 1];
    if InAnySlot(front, p) {
      var k :| 0 <= k < |front| && InSlots(front[k].links, p);
      assert InSlots(entries[k].links, p);
    }
  }

  // The loads of the last label are untouched while the earlier labels are bound.
  lemma LastUntouched(code: seq<byte>, before: seq<byte>, entries: seq<Entry>)
    requires entries != [] && Waiting(code, entries)
    requires AllBound(code, before, entries[..|entries| - 1])
    ensures var links := entries[|entries| - 1].links;
            && AllOpen(before, links)
            && forall i :: 0 <= i < |links| ==> SameSlot(code, before, links[i])
  {
    hide Decode, HalfAt, WordAt, InSlots;
    var n := |entries| - 1;
    var front, links := entries[..n], entries[n].links;
    forall i | 0 <= i < |links|
      ensures IsOpen(before, links[i]) && SameSlot(code, before, links[i])
    {
      assert IsOpen(code, links[i]);
      forall p | links[i] <= p < links[i] + 4
        ensures !InAnySlot(front, p)
      {
        forall k | 0 <= k < n
          ensures !InSlots(front[k].links, p)
        {
          assert front[k] == entries[k] && NoOverlap(entries[k].links, links);
          OutsideSlots(front[k].links, links[i], p);
        }
      }
      SlotDecides(code, before, links[i]);
    }
  }

  lemma {:induction false} BindEntriesMeaning(code: seq<byte>, entries: seq<Entry>)
    requires Waiting(code, entries)
    ensures BindEntries(code, entries).Some? <==> AllInReach(entries, |code|)
    ensures BindEntries(code, entries).Some? ==> AllBound(code, BindEntries(code, entries).value, entries)
  {
    hide Decode, HalfAt, WordAt, IsOpen, InSlots, WordBytes, InReach, InAnySlot, LinksDone, EntryBound, SameSlot, Apart, AllApart, NoOverlap, LinkLoads;
    if entries != [] {
      var n := |entries| - 1;
      var front, last := entries[..n], entries[n];
      assert forall k :: 0 <= k < n ==> front[k] == entries[k];
      BindEntriesMeaning(code, front);
      var before := BindEntries(code, front);
      if before.Some? {
        LastUntouched(code, before.value, entries);
        LinkLoadsMeaning(before.value, last.links, |before.value|);
        assert |before.value| == |code| + 4 * n;
        var linked := LinkLoads(before.value, last.links, |before.value|);
        if linked.Some? {
          BoundStep(code, before.value, linked.value, entries);
        }
      }
    }
  }
}
