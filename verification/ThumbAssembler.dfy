/**
 The Thumb-2 turbo assembler: an append-only code buffer, labels that collect the loads waiting
 for them, and the passes that bind and fix up the labels.
 */
module ThumbAssembler {
  import opened Wrappers
  import opened ThumbLiteral

  // Label::pos_ encodes the binding: zero unused, -p - 1 bound at p.
  class ThumbRelocLabelEntry {
    var pos: int
    var links: seq<nat>
    var data: word

    constructor (data: word)
      ensures this.pos == 0 && this.links == [] && this.data == data
    {
      this.pos, this.links, this.data := 0, [], data;
    }

    predicate IsBound()
      reads this
    {
      pos < 0
    }

    function Position(): int
      reads this
    {
      if pos < 0 then -pos - 1 else if pos > 0 then pos - 1 else 0
    }

    method BindTo(p: nat)
      modifies this`pos
      ensures IsBound() && Position() == p
    {
      pos := -(p as int) - 1;
    }
  }

  ghost function EntriesOf(labels: seq<ThumbRelocLabelEntry>): (es: seq<Entry>)
    reads labels
    ensures |es| == |labels|
    ensures forall k :: 0 <= k < |labels| ==> es[k] == Entry(labels[k].links, labels[k].data)
  {
    if labels == [] then []
    else
      var last := labels[|labels| - 1];
      EntriesOf(labels[..|labels| - 1]) + [Entry(last.links, last.data)]
  }

  ghost predicate Holds(labels: seq<ThumbRelocLabelEntry>, es: seq<Entry>)
    reads labels
  {
    |es| == |labels| && forall k :: 0 <= k < |labels| ==> es[k] == Entry(labels[k].links, labels[k].data)
  }

  lemma HoldsExactly(labels: seq<ThumbRelocLabelEntry>, es: seq<Entry>)
    requires Holds(labels, es)
    ensures EntriesOf(labels) == es
  {
  }

  // The first n labels are bound one word apart.
  ghost predicate BoundFrom(labels: seq<ThumbRelocLabelEntry>, n: nat, start: nat)
    requires n <= |labels|
    reads labels
  {
    forall k :: 0 <= k < n ==> labels[k].IsBound() && labels[k].Position() == start + 4 * k
  }

  ghost predicate Distinct(labels: seq<ThumbRelocLabelEntry>) {
    forall j, k :: 0 <= j < k < |labels| ==> labels[j] != labels[k]
  }

  // ---------------------------------------------------------------- emission keeps loads open

  lemma OpenGrows(code: seq<byte>, extra: seq<byte>, q: nat)
    requires IsOpen(code, q)
    ensures IsOpen(code + extra, q)
  {
    SlotDecides(code, code + extra, q);
  }

  lemma WaitingGrows(code: seq<byte>, extra: seq<byte>, es: seq<Entry>)
    requires Waiting(code, es)
    ensures Waiting(code + extra, es)
  {
    hide IsOpen, Apart;
    forall k, i | 0 <= k < |es| && 0 <= i < |es[k].links|
      ensures IsOpen(code + extra, es[k].links[i])
    {
      OpenGrows(code, extra, es[k].links[i]);
    }
  }

  lemma WaitingNew(code: seq<byte>, es: seq<Entry>, data: word)
    requires Waiting(code, es)
    ensures Waiting(code, es + [Entry([], data)])
  {
    hide IsOpen, Apart;
    var all := es + [Entry([], data)];
    forall j, k | 0 <= j < k < |all|
      ensures NoOverlap(all[j].links, all[k].links)
    {
      if k < |es| {
        assert NoOverlap(es[j].links, es[k].links);
      }
    }
  }

  lemma OpenLoad(code: seq<byte>, rt: register)
    ensures IsOpen(code + LoadBytes(rt, 0), |code|)
  {
    hide LoadSecond;
    LoadSecondKeeps(rt, 0);
    var c := code + LoadBytes(rt, 0);
    assert c[|code|] == 0x5F && c[|code| + 1] == 0xF8 && c[|code| + 2] == 0 && c[|code| + 3] == rt * 16;
  }

  // A load emitted at the end overlaps none of the loads emitted before it.
  lemma WaitingLoad(code: seq<byte>, rt: register, es: seq<Entry>, k: nat)
    requires k < |es| && Waiting(code, es)
    ensures Waiting(code + LoadBytes(rt, 0), es[k := Entry(es[k].links + [|code|], es[k].data)])
  {
    hide LoadBytes;
    WaitingGrows(code, LoadBytes(rt, 0), es);
    OpenLoad(code, rt);
    var all := es[k := Entry(es[k].links + [|code|], es[k].data)];
    forall j, i | 0 <= j < |es| && 0 <= i < |es[j].links|
      ensures Apart(es[j].links[i], |code|) && Apart(|code|, es[j].links[i])
    {
      assert IsOpen(code, es[j].links[i]);
    }
    forall i, j | 0 <= i < j < |all|
      ensures NoOverlap(all[i].links, all[j].links)
    {
      assert NoOverlap(es[i].links, es[j].links);
    }
  }

  // ---------------------------------------------------------------- failure is final

  lemma {:induction false} LinkLoadsStuck(code: seq<byte>, links: seq<nat>, n: nat, target: nat)
    requires n <= |links| && LinkLoads(code, links[..n], target).None?
    ensures LinkLoads(code, links, target).None?
    decreases |links|
  {
    hide LinkLoad;
    if n < |links| {
      var front := links[..|links| - 1];
      assert front[..n] == links[..n];
      LinkLoadsStuck(code, front, n, target);
    } else {
      assert links[..n] == links;
    }
  }

  lemma {:induction false} LinkLoadsLength(code: seq<byte>, links: seq<nat>, target: nat)
    ensures LinkLoads(code, links, target).Some? ==> |LinkLoads(code, links, target).value| == |code|
  {
    if links != [] {
      LinkLoadsLength(code, links[..|links| - 1], target);
    }
  }

  lemma BindNone(code: seq<byte>, es: seq<Entry>)
    requires es == []
    ensures BindEntries(code, es) == Some(code)
  {
  }

  lemma BindNext(code: seq<byte>, es: seq<Entry>, i: nat)
    requires i < |es| && BindEntries(code, es[..i]).Some?
    ensures BindEntries(code, es[..i + 1]) == BindEntry(BindEntries(code, es[..i]).value, es[i])
  {
    assert es[..i + 1][..i] == es[..i];
  }

  lemma {:induction false} BindStuck(code: seq<byte>, es: seq<Entry>, n: nat)
    requires n <= |es| && BindEntries(code, es[..n]).None?
    ensures BindEntries(code, es).None?
    decreases |es|
  {
    hide BindEntry;
    if n < |es| {
      var front := es[..|es| - 1];
      assert front[..n] == es[..n];
      BindStuck(code, front, n);
    } else {
      assert es[..n] == es;
    }
  }

  lemma BindOutcome(code: seq<byte>, reached: seq<byte>, es: seq<Entry>, n: nat, ok: bool)
    requires n <= |es| && (ok ==> n == |es| && BindEntries(code, es[..n]) == Some(reached))
    requires !ok ==> BindEntries(code, es[..n]).None?
    ensures var after := BindEntries(code, es);
            ok == after.Some? && (ok ==> reached == after.value)
  {
    hide BindEntries;
    if ok {
      assert es[..n] == es;
    } else {
      BindStuck(code, es, n);
    }
  }

  // ---------------------------------------------------------------- after binding

  // Fixing up one label's word keeps every load linked and every other word in place.
  lemma FixupKeepsBound(code: seq<byte>, before: seq<byte>, after: seq<byte>, es: seq<Entry>, k: nat, data: word)
    requires Waiting(code, es) && AllBound(code, before, es) && k < |es|
    requires |after| == |before| && WordAt(after, |code| + 4 * k) == data
    requires forall p :: 0 <= p < |after| && !(|code| + 4 * k <= p < |code| + 4 * k + 4) ==> after[p] == before[p]
    ensures AllBound(code, after, es[k := Entry(es[k].links, data)])
  {
    hide Decode, HalfAt, WordAt, InSlots;
    var all := es[k := Entry(es[k].links, data)];
    forall j | 0 <= j < |es|
      ensures EntryBound(code, after, all[j], |code| + 4 * j)
    {
      assert EntryBound(code, before, es[j], |code| + 4 * j);
      forall i | 0 <= i < |es[j].links|
        ensures LinkedTo(code, after, es[j].links[i], |code| + 4 * j)
      {
        assert LinkedTo(code, before, es[j].links[i], |code| + 4 * j);
        SlotDecides(after, before, es[j].links[i]);
      }
      if j != k {
        EntryBoundStays(code, before, after, es[j], |code| + 4 * j);
      }
    }
    forall p | 0 <= p < |code| && !InAnySlot(all, p)
      ensures after[p] == code[p]
    {
      forall j | 0 <= j < |es|
        ensures !InSlots(es[j].links, p)
      {
        assert es[j].links == all[j].links;
      }
    }
  }

  // A load emitted for a label that is already bound, at any distance, ignores the alignment and the
  // bias of the pc: it never reads the label's word. Within 4096 bytes it keeps its register and
  // reads the same few bytes past the label wherever that is.
  lemma BoundLoadMisses(code: seq<byte>, rt: register, position: nat)
    ensures var load := Decode(code + LoadBytes(rt, position - |code|), |code|);
            && load.Load? && load.position != position
            && (-4096 < position - |code| < 4096 ==> load == Load(rt, position + 4 - |code| % 4))
  {
    hide LoadSecond, Decode, LoadBytes;
    var offset := position - |code|;
    var distance: nat := if offset > 0 then offset else -offset;
    DecodeLoad(code, rt, offset);
    LoadSecondLow(rt, distance);
    if distance < 4096 {
      LoadSecondKeeps(rt, distance);
    }
    assert AlignDown(|code| + 4) == |code| + 4 - |code| % 4;
  }

  // Reading back a literal load.
  lemma DecodeLoad(code: seq<byte>, rt: register, offset: int)
    ensures var h := LoadSecond(rt, if offset > 0 then offset else -offset);
            var base, imm12 := AlignDown(|code| + 4), h % 4096;
            Decode(code + LoadBytes(rt, offset), |code|) == Load(h / 4096, if offset > 0 then base + imm12 else base - imm12)
  {
    hide LoadSecond;
    var h := LoadSecond(rt, if offset > 0 then offset else -offset);
    var after := code + LoadBytes(rt, offset);
    assert after[|code|] == (if offset > 0 then 0xDF else 0x5F) && after[|code| + 1] == 0xF8;
    assert after[|code| + 2] == h % 256 && after[|code| + 3] == h / 256;
    assert HalfAt(after, |code| + 2) == h;
  }

  lemma LoadSecondLow(rt: register, imm: nat)
    ensures LoadSecond(rt, imm) % 4096 == imm % 4096
  {
  }

  class ThumbTurboAssembler {
    var code: seq<byte>
    var labels: seq<ThumbRelocLabelEntry>

    // Nothing is bound yet and every load the labels wait for is still open.
    ghost predicate Assembling()
      reads this, labels
    {
      && Distinct(labels)
      && (forall k :: 0 <= k < |labels| ==> labels[k].pos == 0)
      && Waiting(code, EntriesOf(labels))
    }

    constructor ()
      ensures Assembling() && code == [] && labels == []
    {
      code, labels := [], [];
    }

    method EmitInt16(h: half)
      modifies this`code
      ensures code == old(code) + HalfBytes(h)
      ensures old(Assembling()) ==> Assembling()
    {
      code := code + HalfBytes(h);
      if old(Assembling()) {
        WaitingGrows(old(code), HalfBytes(h), EntriesOf(labels));
      }
    }

    method EmitAddress(w: word)
      modifies this`code
      ensures code == old(code) + WordBytes(w)
      ensures old(Assembling()) ==> Assembling()
    {
      code := code + WordBytes(w);
      if old(Assembling()) {
        WaitingGrows(old(code), WordBytes(w), EntriesOf(labels));
      }
    }

    method AppendRelocLabelEntry(l: ThumbRelocLabelEntry)
      requires Assembling() && l !in labels && l.pos == 0 && l.links == []
      modifies this`labels
      ensures Assembling() && labels == old(labels) + [l]
    {
      hide Waiting, EntriesOf;
      ghost var es := EntriesOf(labels);
      labels := labels + [l];
      HoldsExactly(labels, es + [Entry([], l.data)]);
      WaitingNew(code, es, l.data);
    }

    method EmitThumb2LoadLiteral(rt: register, offset: int)
      modifies this`code
      ensures code == old(code) + LoadBytes(rt, offset)
    {
      if offset > 0 {
        EmitInt16(0xF8DF);
        EmitInt16(LoadSecond(rt, offset));
      } else {
        EmitInt16(0xF85F);
        EmitInt16(LoadSecond(rt, -offset));
      }
    }

    method T2_Ldr(rt: register, l: ThumbRelocLabelEntry)
      requires !l.IsBound() ==> Assembling() && l in labels
      modifies this`code, l`links
      ensures l.links == if l.IsBound() then old(l.links) else old(l.links) + [|old(code)|]
      ensures code == old(code) + LoadBytes(rt, if l.IsBound() then l.Position() - |old(code)| else 0)
      ensures !l.IsBound() ==> Assembling()
    {
      if l.IsBound() {
        EmitThumb2LoadLiteral(rt, l.Position() - |code|);
      } else {
        ghost var k :| 0 <= k < |labels| && labels[k] == l;
        ghost var es := EntriesOf(labels);
        l.links := l.links + [|code|];
        EmitThumb2LoadLiteral(rt, 0);
        WaitingLoad(old(code), rt, es, k);
        assert EntriesOf(labels) == es[k := Entry(es[k].links + [|old(code)|], es[k].data)];
      }
    }

    // link_confused_instructions: false when a distance fails CHECK(imm12 < (1 << 12)).
    method LinkConfusedInstructions(l: ThumbRelocLabelEntry) returns (ok: bool)
      requires l.IsBound()
      modifies this`code
      ensures var after := LinkLoads(old(code), l.links, l.Position());
              ok == after.Some? && (ok ==> code == after.value)
    {
      var i := 0;
      while i < |l.links|
        invariant 0 <= i <= |l.links|
        invariant LinkLoads(old(code), l.links[..i], l.Position()) == Some(code)
      {
        assert l.links[..i + 1][..i] == l.links[..i];
        var q := l.links[i];
        var offset := l.Position() - AlignDown(q) - 4;
        if q + 4 > |code| || !(0 <= offset < 4096) {
          LinkLoadsStuck(old(code), l.links, i + 1, l.Position());
          return false;
        }
        var h1, h2 := HalfAt(code, q), HalfAt(code, q + 2);
        code := PutHalf(PutHalf(code, q, SetBit7(h1)), q + 2, h2 / 4096 * 4096 + offset);
        i := i + 1;
      }
      assert l.links[..i] == l.links;
      return true;
    }

    method ThumbPseudoBind(l: ThumbRelocLabelEntry) returns (ok: bool)
      requires l.pos <= 0
      modifies this`code, l`pos
      ensures l.IsBound() && l.Position() == if old(l.IsBound()) then old(l.Position()) else |old(code)|
      ensures var after := LinkLoads(old(code), l.links, l.Position());
              ok == after.Some? && (ok ==> code == after.value)
    {
      if l.pos == 0 {
        l.BindTo(|code|);
      }
      ok := LinkConfusedInstructions(l);
    }

    // The body of RelocBind's loop: bind the label here, then emit its word.
    method BindAndEmit(l: ThumbRelocLabelEntry) returns (ok: bool)
      requires l.pos == 0
      modifies this`code, l`pos
      ensures l.IsBound() && l.Position() == |old(code)|
      ensures var after := BindEntry(old(code), Entry(l.links, l.data));
              ok == after.Some? && (ok ==> code == after.value && |code| == |old(code)| + 4)
    {
      LinkLoadsLength(code, l.links, |code|);
      ok := ThumbPseudoBind(l);
      if ok {
        EmitAddress(l.data);
      }
    }

    method BindLabels() returns (ok: bool)
      requires Assembling()
      modifies this`code, labels`pos
      ensures EntriesOf(labels) == old(EntriesOf(labels))
      ensures var after := BindEntries(old(code), EntriesOf(labels));
              ok == after.Some? && (ok ==> code == after.value)
      ensures ok ==> BoundFrom(labels, |labels|, |old(code)|)
    {
      hide BindEntry, BindEntries, Waiting, EntriesOf, HalfBytes, WordBytes;
      ghost var es := EntriesOf(labels);
      var n := |labels|;
      ok := true;
      var i := 0;
      BindNone(code, es[..i]);
      while i < n && ok
        invariant 0 <= i <= n
        invariant ok ==> BindEntries(old(code), es[..i]) == Some(code)
        invariant ok ==> |code| == |old(code)| + 4 * i
        invariant !ok ==> BindEntries(old(code), es[..i]).None?
        invariant ok ==> BoundFrom(labels, i, |old(code)|)
        invariant forall k :: i <= k < n ==> labels[k].pos == 0
        decreases n - i
      {
        BindNext(old(code), es, i);
        ok := BindAndEmit(labels[i]);
        i := i + 1;
      }
      HoldsExactly(labels, es);
      BindOutcome(old(code), code, es, i, ok);
    }

    method RelocBind() returns (ok: bool)
      requires Assembling()
      modifies this`code, labels`pos
      ensures EntriesOf(labels) == old(EntriesOf(labels))
      ensures ok <==> AllInReach(EntriesOf(labels), |old(code)|)
      ensures ok ==> AllBound(old(code), code, EntriesOf(labels))
      ensures ok ==> BoundFrom(labels, |labels|, |old(code)|)
    {
      hide BindEntries, Waiting, EntriesOf;
      BindEntriesMeaning(code, EntriesOf(labels));
      ok := BindLabels();
    }

    method RelocBindFixup(l: ThumbRelocLabelEntry)
      requires l.IsBound() && l.Position() + 4 <= |code|
      modifies this`code
      ensures |code| == |old(code)| && WordAt(code, l.Position()) == l.data
      ensures forall p :: 0 <= p < |code| && !(l.Position() <= p < l.Position() + 4) ==> code[p] == old(code)[p]
    {
      var p := l.Position();
      var low, high := l.data % 0x1_0000, l.data / 0x1_0000;
      PutHalfFrame(code, p, low);
      code := PutHalf(code, p, low);
      PutHalfFrame(code, p + 2, high);
      code := PutHalf(code, p + 2, high);
    }
  }
}
