/**
 Installing and destroying inline hooks, on values: the code memory and the registered hooks with
 the newest first. Every run keeps the memory explained by the hooks that are still active.
 */
module Hooks {
  import opened Wrappers

  // A hook: where, the replacement function, the prologue saved there and the trampoline of its route.
  datatype Entry = Entry(address: nat, target: nat, saved: seq<byte>, trampoline: seq<byte>)

  datatype State = State(memory: seq<byte>, entries: seq<Entry>)

  // The newest hook at an address, or |entries|.
  function Find(entries: seq<Entry>, address: nat): (k: nat)
    ensures k <= |entries|
    ensures k < |entries| ==> entries[k].address == address
    ensures forall j :: 0 <= j < k ==> entries[j].address != address
  {
    if entries == [] || entries[0].address == address then 0 else 1 + Find(entries[1..], address)
  }

  lemma FindUnique(entries: seq<Entry>, address: nat, k: nat)
    requires k <= |entries| && (k < |entries| ==> entries[k].address == address)
    requires forall j :: 0 <= j < k ==> entries[j].address != address
    ensures k == Find(entries, address)
  {
  }

  function Without(entries: seq<Entry>, k: nat): seq<Entry>
    requires k < |entries|
  {
    entries[..k] + entries[k + 1..]
  }

  function Patch(memory: seq<byte>, address: nat, bytes: seq<byte>): seq<byte>
    requires address + |bytes| <= |memory|
  {
    memory[..address] + bytes + memory[address + |bytes|..]
  }

  // What a hook call brings: the trampoline, the length of the prologue the relocator consumed, and
  // whether relocation succeeded.
  datatype Call =
    | Hook(address: nat, target: nat, trampoline: seq<byte>, length: nat, relocates: bool)
    | Destroy(address: nat)

  predicate InMemory(c: Call, size: nat) {
    c.Hook? ==> c.address + |c.trampoline| <= size && c.address + c.length <= size
  }

  predicate Saved(entries: seq<Entry>, size: nat) {
    forall k :: 0 <= k < |entries| ==> entries[k].address + |entries[k].saved| <= size
  }

  // The entry DispatchRouting fills in: the prologue is copied only once relocation has succeeded.
  function NewEntry(memory: seq<byte>, c: Call): Entry
    requires c.Hook? && InMemory(c, |memory|)
  {
    Entry(c.address, c.target, if c.relocates then memory[c.address..c.address + c.length] else [], c.trampoline)
  }

  predicate Refused(entries: seq<Entry>, c: Call)
    requires c.Hook?
  {
    c.address == 0 || (Find(entries, c.address) < |entries| && entries[Find(entries, c.address)].target == c.target)
  }

  function Apply(s: State, c: Call): (bool, State)
    requires InMemory(c, |s.memory|) && Saved(s.entries, |s.memory|)
  {
    match c
    case Hook(address, target, trampoline, length, relocates) =>
      if Refused(s.entries, c) then (false, s)
      else (true, State(Patch(s.memory, address, trampoline), [NewEntry(s.memory, c)] + s.entries))
    case Destroy(address) =>
      var k := Find(s.entries, address);
      if k == |s.entries| then (false, s)
      else (true, State(Patch(s.memory, address, s.entries[k].saved), Without(s.entries, k)))
  }

  lemma ApplySaved(s: State, c: Call)
    requires InMemory(c, |s.memory|) && Saved(s.entries, |s.memory|)
    ensures |Apply(s, c).1.memory| == |s.memory| && Saved(Apply(s, c).1.entries, |s.memory|)
  {
  }

  // ---------------------------------------------------------------- what the memory should hold

  predicate Covers(e: Entry, p: nat) {
    e.address <= p < e.address + |e.saved|
  }

  // The byte at p when the active hooks' trampolines lie over the original code, newest on top.
  function Seen(original: seq<byte>, entries: seq<Entry>, p: nat): byte
    requires p < |original|
  {
    if entries == [] then original[p]
    else
      var e := entries[0];
      if e.address <= p < e.address + |e.trampoline| then e.trampoline[p - e.address]
      else Seen(original, entries[1..], p)
  }

  // Two hooks are at the same address or do not meet.
  predicate Compatible(e: Entry, f: Entry) {
    e.address == f.address || e.address + |e.saved| <= f.address || f.address + |f.saved| <= e.address
  }

  ghost predicate AllCompatible(entries: seq<Entry>) {
    forall i, j :: 0 <= i < j < |entries| ==> Compatible(entries[i], entries[j])
  }

  // A saved prologue is what lies below its hook.
  ghost predicate SavesBelow(original: seq<byte>, entries: seq<Entry>, k: nat)
    requires k < |entries|
  {
    var e := entries[k];
    && e.address + |e.saved| <= |original| && |e.trampoline| <= |e.saved|
    && forall p: nat :: Covers(e, p) ==> e.saved[p - e.address] == Seen(original, entries[k + 1..], p)
  }

  ghost predicate Explained(original: seq<byte>, s: State) {
    && |s.memory| == |original|
    && (forall p :: 0 <= p < |original| ==> s.memory[p] == Seen(original, s.entries, p))
    && (forall k :: 0 <= k < |s.entries| ==> SavesBelow(original, s.entries, k))
    && AllCompatible(s.entries)
  }

  // A hook call as the callers make it: relocation succeeds, the trampoline is no longer than the
  // prologue, the prologue fits the 64-byte buffer and meets no hook at another address.
  ghost predicate WellPlaced(s: State, c: Call) {
    && InMemory(c, |s.memory|)
    && (c.Hook? ==>
          && c.relocates && |c.trampoline| <= c.length <= 64
          && forall k :: 0 <= k < |s.entries| ==> Compatible(NewEntry(s.memory, c), s.entries[k]))
  }

  // ---------------------------------------------------------------- one call

  // Removing a hook does not change what is seen outside its range.
  lemma {:induction false} SeenSkip(original: seq<byte>, entries: seq<Entry>, k: nat, p: nat)
    requires k < |entries| && p < |original|
    requires |entries[k].trampoline| <= |entries[k].saved| && !Covers(entries[k], p)
    ensures Seen(original, Without(entries, k), p) == Seen(original, entries, p)
  {
    var rest := Without(entries, k);
    if k == 0 {
      assert rest == entries[1..];
    } else {
      SeenSkip(original, entries[1..], k - 1, p);
      assert rest[0] == entries[0] && rest[1..] == Without(entries[1..], k - 1);
    }
  }

  // Inside the range of a hook, hooks that are newer and elsewhere show nothing.
  lemma {:induction false} SeenDrop(original: seq<byte>, entries: seq<Entry>, k: nat, p: nat)
    requires k <= |entries| && p < |original|
    requires forall j :: 0 <= j < k ==> |entries[j].trampoline| <= |entries[j].saved| && !Covers(entries[j], p)
    ensures Seen(original, entries, p) == Seen(original, entries[k..], p)
  {
    if k == 0 {
      assert entries[k..] == entries;
    } else {
      SeenDrop(original, entries[1..], k - 1, p);
      assert entries[1..][k - 1..] == entries[k..];
    }
  }

  lemma HookExplained(original: seq<byte>, s: State, c: Call)
    requires Explained(original, s) && c.Hook? && WellPlaced(s, c) && Saved(s.entries, |s.memory|)
    ensures Explained(original, Apply(s, c).1)
  {
    hide Refused, Compatible, Seen;
    if !Refused(s.entries, c) {
      var t := Apply(s, c).1;
      var e := NewEntry(s.memory, c);
      assert t.entries[1..] == s.entries && t.entries[0] == e;
      forall p | 0 <= p < |original|
        ensures t.memory[p] == Seen(original, t.entries, p)
      {
        SeenFirst(original, t.entries, p);
      }
      forall k | 0 <= k < |t.entries|
        ensures SavesBelow(original, t.entries, k)
      {
        if k > 0 {
          assert SavesBelow(original, s.entries, k - 1) && s.entries[k..] == t.entries[k + 1..];
        }
      }
    }
  }

  lemma SeenFirst(original: seq<byte>, entries: seq<Entry>, p: nat)
    requires entries != [] && p < |original|
    ensures var e := entries[0];
            Seen(original, entries, p)
            == if e.address <= p < e.address + |e.trampoline| then e.trampoline[p - e.address] else Seen(original, entries[1..], p)
  {
  }

  // Destroying the newest hook of an address uncovers exactly what was below it.
  lemma RestoredByte(original: seq<byte>, entries: seq<Entry>, k: nat, p: nat)
    requires k < |entries| && p < |original| && AllCompatible(entries)
    requires forall j :: 0 <= j < |entries| ==> SavesBelow(original, entries, j)
    requires forall j :: 0 <= j < k ==> entries[j].address != entries[k].address
    ensures Seen(original, Without(entries, k), p)
            == if Covers(entries[k], p) then entries[k].saved[p - entries[k].address] else Seen(original, entries, p)
  {
    hide Seen;
    var e := entries[k];
    assert SavesBelow(original, entries, k);
    if Covers(e, p) {
      forall j | 0 <= j < k
        ensures |entries[j].trampoline| <= |entries[j].saved| && !Covers(entries[j], p)
      {
        assert Compatible(entries[j], entries[k]) && SavesBelow(original, entries, j);
      }
      var rest := Without(entries, k);
      SeenDrop(original, rest, k, p);
      assert rest[k..] == entries[k + 1..];
    } else {
      SeenSkip(original, entries, k, p);
    }
  }

  lemma WithoutSaves(original: seq<byte>, entries: seq<Entry>, k: nat, j: nat)
    requires k < |entries| && j + 1 < |entries| && AllCompatible(entries)
    requires forall i :: 0 <= i < |entries| ==> SavesBelow(original, entries, i)
    requires forall i :: 0 <= i < k ==> entries[i].address != entries[k].address
    ensures SavesBelow(original, Without(entries, k), j)
  {
    hide Seen;
    var rest := Without(entries, k);
    if j < k {
      assert SavesBelow(original, entries, j) && SavesBelow(original, entries, k) && Compatible(entries[j], entries[k]);
      var below := entries[j + 1..];
      assert rest[j + 1..] == Without(below, k - j - 1) && below[k - j - 1] == entries[k];
      forall p: nat | Covers(entries[j], p)
        ensures Seen(original, below, p) == Seen(original, rest[j + 1..], p)
      {
        SeenSkip(original, below, k - j - 1, p);
      }
    } else {
      assert SavesBelow(original, entries, j + 1);
      assert rest[j + 1..] == entries[j + 2..];
    }
  }

  lemma DestroyExplained(original: seq<byte>, s: State, c: Call)
    requires Explained(original, s) && c.Destroy? && Saved(s.entries, |s.memory|)
    ensures Explained(original, Apply(s, c).1)
  {
    hide Seen, SavesBelow, Find;
    var k := Find(s.entries, c.address);
    if k < |s.entries| {
      var t := Apply(s, c).1;
      forall p | 0 <= p < |original|
        ensures t.memory[p] == Seen(original, t.entries, p)
      {
        RestoredByte(original, s.entries, k, p);
      }
      forall j | 0 <= j < |t.entries|
        ensures SavesBelow(original, t.entries, j)
      {
        WithoutSaves(original, s.entries, k, j);
      }
    }
  }

  // ---------------------------------------------------------------- every run

  // The state after the calls, provided each was well placed when it was made.
  ghost function Run(original: seq<byte>, calls: seq<Call>): (s: Option<State>)
    ensures s.Some? ==> |s.value.memory| == |original| && Saved(s.value.entries, |original|)
  {
    if calls == [] then Some(State(original, []))
    else
      var before, c := Run(original, calls[..|calls| - 1]), calls[|calls| - 1];
      if before.None? || !WellPlaced(before.value, c) then None
      else
        ApplySaved(before.value, c);
        Some(Apply(before.value, c).1)
  }

  lemma {:induction false} RunExplained(original: seq<byte>, calls: seq<Call>)
    requires Run(original, calls).Some?
    ensures Explained(original, Run(original, calls).value)
  {
    hide WellPlaced, Apply;
    if calls == [] {
      assert Run(original, calls).value == State(original, []);
    } else {
      var front, c := calls[..|calls| - 1], calls[|calls| - 1];
      RunExplained(original, front);
      var before := Run(original, front).value;
      if c.Hook? {
        HookExplained(original, before, c);
      } else {
        DestroyExplained(original, before, c);
      }
    }
  }

  // Outside the ranges of active hooks the code is the original code.
  lemma OriginalOutside(original: seq<byte>, calls: seq<Call>, p: nat)
    requires Run(original, calls).Some? && p < |original|
    requires var s := Run(original, calls).value;
             forall k :: 0 <= k < |s.entries| ==> !Covers(s.entries[k], p)
    ensures Run(original, calls).value.memory[p] == original[p]
  {
    RunExplained(original, calls);
    var s := Run(original, calls).value;
    forall k | 0 <= k < |s.entries|
      ensures |s.entries[k].trampoline| <= |s.entries[k].saved|
    {
      assert SavesBelow(original, s.entries, k);
    }
    SeenDrop(original, s.entries, |s.entries|, p);
  }

  // Once every hook is destroyed the memory is what it was.
  lemma AllRestored(original: seq<byte>, calls: seq<Call>)
    requires Run(original, calls).Some? && Run(original, calls).value.entries == []
    ensures Run(original, calls).value.memory == original
  {
    RunExplained(original, calls);
  }

  // ---------------------------------------------------------------- when calls succeed

  // Entry k is the newest hook at an address.
  ghost predicate Newest(entries: seq<Entry>, address: nat, k: nat) {
    k < |entries| && entries[k].address == address && forall j :: 0 <= j < k ==> entries[j].address != address
  }

  // A hook is installed if and only if the address is not zero and the newest hook there, if there is
  // one, has another replacement. It is then the newest hook, and its trampoline lies at the address.
  lemma HookSucceedsIff(s: State, c: Call)
    requires c.Hook? && InMemory(c, |s.memory|) && Saved(s.entries, |s.memory|)
    ensures var (ok, t) := Apply(s, c);
            && (ok <==> c.address != 0 && forall k: nat :: Newest(s.entries, c.address, k) ==> s.entries[k].target != c.target)
            && (ok ==>
                  && |t.memory| == |s.memory| && t.memory[c.address..c.address + |c.trampoline|] == c.trampoline
                  && (forall p :: 0 <= p < |s.memory| && !(c.address <= p < c.address + |c.trampoline|) ==> t.memory[p] == s.memory[p])
                  && |t.entries| == |s.entries| + 1 && t.entries[1..] == s.entries
                  && t.entries[0].address == c.address && t.entries[0].target == c.target)
            && (!ok ==> t == s)
  {
    var k := Find(s.entries, c.address);
    if k < |s.entries| {
      assert Newest(s.entries, c.address, k);
    }
    forall n: nat | Newest(s.entries, c.address, n)
      ensures n == k
    {
      FindUnique(s.entries, c.address, n);
    }
  }

  // A hook is destroyed if and only if there is one at the address. The newest one is removed, and
  // what it saved lies at the address.
  lemma DestroySucceedsIff(s: State, address: nat)
    requires Saved(s.entries, |s.memory|)
    ensures var (ok, t) := Apply(s, Destroy(address));
            && (ok <==> exists k :: 0 <= k < |s.entries| && s.entries[k].address == address)
            && (forall k: nat :: Newest(s.entries, address, k) ==>
                  && t.entries == s.entries[..k] + s.entries[k + 1..] && |t.memory| == |s.memory|
                  && t.memory[address..address + |s.entries[k].saved|] == s.entries[k].saved
                  && forall p :: 0 <= p < |s.memory| && !(address <= p < address + |s.entries[k].saved|) ==> t.memory[p] == s.memory[p])
            && (!ok ==> t == s)
  {
    var k := Find(s.entries, address);
    forall n: nat | Newest(s.entries, address, n)
      ensures n == k
    {
      FindUnique(s.entries, address, n);
    }
    if k < |s.entries| {
      assert s.entries[k].address == address;
    }
  }

  // ---------------------------------------------------------------- one hook and its destruction

  predicate Leftover(c: Call, kept: nat, p: nat)
    requires c.Hook?
  {
    c.address + kept <= p < c.address + |c.trampoline|
  }

  lemma PatchTwice(memory: seq<byte>, c: Call, kept: nat)
    requires c.Hook? && c.address + |c.trampoline| <= |memory| && c.address + kept <= |memory|
    ensures var after := Patch(Patch(memory, c.address, c.trampoline), c.address, memory[c.address..c.address + kept]);
            && |after| == |memory|
            && forall p :: 0 <= p < |memory| ==> after[p] == if Leftover(c, kept, p) then c.trampoline[p - c.address] else memory[p]
  {
  }

  // The prologue comes back exactly when the bytes of the trampoline that were not saved over,
  // all of them if relocation failed, happen to be those of the code before.
  lemma HookThenDestroy(s: State, c: Call)
    requires c.Hook? && InMemory(c, |s.memory|) && Saved(s.entries, |s.memory|) && !Refused(s.entries, c)
    ensures var (found, after) := Apply(Apply(s, c).1, Destroy(c.address));
            var kept := if c.relocates then c.length else 0;
            && found && after.entries == s.entries
            && (after.memory == s.memory <==>
                forall p :: 0 <= p < |s.memory| && Leftover(c, kept, p) ==> s.memory[p] == c.trampoline[p - c.address])
  {
    hide Refused, Patch;
    var hooked := Apply(s, c).1;
    var kept := if c.relocates then c.length else 0;
    assert hooked.entries[0] == NewEntry(s.memory, c);
    assert Find(hooked.entries, c.address) == 0;
    assert Without(hooked.entries, 0) == s.entries;
    PatchTwice(s.memory, c, kept);
    assert NewEntry(s.memory, c).saved == s.memory[c.address..c.address + kept];
  }
}
