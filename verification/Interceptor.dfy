/**
 The hook registry: an intrusive circular doubly-linked list that refines the sequence of active
 hooks, newest first, and the two entry points that patch the code memory.
 */
module Interceptor {
  import opened Wrappers
  import opened Hooks

  class Node {
    var next: Node?
    var prev: Node?
    const entry: Option<Entry>

    constructor (entry: Option<Entry>)
      ensures this.entry == entry
    {
      this.entry := entry;
      next, prev := null, null;
    }
  }

  // The nodes of a ring in order, its head first and once more at the end.
  ghost predicate Ring(nodes: seq<Node>)
    reads nodes
  {
    && |nodes| >= 2 && nodes[0] == nodes[|nodes| - 1]
    && (forall i, j :: 0 <= i < j < |nodes| - 1 ==> nodes[i] != nodes[j])
    && (forall i :: 0 <= i < |nodes| - 1 ==> Linked(nodes[i], nodes[i + 1]))
  }

  // next and prev are inverse at this link.
  ghost predicate Linked(a: Node, b: Node)
    reads a, b
  {
    a.next == b && b.prev == a
  }

  ghost function EntriesOf(nodes: seq<Node>): (es: seq<Entry>)
    requires forall i :: 0 <= i < |nodes| ==> nodes[i].entry.Some?
    ensures |es| == |nodes| && forall i :: 0 <= i < |nodes| ==> es[i] == nodes[i].entry.value
  {
    if nodes == [] then [] else [nodes[0].entry.value] + EntriesOf(nodes[1..])
  }

  // Dropping a node of the ring drops its entry.
  lemma EntriesWithout(nodes: seq<Node>, at: nat)
    requires at + 2 < |nodes| && forall i :: 1 <= i < |nodes| - 1 ==> nodes[i].entry.Some?
    ensures var left := nodes[..at + 1] + nodes[at + 2..];
            && (forall i :: 1 <= i < |left| - 1 ==> left[i].entry.Some?)
            && EntriesOf(left[1..|left| - 1]) == Without(EntriesOf(nodes[1..|nodes| - 1]), at)
  {
    hide EntriesOf;
    var inner, left := nodes[1..|nodes| - 1], nodes[..at + 1] + nodes[at + 2..];
    assert left[1..|left| - 1] == inner[..at] + inner[at + 1..];
  }

  class Interceptor {
    const head: Node
    ghost var nodes: seq<Node>

    ghost predicate Valid()
      reads this, nodes
    {
      && Ring(nodes) && nodes[0] == head
      && forall i :: 1 <= i < |nodes| - 1 ==> nodes[i].entry.Some?
    }

    ghost function Entries(): seq<Entry>
      requires Valid()
      reads this, nodes
    {
      EntriesOf(nodes[1..|nodes| - 1])
    }

    // INIT_LIST_HEAD
    constructor ()
      ensures Valid() && Entries() == [] && fresh(nodes)
    {
      head := new Node(None);
      new;
      head.next, head.prev := head, head;
      nodes := [head, head];
    }

    method ListAdd(node: Node, prev: Node, next: Node)
      requires node != prev && node != next
      modifies node, prev`next, next`prev
      ensures Linked(prev, node) && Linked(node, next)
    {
      next.prev := node;
      node.next := next;
      node.prev := prev;
      prev.next := node;
    }

    method ListDel(prev: Node, next: Node)
      modifies prev`next, next`prev
      ensures Linked(prev, next)
    {
      next.prev := prev;
      prev.next := next;
    }

    method AddHookEntry(e: Entry)
      requires Valid()
      modifies this, nodes
      ensures Valid() && Entries() == [e] + old(Entries())
      ensures forall n :: n in nodes ==> n in old(nodes) || fresh(n)
    {
      ghost var before := nodes;
      assert Linked(before[0], before[1]);
      var node := new Node(Some(e));
      ListAdd(node, head, head.next);
      nodes := [head, node] + before[1..];
      forall i | 0 <= i < |nodes| - 1
        ensures Linked(nodes[i], nodes[i + 1])
      {
        if i >= 2 {
          assert nodes[i] == before[i - 1] && nodes[i + 1] == before[i];
          assert old(Linked(before[i - 1], before[i]));
        }
      }
      assert nodes[1..|nodes| - 1] == [node] + before[1..|before| - 1];
    }

    method FindHookEntryNode(address: nat) returns (found: Node?, ghost at: nat)
      requires Valid()
      ensures at == Find(Entries(), address)
      ensures var k := Find(Entries(), address);
              (found == null <==> k == |Entries()|) && (found != null ==> found == nodes[k + 1])
      ensures found != null ==> at + 1 < |nodes| - 1 && found == nodes[at + 1] && found.entry.Some?
    {
      var node := head.next;
      ghost var i := 1;
      while node != head
        invariant 1 <= i < |nodes| && node == nodes[i]
        invariant forall j :: 0 <= j < i - 1 ==> Entries()[j].address != address
        decreases |nodes| - i
      {
        if node.entry.value.address == address {
          FindUnique(Entries(), address, i - 1);
          return node, i - 1;
        }
        assert Linked(nodes[i], nodes[i + 1]);
        node := node.next;
        i := i + 1;
      }
      FindUnique(Entries(), address, i - 1);
      return null, i - 1;
    }

    method FindHookEntry(address: nat) returns (entry: Option<Entry>)
      requires Valid()
      ensures var k := Find(Entries(), address);
              entry == if k < |Entries()| then Some(Entries()[k]) else None
    {
      var node, at := FindHookEntryNode(address);
      entry := if node == null then None else node.entry;
    }

    // list_del of the node at index k of the ring
    method Unlink(node: Node, ghost k: nat)
      requires Valid() && 1 <= k < |nodes| - 1 && node == nodes[k]
      modifies this, nodes
      ensures Valid() && nodes == old(nodes[..k] + nodes[k + 1..])
    {
      ghost var before := nodes;
      assert Linked(before[k - 1], before[k]) && Linked(before[k], before[k + 1]);
      ListDel(node.prev, node.next);
      node.next := null;
      node.prev := null;
      nodes := before[..k] + before[k + 1..];
      forall i | 0 <= i < |nodes| - 1
        ensures Linked(nodes[i], nodes[i + 1])
      {
        if i < k - 1 {
          assert nodes[i] == before[i] && nodes[i + 1] == before[i + 1] && old(Linked(before[i], before[i + 1]));
        } else if i >= k {
          assert nodes[i] == before[i + 1] && nodes[i + 1] == before[i + 2] && old(Linked(before[i + 1], before[i + 2]));
        }
      }
    }

    method RemoveHookEntry(address: nat)
      requires Valid()
      modifies this, nodes
      ensures Valid() && forall n :: n in nodes ==> n in old(nodes)
      ensures var k := Find(old(Entries()), address);
              Entries() == if k < |old(Entries())| then Without(old(Entries()), k) else old(Entries())
    {
      hide Ring, EntriesOf, Find, Without;
      var node, at := FindHookEntryNode(address);
      if node != null {
        EntriesWithout(nodes, at);
        Unlink(node, at + 1);
      }
    }

    method GetHookEntryCount() returns (count: nat)
      requires Valid()
      ensures count == |Entries()|
    {
      var node := head.next;
      count := 0;
      while node != head
        invariant 1 <= count + 1 < |nodes| && node == nodes[count + 1]
        decreases |nodes| - count
      {
        assert Linked(nodes[count + 1], nodes[count + 2]);
        node := node.next;
        count := count + 1;
      }
    }
  }

  lemma SavedAt(es: seq<Entry>, size: nat, k: nat)
    requires Saved(es, size)
    ensures k < |es| ==> es[k].address + |es[k].saved| <= size
  {
  }

  // A process whose code is patched: DobbyHook, DobbyDestroy and the calls they make.
  class Process {
    const interceptor: Interceptor
    var memory: seq<byte>

    ghost predicate Valid()
      reads this, interceptor, interceptor.nodes
    {
      interceptor.Valid() && Saved(interceptor.Entries(), |memory|)
    }

    ghost function Abstract(): State
      requires Valid()
      reads this, interceptor, interceptor.nodes
    {
      State(memory, interceptor.Entries())
    }

    constructor (code: seq<byte>)
      ensures Valid() && Abstract() == State(code, [])
    {
      interceptor := new Interceptor();
      memory := code;
    }

    method CodePatch(address: nat, bytes: seq<byte>)
      requires address + |bytes| <= |memory|
      modifies this
      ensures memory == Patch(old(memory), address, bytes)
    {
      memory := memory[..address] + bytes + memory[address + |bytes|..];
    }

    // The trampoline and the prologue length come from code generation, which is not part of this class.
    method DobbyHook(c: Call) returns (ok: bool)
      requires Valid() && c.Hook? && InMemory(c, |memory|)
      modifies this, interceptor, interceptor.nodes
      ensures Valid() && (ok, Abstract()) == Apply(old(Abstract()), c)
      ensures forall n :: n in interceptor.nodes ==> n in old(interceptor.nodes) || fresh(n)
    {
      hide Find, Patch, Ring, EntriesOf, Saved;
      ApplySaved(Abstract(), c);
      if c.address == 0 {
        return false;
      }
      var found := interceptor.FindHookEntry(c.address);
      if found.Some? && found.value.target == c.target {
        return false;
      }
      // GenerateRelocatedCode copies the prologue last, once relocation has succeeded
      var saved := if c.relocates then memory[c.address..c.address + c.length] else [];
      interceptor.AddHookEntry(Entry(c.address, c.target, saved, c.trampoline));
      CodePatch(c.address, c.trampoline);
      return true;
    }

    method DobbyDestroy(address: nat) returns (ok: bool)
      requires Valid()
      modifies this, interceptor, interceptor.nodes
      ensures Valid() && (ok, Abstract()) == Apply(old(Abstract()), Destroy(address))
      ensures forall n :: n in interceptor.nodes ==> n in old(interceptor.nodes)
    {
      hide Find, Patch, Ring, EntriesOf, Without, Saved;
      SavedAt(interceptor.Entries(), |memory|, Find(interceptor.Entries(), address));
      ApplySaved(Abstract(), Destroy(address));
      var found := interceptor.FindHookEntry(address);
      if found.None? {
        return false;
      }
      CodePatch(address, found.value.saved);
      interceptor.RemoveHookEntry(address);
      return true;
    }
  }
}
