/**
 The variable cache as the program keeps it: a linked list from a global root, values updated in
 place, new variables pushed in front.
 */
module VariableCache {
  import opened Wrappers
  import opened CacheFormat

  class VarEntry {
    const key: name
    var value: word64
    var next: VarEntry?

    constructor (key: name, value: word64, next: VarEntry?)
      ensures this.key == key && this.value == value && this.next == next
    {
      this.key, this.value, this.next := key, value, next;
    }
  }

  // The node at an index, null past the end.
  ghost function At(spine: seq<VarEntry>, i: nat): VarEntry? {
    if i < |spine| then spine[i] else null
  }

  ghost predicate Chain(spine: seq<VarEntry>)
    reads spine
  {
    && (forall i, j :: 0 <= i < j < |spine| ==> spine[i] != spine[j])
    && (forall i :: 0 <= i < |spine| ==> spine[i].next == At(spine, i + 1))
  }

  ghost function EntriesOf(spine: seq<VarEntry>): (es: seq<Entry>)
    reads spine
    ensures |es| == |spine| && forall i :: 0 <= i < |spine| ==> es[i] == Entry(spine[i].key, spine[i].value)
  {
    if spine == [] then [] else [Entry(spine[0].key, spine[0].value)] + EntriesOf(spine[1..])
  }

  class Cache {
    var root: VarEntry?
    ghost var spine: seq<VarEntry>

    ghost predicate Valid()
      reads this, spine
    {
      root == At(spine, 0) && Chain(spine)
    }

    ghost function Entries(): seq<Entry>
      reads this, spine
    {
      EntriesOf(spine)
    }

    constructor ()
      ensures Valid() && Entries() == []
    {
      root, spine := null, [];
    }

    method GetEntryInternal(n: name) returns (entry: VarEntry?, ghost at: nat)
      requires Valid()
      ensures at == Find(Entries(), n)
      ensures entry == At(spine, Find(Entries(), n))
    {
      entry, at := root, 0;
      while entry != null
        invariant at <= |spine| && entry == At(spine, at)
        invariant forall j :: 0 <= j < at ==> Entries()[j].key != n
        decreases |spine| - at
      {
        if entry.key == n {
          FindUnique(Entries(), n, at);
          return;
        }
        entry := entry.next;
        at := at + 1;
      }
      FindUnique(Entries(), n, at);
    }

    method Push(n: name, v: word64)
      requires Valid()
      modifies this
      ensures Valid() && Entries() == [Entry(n, v)] + old(Entries())
      ensures forall e :: e in spine ==> e in old(spine) || fresh(e)
    {
      root := new VarEntry(n, v, root);
      ghost var before := spine;
      spine := [root] + spine;
      assert forall i :: 0 <= i <= |before| ==> At(spine, i + 1) == At(before, i);
    }

    method CacheSet(n: name, v: word64)
      requires Valid()
      modifies this, spine
      ensures Valid() && Entries() == Set(old(Entries()), n, v)
      ensures forall e :: e in spine ==> e in old(spine) || fresh(e)
    {
      hide Find, EntriesOf;
      var entry, at := GetEntryInternal(n);
      if entry != null {
        entry.value := v;
        return;
      }
      Push(n, v);
    }

    method CacheGet(n: name) returns (v: word64)
      requires Valid()
      ensures v == Get(Entries(), n)
    {
      var entry, at := GetEntryInternal(n);
      if entry != null {
        return entry.value;
      }
      return 0;
    }

    method SerializedToFile() returns (file: seq<byte>)
      requires Valid()
      ensures file == Serialize(Entries())
    {
      hide EntryBytes, Find, EntriesOf;
      file := [];
      var entry := root;
      ghost var i := 0;
      while entry != null
        invariant i <= |spine| && entry == At(spine, i)
        invariant Serialize(Entries()) == file + Serialize(Entries()[i..])
        decreases |spine| - i
      {
        assert Entries()[i..][1..] == Entries()[i + 1..];
        var e := Entry(entry.key, entry.value);
        var block := WriteEntry(e);
        assert Serialize(Entries()[i..]) == block + Serialize(Entries()[i + 1..]);
        file := file + block;
        entry := entry.next;
        i := i + 1;
      }
    }

    // The three writes for one entry.
    method WriteEntry(e: Entry) returns (block: seq<byte>)
      ensures block == EntryBytes(e)
    {
      var keyLength, valueLength := |e.key| + 1, 8;
      block := ToLE(keyLength, 4) + ToLE(valueLength, 4);
      block := block + (Bytes(e.key) + [0]);
      block := block + ToLE(e.value, valueLength);
    }

    // False when the file would overrun a buffer; the loading then has no defined outcome.
    method UnserializedFromFile(file: seq<byte>) returns (ok: bool)
      requires Valid()
      modifies this
      ensures Valid()
      ensures var loaded := Load(file, seq(8, _ => 0), old(Entries()));
              ok == loaded.Loaded? && (ok ==> Entries() == loaded.entries)
      ensures forall e :: e in spine ==> e in old(spine) || fresh(e)
    {
      hide FromLE, CString, Take, Drop, EntriesOf, Count;
      var block: seq<byte> := seq(8, _ => 0);
      var rest := file;
      ghost var all := Load(file, block, Entries());
      while rest != []
        invariant Valid() && |block| == 8
        invariant Load(rest, block, Entries()) == all
        invariant forall e :: e in spine ==> e in old(spine) || fresh(e)
        decreases |rest|
      {
        var head := Take(rest, 8);
        block := head + block[|head|..];
        rest := Drop(rest, 8);
        var keyLength, valueLength := Count(FromLE(block[..4])), Count(FromLE(block[4..]));
        var key := Take(rest, keyLength);
        rest := Drop(rest, keyLength);
        var value := Take(rest, valueLength);
        rest := Drop(rest, valueLength);
        if Overruns(key, value) {
          return false;
        }
        ValueFits(value);
        Push(CString(key), FromLE(value));
      }
      return true;
    }
  }
}
