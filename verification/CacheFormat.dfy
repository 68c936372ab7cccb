/**
 The variable cache on values: the list of variables, head first, its lookups, and the file it is
 written to and loaded from.
 */
module CacheFormat {
  import opened Wrappers

  type char8 = x: int | 1 <= x < 256 witness 1

  type name = s: seq<char8> | |s| < 128

  type word64 = x: int | 0 <= x < 0x1_0000_0000_0000_0000

  datatype Entry = Entry(key: name, value: word64)

  // ---------------------------------------------------------------- lookups

  // cache_get_entry_internal: the first entry of that name, or |es|.
  function Find(es: seq<Entry>, n: name): (k: nat)
    ensures k <= |es|
    ensures k < |es| ==> es[k].key == n
    ensures forall j :: 0 <= j < k ==> es[j].key != n
  {
    if es == [] || es[0].key == n then 0 else 1 + Find(es[1..], n)
  }

  lemma FindUnique(es: seq<Entry>, n: name, k: nat)
    requires k <= |es| && (k < |es| ==> es[k].key == n)
    requires forall j :: 0 <= j < k ==> es[j].key != n
    ensures k == Find(es, n)
  {
  }

  function Lookup(es: seq<Entry>, n: name): Option<word64> {
    if Find(es, n) < |es| then Some(es[Find(es, n)].value) else None
  }

  // cache_get
  function Get(es: seq<Entry>, n: name): word64 {
    if Lookup(es, n).Some? then Lookup(es, n).value else 0
  }

  // cache_set
  function Set(es: seq<Entry>, n: name, v: word64): seq<Entry> {
    var k := Find(es, n);
    if k < |es| then es[k := Entry(n, v)] else [Entry(n, v)] + es
  }

  // ---------------------------------------------------------------- the file

  function ToLE(v: nat, n: nat): (b: seq<byte>)
    ensures |b| == n
  {
    if n == 0 then [] else [v % 256] + ToLE(v / 256, n - 1)
  }

  function FromLE(b: seq<byte>): nat {
    if b == [] then 0 else (b[0] as nat) + 256 * FromLE(b[1..])
  }

  function Bytes(n: name): (b: seq<byte>)
    ensures |b| == |n| && forall i :: 0 <= i < |n| ==> b[i] == n[i]
  {
    seq(|n|, i requires 0 <= i < |n| => n[i])
  }

  // The block header: key and value length as two 32-bit integers.
  function Header(keyLength: nat, valueLength: nat): (b: seq<byte>)
    ensures |b| == 8
  {
    ToLE(keyLength, 4) + ToLE(valueLength, 4)
  }

  function EntryBytes(e: Entry): seq<byte> {
    Header(|e.key| + 1, 8) + (Bytes(e.key) + [0]) + ToLE(e.value, 8)
  }

  // serialized_to_file
  function Serialize(es: seq<Entry>): seq<byte> {
    if es == [] then [] else EntryBytes(es[0]) + Serialize(es[1..])
  }

  // read(fd, …, n): as many of n bytes as are left, and what follows them.
  function Take(file: seq<byte>, n: nat): (b: seq<byte>)
    ensures |b| <= n && |b| <= |file|
  {
    if n < |file| then file[..n] else file
  }

  function Drop(file: seq<byte>, n: nat): (b: seq<byte>)
    ensures |b| <= |file| && (n > 0 && file != [] ==> |b| < |file|)
  {
    if n < |file| then file[n..] else []
  }

  // The string in a zero-filled buffer.
  function CString(b: seq<byte>): (s: seq<char8>)
    ensures |s| <= |b|
    ensures 0 in b ==> |s| < |b|
  {
    if b == [] || b[0] == 0 then [] else [b[0]] + CString(b[1..])
  }

  // The number of bytes asked for: a negative length is a count above SSIZE_MAX, which read refuses.
  function Count(length: nat): nat {
    if length < 0x8000_0000 then length else 0
  }

  // A file whose bytes or string overrun the loader's buffers has no meaning.
  datatype Loaded = Loaded(entries: seq<Entry>) | Overrun

  predicate Overruns(key: seq<byte>, value: seq<byte>) {
    |key| > 128 || |value| > 8 || (|key| == 128 && 0 !in key)
  }

  // unserialized_from_file: `block` keeps the bytes of the previous header a short read leaves over.
  function Load(file: seq<byte>, block: seq<byte>, es: seq<Entry>): Loaded
    requires |block| == 8
    decreases |file|
  {
    if file == [] then Loaded(es)
    else
      var head := Take(file, 8);
      var current := head + block[|head|..];
      var keyLength, valueLength := Count(FromLE(current[..4])), Count(FromLE(current[4..]));
      var afterHead := Drop(file, 8);
      var key, afterKey := Take(afterHead, keyLength), Drop(afterHead, keyLength);
      var value, rest := Take(afterKey, valueLength), Drop(afterKey, valueLength);
      if Overruns(key, value) then Overrun
      else
        ValueFits(value);
        Load(rest, current, [Entry(CString(key), FromLE(value))] + es)
  }

  lemma {:induction false} FromLEBound(b: seq<byte>)
    ensures FromLE(b) < Pow256(|b|)
  {
    if b != [] {
      FromLEBound(b[1..]);
    }
  }

  function Pow256(n: nat): (p: nat)
    ensures p >= 1
  {
    if n == 0 then 1 else 256 * Pow256(n - 1)
  }

  lemma {:induction false} Pow256Grows(m: nat, n: nat)
    requires m <= n
    ensures Pow256(m) <= Pow256(n)
  {
    if m > 0 {
      Pow256Grows(m - 1, n - 1);
    }
  }

  lemma ValueFits(b: seq<byte>)
    requires |b| <= 8
    ensures FromLE(b) < 0x1_0000_0000_0000_0000
  {
    FromLEBound(b);
    Pow256Grows(|b|, 8);
    assert Pow256(2) == 0x1_0000 && Pow256(4) == 0x1_0000_0000 && Pow256(6) == 0x1_0000_0000_0000;
  }

  // ---------------------------------------------------------------- reading what was written

  lemma {:induction false} LERoundTrip(v: nat, n: nat)
    requires v < Pow256(n)
    ensures FromLE(ToLE(v, n)) == v
  {
    if n > 0 {
      LERoundTrip(v / 256, n - 1);
      assert ToLE(v, n)[1..] == ToLE(v / 256, n - 1);
    }
  }

  lemma {:induction false} CStringOf(n: seq<char8>, b: seq<byte>)
    requires |b| == |n| + 1 && b[|n|] == 0 && forall i :: 0 <= i < |n| ==> b[i] == n[i]
    ensures CString(b) == n
  {
    if n != [] {
      CStringOf(n[1..], b[1..]);
    }
  }

  lemma TakeDrop(a: seq<byte>, b: seq<byte>)
    ensures Take(a + b, |a|) == a && Drop(a + b, |a|) == b
  {
    assert (a + b)[..|a|] == a && (a + b)[|a|..] == b;
  }

  // One written entry is read back and pushed in front.
  lemma LoadEntry(e: Entry, rest: seq<byte>, block: seq<byte>, es: seq<Entry>)
    requires |block| == 8
    ensures Load(EntryBytes(e) + rest, block, es) == Load(rest, Header(|e.key| + 1, 8), [e] + es)
  {
    hide FromLE, ToLE, CString, Header, Take, Drop;
    var header, key, value := Header(|e.key| + 1, 8), Bytes(e.key) + [0], ToLE(e.value, 8);
    var file := EntryBytes(e) + rest;
    assert file == header + (key + (value + rest));
    TakeDrop(header, key + (value + rest));
    TakeDrop(key, value + rest);
    TakeDrop(value, rest);
    HeaderReads(|e.key| + 1, 8);
    CStringOf(e.key, key);
    assert key[|e.key|] == 0;
    ValueFits(value);
    assert Pow256(2) == 0x1_0000 && Pow256(4) == 0x1_0000_0000 && Pow256(6) == 0x1_0000_0000_0000;
    LERoundTrip(e.value, 8);
    assert header + block[8..] == header;
  }

  // The bytes one read gets: what is asked for or what is left, nothing for a negative length.
  function Got(length: nat, left: nat): (n: nat)
    ensures n <= left
  {
    if length >= 0x8000_0000 then 0 else if length <= left then length else left
  }

  // Any block, well written or not: the key and the value are the next bytes of the file as far as
  // they go, and it is an error if they overrun 128 and 8 bytes or the key has no end.
  lemma LoadBlock(k: nat, v: nat, rest: seq<byte>, block: seq<byte>, es: seq<Entry>)
    requires |block| == 8 && k < 0x1_0000_0000 && v < 0x1_0000_0000
    ensures var a := Got(k, |rest|);
            var b := Got(v, |rest| - a);
            var key, value := rest[..a], rest[a..a + b];
            Load(Header(k, v) + rest, block, es) ==
            if a > 128 || b > 8 || (a == 128 && 0 !in key) then Overrun
            else (ValueFits(value); Load(rest[a + b..], Header(k, v), [Entry(CString(key), FromLE(value))] + es))
  {
    hide FromLE, ToLE, CString, Header, Take, Drop, Count, Got;
    var header := Header(k, v);
    TakeDrop(header, rest);
    HeaderReads(k, v);
    assert header + block[8..] == header;
    var a := Got(k, |rest|);
    var b := Got(v, |rest| - a);
    GotIs(rest, k);
    GotIs(rest[a..], v);
    assert rest[a..][..b] == rest[a..a + b] && rest[a..][b..] == rest[a + b..];
  }

  lemma GotIs(rest: seq<byte>, length: nat)
    ensures Take(rest, Count(length)) == rest[..Got(length, |rest|)] && Drop(rest, Count(length)) == rest[Got(length, |rest|)..]
  {
  }

  lemma HeaderReads(k: nat, v: nat)
    requires k < 0x1_0000_0000 && v < 0x1_0000_0000
    ensures var b := Header(k, v);
            FromLE(b[..4]) == k && FromLE(b[4..]) == v
  {
    assert Pow256(2) == 0x1_0000 && Pow256(4) == 0x1_0000_0000;
    LERoundTrip(k, 4);
    LERoundTrip(v, 4);
    var b := Header(k, v);
    assert b[..4] == ToLE(k, 4) && b[4..] == ToLE(v, 4);
  }

  function Reverse(es: seq<Entry>): (r: seq<Entry>)
    ensures |r| == |es|
  {
    if es == [] then [] else Reverse(es[1..]) + [es[0]]
  }

  // Loading a written cache pushes its entries one by one: they end up reversed, in front.
  lemma {:induction false} LoadSerialized(es: seq<Entry>, base: seq<Entry>, block: seq<byte>)
    requires |block| == 8
    ensures Load(Serialize(es), block, base) == Loaded(Reverse(es) + base)
  {
    hide Load, EntryBytes;
    if es == [] {
      LoadNothing(block, base);
      assert Reverse(es) + base == base;
    } else {
      LoadEntry(es[0], Serialize(es[1..]), block, base);
      LoadSerialized(es[1..], [es[0]] + base, Header(|es[0].key| + 1, 8));
      assert Reverse(es) + base == Reverse(es[1..]) + ([es[0]] + base);
    }
  }

  lemma LoadNothing(block: seq<byte>, es: seq<Entry>)
    requires |block| == 8
    ensures Load([], block, es) == Loaded(es)
  {
  }
}
