/**
 A serializer for export tries. Every trie whose nodes the format can express has a serialization,
 and walking it answers as the trie does.
 */
module ExportTrieSerializer {
  import opened Leb128
  import opened ExportTrie
  import opened ExportTrieMeaning

  // ---------------------------------------------------------------- offsets of fixed width

  const OFFSET_WIDTH: nat := 10

  // Unsigned LEB128 in n bytes, padded with empty groups.
  function Padded(v: bv64, n: nat): (b: Bytes)
    requires n > 0
    ensures |b| == n
  {
    if n == 1 then [Group(v)] else [More(v)] + Padded(Down7(v), n - 1)
  }

  // `v` needs no more than n groups.
  predicate GroupsIn(v: bv64, n: nat)
    requires n > 0
  {
    if n == 1 then v < 128 else GroupsIn(Down7(v), n - 1)
  }

  lemma AllInTen(v: bv64)
    ensures GroupsIn(v, OFFSET_WIDTH)
  {
    hide GroupsIn;
    var v1, v2, v3 := Down7(v), Down7(Down7(v)), Down7(Down7(Down7(v)));
    var v4, v5, v6 := Down7(v3), Down7(Down7(v3)), Down7(Down7(Down7(v3)));
    var v7, v8, v9 := Down7(v6), Down7(Down7(v6)), Down7(Down7(Down7(v6)));
    Shifted(v);
    GroupsStep(v, 10); GroupsStep(v1, 9); GroupsStep(v2, 8); GroupsStep(v3, 7); GroupsStep(v4, 6);
    GroupsStep(v5, 5); GroupsStep(v6, 4); GroupsStep(v7, 3); GroupsStep(v8, 2); GroupsStep(v9, 1);
  }

  lemma GroupsStep(v: bv64, n: nat)
    requires n > 0
    ensures GroupsIn(v, n) <==> if n == 1 then v < 128 else GroupsIn(Down7(v), n - 1)
  {
  }

  lemma Shifted(v: bv64)
    ensures var v3 := Down7(Down7(Down7(v)));
            var v6 := Down7(Down7(Down7(v3)));
            Down7(Down7(Down7(v6))) < 128
  {
    assert v >> 63 < 128;
  }

  lemma LastGroup(v: bv64)
    requires v < 128
    ensures Slice(Group(v)) == v && !Continues(Group(v))
  {
  }

  lemma {:induction false} PaddedReads(bytes: Bytes, p: nat, v: bv64, n: nat, result: bv64, bit: nat)
    requires n > 0 && bit + 7 * (n - 1) <= 63 && GroupsIn(v, n) && Holds(bytes, p, Padded(v, n))
    ensures UlebFrom(bytes, p, result, bit) == Read(Or(result, Shl(v, bit)), p + n)
    decreases n
  {
    hide Or, Shl, Slice, Continues, Group, More, Low7, Down7;
    var code := Padded(v, n);
    assert bytes[p] == code[0];
    if n == 1 {
      LastGroup(v);
    } else {
      ByteOfGroup(v);
      assert bytes[p + 1..p + n] == bytes[p..p + n][1..] == Padded(Down7(v), n - 1);
      LowAndRest(v);
      GroupJoins(v, Down7(v), bit);
      PaddedReads(bytes, p + 1, Down7(v), n - 1, Or(result, Shl(Low7(v), bit)), bit + 7);
      OrAssociates(result, Shl(Low7(v), bit), Shl(Down7(v), bit + 7), Shl(v, bit));
    }
  }

  // ---------------------------------------------------------------- numbers as 64-bit values

  function Pow128(k: nat): nat {
    if k == 0 then 1 else 128 * Pow128(k - 1)
  }

  // A byte from its number, bit by bit.
  function ByteOf(n: nat): (b: bv8)
    requires n < 256
    ensures b as nat == n
  {
    if n == 0 then 0
    else
      Doubled(ByteOf(n / 2));
      if n % 2 == 0 then ByteOf(n / 2) << 1 else (ByteOf(n / 2) << 1) | 1
  }

  lemma Doubled(b: bv8)
    requires b as nat < 128
    ensures (b << 1) as nat == 2 * (b as nat) && ((b << 1) | 1) as nat == 2 * (b as nat) + 1
  {
  }

  function Digit(n: nat): bv64
    requires n < 128
  {
    ByteOf(n) as bv64
  }

  lemma DigitIs(n: nat)
    requires n < 128
    ensures Digit(n) < 128 && (Low7(Digit(n)) as bv8) as nat == n
  {
    hide ByteOf;
    var b := ByteOf(n);
    BelowHalf(b);
    assert Low7(b as bv64) as bv8 == b & 0x7F;
  }

  lemma BelowHalf(b: bv8)
    requires b as nat < 128
    ensures b < 128 && b & 0x7F == b
  {
  }

  function Bits(n: nat, k: nat): bv64
    requires 0 < k <= 5 && n < Pow128(k)
  {
    if k == 1 then Digit(n) else Or(Digit(n % 128), Up7(Bits(n / 128, k - 1)))
  }

  // Values of at most five groups.
  predicate Small(v: bv64, k: nat)
    requires 0 < k <= 5
  {
    if k == 1 then v < 0x80 else if k == 2 then v < 0x4000 else if k == 3 then v < 0x20_0000
    else if k == 4 then v < 0x1000_0000 else v < 0x8_0000_0000
  }

  lemma JoinRaw(low: bv64, rest: bv64)
    requires low < 128 && rest < 0x1000_0000
    ensures var v := low | (rest << 7);
            v & 0x7F == low && v >> 7 == rest
  {
  }

  lemma Bounds(v: bv64)
    ensures v >> 7 < 0x80 ==> v < 0x4000
    ensures v >> 7 < 0x4000 ==> v < 0x20_0000
    ensures v >> 7 < 0x20_0000 ==> v < 0x1000_0000
    ensures v >> 7 < 0x1000_0000 ==> v < 0x8_0000_0000
    ensures v < 128 <==> v >> 7 == 0
  {
  }

  lemma SmallBelow(v: bv64, k: nat)
    requires 0 < k < 5 && Small(v, k)
    ensures v < 0x1000_0000
  {
  }

  lemma JoinFacts(v: bv64, low: bv64, rest: bv64, k: nat)
    requires v & 0x7F == low && v >> 7 == rest && 0 < k < 5 && Small(rest, k)
    ensures Low7(v) == low && Down7(v) == rest && Small(v, k + 1) && (v < 128 <==> rest == 0)
  {
    Bounds(v);
  }

  lemma JoinIs(low: bv64, rest: bv64)
    ensures Or(low, Up7(rest)) == low | (rest << 7)
  {
  }

  lemma ZeroValue()
    ensures ValueOf(0) == 0
  {
    assert Low7(0) == 0;
  }

  lemma ValueSplits(v: bv64)
    ensures ValueOf(v) == if v < 128 then (Low7(v) as bv8) as nat else (Low7(v) as bv8) as nat + 128 * ValueOf(Down7(v))
  {
    hide Low7, Down7;
  }

  lemma {:induction false} BitsValue(n: nat, k: nat)
    requires 0 < k <= 5 && n < Pow128(k)
    ensures ValueOf(Bits(n, k)) == n && Small(Bits(n, k), k)
  {
    hide Digit, Or, Up7, Low7, Down7, ValueOf, Small;
    var v := Bits(n, k);
    ValueSplits(v);
    if k == 1 {
      DigitIs(n);
      SmallDigit(v);
    } else {
      var low, rest := Digit(n % 128), Bits(n / 128, k - 1);
      DigitIs(n % 128);
      BitsValue(n / 128, k - 1);
      SmallBelow(rest, k - 1);
      JoinIs(low, rest);
      JoinRaw(low, rest);
      JoinFacts(v, low, rest, k - 1);
      DigitLow(low);
      ZeroValue();
    }
  }

  lemma SmallDigit(v: bv64)
    requires v < 128
    ensures Small(v, 1)
  {
  }

  lemma DigitLow(v: bv64)
    requires v < 128
    ensures Low7(v) == v
  {
  }

  const NUMBER_LIMIT: nat := 0x8_0000_0000

  function BitsOf(n: nat): (v: bv64)
    requires n < NUMBER_LIMIT
    ensures ValueOf(v) == n
  {
    Limit();
    BitsValue(n, 5);
    Bits(n, 5)
  }

  lemma Limit()
    ensures Pow128(5) == NUMBER_LIMIT
  {
    assert Pow128(2) == 0x4000 && Pow128(4) == 0x1000_0000;
  }

  lemma OffsetReads(bytes: Bytes, p: nat, offset: nat)
    requires offset < NUMBER_LIMIT && Holds(bytes, p, Padded(BitsOf(offset), OFFSET_WIDTH))
    ensures NumberAt(bytes, p) == Number(offset, p + OFFSET_WIDTH)
  {
    hide BitsOf, Padded, GroupsIn, UlebFrom, ValueOf;
    var v := BitsOf(offset);
    AllInTen(v);
    PaddedReads(bytes, p, v, OFFSET_WIDTH, 0, 0);
    OrZero(v);
  }

  lemma OrZero(v: bv64)
    ensures Or(0, Shl(v, 0)) == v
  {
  }

  // ---------------------------------------------------------------- the serializer

  // What the format can express: at most 255 edges a node, and names without zero bytes.
  ghost predicate Expressible(t: Trie)
    decreases t
  {
    && |t.edges| < 256
    && (forall i :: 0 <= i < |t.edges| ==> 0 !in t.edges[i].name)
    && (forall i :: 0 <= i < |t.edges| ==> Expressible(t.edges[i].child))
  }

  // The size of a node, and of a node with all nodes below it. Numbers take their full width, so
  // that sizes do not depend on offsets.
  function EdgesSize(edges: seq<Edge>): nat {
    if edges == [] then 0 else |edges[0].name| + 1 + OFFSET_WIDTH + EdgesSize(edges[1..])
  }

  function NodeSize(t: Trie): nat {
    OFFSET_WIDTH + |t.payload| + 1 + EdgesSize(t.edges)
  }

  function TotalSize(t: Trie): nat
    decreases t, 1
  {
    NodeSize(t) + TotalSizes(t.edges)
  }

  function TotalSizes(edges: seq<Edge>): nat
    decreases edges, 0
  {
    if edges == [] then 0 else TotalSize(edges[0].child) + TotalSizes(edges[1..])
  }

  function NumberBytes(n: nat): (b: Bytes)
    requires n < NUMBER_LIMIT
    ensures |b| == OFFSET_WIDTH
  {
    Padded(BitsOf(n), OFFSET_WIDTH)
  }

  // The edges of a node whose children are laid out from `at` on.
  function EdgeBytes(edges: seq<Edge>, at: nat): (b: Bytes)
    requires at + TotalSizes(edges) < NUMBER_LIMIT
    ensures |b| == EdgesSize(edges)
  {
    if edges == [] then []
    else edges[0].name + [0] + NumberBytes(at) + EdgeBytes(edges[1..], at + TotalSize(edges[0].child))
  }

  // A trie laid out from `at` on: its node, then its children.
  ghost function Serialize(t: Trie, at: nat): (b: Bytes)
    requires Expressible(t) && at + TotalSize(t) < NUMBER_LIMIT
    ensures |b| == TotalSize(t)
    decreases t, 1
  {
    var children := at + NodeSize(t);
    NumberBytes(|t.payload|) + t.payload + [ByteOf(|t.edges|)] + EdgeBytes(t.edges, children) + SerializeAll(t.edges, children)
  }

  ghost function SerializeAll(edges: seq<Edge>, at: nat): (b: Bytes)
    requires (forall i :: 0 <= i < |edges| ==> Expressible(edges[i].child)) && at + TotalSizes(edges) < NUMBER_LIMIT
    ensures |b| == TotalSizes(edges)
    decreases edges, 0
  {
    if edges == [] then []
    else Serialize(edges[0].child, at) + SerializeAll(edges[1..], at + TotalSize(edges[0].child))
  }

  // ---------------------------------------------------------------- what it writes

  lemma HoldsParts(bytes: Bytes, p: nat, a: Bytes, b: Bytes)
    requires Holds(bytes, p, a + b)
    ensures Holds(bytes, p, a) && Holds(bytes, p + |a|, b)
  {
    var code := a + b;
    assert bytes[p..p + |a|] == bytes[p..p + |code|][..|a|] == a;
    assert bytes[p + |a|..p + |code|] == bytes[p..p + |code|][|a|..] == b;
  }

  lemma NumberReads(bytes: Bytes, p: nat, n: nat)
    requires n < NUMBER_LIMIT && Holds(bytes, p, NumberBytes(n))
    ensures p < |bytes| && NumberAt(bytes, p) == Number(n, p + OFFSET_WIDTH)
  {
    hide NumberAt, BitsOf, Padded;
    OffsetReads(bytes, p, n);
  }

  lemma CountReads(bytes: Bytes, p: nat, n: nat)
    requires n < 256 && Holds(bytes, p, [ByteOf(n)])
    ensures p < |bytes| && bytes[p] as nat == n
  {
    assert bytes[p..p + 1][0] == ByteOf(n);
  }

  lemma Sizes(t: Trie)
    ensures TotalSize(t) == NodeSize(t) + TotalSizes(t.edges)
  {
  }

  // The bytes of a node, before its edges.
  lemma HeadStored(bytes: Bytes, at: nat, payload: Bytes, count: nat, rest: Bytes)
    requires |payload| < NUMBER_LIMIT && count < 256
    requires Holds(bytes, at, NumberBytes(|payload|) + payload + [ByteOf(count)] + rest)
    ensures at < |bytes| && NumberAt(bytes, at) == Number(|payload|, at + OFFSET_WIDTH)
    ensures var c := at + OFFSET_WIDTH + |payload|;
            Holds(bytes, at + OFFSET_WIDTH, payload) && c < |bytes| && bytes[c] as nat == count && Holds(bytes, c + 1, rest)
  {
    hide NumberBytes, NumberAt, ByteOf, Holds;
    var size, last := NumberBytes(|payload|), [ByteOf(count)];
    assert size + payload + last + rest == size + (payload + (last + rest));
    HoldsParts(bytes, at, size, payload + (last + rest));
    HoldsParts(bytes, at + |size|, payload, last + rest);
    HoldsParts(bytes, at + |size| + |payload|, last, rest);
    NumberReads(bytes, at, |payload|);
    CountReads(bytes, at + |size| + |payload|, count);
  }

  lemma {:induction false} SerializeStored(bytes: Bytes, at: nat, t: Trie)
    requires Expressible(t) && at + TotalSize(t) < NUMBER_LIMIT && Holds(bytes, at, Serialize(t, at))
    ensures Stored(bytes, at, t)
    decreases t, 1
  {
    hide NumberBytes, NumberAt, ByteOf, EdgeBytes, SerializeAll, Holds, TotalSize, TotalSizes, StoredEdges, EdgesSize;
    Sizes(t);
    var children := at + NodeSize(t);
    var edges, below := EdgeBytes(t.edges, children), SerializeAll(t.edges, children);
    var p := at + OFFSET_WIDTH + |t.payload| + 1;
    var head := NumberBytes(|t.payload|) + t.payload + [ByteOf(|t.edges|)];
    assert Serialize(t, at) == head + (edges + below);
    HeadStored(bytes, at, t.payload, |t.edges|, edges + below);
    HoldsParts(bytes, p, edges, below);
    EdgesStored(bytes, p, t.edges, children);
  }

  // The bytes of one edge with its child at `at`.
  lemma EdgeStored(bytes: Bytes, p: nat, name: Bytes, at: nat, rest: Bytes)
    requires 0 !in name && at < NUMBER_LIMIT && Holds(bytes, p, name + [0] + NumberBytes(at) + rest)
    ensures StoredName(bytes, p, name)
    ensures NumberAt(bytes, p + |name| + 1) == Number(at, p + |name| + 1 + OFFSET_WIDTH)
    ensures Holds(bytes, p + |name| + 1 + OFFSET_WIDTH, rest)
  {
    hide NumberBytes, NumberAt;
    var offset := NumberBytes(at);
    assert name + [0] + offset + rest == name + ([0] + (offset + rest));
    HoldsParts(bytes, p, name, [0] + (offset + rest));
    HoldsParts(bytes, p + |name|, [0], offset + rest);
    assert bytes[p + |name|..p + |name| + 1][0] == 0;
    HoldsParts(bytes, p + |name| + 1, offset, rest);
    NumberReads(bytes, p + |name| + 1, at);
  }

  lemma {:induction false} EdgesStored(bytes: Bytes, p: nat, edges: seq<Edge>, at: nat)
    requires forall i :: 0 <= i < |edges| ==> 0 !in edges[i].name && Expressible(edges[i].child)
    requires at + TotalSizes(edges) < NUMBER_LIMIT
    requires Holds(bytes, p, EdgeBytes(edges, at)) && Holds(bytes, at, SerializeAll(edges, at))
    ensures StoredEdges(bytes, p, edges)
    decreases edges, 0
  {
    hide NumberBytes, NumberAt, Serialize, Stored, TotalSize, Expressible, Holds, StoredName;
    if edges != [] {
      var child := edges[0].child;
      EdgeStored(bytes, p, edges[0].name, at, EdgeBytes(edges[1..], at + TotalSize(child)));
      HoldsParts(bytes, at, Serialize(child, at), SerializeAll(edges[1..], at + TotalSize(child)));
      SerializeStored(bytes, at, child);
      EdgesStored(bytes, p + |edges[0].name| + 1 + OFFSET_WIDTH, edges[1..], at + TotalSize(child));
    }
  }

  // Every well-formed trie the format can express, up to 4 GiB, is stored by its serialization, and
  // walking the serialization finds exactly the symbols the trie maps along at most 126 edges.
  lemma WalkSerialized(t: Trie, symbol: Bytes)
    requires WellFormed(t) && Expressible(t) && TotalSize(t) <= 0x1_0000_0000
    ensures Stored(Serialize(t, 0), 0, t)
    ensures var r := Walk(Serialize(t, 0), symbol);
            && !r.Fault?
            && (r.Found? <==> MapsWithin(t, symbol, 126))
            && (forall payload, n: nat :: n <= 126 && Maps(t, symbol, payload, n) ==> r.Found? && Holds(Serialize(t, 0), r.pos, payload))
  {
    hide Serialize, TotalSize, Walk, Stored;
    var bytes := Serialize(t, 0);
    assert bytes[0..0 + |bytes|] == bytes;
    SerializeStored(bytes, 0, t);
    WalkCorrect(bytes, t, symbol);
  }
}
