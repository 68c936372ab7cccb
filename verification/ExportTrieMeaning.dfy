/**
 What a serialized export trie denotes, and that the walk finds exactly that.
 */
module ExportTrieMeaning {
  import opened Leb128
  import opened ExportTrie

  // A radix trie. A node with a non-empty payload ends a symbol.
  datatype Trie = Node(payload: Bytes, edges: seq<Edge>)
  datatype Edge = Edge(name: Bytes, child: Trie)

  // ---------------------------------------------------------------- meaning

  // The trie maps `symbol` to `payload`, along a path of n edges.
  ghost predicate Maps(t: Trie, symbol: Bytes, payload: Bytes, n: nat)
    decreases t
  {
    if n == 0 then symbol == [] && payload != [] && payload == t.payload
    else exists i :: 0 <= i < |t.edges| && t.edges[i].name <= symbol &&
                     Maps(t.edges[i].child, symbol[|t.edges[i].name|..], payload, n - 1)
  }

  ghost predicate MapsWithin(t: Trie, symbol: Bytes, depth: int) {
    exists payload, n: nat :: n <= depth && Maps(t, symbol, payload, n)
  }

  // Sibling edges are non-empty and none is a prefix of another, everywhere.
  ghost predicate WellFormed(t: Trie)
    decreases t
  {
    && (forall i :: 0 <= i < |t.edges| ==> t.edges[i].name != [])
    && (forall i, j :: 0 <= i < j < |t.edges| ==> !(t.edges[i].name <= t.edges[j].name) && !(t.edges[j].name <= t.edges[i].name))
    && (forall i :: 0 <= i < |t.edges| ==> WellFormed(t.edges[i].child))
  }

  // ---------------------------------------------------------------- serialization

  // `bytes` hold the trie t at `offset`: its payload behind its size, the number of edges, and
  // per edge the zero-terminated name and the offset of the child.
  ghost predicate Stored(bytes: Bytes, offset: nat, t: Trie)
    decreases t, 1
  {
    && offset < |bytes|
    && var n := NumberAt(bytes, offset);
    && n.Number? && n.value == |t.payload|
    && Holds(bytes, n.next, t.payload)
    && var c := n.next + |t.payload|;
    && c < |bytes| && bytes[c] as nat == |t.edges|
    && StoredEdges(bytes, c + 1, t.edges)
  }

  ghost predicate StoredEdges(bytes: Bytes, p: nat, edges: seq<Edge>)
    decreases edges, 0
  {
    if edges == [] then true
    else
      && StoredName(bytes, p, edges[0].name)
      && var n := NumberAt(bytes, p + |edges[0].name| + 1);
      && n.Number?
      && Stored(bytes, n.value, edges[0].child)
      && StoredEdges(bytes, n.next, edges[1..])
  }

  ghost predicate StoredName(bytes: Bytes, p: nat, name: Bytes) {
    && Holds(bytes, p, name)
    && p + |name| < |bytes| && bytes[p + |name|] == 0
    && 0 !in name
  }

  // ---------------------------------------------------------------- names

  lemma NameByte(bytes: Bytes, p: nat, name: Bytes, j: nat)
    requires StoredName(bytes, p, name) && j < |name|
    ensures bytes[p + j] == name[j] && bytes[p + j] != 0
  {
    assert bytes[p..p + |name|][j] == name[j];
    assert name[j] in name;
  }

  lemma NameBound(bytes: Bytes, p: nat, name: Bytes)
    requires StoredName(bytes, p, name)
    ensures p + |name| < |bytes|
  {
  }

  lemma {:induction false} NameEnd(bytes: Bytes, p: nat, name: Bytes, j: nat)
    requires StoredName(bytes, p, name) && j <= |name|
    ensures Terminator(bytes, p + j) == p + |name|
    decreases |name| - j
  {
    if j < |name| {
      NameByte(bytes, p, name, j);
      NameEnd(bytes, p, name, j + 1);
    }
  }

  lemma NameUnique(bytes: Bytes, p: nat, a: Bytes, b: Bytes)
    requires StoredName(bytes, p, a) && StoredName(bytes, p, b)
    ensures a == b
  {
    NameEnd(bytes, p, a, 0);
    NameEnd(bytes, p, b, 0);
  }

  // Scanning a stored name compares it with the symbol.
  lemma {:induction false} ScanName(bytes: Bytes, p: nat, name: Bytes, j: nat, symbol: Bytes, k: nat)
    requires StoredName(bytes, p, name) && j <= |name| && k <= |symbol|
    ensures ScanFrom(bytes, p + j, symbol, k) ==
            if name[j..] <= symbol[k..] then Match(k + |name| - j, p + |name|) else Mismatch(p + |name|)
    decreases |name| - j
  {
    if j < |name| {
      NameByte(bytes, p, name, j);
      if k < |symbol| && symbol[k] == name[j] {
        ScanName(bytes, p, name, j + 1, symbol, k + 1);
        assert name[j..] == [name[j]] + name[j + 1..] && symbol[k..] == [symbol[k]] + symbol[k + 1..];
        assert name[j..] <= symbol[k..] <==> name[j + 1..] <= symbol[k + 1..] by {
          PrefixTail(name[j..], symbol[k..]);
        }
      } else {
        NameEnd(bytes, p, name, j + 1);
        assert name[j..][0] == name[j] && (k < |symbol| ==> symbol[k..][0] == symbol[k]);
      }
    } else {
      assert name[j..] == [];
    }
  }

  lemma PrefixTail(a: Bytes, b: Bytes)
    requires a != [] && b != [] && a[0] == b[0]
    ensures a <= b <==> a[1..] <= b[1..]
  {
    if a[1..] <= b[1..] {
      assert forall i :: 0 < i < |a| ==> a[i] == a[1..][i - 1] == b[1..][i - 1] == b[i];
    }
  }

  // ---------------------------------------------------------------- one trie per offset

  lemma {:induction false} StoredUnique(bytes: Bytes, offset: nat, t: Trie, u: Trie)
    requires Stored(bytes, offset, t) && Stored(bytes, offset, u)
    ensures t == u
    decreases t, 1
  {
    hide NumberAt, StoredEdges;
    var n := NumberAt(bytes, offset);
    assert t.payload == bytes[n.next..n.next + |t.payload|] == u.payload;
    StoredEdgesUnique(bytes, n.next + |t.payload| + 1, t.edges, u.edges);
  }

  lemma {:induction false} StoredEdgesUnique(bytes: Bytes, p: nat, es: seq<Edge>, fs: seq<Edge>)
    requires |es| == |fs| && StoredEdges(bytes, p, es) && StoredEdges(bytes, p, fs)
    ensures es == fs
    decreases es, 0
  {
    hide NumberAt, Stored, StoredName;
    if es != [] {
      var e, f := es[0], fs[0];
      NameUnique(bytes, p, e.name, f.name);
      var n := NumberAt(bytes, p + |e.name| + 1);
      StoredUnique(bytes, n.value, e.child, f.child);
      StoredEdgesUnique(bytes, n.next, es[1..], fs[1..]);
      assert es == [e] + es[1..] && fs == [f] + fs[1..];
    }
  }

  ghost function Size(t: Trie): nat
    decreases t, 1
  {
    1 + SizeOfAll(t.edges)
  }

  ghost function SizeOfAll(edges: seq<Edge>): nat
    decreases edges, 0
  {
    if edges == [] then 0 else Size(edges[0].child) + SizeOfAll(edges[1..])
  }

  lemma {:induction false} ChildSmaller(edges: seq<Edge>, i: nat)
    requires i < |edges|
    ensures Size(edges[i].child) <= SizeOfAll(edges)
  {
    if i > 0 {
      ChildSmaller(edges[1..], i - 1);
    }
  }

  // ---------------------------------------------------------------- choosing an edge

  // The edge loop over stored edges finds the first edge whose name the symbol goes on with.
  lemma {:induction false} ChooseMeaning(bytes: Bytes, p: nat, edges: seq<Edge>, symbol: Bytes, k: nat) returns (i: nat)
    requires StoredEdges(bytes, p, edges) && k <= |symbol|
    ensures var c := Choose(bytes, p, |edges|, symbol, k);
            && !c.OutOfBounds?
            && (c.NoChild? ==> forall j :: 0 <= j < |edges| ==> !(edges[j].name <= symbol[k..]))
            && (!c.NoChild? ==> i < |edges| && edges[i].name <= symbol[k..])
            && (c.Child? ==> c.k == k + |edges[i].name| && Stored(bytes, c.offset, edges[i].child))
            && (c.Malformed? ==> Stored(bytes, 0, edges[i].child))
    decreases |edges|
  {
    hide NumberAt, ScanFrom, Stored, StoredName;
    i := 0;
    if edges != [] {
      NameBound(bytes, p, edges[0].name);
      var name := edges[0].name;
      ScanName(bytes, p, name, 0, symbol, k);
      assert name[0..] == name;
      var n := NumberAt(bytes, p + |name| + 1);
      StoredParts(bytes, n.value, edges[0].child);
      if !(name <= symbol[k..]) {
        var i' := ChooseMeaning(bytes, n.next, edges[1..], symbol, k);
        i := i' + 1;
      }
    }
  }

  // ---------------------------------------------------------------- the walk

  // Two edges of a node cannot both be prefixes of the symbol.
  lemma OneEdge(t: Trie, i: nat, j: nat, symbol: Bytes)
    requires WellFormed(t) && i < |t.edges| && j < |t.edges|
    requires t.edges[i].name <= symbol && t.edges[j].name <= symbol
    ensures i == j
  {
    var a, b := t.edges[i].name, t.edges[j].name;
    assert |a| <= |b| ==> a <= b;
    assert |b| <= |a| ==> b <= a;
  }

  // One step down: the meaning of the symbol is its meaning in the child.
  lemma MapsThroughEdge(t: Trie, i: nat, symbol: Bytes, payload: Bytes, n: nat)
    requires WellFormed(t) && i < |t.edges| && t.edges[i].name <= symbol && n > 0
    ensures Maps(t, symbol, payload, n) <==> Maps(t.edges[i].child, symbol[|t.edges[i].name|..], payload, n - 1)
  {
    if Maps(t, symbol, payload, n) {
      var j :| 0 <= j < |t.edges| && t.edges[j].name <= symbol &&
               Maps(t.edges[j].child, symbol[|t.edges[j].name|..], payload, n - 1);
      OneEdge(t, i, j, symbol);
    }
  }

  // Some trie at least as large as t is stored at v.
  ghost predicate HoldsLarger(bytes: Bytes, v: nat, t: Trie) {
    exists u :: Stored(bytes, v, u) && Size(u) >= Size(t)
  }

  lemma NotAbove(bytes: Bytes, v: nat, t: Trie, i: nat)
    requires HoldsLarger(bytes, v, t) && i < |t.edges|
    ensures !Stored(bytes, v, t.edges[i].child)
    ensures HoldsLarger(bytes, v, t.edges[i].child)
  {
    var u :| Stored(bytes, v, u) && Size(u) >= Size(t);
    ChildSmaller(t.edges, i);
    if Stored(bytes, v, t.edges[i].child) {
      StoredUnique(bytes, v, u, t.edges[i].child);
    }
  }

  // The answer a walk owes for `symbol` in t, when it may follow `depth` edges.
  ghost predicate Answers(bytes: Bytes, r: Outcome, t: Trie, symbol: Bytes, depth: int) {
    && !r.Fault?
    && (r.Found? ==> MapsWithin(t, symbol, depth))
    && (forall payload, n: nat :: n <= depth && Maps(t, symbol, payload, n) ==> r.Found? && Holds(bytes, r.pos, payload))
  }

  lemma {:induction false} WalkAnswers(bytes: Bytes, offset: nat, t: Trie, symbol: Bytes, k: nat, visited: seq<nat>)
    requires Stored(bytes, offset, t) && WellFormed(t) && |bytes| <= 0x1_0000_0000 && k <= |symbol|
    requires |visited| < MAX_VISITED && 0 in visited
    requires forall v :: v in visited ==> HoldsLarger(bytes, v, t)
    ensures Answers(bytes, WalkFrom(bytes, offset, symbol, k, visited), t, symbol[k..], 127 - |visited|)
    decreases MAX_VISITED - |visited|
  {
    hide NumberAt, Choose, Answers, Stored, StoredEdges, HoldsLarger, Maps, WellFormed;
    var rest, depth := symbol[k..], 127 - |visited|;
    StoredParts(bytes, offset, t);
    var size := NumberAt(bytes, offset);
    var children := size.next + size.value;
    if k == |symbol| && size.value != 0 {
      AtTerminal(bytes, t, size.next, depth);
      assert rest == [];
    } else {
      NoTerminal(t, rest);
      var i := ChooseMeaning(bytes, children + 1, t.edges, symbol, k);
      var c := Choose(bytes, children + 1, |t.edges|, symbol, k);
      match c {
        case NoChild => NothingBelow(bytes, t, rest, depth);
        case Malformed => NotAbove(bytes, 0, t, i);
        case Child(offset', k') =>
          Below(bytes, t, i, offset', visited);
          assert symbol[k'..] == rest[|t.edges[i].name|..];
          if |visited| + 1 < MAX_VISITED {
            WalkAnswers(bytes, offset', t.edges[i].child, symbol, k', visited + [offset']);
          }
          Descend(bytes, t, i, rest, depth, WalkFrom(bytes, offset, symbol, k, visited));
      }
    }
  }

  lemma StoredParts(bytes: Bytes, offset: nat, t: Trie)
    requires Stored(bytes, offset, t)
    ensures offset < |bytes|
    ensures var n := NumberAt(bytes, offset);
            && n.Number? && n.value == |t.payload| && Holds(bytes, n.next, t.payload)
            && n.next + n.value < |bytes| && bytes[n.next + n.value] as nat == |t.edges|
            && StoredEdges(bytes, n.next + n.value + 1, t.edges)
  {
    hide NumberAt, StoredEdges;
  }

  // What holds of a child's offset: it is new, not truncated, and below all visited nodes.
  lemma Below(bytes: Bytes, t: Trie, i: nat, offset: nat, visited: seq<nat>)
    requires i < |t.edges| && Stored(bytes, offset, t.edges[i].child) && |bytes| <= 0x1_0000_0000 && WellFormed(t)
    requires forall v :: v in visited ==> HoldsLarger(bytes, v, t)
    ensures offset !in visited && Truncated(offset) == offset && WellFormed(t.edges[i].child)
    ensures forall v :: v in visited + [offset] ==> HoldsLarger(bytes, v, t.edges[i].child)
  {
    hide StoredEdges, NumberAt;
    var child := t.edges[i].child;
    forall v | v in visited
      ensures HoldsLarger(bytes, v, child) && v != offset
    {
      NotAbove(bytes, v, t, i);
    }
    assert HoldsLarger(bytes, offset, child);
  }

  lemma AtTerminal(bytes: Bytes, t: Trie, pos: nat, depth: int)
    requires WellFormed(t) && t.payload != [] && Holds(bytes, pos, t.payload) && depth >= 0
    ensures Answers(bytes, Found(pos), t, [], depth)
  {
    assert Maps(t, [], t.payload, 0);
    forall payload, n: nat | n <= depth && Maps(t, [], payload, n)
      ensures Holds(bytes, pos, payload)
    {
      assert n == 0;
    }
  }

  lemma NoTerminal(t: Trie, symbol: Bytes)
    requires symbol != [] || t.payload == []
    ensures forall payload :: !Maps(t, symbol, payload, 0)
  {
  }

  lemma NothingBelow(bytes: Bytes, t: Trie, symbol: Bytes, depth: int)
    requires forall j :: 0 <= j < |t.edges| ==> !(t.edges[j].name <= symbol)
    requires forall payload :: !Maps(t, symbol, payload, 0)
    ensures Answers(bytes, NotFound, t, symbol, depth)
  {
    assert forall payload, n: nat :: !Maps(t, symbol, payload, n);
  }

  lemma Descend(bytes: Bytes, t: Trie, i: nat, symbol: Bytes, depth: nat, r: Outcome)
    requires WellFormed(t) && i < |t.edges| && t.edges[i].name <= symbol
    requires forall payload :: !Maps(t, symbol, payload, 0)
    requires if depth > 0 then Answers(bytes, r, t.edges[i].child, symbol[|t.edges[i].name|..], depth - 1) else r.NotFound?
    ensures Answers(bytes, r, t, symbol, depth)
  {
    var child, rest := t.edges[i].child, symbol[|t.edges[i].name|..];
    if r.Found? {
      var payload, n: nat :| n <= depth - 1 && Maps(child, rest, payload, n);
      MapsThroughEdge(t, i, symbol, payload, n + 1);
      assert Maps(t, symbol, payload, n + 1);
    }
    forall payload, n: nat | n <= depth && Maps(t, symbol, payload, n)
      ensures r.Found? && Holds(bytes, r.pos, payload)
    {
      MapsThroughEdge(t, i, symbol, payload, n);
      assert Maps(child, rest, payload, n - 1);
    }
  }

  // For every well-formed trie whose size fits the 32-bit field it comes from, and every symbol:
  // the walk finds the symbol's payload exactly when the trie maps the symbol along at most
  // 126 edges, and it never reads outside the trie.
  lemma WalkCorrect(bytes: Bytes, t: Trie, symbol: Bytes)
    requires Stored(bytes, 0, t) && WellFormed(t) && |bytes| <= 0x1_0000_0000
    ensures var r := Walk(bytes, symbol);
            && !r.Fault?
            && (r.Found? <==> MapsWithin(t, symbol, 126))
            && (forall payload, n: nat :: n <= 126 && Maps(t, symbol, payload, n) ==> r.Found? && Holds(bytes, r.pos, payload))
  {
    hide Stored, WellFormed, WalkFrom;
    assert HoldsLarger(bytes, 0, t);
    WalkAnswers(bytes, 0, t, symbol, 0, [0]);
    assert symbol[0..] == symbol;
    var r := Walk(bytes, symbol);
    assert Answers(bytes, r, t, symbol, 126);
  }

  // ---------------------------------------------------------------- edges, for any bytes

  // The first edge: if its label is a prefix of the rest of the symbol its offset decides, which must
  // be neither zero nor above the size; otherwise the next edge is tried.
  lemma EdgeDecides(bytes: Bytes, p: nat, name: Bytes, remaining: nat, symbol: Bytes, k: nat)
    requires StoredName(bytes, p, name) && remaining > 0 && k <= |symbol|
    ensures var n, c := NumberAt(bytes, p + |name| + 1), Choose(bytes, p, remaining, symbol, k);
            if n.NoNumber? then c == OutOfBounds
            else if !(name <= symbol[k..]) then c == Choose(bytes, n.next, remaining - 1, symbol, k)
            else if 1 <= n.value <= |bytes| then c == Child(n.value, k + |name|)
            else c == Malformed
  {
    hide NumberAt, ScanFrom;
    ScanName(bytes, p, name, 0, symbol, k);
    assert name[0..] == name;
  }

  // Offsets are recorded by their low 32 bits, so a node at 4 GiB or above is never recognized.
  lemma RecordedOffset(high: nat, low: nat, visited: seq<nat>)
    requires low < 0x1_0000_0000 && forall v :: v in visited ==> v < 0x1_0000_0000
    ensures Truncated(0x1_0000_0000 * high + low) == low
    ensures high > 0 ==> 0x1_0000_0000 * high + low !in visited
  {
  }

  // ---------------------------------------------------------------- termination, for any bytes

  ghost predicate Distinct(s: seq<nat>) {
    forall i, j :: 0 <= i < j < |s| ==> s[i] != s[j]
  }

  lemma {:induction false} TraceBounded(bytes: Bytes, offset: nat, symbol: Bytes, k: nat, visited: seq<nat>)
    requires |bytes| <= 0x1_0000_0000 && 0 < |visited| < MAX_VISITED && offset == visited[|visited| - 1]
    ensures var trace := Trace(bytes, offset, symbol, k, visited);
            && |trace| + |visited| <= MAX_VISITED
            && (Distinct(visited) ==> Distinct(visited[..|visited| - 1] + trace))
    decreases MAX_VISITED - |visited|
  {
    hide NumberAt, Choose;
    var n := |visited| - 1;
    var trace := Trace(bytes, offset, symbol, k, visited);
    assert visited == visited[..n] + [offset];
    if |trace| > 1 {
      var size := NumberAt(bytes, offset);
      var children := size.next + size.value;
      var c := Choose(bytes, children + 1, bytes[children] as nat, symbol, k);
      var visited' := visited + [Truncated(c.offset)];
      assert trace == [offset] + Trace(bytes, c.offset, symbol, c.k, visited');
      assert c.offset < |bytes|;
      TraceBounded(bytes, c.offset, symbol, c.k, visited');
      assert visited'[..|visited|] == visited;
      assert visited[..n] + trace == visited + Trace(bytes, c.offset, symbol, c.k, visited');
    } else if |trace| == 1 {
      assert visited[..n] + trace == visited;
    } else {
      assert visited[..n] + trace == visited[..n];
    }
  }

  // Whatever the bytes, the walk reads at most 127 nodes and never the same one twice.
  lemma WalkBounded(bytes: Bytes, symbol: Bytes)
    requires |bytes| <= 0x1_0000_0000
    ensures var trace := Trace(bytes, 0, symbol, 0, [0]); |trace| <= 127 && Distinct(trace)
  {
    TraceBounded(bytes, 0, symbol, 0, [0]);
    assert [0][..0] + Trace(bytes, 0, symbol, 0, [0]) == Trace(bytes, 0, symbol, 0, [0]);
  }
}
