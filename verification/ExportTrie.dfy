/**
 The Mach-O export trie: the byte-level walk that looks a symbol up, as the source performs
 it, on any bytes.
 */
module ExportTrie {
  import opened Leb128

  // The walk's outcome. Fault is a read behind the last byte, which the source does not stop.
  datatype Outcome = Found(pos: nat) | NotFound | Fault

  // An unsigned LEB128 number and the position behind it.
  datatype Number = Number(value: nat, next: nat) | NoNumber

  function NumberAt(bytes: Bytes, p: nat): Number {
    var r := Uleb(bytes, p);
    if r.Read? then Number(ValueOf(r.value), r.next) else NoNumber
  }

  // ---------------------------------------------------------------- one edge

  // After scanning an edge label that ends (with its terminator) at `end`: the symbol goes on at
  // k if the label matches.
  datatype EdgeScan = Match(k: nat, end: nat) | Mismatch(end: nat) | NoEdge

  // Position of the first zero byte, or the end of the bytes.
  function Terminator(bytes: Bytes, p: nat): nat
    decreases |bytes| - p
  {
    if p >= |bytes| || bytes[p] == 0 then p else Terminator(bytes, p + 1)
  }

  function ScanFrom(bytes: Bytes, p: nat, symbol: Bytes, k: nat): EdgeScan
    decreases |bytes| - p
  {
    if p >= |bytes| then NoEdge
    else if bytes[p] == 0 then Match(k, p)
    else if k < |symbol| && symbol[k] == bytes[p] then ScanFrom(bytes, p + 1, symbol, k + 1)
    else
      var q := Terminator(bytes, p + 1);
      if q < |bytes| then Mismatch(q) else NoEdge
  }

  // The label-scanning loop: the whole label is read even after a mismatch.
  method ScanEdge(bytes: Bytes, start: nat, symbol: Bytes, k: nat) returns (r: EdgeScan)
    ensures r == ScanFrom(bytes, start, symbol, k)
  {
    var p: nat, ss: nat, wrongEdge := start, k, false;
    while p < |bytes| && bytes[p] != 0
      invariant start <= p
      invariant !wrongEdge ==> ScanFrom(bytes, p, symbol, ss) == ScanFrom(bytes, start, symbol, k)
      invariant wrongEdge ==>
                  var q := Terminator(bytes, p);
                  ScanFrom(bytes, start, symbol, k) == if q < |bytes| then Mismatch(q) else NoEdge
    {
      if !wrongEdge {
        if ss < |symbol| && symbol[ss] == bytes[p] {
          ss := ss + 1;
        } else {
          wrongEdge := true;
        }
      }
      p := p + 1;
    }
    if p >= |bytes| {
      return NoEdge;
    }
    return if wrongEdge then Mismatch(p) else Match(ss, p);
  }

  // ---------------------------------------------------------------- the children of a node

  datatype Choice = Child(offset: nat, k: nat) | NoChild | Malformed | OutOfBounds

  // The loop over `remaining` edges at p: the first edge that matches decides.
  function Choose(bytes: Bytes, p: nat, remaining: nat, symbol: Bytes, k: nat): Choice
    decreases remaining
  {
    if remaining == 0 then NoChild
    else
      var s := ScanFrom(bytes, p, symbol, k);
      if s.NoEdge? then OutOfBounds
      else
        var n := NumberAt(bytes, s.end + 1);
        if n.NoNumber? then OutOfBounds
        else if s.Mismatch? then Choose(bytes, n.next, remaining - 1, symbol, k)
        else if n.value == 0 || n.value > |bytes| then Malformed
        else Child(n.value, s.k)
  }

  method FindChild(bytes: Bytes, start: nat, count: nat, symbol: Bytes, k: nat) returns (r: Choice)
    ensures r == Choose(bytes, start, count, symbol, k)
  {
    var p: nat, remaining: nat := start, count;
    while remaining > 0
      invariant Choose(bytes, p, remaining, symbol, k) == Choose(bytes, start, count, symbol, k)
    {
      var s := ScanEdge(bytes, p, symbol, k);
      if s.NoEdge? {
        return OutOfBounds;
      }
      ScanInBounds(bytes, p, symbol, k);
      SkipMatchesRead(bytes, s.end + 1, 0, 0);
      if s.Match? {
        var n := ReadUleb128(bytes, s.end + 1);
        if !n.Read? {
          return OutOfBounds;
        }
        var offset := ValueOf(n.value);
        return if offset == 0 || offset > |bytes| then Malformed else Child(offset, s.k);
      }
      p := SkipUleb(bytes, s.end + 1);
      if p > |bytes| {
        return OutOfBounds;
      }
      remaining := remaining - 1;
    }
    return NoChild;
  }

  lemma {:induction false} TerminatorInBounds(bytes: Bytes, p: nat)
    ensures p <= Terminator(bytes, p)
    decreases |bytes| - p
  {
    if p < |bytes| && bytes[p] != 0 {
      TerminatorInBounds(bytes, p + 1);
    }
  }

  lemma {:induction false} ScanInBounds(bytes: Bytes, p: nat, symbol: Bytes, k: nat)
    ensures var s := ScanFrom(bytes, p, symbol, k);
            !s.NoEdge? ==> p <= s.end < |bytes| && bytes[s.end] == 0
    decreases |bytes| - p
  {
    if p < |bytes| && bytes[p] != 0 {
      if k < |symbol| && symbol[k] == bytes[p] {
        ScanInBounds(bytes, p + 1, symbol, k + 1);
      } else {
        TerminatorInBounds(bytes, p + 1);
        TerminatorIsZero(bytes, p + 1);
      }
    }
  }

  lemma {:induction false} TerminatorIsZero(bytes: Bytes, p: nat)
    ensures Terminator(bytes, p) < |bytes| ==> bytes[Terminator(bytes, p)] == 0
    decreases |bytes| - p
  {
    if p < |bytes| && bytes[p] != 0 {
      TerminatorIsZero(bytes, p + 1);
    }
  }

  // ---------------------------------------------------------------- the walk

  const MAX_VISITED: nat := 128

  // (uint32_t)offset
  function Truncated(offset: nat): nat {
    offset % 0x1_0000_0000
  }

  // The walk from the node at `offset`, with k symbol bytes consumed and the (truncated)
  // offsets of the nodes visited so far.
  function WalkFrom(bytes: Bytes, offset: nat, symbol: Bytes, k: nat, visited: seq<nat>): Outcome
    decreases MAX_VISITED - |visited|
  {
    if offset >= |bytes| then NotFound
    else
      var size := NumberAt(bytes, offset);
      if size.NoNumber? then Fault
      else if k == |symbol| && size.value != 0 then Found(size.next)
      else
        var children := size.next + size.value;
        if children > |bytes| then NotFound
        else if children == |bytes| then Fault
        else
          match Choose(bytes, children + 1, bytes[children] as nat, symbol, k)
          case NoChild => NotFound
          case Malformed => NotFound
          case OutOfBounds => Fault
          case Child(offset', k') =>
            if offset' in visited || |visited| + 1 >= MAX_VISITED then NotFound
            else WalkFrom(bytes, offset', symbol, k', visited + [Truncated(offset')])
  }

  function Walk(bytes: Bytes, symbol: Bytes): Outcome {
    WalkFrom(bytes, 0, symbol, 0, [0])
  }

  // The offsets of the nodes the walk reads.
  ghost function Trace(bytes: Bytes, offset: nat, symbol: Bytes, k: nat, visited: seq<nat>): seq<nat>
    decreases MAX_VISITED - |visited|
  {
    if offset >= |bytes| then []
    else
      var size := NumberAt(bytes, offset);
      if size.NoNumber? || (k == |symbol| && size.value != 0) || size.next + size.value >= |bytes| then [offset]
      else
        var children := size.next + size.value;
        var c := Choose(bytes, children + 1, bytes[children] as nat, symbol, k);
        if c.Child? && c.offset !in visited && |visited| + 1 < MAX_VISITED
        then [offset] + Trace(bytes, c.offset, symbol, c.k, visited + [Truncated(c.offset)])
        else [offset]
  }

  // The terminal size: one byte, or more for large ones.
  method ReadSize(bytes: Bytes, p: nat) returns (n: Number)
    requires p < |bytes|
    ensures n == NumberAt(bytes, p)
  {
    if bytes[p] > 127 {
      var r := ReadUleb128(bytes, p);
      return if r.Read? then Number(ValueOf(r.value), r.next) else NoNumber;
    }
    SmallNumber(bytes, p);
    return Number(bytes[p] as nat, p + 1);
  }

  // Reading a node: the walk and its trace end here, or go on at a child.
  lemma NodeHeader(bytes: Bytes, p: nat, symbol: Bytes, k: nat, visited: seq<nat>)
    requires p < |bytes|
    ensures var n := NumberAt(bytes, p);
            var r, trace := WalkFrom(bytes, p, symbol, k, visited), Trace(bytes, p, symbol, k, visited);
            && (n.NoNumber? ==> r == Fault && trace == [p])
            && (n.Number? && k == |symbol| && n.value != 0 ==> r == Found(n.next) && trace == [p])
            && (n.Number? && !(k == |symbol| && n.value != 0) ==>
                  && (n.next + n.value > |bytes| ==> r == NotFound && trace == [p])
                  && (n.next + n.value == |bytes| ==> r == Fault && trace == [p]))
  {
    hide NumberAt, Choose, Truncated;
  }

  lemma NodeChild(bytes: Bytes, p: nat, symbol: Bytes, k: nat, visited: seq<nat>, choice: Choice)
    requires p < |bytes| && NumberAt(bytes, p).Number? && !(k == |symbol| && NumberAt(bytes, p).value != 0)
    requires var children := NumberAt(bytes, p).next + NumberAt(bytes, p).value;
             children < |bytes| && choice == Choose(bytes, children + 1, bytes[children] as nat, symbol, k)
    ensures var r, trace := WalkFrom(bytes, p, symbol, k, visited), Trace(bytes, p, symbol, k, visited);
            match choice
            case NoChild => r == NotFound && trace == [p]
            case Malformed => r == NotFound && trace == [p]
            case OutOfBounds => r == Fault && trace == [p]
            case Child(offset, k') =>
              var visited' := visited + [Truncated(offset)];
              if offset in visited || |visited'| >= MAX_VISITED then r == NotFound && trace == [p]
              else r == WalkFrom(bytes, offset, symbol, k', visited') && trace == [p] + Trace(bytes, offset, symbol, k', visited')
  {
    hide NumberAt, Choose, Truncated;
  }

  lemma WalkEnds(bytes: Bytes, p: nat, symbol: Bytes, k: nat, visited: seq<nat>)
    requires p >= |bytes|
    ensures WalkFrom(bytes, p, symbol, k, visited) == NotFound && Trace(bytes, p, symbol, k, visited) == []
  {
  }

  // walk_exported_trie; `trace` records the offsets of the nodes it reads.
  method WalkExportedTrie(bytes: Bytes, symbol: Bytes) returns (r: Outcome, ghost trace: seq<nat>)
    ensures r == Walk(bytes, symbol)
    ensures trace == Trace(bytes, 0, symbol, 0, [0])
  {
    hide NumberAt, Choose, Truncated, WalkFrom, Trace;
    var visitedOffsets := new nat[MAX_VISITED];
    visitedOffsets[0] := 0;
    var count: nat, p: nat, k: nat := 1, 0, 0;
    trace := [];
    ghost var visited := [0];
    ghost var all := Trace(bytes, 0, symbol, 0, [0]);
    while p < |bytes|
      invariant 1 <= count < MAX_VISITED == visitedOffsets.Length && visitedOffsets[..count] == visited
      invariant WalkFrom(bytes, p, symbol, k, visited) == Walk(bytes, symbol)
      invariant trace + Trace(bytes, p, symbol, k, visited) == all
      decreases MAX_VISITED - count
    {
      NodeHeader(bytes, p, symbol, k, visited);
      ghost var read := trace;
      trace := trace + [p];
      var n := ReadSize(bytes, p);
      if n.NoNumber? {
        return Fault, trace;
      }
      var size, next := n.value, n.next;
      if k == |symbol| && size != 0 {
        return Found(next), trace;
      }
      var children := next + size;
      if children > |bytes| {
        return NotFound, trace;
      }
      if children == |bytes| {
        return Fault, trace;
      }
      var choice := FindChild(bytes, children + 1, bytes[children] as nat, symbol, k);
      NodeChild(bytes, p, symbol, k, visited, choice);
      match choice {
        case NoChild => return NotFound, trace;
        case Malformed => return NotFound, trace;
        case OutOfBounds => return Fault, trace;
        case Child(offset, k') =>
          var seen := HasVisited(visitedOffsets, count, offset);
          if seen {
            return NotFound, trace;
          }
          visitedOffsets[count] := Truncated(offset);
          visited := visited + [Truncated(offset)];
          count := count + 1;
          assert visitedOffsets[..count] == visited;
          if count >= MAX_VISITED {
            return NotFound, trace;
          }
          ghost var rest := Trace(bytes, offset, symbol, k', visited);
          assert read + ([p] + rest) == trace + rest;
          p, k := offset, k';
      }
    }
    WalkEnds(bytes, p, symbol, k, visited);
    assert trace + [] == trace;
    return NotFound, trace;
  }

  // The cycle check.
  method HasVisited(visited: array<nat>, count: nat, offset: nat) returns (seen: bool)
    requires count <= visited.Length
    ensures seen <==> offset in visited[..count]
  {
    for i := 0 to count
      invariant offset !in visited[..i]
    {
      if visited[i] == offset {
        return true;
      }
    }
    return false;
  }

  lemma SmallNumber(bytes: Bytes, p: nat)
    requires p < |bytes| && bytes[p] <= 127
    ensures NumberAt(bytes, p) == Number(bytes[p] as nat, p + 1)
  {
    SmallUleb(bytes, p);
    WidenedByte(bytes[p]);
  }

  lemma WidenedByte(b: bv8)
    requires b <= 127
    ensures ValueOf(b as bv64) == b as nat
  {
    assert Low7(b as bv64) as bv8 == b;
  }
}
