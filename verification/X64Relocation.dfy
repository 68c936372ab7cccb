/**
 The x64 relocator: a prologue is copied instruction by instruction to a new address, with
 position-dependent operands rewritten, into a chunk that is enlarged until the code fits.
 */
module X64Relocation {
  import opened Wrappers

  const W64 := 0x1_0000_0000_0000_0000
  const W32 := 0x1_0000_0000

  type address = x: int | 0 <= x < W64

  // ---------------------------------------------------------------- integers of the machine

  // (int)x and (int8_t)x
  function Signed32(x: int): (r: int)
    ensures -0x8000_0000 <= r < 0x8000_0000
  {
    var m := x % W32;
    if m < 0x8000_0000 then m else m - W32
  }

  function Signed8(x: int): (r: int)
    ensures -128 <= r < 128
  {
    var m := x % 256;
    if m < 128 then m else m - 256
  }

  // Emit32 and Emit64, little endian
  function LE32(v: int): (b: seq<byte>)
    ensures |b| == 4
  {
    var low, high := v % W32 % 0x1_0000, v % W32 / 0x1_0000;
    [low % 256, low / 256, high % 256, high / 256]
  }

  function LE64(v: address): (b: seq<byte>)
    ensures |b| == 8
  {
    LE32(v % W32) + LE32(v / W32)
  }

  function FromLE32(b: seq<byte>): int
    requires |b| == 4
  {
    var b0: int, b1: int, b2: int, b3: int := b[0], b[1], b[2], b[3];
    Signed32(b0 + 256 * b1 + 0x1_0000 * (b2 + 256 * b3))
  }

  lemma LE32RoundTrip(v: int)
    requires -0x8000_0000 <= v < 0x8000_0000
    ensures FromLE32(LE32(v)) == v
  {
  }

  // ---------------------------------------------------------------- decoded instructions

  // What the decoder tells the relocator. `field` is the offset of the 32-bit displacement or
  // immediate, `tail` that of an immediate behind the displacement (0: none).
  datatype Insn =
    | JccRel8(length: nat, opcode: byte, offset: int)
    | JmpRel8(length: nat, offset: int)
    | RipRelative(length: nat, disp: int, field: nat, tail: nat)
    | Rel32(length: nat, disp: int, field: nat)
    | Loop(length: nat)
    | Plain(length: nat)

  // Relocated code and the length of the original it stands for.
  datatype Output = Output(code: seq<byte>, end: nat)

  // The code to relocate: the bytes from the hooked address on, and the decoder's view of them.
  type Code = nat -> byte
  type Decoder = nat -> Insn

  function Slice(code: Code, off: nat, n: nat): (b: seq<byte>)
    ensures |b| == n
  {
    seq(n, i requires 0 <= i < n => code(off + i))
  }

  predicate Relative(insn: Insn) {
    insn.JccRel8? || insn.JmpRel8? || insn.RipRelative? || insn.Rel32?
  }

  // The operand of a relative instruction.
  function Operand(insn: Insn): int
    requires Relative(insn)
  {
    if insn.JccRel8? || insn.JmpRel8? then insn.offset else insn.disp
  }

  predicate Shaped(insn: Insn) {
    && 0 < insn.length <= 15
    && (insn.RipRelative? || insn.Rel32? ==> insn.field + 4 <= insn.length)
    && (insn.RipRelative? && insn.tail != 0 ==> insn.field + 4 <= insn.tail <= insn.length)
  }

  // What the decoder promises of the instruction at an offset.
  ghost predicate Decodes(code: Code, off: nat, insn: Insn) {
    && Shaped(insn)
    && (insn.JccRel8? || insn.JmpRel8? ==> -128 <= insn.offset < 128)
    && (insn.JccRel8? ==> 0x70 <= insn.opcode <= 0x7F)
    && (insn.RipRelative? || insn.Rel32? ==> insn.disp == FromLE32(Slice(code, off + insn.field, 4)))
  }

  ghost predicate Faithful(code: Code, dec: Decoder) {
    forall off: nat :: Decodes(code, off, dec(off))
  }

  // ---------------------------------------------------------------- one pass

  function EmittedLength(insn: Insn): nat
    requires Shaped(insn)
  {
    match insn
    case JccRel8(_, _, _) => 6
    case JmpRel8(_, _) => 5
    case RipRelative(length, _, field, tail) => field + 4 + if tail != 0 then length - tail else 0
    case Rel32(_, _, field) => field + 4
    case Loop(length) => 0
    case Plain(length) => length
  }

  // The operand the relocator computes for an instruction at `ip` that moves to `relo`.
  function NewOperand(insn: Insn, ip: int, relo: int): int {
    match insn
    case JccRel8(_, _, offset) => Signed32(ip + offset - relo)
    case JmpRel8(_, offset) => Signed8(ip + offset - relo)
    case RipRelative(_, disp, _, _) => Signed32(ip + disp - relo)
    case Rel32(_, disp, _) => Signed32(ip + disp - relo)
    case _ => 0
  }

  // The bytes emitted for the instruction at an offset.
  function Emit(code: Code, off: nat, insn: Insn, ip: int, relo: int): (b: seq<byte>)
    requires Shaped(insn)
    ensures |b| == EmittedLength(insn)
  {
    var operand := LE32(NewOperand(insn, ip, relo));
    match insn
    case JccRel8(_, opcode, _) => [0x0F, 0x80 + opcode % 16] + operand
    case JmpRel8(_, _) => [0xE9] + operand
    case RipRelative(length, _, field, tail) =>
      Slice(code, off, field) + operand + if tail != 0 then Slice(code, off + tail, length - tail) else []
    case Rel32(_, _, field) => Slice(code, off, field) + operand
    case Loop(_) => []
    case Plain(length) => Slice(code, off, length)
  }

  ghost predicate AllShaped(dec: Decoder) {
    forall off: nat :: Shaped(dec(off))
  }

  // The relocated instructions from offset `off` up to the first boundary not below `size`, behind
  // what is emitted already, and that boundary. None: an instruction is not supported.
  function Body(code: Code, dec: Decoder, off: nat, size: nat, origin: address, base: address, emitted: seq<byte>)
    : Option<Output>
    requires AllShaped(dec)
    decreases size - off
  {
    if off >= size then Some(Output(emitted, off))
    else
      var insn := dec(off);
      if insn.Loop? then None
      else Body(code, dec, off + insn.length, size, origin, base,
                emitted + Emit(code, off, insn, origin + off, base + |emitted|))
  }

  // A whole pass: the instructions, a jump through the next quadword, and the address of the rest.
  function Pass(code: Code, dec: Decoder, size: nat, origin: address, base: address): Option<Output>
    requires AllShaped(dec)
  {
    var body := Body(code, dec, 0, size, origin, base, []);
    if body.None? then None
    else Some(Output(body.value.code + [0xFF, 0x25] + LE32(0) + LE64((origin + body.value.end) % W64), body.value.end))
  }

  // ---------------------------------------------------------------- lengths and boundaries

  // Where the chunk lies changes neither the length of the code nor the boundary.
  lemma {:induction false} BodyLength(code: Code, dec: Decoder, off: nat, size: nat, origin: address,
                                      base: address, emitted: seq<byte>, other: address, same: seq<byte>)
    requires AllShaped(dec) && |emitted| == |same|
    ensures var one, two := Body(code, dec, off, size, origin, base, emitted), Body(code, dec, off, size, origin, other, same);
            && one.None? == two.None?
            && (one.Some? ==> |one.value.code| == |two.value.code| && one.value.end == two.value.end && one.value.end >= off && one.value.end >= size)
    decreases size - off
  {
    hide Emit, EmittedLength;
    if off < size {
      var insn := dec(off);
      assert Shaped(insn);
      if !insn.Loop? {
        BodyLength(code, dec, off + insn.length, size, origin,
                   base, emitted + Emit(code, off, insn, origin + off, base + |emitted|),
                   other, same + Emit(code, off, insn, origin + off, other + |same|));
      }
    }
  }

  // A pass over the extended origin decodes the same instructions.
  lemma {:induction false} BodyAgain(code: Code, dec: Decoder, off: nat, size: nat, origin: address, base: address, emitted: seq<byte>)
    requires AllShaped(dec) && off <= size
    ensures var body := Body(code, dec, off, size, origin, base, emitted);
            body.Some? ==> body.value.end >= size && Body(code, dec, off, body.value.end, origin, base, emitted) == body
    decreases size - off
  {
    hide Emit, EmittedLength;
    if off < size {
      var insn := dec(off);
      assert Shaped(insn);
      if !insn.Loop? {
        var next := emitted + Emit(code, off, insn, origin + off, base + |emitted|);
        if off + insn.length <= size {
          BodyAgain(code, dec, off + insn.length, size, origin, base, next);
        } else {
          assert Body(code, dec, off + insn.length, size, origin, base, next) == Some(Output(next, off + insn.length));
        }
      }
    }
  }

  lemma PassLength(code: Code, dec: Decoder, size: nat, origin: address, base: address, other: address)
    requires AllShaped(dec)
    ensures var one, two := Pass(code, dec, size, origin, base), Pass(code, dec, size, origin, other);
            && one.None? == two.None?
            && (one.Some? ==> |one.value.code| == |two.value.code| && one.value.end == two.value.end)
  {
    hide Body;
    BodyLength(code, dec, 0, size, origin, base, [], other, []);
  }

  lemma PassAgain(code: Code, dec: Decoder, size: nat, origin: address, base: address)
    requires AllShaped(dec)
    ensures var pass := Pass(code, dec, size, origin, base);
            pass.Some? ==> Pass(code, dec, pass.value.end, origin, base) == pass
  {
    hide Body;
    BodyAgain(code, dec, 0, size, origin, base, []);
  }

  // However often the origin was extended, a pass gives what the first pass would have given.
  lemma SamePass(code: Code, dec: Decoder, size: nat, origin: address, first: address, base: address)
    requires AllShaped(dec) && Pass(code, dec, size, origin, first).Some?
    ensures Pass(code, dec, Pass(code, dec, size, origin, first).value.end, origin, base) == Pass(code, dec, size, origin, base)
  {
    hide Pass;
    PassLength(code, dec, size, origin, first, base);
    PassAgain(code, dec, size, origin, base);
  }

  // ---------------------------------------------------------------- the relocator

  datatype Status = Success | TooSmall | Unimplemented

  method GenRelocateCodeFixed(code: Code, dec: Decoder, size: nat, origin: address, base: address, capacity: nat)
    returns (status: Status, output: Output)
    requires AllShaped(dec)
    ensures var pass := Pass(code, dec, size, origin, base);
            if pass.None? then status == Unimplemented
            else output == pass.value && status == if |output.code| > capacity then TooSmall else Success
  {
    hide Emit, EmittedLength;
    var emitted: seq<byte>, off: nat := [], 0;
    while off < size
      invariant Body(code, dec, 0, size, origin, base, []) == Body(code, dec, off, size, origin, base, emitted)
      decreases size - off
    {
      var insn := dec(off);
      assert Shaped(insn);
      if insn.Loop? {
        return Unimplemented, Output([], 0);
      }
      emitted := emitted + Emit(code, off, insn, origin + off, base + |emitted|);
      off := off + insn.length;
    }
    var all := emitted + [0xFF, 0x25] + LE32(0) + LE64((origin + off) % W64);
    return if |all| > capacity then TooSmall else Success, Output(all, off);
  }

  datatype Result = NoMemory | Unsupported | Done(base: address, chunkSize: nat, output: Output)

  // The smallest of 32, 48, 64, … that is enough.
  function LeastSize(need: nat): (s: nat)
    ensures s >= need && s >= 32 && s % 16 == 0
    ensures s > 32 ==> s - 16 < need
  {
    if need <= 32 then 32 else (need + 15) / 16 * 16
  }

  lemma LeastSizeIs(need: nat, s: nat)
    requires s >= need && s >= 32 && s % 16 == 0 && (s > 32 ==> s - 16 < need)
    ensures s == LeastSize(need)
  {
  }

  // `arena` answers the request for a chunk of a given size.
  method GenRelocateCodeAndBranch(code: Code, dec: Decoder, size: nat, origin: address, arena: nat -> Option<address>)
    returns (r: Result)
    requires AllShaped(dec)
    ensures r.Done? ==>
              && Pass(code, dec, size, origin, r.base) == Some(r.output)
              && r.chunkSize == LeastSize(|r.output.code|) && arena(r.chunkSize) == Some(r.base)
    ensures r.Unsupported? ==> Pass(code, dec, size, origin, 0).None?
    ensures r.NoMemory? ==>
              exists k: nat :: arena(32 + 16 * k).None?
                               && (Pass(code, dec, size, origin, 0).Some? ==>
                                     32 + 16 * k <= LeastSize(|Pass(code, dec, size, origin, 0).value.code|))
  {
    hide Pass, LeastSize;
    ghost var first := Pass(code, dec, size, origin, 0);
    ghost var need := if first.Some? then |first.value.code| else 0;
    var chunkSize, length: nat := 32, size;
    ghost var k: nat := 0;
    while true
      invariant chunkSize == 32 + 16 * k && (k > 0 ==> first.Some? && chunkSize - 16 < need)
      invariant length == size || (first.Some? && length == first.value.end)
      decreases need + 32 - chunkSize
    {
      LeastNotBelow(need, chunkSize);
      var chunk := arena(chunkSize);
      if chunk.None? {
        return NoMemory;
      }
      PassLength(code, dec, size, origin, 0, chunk.value);
      if first.Some? {
        SamePass(code, dec, size, origin, 0, chunk.value);
      }
      var status, output := GenRelocateCodeFixed(code, dec, length, origin, chunk.value, chunkSize);
      if status == Unimplemented {
        return Unsupported;
      }
      length := output.end;
      if status == Success {
        LeastSizeIs(|output.code|, chunkSize);
        return Done(chunk.value, chunkSize, output);
      }
      chunkSize := chunkSize + 16;
      k := k + 1;
    }
  }

  lemma LeastNotBelow(need: nat, s: nat)
    requires s % 16 == 0 && s >= 32 && (s > 32 ==> s - 16 < need)
    ensures s <= LeastSize(need)
  {
  }
}
