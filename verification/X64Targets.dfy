/**
 Where relocated x64 instructions lead: which rewrites keep their target, for every instruction of
 every block.
 */
module X64Targets {
  import opened Wrappers
  import opened X64Relocation

  // The address a relative instruction refers to.
  function Target(ip: int, length: int, operand: int): address {
    (ip + length + operand) % W64
  }

  // The distance as a signed 64-bit number.
  function Signed64(x: int): int {
    var m := x % W64;
    if m < W64 / 2 then m else m - W64
  }

  // The new operand can be encoded: in 32 bits, or in 8 for a short jump, which is truncated to 8.
  predicate Encodable(insn: Insn, ip: int, relo: int)
    requires Relative(insn)
  {
    var x := Signed64(ip + Operand(insn) - relo);
    if insn.JmpRel8? then -128 <= x < 128 else -0x8000_0000 <= x < 0x8000_0000
  }

  // ---------------------------------------------------------------- congruences

  lemma Signed32Congruent(x: int)
    ensures (Signed32(x) - x) % W32 == 0
  {
    var q := x / W32;
    assert x == q * W32 + x % W32;
  }

  lemma Signed8Congruent(x: int)
    ensures (Signed8(x) - x) % 256 == 0
  {
  }

  lemma Signed32Exact(x: int)
    ensures (Signed32(x) - x) % W64 == 0 <==> -0x8000_0000 <= Signed64(x) < 0x8000_0000
  {
  }

  lemma Signed8Exact(x: int)
    ensures (Signed8(x) - x) % W64 == 0 <==> -128 <= Signed64(x) < 128
  {
  }

  lemma SameTarget(a: int, b: int)
    ensures a % W64 == b % W64 <==> (a - b) % W64 == 0
  {
  }

  // A multiple of 2^64 plus a small number is a multiple of 2^64 only if the number is zero.
  lemma SmallShift(d: int, shift: int)
    requires d % 256 == 0 && -256 < shift < 256 && (d + shift) % W64 == 0
    ensures shift == 0
  {
  }

  lemma Multiple32(d: int)
    requires d % W32 == 0
    ensures d % 256 == 0
  {
  }

  // The rewritten instruction refers to the same address exactly when its length did not change and
  // the new operand can be encoded.
  lemma TargetKeptIff(insn: Insn, ip: int, relo: int)
    requires Shaped(insn) && Relative(insn)
    ensures Target(relo, EmittedLength(insn), NewOperand(insn, ip, relo)) == Target(ip, insn.length, Operand(insn))
            <==> EmittedLength(insn) == insn.length && Encodable(insn, ip, relo)
  {
    hide Signed32, Signed8, Signed64;
    var x := ip + Operand(insn) - relo;
    var operand := NewOperand(insn, ip, relo);
    var d, shift := operand - x, EmittedLength(insn) - insn.length;
    assert -256 < shift < 256;
    SameTarget(relo + EmittedLength(insn) + operand, ip + insn.length + Operand(insn));
    assert relo + EmittedLength(insn) + operand - (ip + insn.length + Operand(insn)) == d + shift;
    if insn.JmpRel8? {
      Signed8Congruent(x);
      Signed8Exact(x);
    } else {
      Signed32Congruent(x);
      Multiple32(d);
      Signed32Exact(x);
    }
    if (d + shift) % W64 == 0 {
      SmallShift(d, shift);
    }
  }

  // So a two-byte short jump never keeps its target.
  lemma ShortJumpsMiss(insn: Insn, ip: int, relo: int)
    requires (insn.JccRel8? || insn.JmpRel8?) && insn.length == 2
    ensures Target(relo, EmittedLength(insn), NewOperand(insn, ip, relo)) != Target(ip, insn.length, Operand(insn))
  {
    TargetKeptIff(insn, ip, relo);
  }

  // ---------------------------------------------------------------- places in the relocated code

  datatype Place = Place(off: nat, pos: nat)

  // Which instruction goes where.
  function Places(dec: Decoder, off: nat, size: nat, pos: nat): seq<Place>
    requires AllShaped(dec)
    decreases size - off
  {
    if off >= size then []
    else
      var insn := dec(off);
      [Place(off, pos)] + Places(dec, off + insn.length, size, pos + EmittedLength(insn))
  }

  lemma {:induction false} BodyExtends(code: Code, dec: Decoder, off: nat, size: nat, origin: address, base: address, emitted: seq<byte>)
    requires AllShaped(dec) && Body(code, dec, off, size, origin, base, emitted).Some?
    ensures emitted <= Body(code, dec, off, size, origin, base, emitted).value.code
    decreases size - off
  {
    hide Emit;
    if off < size {
      var insn := dec(off);
      assert Shaped(insn);
      BodyExtends(code, dec, off + insn.length, size, origin, base, emitted + Emit(code, off, insn, origin + off, base + |emitted|));
    }
  }

  // The code at a place is what was emitted for the instruction there.
  lemma {:induction false} Placed(code: Code, dec: Decoder, off: nat, size: nat, origin: address, base: address, emitted: seq<byte>, p: Place)
    requires AllShaped(dec) && Body(code, dec, off, size, origin, base, emitted).Some?
    requires p in Places(dec, off, size, |emitted|)
    ensures var insn, out := dec(p.off), Body(code, dec, off, size, origin, base, emitted).value.code;
            && p.pos + EmittedLength(insn) <= |out|
            && out[p.pos..p.pos + EmittedLength(insn)] == Emit(code, p.off, insn, origin + p.off, base + p.pos)
    decreases size - off
  {
    hide Emit, EmittedLength;
    var insn := dec(off);
    assert Shaped(insn) && off < size;
    var next := emitted + Emit(code, off, insn, origin + off, base + |emitted|);
    if p == Place(off, |emitted|) {
      BodyExtends(code, dec, off + insn.length, size, origin, base, next);
    } else {
      Placed(code, dec, off + insn.length, size, origin, base, next, p);
    }
  }

  // ---------------------------------------------------------------- the relocated block

  // An instruction with a 32-bit operand and unchanged length: only the operand's bytes differ.
  lemma EmitField(code: Code, off: nat, insn: Insn, ip: int, relo: int)
    requires Shaped(insn) && (insn.RipRelative? || insn.Rel32?) && EmittedLength(insn) == insn.length
    ensures var b := Emit(code, off, insn, ip, relo);
            && FromLE32(b[insn.field..insn.field + 4]) == NewOperand(insn, ip, relo)
            && forall i :: 0 <= i < insn.length && !(insn.field <= i < insn.field + 4) ==> b[i] == code(off + i)
  {
    hide LE32, FromLE32, Signed32;
    var b, operand := Emit(code, off, insn, ip, relo), NewOperand(insn, ip, relo);
    LE32RoundTrip(operand);
    assert b[insn.field..insn.field + 4] == LE32(operand);
  }

  // The bytes at an instruction's place in the relocated code.
  function Found(out: seq<byte>, p: Place, length: nat): (b: seq<byte>)
    requires p.pos + length <= |out|
    ensures |b| == length
  {
    out[p.pos..p.pos + length]
  }

  lemma FoundIs(code: Code, dec: Decoder, size: nat, origin: address, base: address, p: Place)
    requires AllShaped(dec) && Pass(code, dec, size, origin, base).Some?
    requires p in Places(dec, 0, size, 0)
    ensures var insn, out := dec(p.off), Pass(code, dec, size, origin, base).value.code;
            && p.pos + EmittedLength(insn) <= |out|
            && Found(out, p, EmittedLength(insn)) == Emit(code, p.off, insn, origin + p.off, base + p.pos)
  {
    hide Emit, EmittedLength, Body, Places, LE32, LE64;
    Placed(code, dec, 0, size, origin, base, [], p);
    var body, out := Body(code, dec, 0, size, origin, base, []).value.code, Pass(code, dec, size, origin, base).value.code;
    var length := EmittedLength(dec(p.off));
    assert out[..|body|] == body;
    assert out[p.pos..p.pos + length] == body[p.pos..p.pos + length];
  }

  // For every instruction of the block with a 32-bit relative operand whose length is kept: its
  // bytes are the original ones but for the operand, and the machine reads from them the original
  // target exactly when that is within reach of the new place.
  lemma RelocatedTarget(code: Code, dec: Decoder, size: nat, origin: address, base: address, p: Place)
    requires Faithful(code, dec) && AllShaped(dec) && Pass(code, dec, size, origin, base).Some?
    requires p in Places(dec, 0, size, 0)
    requires var insn := dec(p.off);
             (insn.RipRelative? || insn.Rel32?) && EmittedLength(insn) == insn.length
    ensures var insn, out := dec(p.off), Pass(code, dec, size, origin, base).value.code;
            && p.pos + insn.length <= |out|
            && (forall i :: 0 <= i < insn.length && !(insn.field <= i < insn.field + 4) ==> Found(out, p, insn.length)[i] == code(p.off + i))
            && (Target(base + p.pos, insn.length, FromLE32(Found(out, p, insn.length)[insn.field..insn.field + 4]))
                == Target(origin + p.off, insn.length, FromLE32(Slice(code, p.off + insn.field, 4)))
                <==> Encodable(insn, origin + p.off, base + p.pos))
  {
    hide Emit, EmittedLength, Pass, Places, FromLE32, Signed64, Target, Encodable, NewOperand, Found, Slice;
    var insn := dec(p.off);
    assert Decodes(code, p.off, insn);
    FoundIs(code, dec, size, origin, base, p);
    EmitField(code, p.off, insn, origin + p.off, base + p.pos);
    TargetKeptIff(insn, origin + p.off, base + p.pos);
  }

  // An instruction that does not depend on its address is copied.
  lemma PlainCopied(code: Code, dec: Decoder, size: nat, origin: address, base: address, p: Place)
    requires AllShaped(dec) && Pass(code, dec, size, origin, base).Some?
    requires p in Places(dec, 0, size, 0) && dec(p.off).Plain?
    ensures var length, out := dec(p.off).length, Pass(code, dec, size, origin, base).value.code;
            && p.pos + length <= |out|
            && forall i :: 0 <= i < length ==> Found(out, p, length)[i] == code(p.off + i)
  {
    hide Pass, Places, Found, LE32;
    FoundIs(code, dec, size, origin, base, p);
  }

  // A short conditional jump becomes the near jump of the same condition, whose second opcode byte is
  // 16 above the short one; a short jump becomes the near jump. Both end in the new operand.
  lemma ShortJumpBytes(code: Code, dec: Decoder, size: nat, origin: address, base: address, p: Place)
    requires Faithful(code, dec) && AllShaped(dec) && Pass(code, dec, size, origin, base).Some?
    requires p in Places(dec, 0, size, 0) && (dec(p.off).JccRel8? || dec(p.off).JmpRel8?)
    ensures var insn, out := dec(p.off), Pass(code, dec, size, origin, base).value.code;
            var n := if insn.JccRel8? then 2 else 1;
            && p.pos + n + 4 <= |out|
            && Found(out, p, n + 4)[..n] == (if insn.JccRel8? then [0x0F, insn.opcode + 0x10] else [0xE9])
            && FromLE32(Found(out, p, n + 4)[n..]) == NewOperand(insn, origin + p.off, base + p.pos)
  {
    hide Pass, Places, Found, LE32, FromLE32, Signed32, Signed8;
    var insn := dec(p.off);
    assert Decodes(code, p.off, insn);
    FoundIs(code, dec, size, origin, base, p);
    LE32RoundTrip(NewOperand(insn, origin + p.off, base + p.pos));
  }

  // ---------------------------------------------------------------- what is relocated

  lemma {:induction false} BodyPlaces(code: Code, dec: Decoder, off: nat, size: nat, origin: address, base: address, emitted: seq<byte>)
    requires AllShaped(dec)
    ensures var body, places := Body(code, dec, off, size, origin, base, emitted), Places(dec, off, size, |emitted|);
            && (body.Some? <==> forall i :: 0 <= i < |places| ==> !dec(places[i].off).Loop?)
            && (body.Some? ==> EndsAt(dec, places, off, body.value.end))
    decreases size - off
  {
    hide Emit, EmittedLength;
    if off < size {
      var insn := dec(off);
      assert Shaped(insn);
      var places := Places(dec, off, size, |emitted|);
      assert places[0] == Place(off, |emitted|);
      if !insn.Loop? {
        var next := emitted + Emit(code, off, insn, origin + off, base + |emitted|);
        BodyPlaces(code, dec, off + insn.length, size, origin, base, next);
        assert places[1..] == Places(dec, off + insn.length, size, |next|);
        assert forall i :: 0 <= i < |places[1..]| ==> places[i + 1] == places[1..][i];
        assert forall i :: 1 <= i < |places| ==> places[i] == places[1..][i - 1];
      }
    }
  }

  // The instructions follow each other from `off` to `end`.
  ghost predicate EndsAt(dec: Decoder, places: seq<Place>, off: nat, end: nat) {
    if places == [] then end == off
    else places[0].off == off && EndsAt(dec, places[1..], off + dec(off).length, end)
  }

  lemma {:induction false} PlacesCover(dec: Decoder, off: nat, size: nat, pos: nat)
    requires AllShaped(dec)
    ensures var places := Places(dec, off, size, pos);
            && (off >= size ==> places == [])
            && forall i :: 0 <= i < |places| ==> off <= places[i].off < size
    decreases size - off
  {
    hide EmittedLength;
    if off < size {
      assert Shaped(dec(off));
      PlacesCover(dec, off + dec(off).length, size, pos + EmittedLength(dec(off)));
    }
  }

  // A pass relocates the instructions from the first byte to the first boundary at or above the size,
  // without a gap; it succeeds if and only if none of them is one of the loop instructions.
  lemma RelocatedBlock(code: Code, dec: Decoder, size: nat, origin: address, base: address)
    requires AllShaped(dec)
    ensures var pass, places := Pass(code, dec, size, origin, base), Places(dec, 0, size, 0);
            && (pass.Some? <==> forall i :: 0 <= i < |places| ==> !dec(places[i].off).Loop?)
            && (pass.Some? ==> EndsAt(dec, places, 0, pass.value.end) && pass.value.end >= size)
            && forall i :: 0 <= i < |places| ==> places[i].off < size
  {
    hide Body, Places, EndsAt, LE32, LE64;
    BodyPlaces(code, dec, 0, size, origin, base, []);
    BodyLength(code, dec, 0, size, origin, base, [], base, []);
    PlacesCover(dec, 0, size, 0);
  }

  function Quad(b: seq<byte>): int
    requires |b| == 8
  {
    FromLE32(b[..4]) % W32 + W32 * (FromLE32(b[4..]) % W32)
  }

  // Behind the instructions lies an indirect jump to the first original instruction not relocated.
  lemma JumpsToRest(code: Code, dec: Decoder, size: nat, origin: address, base: address)
    requires AllShaped(dec) && Pass(code, dec, size, origin, base).Some?
    ensures var out := Pass(code, dec, size, origin, base).value;
            var n := |out.code| - 14;
            && n >= 0 && out.code[n..n + 2] == [0xFF, 0x25]
            && FromLE32(out.code[n + 2..n + 6]) == 0
            && Quad(out.code[n + 6..]) == (origin + out.end) % W64 && out.end >= size
  {
    hide Body, LE32, FromLE32;
    BodyLength(code, dec, 0, size, origin, base, [], base, []);
    var out, body := Pass(code, dec, size, origin, base).value, Body(code, dec, 0, size, origin, base, []).value;
    var n, rest := |body.code|, (origin + out.end) % W64;
    LE32RoundTrip(0);
    LE32Unsigned(rest % W32);
    LE32Unsigned(rest / W32);
    assert out.code[n + 2..n + 6] == LE32(0) && out.code[n + 6..] == LE64(rest);
    assert LE64(rest)[..4] == LE32(rest % W32) && LE64(rest)[4..] == LE32(rest / W32);
  }

  lemma LE32Unsigned(v: int)
    requires 0 <= v < W32
    ensures FromLE32(LE32(v)) % W32 == v
  {
    hide FromLE32, LE32;
    var s := if v < 0x8000_0000 then v else v - W32;
    LE32RoundTrip(s);
    LE32Same(v, s);
  }

  lemma LE32Same(v: int, s: int)
    requires v % W32 == s % W32
    ensures LE32(v) == LE32(s)
  {
  }
}
