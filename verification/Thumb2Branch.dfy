/**
 The Thumb-2 branch encoder and the relocator's B.W and BL decoders, after encodings T4 of B
 and T1 of BL (section F5.1 of DDI 0487).
 */
module Thumb2Branch {

  datatype Halfwords = Halfwords(first: bv16, second: bv16)

  datatype Decoded = BranchWide(offset: bv32) | BranchLink(offset: bv32) | Other

  // ---------------------------------------------------------------- the encoder

  // EmitThumb2Branch, for condition AL. `imm` is an int32_t in two's complement.

  // imm >> 1
  function Operand(imm: bv32): bv32 {
    (imm >> 1) | (imm & 0x8000_0000)
  }

  function Sign(imm: bv32): bv32 {
    (imm >> 31) & 1
  }

  function FirstHalf(imm: bv32): bv16 {
    (0xF000 | (Sign(imm) << 10) | ((Operand(imm) >> 11) & 0x3FF)) as bv16
  }

  // With j1 = !(i1 ^ S) and j2 = !(i2 ^ S); `link` is 1 for BL, which sets bit 14.
  function SecondHalf(imm: bv32, link: bv32): bv16 {
    (0x9000
     | (((((Operand(imm) >> 22) & 1) ^ Sign(imm)) ^ 1) << 13)
     | (((((Operand(imm) >> 21) & 1) ^ Sign(imm)) ^ 1) << 11)
     | (Operand(imm) & 0x7FF)
     | ((link & 1) << 14)) as bv16
  }

  function Encode(imm: bv32, link: bool): Halfwords {
    Halfwords(FirstHalf(imm), SecondHalf(imm, if link then 1 else 0))
  }

  // ---------------------------------------------------------------- the decoders

  // The B.W and BL cases of Thumb2RelocateSingleInstr.

  predicate IsWide(h: Halfwords) {
    h.first & 0xF800 == 0xF000 && h.second & 0x8000 == 0x8000 && (h.second >> 12) & 5 == 1
  }

  predicate IsLink(h: Halfwords) {
    h.first & 0xF800 == 0xF000 && h.second & 0x8000 == 0x8000 && (h.second >> 12) & 5 == 5
  }

  // -S << 24, for a single bit S
  function Spread(s: bv32): bv32 {
    (s << 24) | (s << 25) | (s << 26) | (s << 27) | (s << 28) | (s << 29) | (s << 30) | (s << 31)
  }

  lemma SpreadIsNegation(s: bv32)
    requires s <= 1
    ensures Spread(s) == (0 - s) << 24
  {
    if s == 0 {
    }
  }

  // (-S << 24) | (i1 << 23) | (i2 << 22) | (imm10 << 12) | (imm11 << 1)
  function Offset(first: bv32, second: bv32): bv32 {
    Spread((first >> 10) & 1)
    | (((((second >> 13) & 1) ^ ((first >> 10) & 1)) ^ 1) << 23)
    | (((((second >> 11) & 1) ^ ((first >> 10) & 1)) ^ 1) << 22)
    | ((first & 0x3FF) << 12)
    | ((second & 0x7FF) << 1)
  }

  function OffsetIn(h: Halfwords): bv32 {
    Offset(h.first as bv32, h.second as bv32)
  }

  // The offset the relocator adds to the pc.
  function Decode(h: Halfwords): Decoded {
    if IsWide(h) then BranchWide(OffsetIn(h)) else if IsLink(h) then BranchLink(OffsetIn(h)) else Other
  }

  // ---------------------------------------------------------------- round trips

  // The offsets a wide branch can express: even, within 16 MiB.
  predicate Reachable(imm: bv32) {
    imm & 1 == 0 && (imm < 0x0100_0000 || imm >= 0xFF00_0000)
  }

  // What survives of an offset: bits 1 to 23 and the sign.
  function Kept(imm: bv32): bv32 {
    (imm & 0x00FF_FFFE) | Spread(Sign(imm))
  }

  lemma OffsetOfEncoding(imm: bv32, link: bv32)
    ensures Offset(FirstHalf(imm) as bv32, SecondHalf(imm, link) as bv32) == Kept(imm)
  {
  }

  lemma OffsetInEncoding(imm: bv32, link: bool)
    ensures OffsetIn(Encode(imm, link)) == Kept(imm)
  {
    hide FirstHalf, SecondHalf, Kept;
    OffsetOfEncoding(imm, if link then 1 else 0);
  }

  lemma PositiveRange(imm: bv32)
    requires (imm >> 31) & 1 == 0
    ensures imm & 0x00FF_FFFE == imm <==> imm & 1 == 0 && (imm < 0x0100_0000 || imm >= 0xFF00_0000)
  {
  }

  lemma NegativeRange(imm: bv32)
    requires (imm >> 31) & 1 == 1
    ensures (imm & 0x00FF_FFFE) | 0xFF00_0000 == imm <==> imm & 1 == 0 && (imm < 0x0100_0000 || imm >= 0xFF00_0000)
  {
  }

  lemma KeptIsIdentity(imm: bv32)
    ensures Kept(imm) == imm <==> Reachable(imm)
  {
    if (imm >> 31) & 1 == 0 {
      assert Spread(0) == 0;
      assert Kept(imm) == imm & 0x00FF_FFFE;
      PositiveRange(imm);
    } else {
      assert (imm >> 31) & 1 == 1;
      assert Spread(1) == 0xFF00_0000;
      assert Kept(imm) == (imm & 0x00FF_FFFE) | 0xFF00_0000;
      NegativeRange(imm);
    }
  }

  lemma ClassOfEncoding(imm: bv32)
    ensures IsWide(Encode(imm, false)) && IsLink(Encode(imm, true)) && !IsWide(Encode(imm, true))
  {
  }

  // Decoding what the encoder emits gives back the offset, with the right link class, for
  // exactly the reachable offsets.
  lemma DecodeEncode(imm: bv32)
    ensures Decode(Encode(imm, false)) == BranchWide(imm) <==> Reachable(imm)
    ensures Decode(Encode(imm, true)) == BranchLink(imm) <==> Reachable(imm)
  {
    hide IsWide, IsLink, OffsetIn, Kept, Reachable, Encode;
    ClassOfEncoding(imm);
    OffsetInEncoding(imm, false);
    OffsetInEncoding(imm, true);
    KeptIsIdentity(imm);
  }

  lemma FirstOfOffset(first: bv16, second: bv16)
    requires first & 0xF800 == 0xF000
    ensures FirstHalf(Offset(first as bv32, second as bv32)) == first
  {
  }

  lemma SecondOfOffset(first: bv16, second: bv16)
    requires first & 0xF800 == 0xF000
    ensures second & 0xD000 == 0x9000 ==> SecondHalf(Offset(first as bv32, second as bv32), 0) == second
    ensures second & 0xD000 == 0xD000 ==> SecondHalf(Offset(first as bv32, second as bv32), 1) == second
  {
  }

  lemma OffsetKept(first: bv32, second: bv32)
    ensures Kept(Offset(first, second)) == Offset(first, second)
  {
  }

  lemma ClassMasks(h: Halfwords)
    ensures IsWide(h) ==> h.first & 0xF800 == 0xF000 && h.second & 0xD000 == 0x9000
    ensures IsLink(h) ==> h.first & 0xF800 == 0xF000 && h.second & 0xD000 == 0xD000
  {
  }

  lemma OffsetReachable(h: Halfwords)
    ensures Reachable(OffsetIn(h))
  {
    hide Offset, Kept, Reachable;
    OffsetKept(h.first as bv32, h.second as bv32);
    KeptIsIdentity(Offset(h.first as bv32, h.second as bv32));
  }

  lemma EncodeHalves(imm: bv32, first: bv16, second: bv16, link: bool)
    requires FirstHalf(imm) == first && SecondHalf(imm, if link then 1 else 0) == second
    ensures Encode(imm, link) == Halfwords(first, second)
  {
    hide FirstHalf, SecondHalf;
  }

  lemma EncodeWide(first: bv16, second: bv16)
    requires first & 0xF800 == 0xF000 && second & 0xD000 == 0x9000
    ensures Encode(Offset(first as bv32, second as bv32), false) == Halfwords(first, second)
  {
    hide Encode, Offset, FirstHalf, SecondHalf;
    FirstOfOffset(first, second);
    SecondOfOffset(first, second);
    EncodeHalves(Offset(first as bv32, second as bv32), first, second, false);
  }

  lemma EncodeLink(first: bv16, second: bv16)
    requires first & 0xF800 == 0xF000 && second & 0xD000 == 0xD000
    ensures Encode(Offset(first as bv32, second as bv32), true) == Halfwords(first, second)
  {
    hide Encode, Offset, FirstHalf, SecondHalf;
    FirstOfOffset(first, second);
    SecondOfOffset(first, second);
    EncodeHalves(Offset(first as bv32, second as bv32), first, second, true);
  }

  // Encoding what a decoder reads gives back the two halfwords.
  lemma EncodeDecode(h: Halfwords)
    ensures Decode(h).BranchWide? ==> Reachable(Decode(h).offset) && Encode(Decode(h).offset, false) == h
    ensures Decode(h).BranchLink? ==> Reachable(Decode(h).offset) && Encode(Decode(h).offset, true) == h
  {
    hide IsWide, IsLink, Offset, Kept, Reachable, Encode;
    OffsetReachable(h);
    ClassMasks(h);
    if IsWide(h) {
      EncodeWide(h.first, h.second);
    } else if IsLink(h) {
      EncodeLink(h.first, h.second);
    }
  }
}
