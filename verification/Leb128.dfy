/**
 The LEB128 readers of the Mach-O symbol resolver, with the encoding of section 7.6 of
 DWARF 5 as their partner.
 */
module Leb128 {

  type Bytes = seq<bv8>

  // A reader's outcome: a value and the position behind it; a run past the last byte, which
  // the source does not stop; or a shift by more bits than the value has.
  datatype Reading = Read(value: bv64, next: nat) | PastEnd | Undefined

  predicate Continues(b: bv8) {
    b & 0x80 != 0
  }

  function Slice(b: bv8): bv64 {
    (b & 0x7F) as bv64
  }

  // x << bit, for the multiples of 7 that a reader's bit count runs through.
  function Shl(x: bv64, bit: nat): bv64
    decreases bit
  {
    if bit < 7 then x else Shl(Up7(x), bit - 7)
  }

  function Up7(x: bv64): bv64 {
    x << 7
  }

  function Down7(x: bv64): bv64 {
    x >> 7
  }

  function Low7(x: bv64): bv64 {
    x & 0x7F
  }

  function Or(a: bv64, b: bv64): bv64 {
    a | b
  }

  // The number a 64-bit value stands for, by its groups of seven bits.
  function ValueOf(v: bv64): nat
    decreases v
  {
    var low := (Low7(v) as bv8) as nat;
    if v < 128 then low else low + 128 * ValueOf(Down7(v))
  }

  // ---------------------------------------------------------------- unsigned

  // The rest of read_uleb128 after `bit` bits of result.
  function UlebFrom(bytes: Bytes, p: nat, result: bv64, bit: nat): Reading
    decreases |bytes| - p
  {
    if p >= |bytes| then PastEnd
    else
      var result' := if bit > 63 then result else Or(result, Shl(Slice(bytes[p]), bit));
      var bit' := if bit > 63 then bit else bit + 7;
      if Continues(bytes[p]) then UlebFrom(bytes, p + 1, result', bit') else Read(result', p + 1)
  }

  function Uleb(bytes: Bytes, p: nat): Reading {
    UlebFrom(bytes, p, 0, 0)
  }

  method ReadUleb128(bytes: Bytes, start: nat) returns (r: Reading)
    ensures r == Uleb(bytes, start)
  {
    var p, result: bv64, bit := start, 0, 0;
    while true
      invariant UlebFrom(bytes, p, result, bit) == Uleb(bytes, start)
      decreases |bytes| - p
    {
      if p >= |bytes| {
        return PastEnd;
      }
      if bit <= 63 {
        result := Or(result, Shl(Slice(bytes[p]), bit));
        bit := bit + 7;
      }
      p := p + 1;
      if !Continues(bytes[p - 1]) {
        return Read(result, p);
      }
    }
  }

  // The position behind the first byte that does not continue.
  function End(bytes: Bytes, p: nat): (end: nat)
    requires p <= |bytes|
    ensures p <= end <= |bytes| + 1
    decreases |bytes| - p
  {
    if p == |bytes| then p + 1 else if Continues(bytes[p]) then End(bytes, p + 1) else p + 1
  }

  // The trie walker's byte-skip loop.
  method SkipUleb(bytes: Bytes, start: nat) returns (p: nat)
    requires start <= |bytes|
    ensures p == End(bytes, start)
  {
    p := start;
    while p < |bytes| && Continues(bytes[p])
      invariant start <= p <= |bytes| && End(bytes, p) == End(bytes, start)
    {
      p := p + 1;
    }
    p := p + 1;
  }

  // Skipping and reading advance by the same amount, whatever the bytes.
  lemma {:induction false} SkipMatchesRead(bytes: Bytes, p: nat, result: bv64, bit: nat)
    requires p <= |bytes|
    ensures var r := UlebFrom(bytes, p, result, bit);
            if End(bytes, p) <= |bytes| then r.Read? && r.next == End(bytes, p) else r.PastEnd?
    decreases |bytes| - p
  {
    if p < |bytes| && Continues(bytes[p]) {
      var result' := if bit > 63 then result else Or(result, Shl(Slice(bytes[p]), bit));
      SkipMatchesRead(bytes, p + 1, result', if bit > 63 then bit else bit + 7);
    }
  }

  // A single byte below 0x80 is its own value.
  lemma SmallUleb(bytes: Bytes, p: nat)
    requires p < |bytes| && bytes[p] <= 127
    ensures Uleb(bytes, p) == Read(bytes[p] as bv64, p + 1)
  {
    var b := bytes[p];
    assert !Continues(b) && Slice(b) == b as bv64;
    assert Or(0, Slice(b)) == Slice(b);
  }

  function EncodeUleb(v: bv64): Bytes
    decreases v
  {
    if v < 128 then [v as bv8] else [More(v)] + EncodeUleb(Down7(v))
  }

  // Arithmetic shift by one group.
  function Shift7(v: bv64): bv64 {
    if v & 0x8000_0000_0000_0000 == 0 then v >> 7 else !(!v >> 7)
  }

  function Group(v: bv64): bv8 {
    (v & 0x7F) as bv8
  }

  // A group that others follow.
  function More(v: bv64): bv8 {
    Group(v) | 0x80
  }

  // `bytes` holds `code` at p.
  predicate Holds(bytes: Bytes, p: nat, code: Bytes) {
    p + |code| <= |bytes| && bytes[p..p + |code|] == code
  }

  // The bit positions a reader can be at.
  predicate IsGroupBit(bit: nat) {
    bit == 0 || bit == 7 || bit == 14 || bit == 21 || bit == 28 || bit == 35 || bit == 42 || bit == 49 || bit == 56 || bit == 63
  }

  // `v` shifted to `bit` loses nothing.
  predicate Fits(v: bv64, bit: nat)
    requires IsGroupBit(bit)
  {
    bit == 0 || v < (if bit == 7 then 0x200_0000_0000_0000 else if bit == 14 then 0x4_0000_0000_0000
                     else if bit == 21 then 0x800_0000_0000 else if bit == 28 then 0x10_0000_0000
                     else if bit == 35 then 0x2000_0000 else if bit == 42 then 0x40_0000
                     else if bit == 49 then 0x8000 else if bit == 56 then 0x100 else 2)
  }

  lemma {:induction false} ShlDistributes(a: bv64, b: bv64, bit: nat)
    ensures Or(Shl(a, bit), Shl(b, bit)) == Shl(Or(a, b), bit)
    decreases bit
  {
    if bit >= 7 {
      ShlDistributes(Up7(a), Up7(b), bit - 7);
      OrShift(a, b);
    }
  }

  lemma ShiftedOr(a: bv64, b: bv64)
    ensures (a << 7) | (b << 7) == (a | b) << 7
  {
  }

  lemma OrShift(a: bv64, b: bv64)
    ensures Or(Up7(a), Up7(b)) == Up7(Or(a, b))
  {
    calc {
      Or(Up7(a), Up7(b));
      (a << 7) | (b << 7);
      { ShiftedOr(a, b); }
      (a | b) << 7;
      Up7(a | b);
      Up7(Or(a, b));
    }
  }

  lemma LowAndRest(v: bv64)
    ensures Or(Low7(v), Up7(Down7(v))) == v
  {
    assert Or(Low7(v), Up7(Down7(v))) == (v & 0x7F) | ((v >> 7) << 7);
  }

  lemma RestPositive(v: bv64)
    ensures Or(Low7(v), Up7(v >> 7)) == v
  {
    assert (v & 0x7F) | ((v >> 7) << 7) == v;
  }

  lemma RestNegative(v: bv64)
    ensures Or(Low7(v), Up7(!(!v >> 7))) == v
  {
    assert (v & 0x7F) | ((!(!v >> 7)) << 7) == v;
  }

  lemma ShiftIs(v: bv64)
    ensures Shift7(v) == v >> 7 || Shift7(v) == !(!v >> 7)
  {
  }

  lemma LowAndSignedRest(v: bv64)
    ensures Or(Low7(v), Up7(Shift7(v))) == v
  {
    hide Or, Low7, Up7, Shift7;
    ShiftIs(v);
    RestPositive(v);
    RestNegative(v);
  }

  // Reading one group and the rest is reading the whole.
  lemma GroupJoins(v: bv64, rest: bv64, bit: nat)
    requires Or(Low7(v), Up7(rest)) == v
    ensures Or(Shl(Low7(v), bit), Shl(rest, bit + 7)) == Shl(v, bit)
  {
    hide Or, Low7, Up7;
    ShlDistributes(Low7(v), Up7(rest), bit);
  }

  lemma GroupFits(v: bv64, bit: nat)
    requires IsGroupBit(bit) && Fits(v, bit) && v >= 128
    ensures bit <= 56 && IsGroupBit(bit + 7) && Fits(Down7(v), bit + 7)
  {
  }

  lemma ByteOfGroup(v: bv64)
    ensures Slice(More(v)) == Low7(v) && Continues(More(v))
    ensures v < 128 ==> Slice(v as bv8) == v && !Continues(v as bv8)
  {
  }

  lemma OrAssociates(a: bv64, b: bv64, c: bv64, d: bv64)
    requires Or(b, c) == d
    ensures Or(Or(a, b), c) == Or(a, d)
  {
  }

  lemma EncodeUlebStep(v: bv64)
    requires v >= 128
    ensures EncodeUleb(v) == [More(v)] + EncodeUleb(Down7(v))
  {
    hide Group;
  }

  lemma {:induction false} UlebReads(bytes: Bytes, p: nat, v: bv64, result: bv64, bit: nat)
    requires Holds(bytes, p, EncodeUleb(v)) && IsGroupBit(bit) && Fits(v, bit)
    ensures UlebFrom(bytes, p, result, bit) == Read(Or(result, Shl(v, bit)), p + |EncodeUleb(v)|)
    decreases |EncodeUleb(v)|
  {
    hide Or, Shl, Slice, Continues, Group, More, Fits, Low7, Down7;
    var code := EncodeUleb(v);
    assert bytes[p] == code[0];
    ByteOfGroup(v);
    if v >= 128 {
      var rest, low := Down7(v), Low7(v);
      EncodeUlebStep(v);
      hide EncodeUleb;
      assert bytes[p + 1..p + |code|] == bytes[p..p + |code|][1..] == EncodeUleb(rest);
      GroupFits(v, bit);
      LowAndRest(v);
      GroupJoins(v, rest, bit);
      UlebReads(bytes, p + 1, rest, Or(result, Shl(low, bit)), bit + 7);
      OrAssociates(result, Shl(low, bit), Shl(rest, bit + 7), Shl(v, bit));
    }
  }

  // Every unsigned 64-bit value is read back from its canonical encoding, wherever it stands,
  // and the reader stops right behind it.
  lemma UlebRoundTrip(before: Bytes, v: bv64, after: Bytes)
    ensures Uleb(before + EncodeUleb(v) + after, |before|) == Read(v, |before| + |EncodeUleb(v)|)
  {
    var bytes, code := before + EncodeUleb(v) + after, EncodeUleb(v);
    assert bytes[|before|..|before| + |code|] == code;
    UlebReads(bytes, |before|, v, 0, 0);
    assert Or(0, v) == v;
  }

  // ---------------------------------------------------------------- signed

  const ALL_ONES: bv64 := 0xFFFF_FFFF_FFFF_FFFF

  predicate SignBit(b: bv8) {
    b & 0x40 != 0
  }

  // The rest of read_sleb128 after `bit` bits of result.
  function SlebFrom(bytes: Bytes, p: nat, result: bv64, bit: nat): Reading
    decreases |bytes| - p
  {
    if p >= |bytes| then PastEnd
    else if bit > 63 then Undefined
    else
      var result' := Or(result, Shl(Slice(bytes[p]), bit));
      var bit' := bit + 7;
      if Continues(bytes[p]) then SlebFrom(bytes, p + 1, result', bit')
      else if !SignBit(bytes[p]) then Read(result', p + 1)
      else if bit' > 63 then Undefined
      else Read(Or(result', Shl(ALL_ONES, bit')), p + 1)
  }

  function Sleb(bytes: Bytes, p: nat): Reading {
    SlebFrom(bytes, p, 0, 0)
  }

  method ReadSleb128(bytes: Bytes, start: nat) returns (r: Reading)
    ensures r == Sleb(bytes, start)
  {
    hide Or, Shl, Slice, Continues;
    var p, result: bv64, bit := start, 0, 0;
    while true
      invariant SlebFrom(bytes, p, result, bit) == Sleb(bytes, start)
      decreases |bytes| - p
    {
      if p >= |bytes| {
        return PastEnd;
      }
      var byte := bytes[p];
      if bit > 63 {
        return Undefined;
      }
      p := p + 1;
      result := Or(result, Shl(Slice(byte), bit));
      bit := bit + 7;
      if !Continues(byte) {
        if !SignBit(byte) {
          return Read(result, p);
        }
        return if bit > 63 then Undefined else Read(Or(result, Shl(ALL_ONES, bit)), p);
      }
    }
  }

  // The last group: the rest is all sign bits.
  predicate IsLast(v: bv64) {
    v < 64 || v >= 0xFFFF_FFFF_FFFF_FFC0
  }

  // Distance from zero, as a termination measure.
  function Magnitude(v: bv64): bv64 {
    if v & 0x8000_0000_0000_0000 == 0 then v else !v
  }

  function EncodeSleb(v: bv64): Bytes
    decreases Magnitude(v)
  {
    if IsLast(v) then [Group(v)] else [More(v)] + EncodeSleb(Shift7(v))
  }

  // `v` is a sign-extended value of 64 - bit bits.
  predicate InRange(v: bv64, bit: nat)
    requires IsGroupBit(bit)
  {
    if bit == 0 then true
    else if bit == 7 then v < 0x100_0000_0000_0000 || v >= 0xFF00_0000_0000_0000
    else if bit == 14 then v < 0x2_0000_0000_0000 || v >= 0xFFFE_0000_0000_0000
    else if bit == 21 then v < 0x400_0000_0000 || v >= 0xFFFF_FC00_0000_0000
    else if bit == 28 then v < 0x8_0000_0000 || v >= 0xFFFF_FFF8_0000_0000
    else if bit == 35 then v < 0x1000_0000 || v >= 0xFFFF_FFFF_F000_0000
    else if bit == 42 then v < 0x20_0000 || v >= 0xFFFF_FFFF_FFE0_0000
    else if bit == 49 then v < 0x4000 || v >= 0xFFFF_FFFF_FFFF_C000
    else if bit == 56 then v < 0x80 || v >= 0xFFFF_FFFF_FFFF_FF80
    else v == 0 || v == ALL_ONES
  }

  // Negative and not a sign-extended value of 63 - bit bits: the sign then lies in the byte read
  // at bit 63, behind which nothing is left to extend.
  predicate SignLost(v: bv64, bit: nat)
    requires IsGroupBit(bit)
  {
    0x8000_0000_0000_0000 <= v <=
      (if bit == 0 then 0xBFFF_FFFF_FFFF_FFFF else if bit == 7 then 0xFF7F_FFFF_FFFF_FFFF
       else if bit == 14 then 0xFFFE_FFFF_FFFF_FFFF else if bit == 21 then 0xFFFF_FDFF_FFFF_FFFF
       else if bit == 28 then 0xFFFF_FFFB_FFFF_FFFF else if bit == 35 then 0xFFFF_FFFF_F7FF_FFFF
       else if bit == 42 then 0xFFFF_FFFF_FFEF_FFFF else if bit == 49 then 0xFFFF_FFFF_FFFF_DFFF
       else if bit == 56 then 0xFFFF_FFFF_FFFF_FFBF else ALL_ONES)
  }

  lemma SignedGroupFits(v: bv64, bit: nat)
    requires IsGroupBit(bit) && InRange(v, bit) && !IsLast(v)
    ensures bit <= 56 && IsGroupBit(bit + 7) && InRange(Shift7(v), bit + 7)
    ensures SignLost(Shift7(v), bit + 7) <==> SignLost(v, bit)
  {
  }

  // In the last byte the sign is lost only at bit 63.
  lemma SignedLastFits(v: bv64, bit: nat)
    requires IsGroupBit(bit) && InRange(v, bit) && IsLast(v)
    ensures SignLost(v, bit) <==> bit == 63 && SignBit(Group(v))
  {
  }

  lemma SignedLastStep(v: bv64)
    requires IsLast(v)
    ensures !SignBit(Group(v)) ==> Low7(v) == v
    ensures SignBit(Group(v)) ==> Or(Low7(v), Up7(ALL_ONES)) == v
  {
    assert Or(Low7(v), Up7(ALL_ONES)) == (v & 0x7F) | 0xFFFF_FFFF_FFFF_FF80;
  }

  lemma LastByte(v: bv64)
    requires IsLast(v)
    ensures !Continues(Group(v)) && Slice(Group(v)) == Low7(v)
  {
  }

  lemma EncodeSlebStep(v: bv64)
    ensures EncodeSleb(v) == if IsLast(v) then [Group(v)] else [More(v)] + EncodeSleb(Shift7(v))
  {
    hide Group, Shift7, Magnitude, IsLast;
  }

  // One byte of the reader.
  lemma SlebStep(bytes: Bytes, p: nat, result: bv64, bit: nat, joined: bv64)
    requires p < |bytes| && bit <= 63 && joined == Or(result, Shl(Slice(bytes[p]), bit))
    ensures SlebFrom(bytes, p, result, bit)
            == if Continues(bytes[p]) then SlebFrom(bytes, p + 1, joined, bit + 7)
               else if !SignBit(bytes[p]) then Read(joined, p + 1)
               else if bit + 7 > 63 then Undefined
               else Read(Or(joined, Shl(ALL_ONES, bit + 7)), p + 1)
  {
    hide Or, Shl, Slice, Continues, SignBit;
  }

  // The last byte of an encoding.
  lemma SlebLast(bytes: Bytes, p: nat, v: bv64, result: bv64, bit: nat, whole: bv64)
    requires p < |bytes| && bytes[p] == Group(v) && IsLast(v) && IsGroupBit(bit) && InRange(v, bit)
    requires whole == Or(result, Shl(v, bit))
    ensures var r := SlebFrom(bytes, p, result, bit);
            (SignLost(v, bit) ==> r == Undefined) && (!SignLost(v, bit) ==> r == Read(whole, p + 1))
  {
    hide Or, Shl, Slice, Continues, InRange, SignLost, IsLast, Low7, Group, SignBit, SlebFrom;
    LastByte(v);
    SignedLastStep(v);
    SignedLastFits(v, bit);
    SlebStep(bytes, p, result, bit, Or(result, Shl(Low7(v), bit)));
    if SignBit(Group(v)) {
      GroupJoins(v, ALL_ONES, bit);
      OrAssociates(result, Shl(Low7(v), bit), Shl(ALL_ONES, bit + 7), Shl(v, bit));
    }
  }

  lemma {:induction false} SlebReads(bytes: Bytes, p: nat, v: bv64, result: bv64, bit: nat, whole: bv64)
    requires Holds(bytes, p, EncodeSleb(v)) && IsGroupBit(bit) && InRange(v, bit)
    requires whole == Or(result, Shl(v, bit))
    ensures var r := SlebFrom(bytes, p, result, bit);
            (SignLost(v, bit) ==> r == Undefined) && (!SignLost(v, bit) ==> r == Read(whole, p + |EncodeSleb(v)|))
    decreases |EncodeSleb(v)|
  {
    hide Or, Shl, Slice, Continues, InRange, SignLost, IsLast, Shift7, Magnitude, Low7, Group, EncodeSleb, SignBit, More, SlebFrom;
    var code := EncodeSleb(v);
    EncodeSlebStep(v);
    assert bytes[p] == code[0];
    if IsLast(v) {
      SlebLast(bytes, p, v, result, bit, whole);
    } else {
      var rest, low := Shift7(v), Low7(v);
      ByteOfGroup(v);
      assert bytes[p + 1..p + |code|] == bytes[p..p + |code|][1..] == EncodeSleb(rest);
      SignedGroupFits(v, bit);
      LowAndSignedRest(v);
      GroupJoins(v, rest, bit);
      var joined := Or(result, Shl(low, bit));
      SlebStep(bytes, p, result, bit, joined);
      OrAssociates(result, Shl(low, bit), Shl(rest, bit + 7), Shl(v, bit));
      SlebReads(bytes, p + 1, rest, joined, bit + 7, whole);
    }
  }

  // Every signed value is read back from its canonical encoding, except those below -2^62: their
  // tenth byte calls for a sign extension by a shift of 70, which has no meaning.
  lemma SlebRoundTrip(before: Bytes, v: bv64, after: Bytes)
    ensures Sleb(before + EncodeSleb(v) + after, |before|)
            == if 0x8000_0000_0000_0000 <= v < 0xC000_0000_0000_0000 then Undefined
               else Read(v, |before| + |EncodeSleb(v)|)
  {
    var bytes, code := before + EncodeSleb(v) + after, EncodeSleb(v);
    assert bytes[|before|..|before| + |code|] == code;
    SlebReads(bytes, |before|, v, 0, 0, v);
  }
}
