/**
 The page window around a position and the requests of the near-page search, over 64-bit addresses
 that wrap around.
 */
module NearWindow {

  const W := 0x1_0000_0000_0000_0000

  type address = x: int | 0 <= x < W

  datatype Region = Region(start: address, length: nat)

  function Wrap(x: int): (r: address) {
    x % W
  }

  // The page size divides the address space and leaves room for a few pages.
  predicate PageSize(ps: int) {
    0 < ps && 4 * ps <= W && W % ps == 0
  }

  function Align(a: address, ps: int): address
    requires PageSize(ps)
  {
    FloorBound(a, ps);
    a / ps * ps
  }

  // ---------------------------------------------------------------- the source's helpers

  function AddrMax(a: address, b: address): address {
    if a > b then a else b
  }

  function AddrSub(a: address, b: address): address {
    if a > Wrap(a - b) then Wrap(a - b) else 0
  }

  function AddrAdd(a: address, b: address): address {
    if a < Wrap(a + b) then Wrap(a + b) else W - 1
  }

  function PrevPage(a: address, ps: int): address
    requires PageSize(ps)
  {
    var aligned := Align(a, ps);
    var r := Wrap(aligned - ps);
    if r <= aligned then r else aligned
  }

  function NextPage(a: address, ps: int): address
    requires PageSize(ps)
  {
    var aligned := Align(a, ps);
    var r := Wrap(aligned + ps);
    if r >= aligned then r else aligned
  }

  // ---------------------------------------------------------------- arithmetic of pages

  predicate Aligned(a: int, ps: int)
    requires ps > 0
  {
    a % ps == 0
  }

  lemma AtLeastOnce(d: int, ps: int)
    requires ps > 0 && d >= 1
    ensures d * ps >= ps
  {
    assert (d - 1) * ps >= 0;
  }

  // Quotient and remainder are unique.
  lemma Unique(ps: int, q: int, r: int, k: int, t: int)
    requires ps > 0 && 0 <= r < ps && 0 <= t < ps && q * ps + r == k * ps + t
    ensures q == k && r == t
  {
    assert (q - k) * ps == t - r && (k - q) * ps == r - t;
    if q > k {
      AtLeastOnce(q - k, ps);
    } else if k > q {
      AtLeastOnce(k - q, ps);
    }
  }

  lemma Divided(a: int, ps: int)
    requires ps > 0
    ensures a == a / ps * ps + a % ps && 0 <= a % ps < ps
  {
  }

  lemma MultipleAligned(k: int, ps: int)
    requires ps > 0
    ensures Aligned(k * ps, ps)
  {
    var a := k * ps;
    var q, r := a / ps, a % ps;
    Divided(a, ps);
    Unique(ps, q, r, k, 0);
  }

  lemma FloorBound(a: int, ps: int)
    requires ps > 0 && a >= 0
    ensures 0 <= a / ps * ps <= a < a / ps * ps + ps && Aligned(a / ps * ps, ps)
  {
    Divided(a, ps);
    MultipleAligned(a / ps, ps);
    NotBelow(a, a / ps, ps);
  }

  lemma NotBelow(a: int, q: int, ps: int)
    requires ps > 0 && a >= 0 && a < q * ps + ps
    ensures q * ps >= 0
  {
    if q < 0 {
      AtLeastOnce(-q, ps);
    } else {
      assert q * ps >= 0;
    }
  }

  // Aligned addresses are at least a page apart.
  lemma AlignedGap(a: int, b: int, ps: int)
    requires ps > 0 && Aligned(a, ps) && Aligned(b, ps) && a < b
    ensures a + ps <= b
  {
    Divided(a, ps);
    Divided(b, ps);
    Gap(a / ps, b / ps, ps);
  }

  lemma Gap(i: int, j: int, ps: int)
    requires ps > 0 && i * ps < j * ps
    ensures i * ps + ps <= j * ps
  {
    if j <= i {
      NoOrder(i, j, ps);
    }
    AtLeastOnce(j - i, ps);
  }

  lemma NoOrder(i: int, j: int, ps: int)
    requires ps > 0 && j <= i
    ensures j * ps <= i * ps
  {
    assert (i - j) * ps >= 0;
  }

  lemma AlignedShift(a: int, ps: int)
    requires ps > 0 && Aligned(a, ps)
    ensures Aligned(a + ps, ps) && Aligned(a - ps, ps)
  {
    var k := a / ps;
    Divided(a, ps);
    MultipleAligned(k + 1, ps);
    MultipleAligned(k - 1, ps);
    assert (k + 1) * ps == k * ps + ps && (k - 1) * ps == k * ps - ps;
  }

  // In plain arithmetic: differences and sums saturate, as long as the offset is not zero.
  lemma Saturating(a: address, b: address)
    requires b > 0
    ensures AddrSub(a, b) == if b <= a then a - b else 0
    ensures AddrAdd(a, b) == if a + b < W then a + b else W - 1
  {
  }

  // A zero offset does not stay put: it opens the window to the whole address space.
  lemma ZeroOffset(a: address)
    ensures AddrSub(a, 0) == 0 && AddrAdd(a, 0) == W - 1
  {
  }

  lemma AlignIs(a: address, ps: int)
    requires PageSize(ps)
    ensures var f := Align(a, ps); Aligned(f, ps) && f <= a < f + ps
  {
    FloorBound(a, ps);
  }

  // The page above: strictly above, except for the last page, which has none.
  lemma NextPageIs(a: address, ps: int)
    requires PageSize(ps)
    ensures var r := NextPage(a, ps);
            Aligned(r, ps) && (if a < W - ps then a < r <= a + ps else r == W - ps)
  {
    hide Align, Aligned;
    AlignIs(a, ps);
    var f := Align(a, ps);
    WAligned(ps);
    AlignedShift(f, ps);
    AlignedShift(W, ps);
    if f < W - ps {
      AlignedGap(f, W - ps, ps);
    } else if W - ps < f {
      AlignedGap(W - ps, f, ps);
    }
  }

  // The page below the page of `a`; the first page has none.
  lemma PrevPageIs(a: address, ps: int)
    requires PageSize(ps)
    ensures var r := PrevPage(a, ps);
            Aligned(r, ps) && (if a < ps then r == 0 else r + ps <= a < r + 2 * ps)
  {
    hide Align, Aligned;
    AlignIs(a, ps);
    var f := Align(a, ps);
    ZeroAligned(ps);
    AlignedShift(f, ps);
    if f > 0 {
      AlignedGap(0, f, ps);
    }
  }

  lemma WAligned(ps: int)
    requires PageSize(ps)
    ensures Aligned(W, ps)
  {
  }

  lemma ZeroAligned(ps: int)
    requires ps > 0
    ensures Aligned(0, ps)
  {
  }

  // ---------------------------------------------------------------- the window

  function MinPage(pos: address, range: address, ps: int): address
    requires PageSize(ps)
  {
    NextPage(AddrSub(pos, range), ps)
  }

  function MaxPage(pos: address, range: address, ps: int): address
    requires PageSize(ps)
  {
    PrevPage(AddrAdd(pos, range), ps)
  }

  // llabs of the wrapped difference: the way around the address space counts if it is shorter.
  function Distance(a: address, b: address): (d: nat)
    ensures var gap := if a < b then b - a else a - b;
            d == if gap <= W / 2 then gap else W - gap
  {
    var d := Wrap(a - b);
    if d < W / 2 then d else W - d
  }

  // The window in plain arithmetic.
  lemma WindowIs(pos: address, range: address, ps: int)
    requires PageSize(ps) && range > 0
    ensures var min, max := MinPage(pos, range, ps), MaxPage(pos, range, ps);
            && Aligned(min, ps) && Aligned(max, ps) && max + 2 * ps <= W
            && (if pos - range < W - ps then pos - range < min && min <= (if range <= pos then pos - range else 0) + ps else min == W - ps)
            && (if pos + range < ps then max == 0 else max + ps <= pos + range && (pos + range < max + 2 * ps || max + 2 * ps == W))
  {
    hide NextPage, PrevPage, Aligned;
    var low, high := AddrSub(pos, range), AddrAdd(pos, range);
    Saturating(pos, range);
    NextPageIs(low, ps);
    PrevPageIs(high, ps);
    var max := MaxPage(pos, range, ps);
    WAligned(ps);
    AlignedShift(W, ps);
    AlignedShift(W - ps, ps);
    if max > W - 2 * ps {
      AlignedGap(W - 2 * ps, max, ps);
    }
  }

  lemma WindowNear(pos: address, range: address, ps: int, a: address)
    requires PageSize(ps) && range > 0
    requires MinPage(pos, range, ps) <= a <= MaxPage(pos, range, ps)
    ensures pos - range < a < pos + range && a + 2 * ps <= W
  {
    hide MinPage, MaxPage, Aligned;
    WindowIs(pos, range, ps);
  }

  // Two pages of range are enough for a window that is not empty.
  lemma WindowNonEmpty(pos: address, range: address, ps: int)
    requires PageSize(ps) && range >= 2 * ps
    ensures MinPage(pos, range, ps) <= MaxPage(pos, range, ps)
  {
    hide MinPage, MaxPage, Aligned;
    WindowIs(pos, range, ps);
    var min, max := MinPage(pos, range, ps), MaxPage(pos, range, ps);
    if max < min {
      AlignedGap(max, min, ps);
    }
  }

  // With less range the window can be empty, and the first page asked for is then out of range.
  lemma EmptyWindow()
    ensures MinPage(100, 50, 4096) > MaxPage(100, 50, 4096)
    ensures Distance(MinPage(100, 50, 4096), 100) >= 50
  {
  }
}
