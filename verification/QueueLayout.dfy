/** Placement of the descriptor table, the available ring and the used ring in one block of
    memory (legacy layout, section 2.6.2 of VirtIO 1.1), for a word of w bits and an alignment
    of 2^k bytes. */
module QueueLayout {
  import opened Bits

  const DESC_SIZE: nat := 16
  const AVAIL_HEADER: nat := 4
  const USED_HEADER: nat := 4
  const USED_ELEM_SIZE: nat := 8
  const UINT16_SIZE: nat := 2

  /** `(x + align - 1) & ~(align - 1)` with align = 2^k. */
  function MaskUp(x: nat, k: nat, w: nat): nat
    requires k <= w
  {
    Pow2Mono(k, w);
    And(x + Pow2(k) - 1, Pow2(w) - Pow2(k))
  }

  /** Bytes from the descriptor table to the end of the available ring's event index. */
  function HeadSize(num: nat): nat {
    num * DESC_SIZE + AVAIL_HEADER + num * UINT16_SIZE + UINT16_SIZE
  }

  function VringSize(num: nat, k: nat, w: nat): nat
    requires k <= w
  {
    MaskUp(HeadSize(num), k, w) + USED_HEADER + num * USED_ELEM_SIZE + UINT16_SIZE
  }

  datatype Layout = Layout(desc: nat, avail: nat, used: nat)

  function VringInit(num: nat, p: nat, k: nat, w: nat): Layout
    requires k <= w
  {
    var avail := p + num * DESC_SIZE;
    Layout(p, avail, MaskUp(avail + AVAIL_HEADER + num * UINT16_SIZE + UINT16_SIZE, k, w))
  }

  /** Address of the used event index, one slot past the available ring. */
  function UsedEventAt(l: Layout, num: nat): nat { l.avail + AVAIL_HEADER + num * UINT16_SIZE }

  /** Address of the available event index, one element past the used ring. */
  function AvailEventAt(l: Layout, num: nat): nat { l.used + USED_HEADER + num * USED_ELEM_SIZE }

  /** The product is x rounded up to a multiple of a. */
  predicate RoundsTo(x: nat, a: nat, product: nat) { x <= product < x + a }

  /** The mask form is a multiple of the alignment, not below x and less than one step above it. */
  lemma MaskUpRounds(x: nat, k: nat, w: nat) returns (c: nat)
    requires k <= w && x + Pow2(k) - 1 < Pow2(w)
    ensures MaskUp(x, k, w) == Pow2(k) * c
    ensures RoundsTo(x, Pow2(k), MaskUp(x, k, w))
  {
    AndHighMask(x + Pow2(k) - 1, k, w);
    c := RoundDown(x + Pow2(k) - 1, Pow2(k));
  }

  lemma RoundDown(z: nat, a: nat) returns (c: nat)
    requires 1 <= a
    ensures z - z % a == a * c
    ensures 0 <= z - z % a <= z < z - z % a + a
  {
    c := z / a;
  }

  /** Hence it is the least such multiple. */
  lemma MaskUpIsLeast(x: nat, k: nat, w: nat, d: nat)
    requires k <= w && x + Pow2(k) - 1 < Pow2(w) && x <= Pow2(k) * d
    ensures MaskUp(x, k, w) <= Pow2(k) * d
  {
    var c := MaskUpRounds(x, k, w);
    NearMultiples(Pow2(k), d, c);
  }

  /** Two multiples of a less than a apart are equal. */
  lemma NearMultiples(a: nat, c: nat, d: nat)
    requires 1 <= a
    ensures a * c < a * d ==> a * c + a <= a * d
    ensures a * d < a * c ==> a * d + a <= a * c
  {
    assert a * d - a * c == a * (d - c);
    Multiples(a, d - c);
  }

  /** Rounding up commutes with adding an aligned base. */
  lemma Shifted(p: nat, d: nat, s: nat, k: nat, w: nat)
    requires k <= w && p == Pow2(k) * d && p + s + Pow2(k) - 1 < Pow2(w)
    ensures MaskUp(p + s, k, w) == p + MaskUp(s, k, w)
  {
    var c := MaskUpRounds(s, k, w);
    var e := MaskUpRounds(p + s, k, w);
    SameStep(Pow2(k), d, c, e, p, s, MaskUp(s, k, w), MaskUp(p + s, k, w));
  }

  lemma SameStep(a: nat, d: nat, c: nat, e: nat, p: nat, s: nat, x: nat, y: nat)
    requires 1 <= a && p == a * d && x == a * c && y == a * e && RoundsTo(s, a, x) && RoundsTo(p + s, a, y)
    ensures y == p + x
  {
    assert a * (c + d) == a * c + a * d;
    NearMultiples(a, c + d, e);
  }

  /** At an aligned base, and if the block does not pass the end of the address space, the three
      areas with their event indices follow each other without overlap and fill exactly
      VringSize bytes, and the used ring is aligned. */
  lemma LayoutFits(num: nat, p: nat, k: nat, w: nat)
    requires k <= w && p % Pow2(k) == 0 && p + HeadSize(num) + Pow2(k) - 1 < Pow2(w)
    ensures var l := VringInit(num, p, k, w);
      && l.desc == p
      && l.desc + num * DESC_SIZE == l.avail
      && UsedEventAt(l, num) + UINT16_SIZE <= l.used < UsedEventAt(l, num) + UINT16_SIZE + Pow2(k)
      && AvailEventAt(l, num) + UINT16_SIZE == p + VringSize(num, k, w)
      && l.used % Pow2(k) == 0
  {
    var d := RoundDown(p, Pow2(k));
    var c := MaskUpRounds(p + HeadSize(num), k, w);
    Shifted(p, d, HeadSize(num), k, w);
    MultipleMod(Pow2(k), c);
  }

  /** The layout in bytes: descriptors of 16, an available ring of 4 + 2 num and its event index of 2, up to
      the next multiple of the alignment, and a used ring of 4 + 8 num and its event index of 2. */
  lemma SizeInBytes(num: nat, p: nat, k: nat, w: nat)
    requires k <= w && 18 * num + 6 + Pow2(k) - 1 < Pow2(w)
    ensures 1 <= Pow2(k) && VringSize(num, k, w) == (18 * num + 6 + Pow2(k) - 1) / Pow2(k) * Pow2(k) + 8 * num + 6
    ensures var l := VringInit(num, p, k, w);
      && l.desc == p && l.avail == p + 16 * num
      && UsedEventAt(l, num) == p + 18 * num + 4 && AvailEventAt(l, num) == l.used + 8 * num + 4
  {
    Pow2Mono(0, k);
    RoundedUp(18 * num + 6, k, w);
    SizeIs(num, k, w);
  }

  lemma RoundedUp(x: nat, k: nat, w: nat)
    requires k <= w && 1 <= Pow2(k) && x + Pow2(k) - 1 < Pow2(w)
    ensures MaskUp(x, k, w) == (x + Pow2(k) - 1) / Pow2(k) * Pow2(k)
  {
    AndHighMask(x + Pow2(k) - 1, k, w);
    WholePart(x + Pow2(k) - 1, Pow2(k));
  }

  lemma WholePart(z: nat, a: nat)
    requires 1 <= a
    ensures z - z % a == z / a * a
  {}

  /** At an alignment of 4096 a ring of 256 entries takes 10246 bytes and one of a single entry 4110. */
  lemma KnownSizes(k: nat, w: nat)
    requires k <= w && Pow2(k) == 4096 && 10000 < Pow2(w)
    ensures VringSize(256, k, w) == 10246 && VringSize(1, k, w) == 4110
  {
    RoundedUp(4614, k, w);
    RoundedUp(24, k, w);
    SizeIs(256, k, w);
    SizeIs(1, k, w);
  }

  lemma SizeIs(num: nat, k: nat, w: nat)
    requires k <= w
    ensures VringSize(num, k, w) == MaskUp(18 * num + 6, k, w) + 8 * num + 6
  {}

  lemma UsedAt(num: nat, p: nat, k: nat, w: nat)
    requires k <= w
    ensures VringInit(num, p, k, w).used == MaskUp(p + HeadSize(num), k, w)
  {}

  /** The rounding gap between the available ring and the used ring at an aligned base. */
  function Slack(num: nat, k: nat, w: nat): int
    requires k <= w
  {
    MaskUp(HeadSize(num), k, w) - HeadSize(num)
  }

  /** At any base, aligned or not, the rings stay inside VringSize bytes if and only if the base is
      off its alignment by no more than the rounding gap. */
  lemma BlockFitsExactly(num: nat, p: nat, k: nat, w: nat)
    requires k <= w && p + HeadSize(num) + Pow2(k) - 1 < Pow2(w)
    ensures AvailEventAt(VringInit(num, p, k, w), num) + UINT16_SIZE <= p + VringSize(num, k, w)
      <==> p % Pow2(k) <= Slack(num, k, w)
  {
    var d := RoundDown(p, Pow2(k));
    var c := MaskUpRounds(HeadSize(num), k, w);
    var e := MaskUpRounds(p + HeadSize(num), k, w);
    SlackDecides(Pow2(k), d, c, e, p, HeadSize(num), MaskUp(HeadSize(num), k, w), MaskUp(p + HeadSize(num), k, w));
    UsedAt(num, p, k, w);
  }

  lemma SlackDecides(a: nat, d: nat, c: nat, e: nat, p: nat, s: nat, x: nat, y: nat)
    requires 1 <= a && p - p % a == a * d && x == a * c && y == a * e && RoundsTo(s, a, x) && RoundsTo(p + s, a, y)
    ensures y <= p + x <==> p % a <= x - s
  {
    assert a * (d + c) == a * d + a * c;
    NearMultiples(a, d + c, e);
  }

  /** Both cases, for one descriptor and every alignment from 32 bytes on: base 8 is not aligned and
      the rings fit, 23 bytes before the first aligned address they end 23 bytes beyond VringSize. */
  lemma UnalignedBaseOverruns(k: nat, w: nat)
    requires 5 <= k && k + 1 < w
    ensures AvailEventAt(VringInit(1, 8, k, w), 1) + UINT16_SIZE <= 8 + VringSize(1, k, w)
    ensures 32 <= Pow2(k)
    ensures var p := Pow2(k) - 23; AvailEventAt(VringInit(1, p, k, w), 1) + UINT16_SIZE == p + VringSize(1, k, w) + 23
  {
    Pow2Mono(5, k);
    assert Pow2(2) == 4 && Pow2(3) == 8 && Pow2(4) == 16 && Pow2(5) == 32;
    Pow2Mono(k + 2, w);
    assert Pow2(k + 2) == 2 * Pow2(k + 1) == 4 * Pow2(k);
    var c := MaskUpRounds(HeadSize(1), k, w);
    OneStep(Pow2(k), 1, c, HeadSize(1), MaskUp(HeadSize(1), k, w));
    var p: nat := Pow2(k) - 23;
    var e := MaskUpRounds(p + HeadSize(1), k, w);
    OneStep(Pow2(k), 2, e, p + HeadSize(1), MaskUp(p + HeadSize(1), k, w));
    BlockFitsExactly(1, 8, k, w);
    Small(8, Pow2(k));
  }

  /** x rounds to the n-th multiple if it lies within one step below it. */
  lemma OneStep(a: nat, n: nat, c: nat, x: nat, y: nat)
    requires 1 <= a && y == a * c && RoundsTo(x, a, y) && x <= a * n < x + a
    ensures y == a * n
  {
    NearMultiples(a, n, c);
  }
}
