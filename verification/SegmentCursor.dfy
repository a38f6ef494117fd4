/** The 8-bit cursor into the program header table, and when the data calls come to an end. */
module SegmentCursor {
  import opened Wrappers
  import opened ElfFormat
  import opened ElfLoader
  import opened Placement
  import opened ImageTable
  import opened HeaderLoop

  // ---- The cursor alone ----

  /** The tables that the 8-bit cursor can walk: beyond entry 254 only the last entry may be issued,
      and a last entry that is not loadable must carry the reserved address. */
  ghost predicate CursorFits(hs: seq<Phdr>) {
    |hs| > 255 ==>
      && (forall k: nat :: 255 <= k < |hs| - 1 ==> !IsLoad(hs, k))
      && (IsLoad(hs, |hs| - 1) || hs[|hs| - 1].vaddr == ANY_ADDR)
  }

  /** The cursor after one more data call, or None if that call ends the segment part of the loop. */
  function CursorStep(hs: seq<Phdr>, n: nat): Maybe<nat> {
    var w := NextIn(hs, n, ANY_ADDR, 0);
    if (w.found && w.next == |hs|) || (w.da == ANY_ADDR && (!w.found || w.filesz == 0)) then None
      else Some(w.next % 256)
  }

  /** The cursor after m data calls from the start of the table. */
  function CursorAfter(hs: seq<Phdr>, m: nat): Maybe<nat> {
    if m == 0 then Some(0)
    else if CursorAfter(hs, m - 1).None? then None else CursorStep(hs, CursorAfter(hs, m - 1).value)
  }

  lemma {:induction false} CursorEnds(hs: seq<Phdr>, m: nat, n: nat) returns (e: nat)
    requires CursorFits(hs) && CursorAfter(hs, m) == Some(n) && n <= |hs| && n <= 255
    ensures CursorAfter(hs, e).None?
    decreases |hs| - n
  {
    NextInMeans(hs, n, ANY_ADDR, 0);
    if CursorStep(hs, n).None? {
      e := m + 1;
    } else {
      e := CursorEnds(hs, m + 1, CursorStep(hs, n).value);
    }
  }

  lemma {:induction false} CursorCircles(hs: seq<Phdr>, m: nat)
    requires !CursorFits(hs) && Regular(hs)
    ensures CursorAfter(hs, m).Some? && CursorAfter(hs, m).value <= 255
  {
    if m > 0 {
      CursorCircles(hs, m - 1);
      NextInMeans(hs, CursorAfter(hs, m - 1).value, ANY_ADDR, 0);
    }
  }

  /** The data calls come to an end if and only if the cursor fits the table, as long as everything they
      issue can be stored; otherwise the cursor wraps and segments are issued again and again. */
  lemma CursorFitsExactly(hs: seq<Phdr>)
    requires Regular(hs)
    ensures (exists m: nat :: CursorAfter(hs, m).None?) <==> CursorFits(hs)
  {
    if CursorFits(hs) {
      var e := CursorEnds(hs, 0, 0);
    } else {
      forall m: nat ensures CursorAfter(hs, m).Some? { CursorCircles(hs, m); }
    }
  }

  // ---- The cursor and the stores ----

  /** The range that a walk hands to the data loop. */
  function Issue(w: SegWalk): Phdr {
    Phdr(PT_LOAD, w.noff, w.da, if w.found then w.filesz else 0, if w.found then w.memsz else 0)
  }

  /** The range has a memory behind it and the store delivers its bytes. */
  predicate Storable(answer: Store, mems: seq<Mem>, p: Phdr) {
    Translate(mems, p.vaddr, p.memsz).Some? && (p.filesz > 0 ==> answer(p.offset, p.filesz) == p.filesz)
  }

  /** The round that issues what the walk found ends the loop: a segment cannot be stored, or the bytes
      of a segment at the "any" address are not delivered. */
  predicate RoundFails(answer: Store, mems: seq<Mem>, w: SegWalk) {
    if w.da == ANY_ADDR then w.found && w.filesz > 0 && answer(w.noff, w.filesz) < w.filesz
    else !Storable(answer, mems, Issue(w))
  }

  /** The cursor after one more round of the data loop, or None if the round ends the segment part of the
      loop. */
  function RoundStep(answer: Store, hs: seq<Phdr>, mems: seq<Mem>, n: nat): Maybe<nat> {
    if RoundFails(answer, mems, NextIn(hs, n, ANY_ADDR, 0)) then None else CursorStep(hs, n)
  }

  function RoundAfter(answer: Store, hs: seq<Phdr>, mems: seq<Mem>, m: nat): Maybe<nat> {
    if m == 0 then Some(0)
    else if RoundAfter(answer, hs, mems, m - 1).None? then None
    else RoundStep(answer, hs, mems, RoundAfter(answer, hs, mems, m - 1).value)
  }

  /** The segment part of the data loop comes to an end. */
  ghost predicate Ends(answer: Store, hs: seq<Phdr>, mems: seq<Mem>) {
    exists m: nat :: RoundAfter(answer, hs, mems, m).None?
  }

  lemma {:induction false} EndedStays(answer: Store, hs: seq<Phdr>, mems: seq<Mem>, m: nat, k: nat)
    requires RoundAfter(answer, hs, mems, m).None? && m <= k
    ensures RoundAfter(answer, hs, mems, k).None?
    decreases k
  {
    if m < k { EndedStays(answer, hs, mems, m, k - 1); }
  }

  // ---- When the rounds end ----

  function FoundAt(hs: seq<Phdr>, k: nat): SegWalk
    requires k < |hs|
  {
    SegWalk(true, k + 1, hs[k].vaddr, hs[k].offset, hs[k].filesz, hs[k].memsz)
  }

  /** The round that issues entry k is the last: k is the end of the table, there is nothing to fetch for
      it, or what there is cannot be stored or fetched. */
  predicate Stops(answer: Store, hs: seq<Phdr>, mems: seq<Mem>, k: nat) {
    && k < |hs|
    && (k + 1 == |hs| || (hs[k].vaddr == ANY_ADDR && hs[k].filesz == 0) || RoundFails(answer, mems, FoundAt(hs, k)))
  }

  /** The round that passes the end of the table is the last: the last entry's address is the "any"
      address or is not mapped. */
  predicate PassStops(hs: seq<Phdr>, mems: seq<Mem>) {
    |hs| > 0 && (hs[|hs| - 1].vaddr == ANY_ADDR || Translate(mems, hs[|hs| - 1].vaddr, 0).None?)
  }

  /** In a table of more than 255 entries the cursor issues exactly these: the loadable ones up to entry
      254, and the first one after it. */
  ghost predicate Visited(hs: seq<Phdr>, k: nat) {
    IsLoad(hs, k) && forall j: nat :: 255 <= j < k ==> !IsLoad(hs, j)
  }

  /** Only without a loadable entry after entry 254 does it also pass the end of the table. */
  ghost predicate PassesEnd(hs: seq<Phdr>) {
    forall j: nat :: 255 <= j < |hs| ==> !IsLoad(hs, j)
  }

  ghost predicate Halts(answer: Store, hs: seq<Phdr>, mems: seq<Mem>, k: nat) {
    Visited(hs, k) && Stops(answer, hs, mems, k)
  }

  lemma RoundMeans(answer: Store, hs: seq<Phdr>, mems: seq<Mem>, n: nat)
    requires n <= |hs|
    ensures var w := NextIn(hs, n, ANY_ADDR, 0);
      && (RoundStep(answer, hs, mems, n).None? <==>
           if w.found then 0 < w.next && Stops(answer, hs, mems, w.next - 1) else n == |hs| || PassStops(hs, mems))
      && (RoundStep(answer, hs, mems, n).Some? ==> RoundStep(answer, hs, mems, n).value == w.next % 256)
  {
    NextInMeans(hs, n, ANY_ADDR, 0);
  }

  /** One more round, seen from the table: it is the last, or the cursor moves to the entry after the one
      that the walk stopped at. */
  lemma OneMore(answer: Store, hs: seq<Phdr>, mems: seq<Mem>, m: nat, n: nat) returns (next: nat, found: bool)
    requires RoundAfter(answer, hs, mems, m) == Some(n) && n <= |hs|
    ensures n <= next <= |hs| && (found ==> n < next && IsLoad(hs, next - 1)) && (!found ==> next == |hs|)
    ensures forall k: nat :: n <= k < (if found then next - 1 else |hs|) ==> !IsLoad(hs, k)
    ensures RoundAfter(answer, hs, mems, m + 1).None? <==>
      if found then Stops(answer, hs, mems, next - 1) else n == |hs| || PassStops(hs, mems)
    ensures RoundAfter(answer, hs, mems, m + 1).Some? ==> RoundAfter(answer, hs, mems, m + 1) == Some(next % 256)
  {
    var w := NextIn(hs, n, ANY_ADDR, 0);
    NextInMeans(hs, n, ANY_ADDR, 0);
    RoundMeans(answer, hs, mems, n);
    next, found := w.next, w.found;
  }

  lemma {:induction false} SmallTableEnds(answer: Store, hs: seq<Phdr>, mems: seq<Mem>, m: nat, n: nat)
    returns (e: nat)
    requires |hs| <= 255 && RoundAfter(answer, hs, mems, m) == Some(n) && n <= |hs|
    ensures RoundAfter(answer, hs, mems, e).None?
    decreases |hs| - n
  {
    var next, found := OneMore(answer, hs, mems, m, n);
    e := m + 1;
    if RoundAfter(answer, hs, mems, e).Some? {
      e := SmallTableEnds(answer, hs, mems, m + 1, next);
    }
  }

  /** The rounds reach an entry that they visit, or end before it. */
  lemma {:induction false} RoundsReach(answer: Store, hs: seq<Phdr>, mems: seq<Mem>, m: nat, n: nat, k: nat)
    returns (e: nat)
    requires RoundAfter(answer, hs, mems, m) == Some(n) && n <= 255 && n <= k && Halts(answer, hs, mems, k)
    ensures RoundAfter(answer, hs, mems, e).None?
    decreases k - n
  {
    var next, found := OneMore(answer, hs, mems, m, n);
    e := m + 1;
    if RoundAfter(answer, hs, mems, e).Some? {
      assert found && next - 1 < k;
      e := RoundsReach(answer, hs, mems, m + 1, next, k);
    }
  }

  lemma {:induction false} RoundsPass(answer: Store, hs: seq<Phdr>, mems: seq<Mem>, m: nat, n: nat) returns (e: nat)
    requires |hs| > 255 && RoundAfter(answer, hs, mems, m) == Some(n) && n <= 255
    requires PassesEnd(hs) && PassStops(hs, mems)
    ensures RoundAfter(answer, hs, mems, e).None?
    decreases 255 - n
  {
    var next, found := OneMore(answer, hs, mems, m, n);
    e := m + 1;
    if RoundAfter(answer, hs, mems, e).Some? {
      assert found && IsLoad(hs, next - 1) && next <= 255 && next % 256 == next;
      e := RoundsPass(answer, hs, mems, m + 1, next);
    }
  }

  /** Without such an entry the cursor wraps and the rounds go on for ever. */
  lemma {:induction false} RoundsCircle(answer: Store, hs: seq<Phdr>, mems: seq<Mem>, m: nat)
    requires |hs| > 255 && (forall k: nat :: !Halts(answer, hs, mems, k)) && !(PassesEnd(hs) && PassStops(hs, mems))
    ensures RoundAfter(answer, hs, mems, m).Some? && RoundAfter(answer, hs, mems, m).value <= 255
  {
    if m > 0 {
      RoundsCircle(answer, hs, mems, m - 1);
      var next, found := OneMore(answer, hs, mems, m - 1, RoundAfter(answer, hs, mems, m - 1).value);
      if found { assert !Halts(answer, hs, mems, next - 1); }
    }
  }

  /** For every table and every store, the segment part of the data loop ends if and only if the table
      has at most 255 entries, or an entry that the cursor visits stops it, or passing the end does. */
  lemma LoopEndsExactly(answer: Store, hs: seq<Phdr>, mems: seq<Mem>)
    ensures Ends(answer, hs, mems) <==>
      || |hs| <= 255
      || (exists k: nat :: Halts(answer, hs, mems, k))
      || (PassesEnd(hs) && PassStops(hs, mems))
  {
    if |hs| <= 255 {
      var e := SmallTableEnds(answer, hs, mems, 0, 0);
    } else if k: nat :| Halts(answer, hs, mems, k) {
      var e := RoundsReach(answer, hs, mems, 0, 0, k);
    } else if PassesEnd(hs) && PassStops(hs, mems) {
      var e := RoundsPass(answer, hs, mems, 0, 0);
    } else {
      forall m: nat ensures RoundAfter(answer, hs, mems, m).Some? { RoundsCircle(answer, hs, mems, m); }
    }
  }

  // ---- Following the cursor from entry to entry ----

  /** What ends the loop is still ahead of entry n. */
  ghost predicate EndsAfter(answer: Store, hs: seq<Phdr>, mems: seq<Mem>, n: nat) {
    || |hs| <= 255
    || (exists k: nat :: n <= k && Halts(answer, hs, mems, k))
    || (PassesEnd(hs) && PassStops(hs, mems))
  }

  lemma EndsFromStart(answer: Store, hs: seq<Phdr>, mems: seq<Mem>)
    requires Ends(answer, hs, mems)
    ensures EndsAfter(answer, hs, mems, 0)
  {
    LoopEndsExactly(answer, hs, mems);
    if k: nat :| Halts(answer, hs, mems, k) { assert 0 <= k; }
  }

  /** From entry n the walk goes forward, and unless this round is the last its 8-bit cursor is exact. */
  ghost predicate CursorExact(answer: Store, hs: seq<Phdr>, mems: seq<Mem>, n: nat) {
    var w := NextIn(hs, n, ANY_ADDR, 0);
    && n <= w.next <= |hs|
    && (n < |hs| ==> n < w.next)
    && (n == |hs| ==> !w.found && w.da == ANY_ADDR)
    && (RoundStep(answer, hs, mems, n).Some? ==> w.next <= 255)
  }

  lemma CursorStays(answer: Store, hs: seq<Phdr>, mems: seq<Mem>, n: nat)
    requires EndsAfter(answer, hs, mems, n) && n <= |hs| && n <= 255
    ensures CursorExact(answer, hs, mems, n)
  {
    NextInMeans(hs, n, ANY_ADDR, 0);
    RoundMeans(answer, hs, mems, n);
  }

  /** What ends the loop is still ahead after a round that was not the last. */
  lemma EndStaysAhead(answer: Store, hs: seq<Phdr>, mems: seq<Mem>, n: nat)
    requires EndsAfter(answer, hs, mems, n) && n <= |hs| && RoundStep(answer, hs, mems, n).Some?
    ensures EndsAfter(answer, hs, mems, NextIn(hs, n, ANY_ADDR, 0).next)
  {
    var w := NextIn(hs, n, ANY_ADDR, 0);
    NextInMeans(hs, n, ANY_ADDR, 0);
    RoundMeans(answer, hs, mems, n);
    if k: nat :| n <= k && Halts(answer, hs, mems, k) {
      assert w.found && w.next - 1 <= k;
      assert w.next - 1 != k;
      assert w.next <= k;
    }
  }
}
