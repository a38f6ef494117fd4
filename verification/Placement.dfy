/** Memories of the remote processor, address translation, and what it means that the loadable
    segments of a program header table have been placed in memory. */
module Placement {
  import opened Wrappers
  import opened ElfFormat

  // ---- Memories and translation ----

  datatype Mem = Mem(pa: nat, da: nat, size: nat)

  predicate InMem(m: Mem, da: nat, size: nat) {
    m.da <= da && da + size <= m.da + m.size
  }

  function DaToPa(m: Mem, da: nat): (pa: int)
    ensures m.da <= da ==> pa >= m.pa
  {
    m.pa + da - m.da
  }

  function PaToDa(m: Mem, pa: nat): int { m.da + pa - m.pa }

  /** Inside a memory the two translations are inverse and keep the range inside. */
  lemma TranslationRoundTrip(m: Mem, da: nat, size: nat)
    requires InMem(m, da, size)
    ensures m.pa <= DaToPa(m, da) && DaToPa(m, da) + size <= m.pa + m.size
    ensures PaToDa(m, DaToPa(m, da)) == da
  {}

  /** The first memory that holds the range, or the number of memories if none does. */
  function FindMem(mems: seq<Mem>, da: nat, size: nat, i: nat): (r: nat)
    requires i <= |mems|
    ensures i <= r <= |mems|
    ensures r < |mems| ==> InMem(mems[r], da, size)
    ensures forall k :: i <= k < r ==> !InMem(mems[k], da, size)
    decreases |mems| - i
  {
    if i == |mems| || InMem(mems[i], da, size) then i else FindMem(mems, da, size, i + 1)
  }

  function Translate(mems: seq<Mem>, da: nat, size: nat): Maybe<nat> {
    var i := FindMem(mems, da, size, 0);
    if i < |mems| then Some(DaToPa(mems[i], da)) else None
  }

  /** The device addresses from da on, size many, lie in memory i and in no memory before it. */
  ghost predicate FirstFor(mems: seq<Mem>, da: nat, size: nat, i: nat) {
    && i < |mems| && mems[i].da <= da && da + size <= mems[i].da + mems[i].size
    && forall k :: 0 <= k < i ==> da < mems[k].da || mems[k].da + mems[k].size < da + size
  }

  /** A range is translated if and only if some memory holds it, and then by the first that does: the
      address is as far from the memory's physical start as the range from its device start. */
  lemma TranslateExact(mems: seq<Mem>, da: nat, size: nat)
    ensures Translate(mems, da, size).Some? <==> exists i: nat :: FirstFor(mems, da, size, i)
    ensures forall i: nat :: FirstFor(mems, da, size, i) ==>
      Translate(mems, da, size).Some? && Translate(mems, da, size).value - mems[i].pa == da - mems[i].da
  {
    var r := FindMem(mems, da, size, 0);
    if r < |mems| { assert FirstFor(mems, da, size, r); }
    forall i: nat | FirstFor(mems, da, size, i) ensures r == i {}
  }

  /** remoteproc_mmap for a device address: the search of remoteproc_get_mem, then the translation. */
  method Mmap(mems: seq<Mem>, da: nat, size: nat) returns (pa: Maybe<nat>)
    ensures pa == Translate(mems, da, size)
    ensures pa.Some? <==> exists i: nat :: FirstFor(mems, da, size, i)
    ensures forall i: nat :: FirstFor(mems, da, size, i) ==> pa.Some? && pa.value - mems[i].pa == da - mems[i].da
  {
    TranslateExact(mems, da, size);
    var i := 0;
    while i < |mems|
      invariant 0 <= i <= |mems|
      invariant FindMem(mems, da, size, 0) == FindMem(mems, da, size, i)
      invariant forall k :: 0 <= k < i ==> !InMem(mems[k], da, size)
    {
      if InMem(mems[i], da, size) {
        return Some(DaToPa(mems[i], da));
      }
      i := i + 1;
    }
    pa := None;
  }

  // ---- Memory contents ----

  type Phys = map<nat, Byte>

  function WriteBytes(phys: Phys, pa: nat, data: seq<Byte>): Phys
    decreases |data|
  {
    if data == [] then phys else WriteBytes(phys[pa := data[0]], pa + 1, data[1..])
  }

  function WriteZeros(phys: Phys, pa: nat, n: nat): Phys
    decreases n
  {
    if n == 0 then phys else WriteZeros(phys[pa := 0], pa + 1, n - 1)
  }

  /** The bytes written are there and nothing else has changed. */
  lemma {:induction false} BytesWritten(phys: Phys, pa: nat, data: seq<Byte>, a: nat)
    ensures var r := WriteBytes(phys, pa, data);
      && (a in r <==> a in phys || pa <= a < pa + |data|)
      && (a in r ==> r[a] == if pa <= a < pa + |data| then data[a - pa] else phys[a])
    decreases |data|
  {
    if data != [] { BytesWritten(phys[pa := data[0]], pa + 1, data[1..], a); }
  }

  lemma {:induction false} ZerosWritten(phys: Phys, pa: nat, n: nat, a: nat)
    ensures var r := WriteZeros(phys, pa, n);
      && (a in r <==> a in phys || pa <= a < pa + n)
      && (a in r ==> r[a] == if pa <= a < pa + n then 0 else phys[a])
    decreases n
  {
    if n > 0 { ZerosWritten(phys[pa := 0], pa + 1, n - 1, a); }
  }

  /** Copy the file bytes of a segment and clear the rest of its memory. */
  function PlaceSegment(phys: Phys, img: seq<Byte>, pa: nat, p: Phdr): Phys {
    var phys1 := if p.filesz > 0 && p.offset + p.filesz <= |img|
                 then WriteBytes(phys, pa, img[p.offset..p.offset + p.filesz]) else phys;
    if p.memsz > p.filesz then WriteZeros(phys1, pa + p.filesz, p.memsz - p.filesz) else phys1
  }

  function Span(p: Phdr): nat { if p.filesz <= p.memsz then p.memsz else p.filesz }

  ghost predicate HoldsAt(phys: Phys, img: seq<Byte>, pa: nat, p: Phdr, k: nat) {
    && pa + k in phys
    && if k < p.filesz then p.offset + k < |img| && phys[pa + k] == img[p.offset + k] else phys[pa + k] == 0
  }

  /** Memory at pa holds the segment's file bytes followed by zeros up to its memory size. */
  ghost predicate Holds(phys: Phys, img: seq<Byte>, pa: nat, p: Phdr) {
    forall k: nat :: k < p.memsz ==> HoldsAt(phys, img, pa, p, k)
  }

  // ---- A parsed program header table ----

  predicate IsLoad(hs: seq<Phdr>, k: nat) { k < |hs| && hs[k].ptype == PT_LOAD }

  function Target(hs: seq<Phdr>, mems: seq<Mem>, k: nat): Maybe<nat>
    requires k < |hs|
  {
    Translate(mems, hs[k].vaddr, hs[k].memsz)
  }

  /** The indices of the loadable entries among the first n, in table order. */
  function Loadable(hs: seq<Phdr>, n: nat): seq<nat> {
    if n == 0 then [] else if IsLoad(hs, n - 1) then Loadable(hs, n - 1) + [n - 1] else Loadable(hs, n - 1)
  }

  /** Memory after the loadable entries among the first n have been placed in table order. */
  function PlaceUpto(phys: Phys, img: seq<Byte>, mems: seq<Mem>, hs: seq<Phdr>, n: nat): Phys {
    if n == 0 then phys
    else
      var before := PlaceUpto(phys, img, mems, hs, n - 1);
      if IsLoad(hs, n - 1) && Target(hs, mems, n - 1).Some?
      then PlaceSegment(before, img, Target(hs, mems, n - 1).value, hs[n - 1]) else before
  }

  /** Entry j, if it is placed at all, writes nothing into the memory of entry k. */
  ghost predicate Apart(hs: seq<Phdr>, mems: seq<Mem>, k: nat, j: nat) {
    k < |hs| && IsLoad(hs, j) && Target(hs, mems, k).Some? && Target(hs, mems, j).Some? ==>
      var a, b := Target(hs, mems, k).value, Target(hs, mems, j).value;
      a + hs[k].memsz <= b || b + Span(hs[j]) <= a
  }

  /** Entry k has a memory of the remote behind it and its file bytes are in the image. */
  ghost predicate Placeable(img: seq<Byte>, hs: seq<Phdr>, mems: seq<Mem>, k: nat) {
    && k < |hs|
    && Target(hs, mems, k).Some?
    && (hs[k].filesz > 0 ==> hs[k].offset + hs[k].filesz <= |img|)
  }

  ghost predicate AllPlaceable(img: seq<Byte>, hs: seq<Phdr>, mems: seq<Mem>, n: nat) {
    forall k: nat :: k < n && IsLoad(hs, k) ==> Placeable(img, hs, mems, k)
  }

  /** Each byte after placing a segment: a file byte, a zero, or what was there before. */
  lemma SegmentBytes(phys: Phys, img: seq<Byte>, pa: nat, p: Phdr, a: nat)
    requires p.filesz > 0 ==> p.offset + p.filesz <= |img|
    ensures var r := PlaceSegment(phys, img, pa, p);
      && (a in r <==> a in phys || pa <= a < pa + Span(p))
      && (a in r ==> r[a] == if pa <= a < pa + p.filesz then img[p.offset + a - pa]
        else if pa <= a < pa + p.memsz then 0 else phys[a])
  {
    if p.filesz > 0 { BytesWritten(phys, pa, img[p.offset..p.offset + p.filesz], a); }
    var phys1 := if p.filesz > 0 then WriteBytes(phys, pa, img[p.offset..p.offset + p.filesz]) else phys;
    if p.memsz > p.filesz { ZerosWritten(phys1, pa + p.filesz, p.memsz - p.filesz, a); }
  }

  lemma SegmentHolds(phys: Phys, img: seq<Byte>, pa: nat, p: Phdr)
    requires p.filesz <= p.memsz && (p.filesz > 0 ==> p.offset + p.filesz <= |img|)
    ensures Holds(PlaceSegment(phys, img, pa, p), img, pa, p)
  {
    forall k: nat | k < p.memsz ensures HoldsAt(PlaceSegment(phys, img, pa, p), img, pa, p, k) {
      SegmentBytes(phys, img, pa, p, pa + k);
    }
  }

  lemma SegmentFrame(phys: Phys, img: seq<Byte>, pa: nat, p: Phdr, a: nat)
    requires a < pa || pa + Span(p) <= a
    ensures a in PlaceSegment(phys, img, pa, p) <==> a in phys
    ensures a in phys ==> PlaceSegment(phys, img, pa, p)[a] == phys[a]
  {
    if p.filesz > 0 && p.offset + p.filesz <= |img| {
      SegmentBytes(phys, img, pa, p, a);
    } else if p.memsz > p.filesz {
      ZerosWritten(phys, pa + p.filesz, p.memsz - p.filesz, a);
    }
  }

  /** A segment placed at its turn is still there at the end if no later one overlaps it: its file
      bytes, then zeros up to its memory size. */
  lemma {:induction false} PlacedStays(phys: Phys, img: seq<Byte>, mems: seq<Mem>, hs: seq<Phdr>, k: nat, n: nat)
    requires k < n <= |hs| && IsLoad(hs, k) && Placeable(img, hs, mems, k) && hs[k].filesz <= hs[k].memsz
    requires forall j: nat :: k < j < n ==> Apart(hs, mems, k, j)
    ensures Holds(PlaceUpto(phys, img, mems, hs, n), img, Target(hs, mems, k).value, hs[k])
    decreases n
  {
    var p, pa := hs[k], Target(hs, mems, k).value;
    var before := PlaceUpto(phys, img, mems, hs, n - 1);
    if n == k + 1 {
      SegmentHolds(before, img, pa, p);
    } else {
      PlacedStays(phys, img, mems, hs, k, n - 1);
      assert Apart(hs, mems, k, n - 1);
      var t := Target(hs, mems, n - 1);
      if IsLoad(hs, n - 1) && t.Some? {
        HoldsKept(before, img, pa, p, t.value, hs[n - 1]);
      }
    }
  }

  lemma HoldsKept(phys: Phys, img: seq<Byte>, pa: nat, p: Phdr, pa': nat, p': Phdr)
    requires Holds(phys, img, pa, p) && (pa + p.memsz <= pa' || pa' + Span(p') <= pa)
    ensures Holds(PlaceSegment(phys, img, pa', p'), img, pa, p)
  {
    var after := PlaceSegment(phys, img, pa', p');
    forall i: nat | i < p.memsz ensures HoldsAt(after, img, pa, p, i) {
      assert HoldsAt(phys, img, pa, p, i);
      SegmentFrame(phys, img, pa', p', pa + i);
    }
  }

  lemma {:induction false} SkipsNonLoadable(phys: Phys, img: seq<Byte>, mems: seq<Mem>, hs: seq<Phdr>, n: nat, m: nat)
    requires n <= m && forall k: nat :: n <= k < m ==> !IsLoad(hs, k)
    ensures PlaceUpto(phys, img, mems, hs, m) == PlaceUpto(phys, img, mems, hs, n)
    ensures Loadable(hs, m) == Loadable(hs, n)
    ensures AllPlaceable(img, hs, mems, m) <==> AllPlaceable(img, hs, mems, n)
    decreases m
  {
    if n < m {
      assert !IsLoad(hs, m - 1);
      SkipsNonLoadable(phys, img, mems, hs, n, m - 1);
    }
  }

  /** The loadable indices are exactly the loadable entries, each once and in ascending order. */
  lemma {:induction false} LoadableExact(hs: seq<Phdr>, n: nat)
    ensures forall i, j :: 0 <= i < j < |Loadable(hs, n)| ==> Loadable(hs, n)[i] < Loadable(hs, n)[j]
    ensures forall k: nat :: k in Loadable(hs, n) <==> k < n && IsLoad(hs, k)
  {
    if n > 0 {
      LoadableExact(hs, n - 1);
      var l := Loadable(hs, n - 1);
      forall i | 0 <= i < |l| ensures l[i] < n - 1 { assert l[i] in l; }
    }
  }
}
