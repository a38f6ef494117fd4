/** The program header table of an image: what the loader parses of it, what the ABI says it is, and
    which images have headers that can be read. */
module ImageTable {
  import opened Wrappers
  import opened ElfFormat
  import opened ElfState
  import opened ElfParse
  import opened ElfLoader
  import opened Placement

  // ---- The program header table of the whole image ----

  function Ehdr(img: seq<Byte>): seq<Byte> {
    if EhdrSize(img) <= |img| then img[..EhdrSize(img)] else img
  }

  function PhTable(img: seq<Byte>): seq<Byte> {
    var off, size := PhOff(Ehdr(img)), PhTableSize(Ehdr(img));
    if off + size <= |img| then img[off..off + size] else []
  }

  /** The parsed table of the image. */
  function Headers(img: seq<Byte>): (hs: seq<Phdr>)
    ensures |hs| == PhNum(Ehdr(img))
    ensures forall k: nat :: k < |hs| ==> EntryIs(img, hs, k)
  {
    seq(PhNum(Ehdr(img)), (k: nat) => ParsePhdr(Ehdr(img), PhTable(img), k))
  }

  predicate EntryIs(img: seq<Byte>, hs: seq<Phdr>, k: nat) {
    k < |hs| && hs[k] == ParsePhdr(Ehdr(img), PhTable(img), k)
  }

  ghost predicate TableOf(img: seq<Byte>, hs: seq<Phdr>) {
    |hs| == PhNum(Ehdr(img)) && forall k: nat :: k < |hs| ==> EntryIs(img, hs, k)
  }

  /** Once the program headers are copied, what the loader parses are the entries of the image's table. */
  lemma CopiedTable(img: seq<Byte>, i: Info, hs: seq<Phdr>, n: nat)
    requires InfoOk(img, i) && HdrRank(i.state.hdr) >= 2 && TableOf(img, hs)
    ensures i.phdrs.Some? && PhNum(i.ehdr) == |hs|
    ensures n < |hs| ==> ParsePhdr(i.ehdr, i.phdrs.value, n) == hs[n]
  {
    OpenInfo(img, i);
    assert i.ehdr == Ehdr(img);
    assert i.phdrs.value == PhTable(img);
    assert n < |hs| ==> EntryIs(img, hs, n);
  }

  /** elf_next_load_segment over a parsed table. */
  function NextIn(hs: seq<Phdr>, n: nat, da: nat, noff: nat): SegWalk
    decreases |hs| - n
  {
    if n >= |hs| then SegWalk(false, n, da, noff, 0, 0)
    else if hs[n].ptype == PT_LOAD then SegWalk(true, n + 1, hs[n].vaddr, hs[n].offset, hs[n].filesz, hs[n].memsz)
    else NextIn(hs, n + 1, hs[n].vaddr, hs[n].offset)
  }

  lemma {:induction false} WalkIsNextIn(img: seq<Byte>, i: Info, hs: seq<Phdr>, n: nat, da: nat, noff: nat)
    requires InfoOk(img, i) && HdrRank(i.state.hdr) >= 2 && TableOf(img, hs)
    ensures NextSegment(i, n, da, noff) == NextIn(hs, n, da, noff)
    decreases |hs| - n
  {
    CopiedTable(img, i, hs, n);
    if n < |hs| && hs[n].ptype != PT_LOAD {
      WalkIsNextIn(img, i, hs, n + 1, hs[n].vaddr, hs[n].offset);
    }
  }

  /** The walk finds the next loadable entry, or passes the rest of the table and leaves the last
      entry's address in its out-parameter. */
  lemma {:induction false} NextInMeans(hs: seq<Phdr>, n: nat, da: nat, noff: nat)
    requires n <= |hs|
    ensures var w := NextIn(hs, n, da, noff);
      && n <= w.next <= |hs|
      && (forall k: nat :: n <= k < (if w.found then w.next - 1 else |hs|) ==> !IsLoad(hs, k))
      && (w.found ==>
            && n < w.next && IsLoad(hs, w.next - 1)
            && w == SegWalk(true, w.next, hs[w.next - 1].vaddr, hs[w.next - 1].offset, hs[w.next - 1].filesz,
                            hs[w.next - 1].memsz))
      && (!w.found ==> w.next == |hs| && w.da == if n < |hs| then hs[|hs| - 1].vaddr else da)
    decreases |hs| - n
  {
    if n < |hs| && hs[n].ptype != PT_LOAD {
      NextInMeans(hs, n + 1, hs[n].vaddr, hs[n].offset);
    }
  }

  // ---- What the code reads of the tables, and what the ABI says ----

  predicate PhdrsWhole(h: seq<Byte>) { EntriesWhole(PhNum(h), PhEntSize(h), PhSize(h)) }

  predicate ShdrsWhole(h: seq<Byte>) { EntriesWhole(ShNum(h), ShEntSize(h), ShSize(h)) }

  ghost predicate PhdrReadInside(h: seq<Byte>, table: seq<Byte>, i: nat) { i * PhSize(h) + PhSize(h) <= |table| }

  ghost predicate ShdrReadInside(h: seq<Byte>, table: seq<Byte>, i: nat) { i * ShSize(h) + ShSize(h) <= |table| }

  /** All entries are read from inside a copied table if and only if the table is empty or its stated
      entry size is at least that of the structure. */
  lemma ReadsInside(h: seq<Byte>, phdrs: seq<Byte>, shdrs: seq<Byte>)
    requires |phdrs| == PhTableSize(h) && |shdrs| == ShTableSize(h)
    ensures (forall i: nat :: i < PhNum(h) ==> PhdrReadInside(h, phdrs, i)) <==> PhdrsWhole(h)
    ensures (forall i: nat :: i < ShNum(h) ==> ShdrReadInside(h, shdrs, i)) <==> ShdrsWhole(h)
  {
    PhdrReads(PhNum(h), PhEntSize(h), h, phdrs);
    ShdrReads(ShNum(h), ShEntSize(h), h, shdrs);
  }

  lemma PhdrReads(num: nat, entsize: nat, h: seq<Byte>, table: seq<Byte>)
    requires |table| == num * entsize
    ensures (forall i: nat :: i < num ==> PhdrReadInside(h, table, i)) <==> EntriesWhole(num, entsize, PhSize(h))
  {
    var size := PhSize(h);
    EntriesInside(num, entsize, size);
    forall i: nat ensures PhdrReadInside(h, table, i) <==> EntryInside(num, entsize, size, i) {}
  }

  lemma ShdrReads(num: nat, entsize: nat, h: seq<Byte>, table: seq<Byte>)
    requires |table| == num * entsize
    ensures (forall i: nat :: i < num ==> ShdrReadInside(h, table, i)) <==> EntriesWhole(num, entsize, ShSize(h))
  {
    var size := ShSize(h);
    EntriesInside(num, entsize, size);
    forall i: nat ensures ShdrReadInside(h, table, i) <==> EntryInside(num, entsize, size, i) {}
  }

  /** In a whole table inside the image each parsed entry is what the image holds at that place. */
  lemma EntriesFromImage(img: seq<Byte>, h: seq<Byte>, off: nat, i: nat)
    requires h == Ehdr(img) && off == PhOff(h) && PhdrsWhole(h) && Fits(img, off, PhTableSize(h)) && i < PhNum(h)
    ensures off + i * PhSize(h) + PhSize(h) <= |img|
    ensures Headers(img)[i] == PhdrAt(h, img, off + i * PhSize(h))
  {
    assert EntryIs(img, Headers(img), i);
    EntryEnds(PhTable(img), PhNum(h), PhEntSize(h), PhSize(h), i, i * PhSize(h));
    EntryOfSlice(img, off, PhTable(img), h, i * PhSize(h));
  }

  /** The section header table of the image. */
  function ShTable(img: seq<Byte>): seq<Byte> {
    var off, size := ShOff(Ehdr(img)), ShTableSize(Ehdr(img));
    if off + size <= |img| then img[off..off + size] else []
  }

  /** Likewise for each section header; p is the place of entry i. */
  lemma SectionsFromImage(img: seq<Byte>, h: seq<Byte>, off: nat, i: nat, p: nat)
    requires h == Ehdr(img) && off == ShOff(h) && ShdrsWhole(h) && Fits(img, off, ShTableSize(h)) && i < ShNum(h)
    requires p == i * ShSize(h)
    ensures off + p + ShSize(h) <= |img|
    ensures ParseShdr(h, ShTable(img), i) == ShdrAt(h, img, off + p)
  {
    EntryEnds(ShTable(img), ShNum(h), ShEntSize(h), ShSize(h), i, p);
    SectionOfSlice(img, off, ShTable(img), h, p);
  }

  lemma SectionOfSlice(img: seq<Byte>, off: nat, table: seq<Byte>, h: seq<Byte>, p: nat)
    requires off + |table| <= |img| && table == img[off..off + |table|] && p + ShSize(h) <= |table|
    ensures ShdrAt(h, table, p) == ShdrAt(h, img, off + p)
  {
    SliceSame(img, off, table, p, off + p, ShSize(h));
    ShdrInside(h, table, p, img, off + p);
  }

  lemma EntryEnds(table: seq<Byte>, num: nat, entsize: nat, size: nat, i: nat, p: nat)
    requires |table| == num * entsize && size <= entsize && i < num && p == i * size
    ensures p + size <= |table|
  {
    WholeEntry(num, entsize, size, i);
  }

  lemma EntryOfSlice(img: seq<Byte>, off: nat, table: seq<Byte>, h: seq<Byte>, p: nat)
    requires off + |table| <= |img| && table == img[off..off + |table|] && p + PhSize(h) <= |table|
    ensures PhdrAt(h, table, p) == PhdrAt(h, img, off + p)
  {
    SliceSame(img, off, table, p, off + p, PhSize(h));
    PhdrInside(h, table, p, img, off + p);
  }

  lemma SliceSame(img: seq<Byte>, off: nat, table: seq<Byte>, p: nat, r: nat, n: nat)
    requires off + |table| <= |img| && table == img[off..off + |table|] && p + n <= |table| && r == off + p
    ensures SameBytes(table, p, img, r, n)
  {
    forall i: nat | i < n ensures SameByte(table, p, img, r, i) {}
  }

  ghost predicate IsAbiTable(h: seq<Byte>, table: seq<Byte>) {
    forall i: nat :: i < PhNum(h) ==> IsAbiEntry(h, table, i)
  }

  ghost predicate IsAbiEntry(h: seq<Byte>, table: seq<Byte>, i: nat) {
    ParsePhdr(h, table, i) == AbiPhdr(h, table, i)
  }

  /** The code parses every table with this ELF header as the ABI says if and only if the table has at
      most one entry or the stated entry size is that of the structure. */
  lemma AbiExactly(h: seq<Byte>)
    requires PhdrsWhole(h)
    ensures (forall table: seq<Byte> :: |table| == PhTableSize(h) ==> IsAbiTable(h, table))
      <==> PhNum(h) <= 1 || PhEntSize(h) == PhSize(h)
  {
    if PhNum(h) <= 1 || PhEntSize(h) == PhSize(h) {
      forall table: seq<Byte>, i: nat | i < PhNum(h) ensures IsAbiEntry(h, table, i) {
        assert i == 0 || PhEntSize(h) == PhSize(h);
      }
    } else {
      var table := OddTable(PhTableSize(h), PhSize(h));
      Scale(2, PhNum(h), PhEntSize(h));
      OddTableDiffers(h, table);
      assert !IsAbiEntry(h, table, 1);
    }
  }

  /** A table with a single byte that is not zero. */
  function OddTable(n: nat, p: nat): (t: seq<Byte>)
    ensures |t| == n && forall j :: 0 <= j < n ==> t[j] == if j == p then 1 else 0
  {
    seq(n, j => if j == p then 1 else 0)
  }

  lemma OddTableDiffers(h: seq<Byte>, table: seq<Byte>)
    requires PhSize(h) < PhEntSize(h) && 2 * PhEntSize(h) <= |table| && table == OddTable(|table|, PhSize(h))
    ensures PhdrAt(h, table, 1 * PhSize(h)).ptype != PhdrAt(h, table, 1 * PhEntSize(h)).ptype
  {
    ZeroField(table, PhSize(h) + 1, 3);
    ZeroField(table, PhEntSize(h), 4);
  }

  lemma {:induction false} ZeroField(table: seq<Byte>, off: nat, k: nat)
    requires forall j :: off <= j < off + k && j < |table| ==> table[j] == 0
    ensures Field(table, off, k) == 0
    decreases k
  {
    if k > 0 { ZeroField(table, off + 1, k - 1); }
  }

  // ---- What makes an image load ----

  /** No loadable segment sits at the reserved "any" address. */
  ghost predicate Regular(hs: seq<Phdr>) {
    forall k: nat :: k < |hs| && IsLoad(hs, k) ==> hs[k].vaddr != ANY_ADDR
  }

  /** The address of a last entry that is not loadable must be mapped all the same. */
  ghost predicate TrailingOk(hs: seq<Phdr>, mems: seq<Mem>) {
    |hs| > 0 && !IsLoad(hs, |hs| - 1) ==>
      hs[|hs| - 1].vaddr == ANY_ADDR || Translate(mems, hs[|hs| - 1].vaddr, 0).Some?
  }

  ghost predicate Fits(img: seq<Byte>, off: nat, size: nat) { off + size <= |img| }

  /** All header tables lie inside the image, their entries are not smaller than the structures that
      the code reads from them, and the string table index is a section. */
  ghost predicate HeadersFit(img: seq<Byte>) {
    var h := Ehdr(img);
    && EhdrSize(img) <= |img|
    && Fits(img, PhOff(h), PhTableSize(h)) && PhdrsWhole(h)
    && (ShNum(h) > 0 ==>
          && Fits(img, ShOff(h), ShTableSize(h)) && ShdrsWhole(h) && ShStrNdx(h) < ShNum(h)
          && var s := ParseShdr(h, ShTable(img), ShStrNdx(h));
          Fits(img, s.offset, s.size))
  }

  /** A complete record has copies of the program headers and, if there are sections, of the section
      headers and of the bytes of the section that holds their names. */
  lemma AllCopied(img: seq<Byte>, i: Info)
    requires InfoOk(img, i) && i.state.hdr.HdrsComplete? && HeadersFit(img)
    ensures i.ehdr == img[..EhdrSize(img)] && i.phdrs == Some(PhTable(img))
    ensures ShNum(Ehdr(img)) > 0 ==>
      && i.shdrs == Some(ShTable(img))
      && var s := ParseShdr(Ehdr(img), ShTable(img), ShStrNdx(Ehdr(img)));
      s.offset + s.size <= |img| && i.shstrtab == Some(img[s.offset..s.offset + s.size])
  {
    OpenInfo(img, i);
  }

  /** With fitting headers every table the parser asks for is inside the image. */
  lemma WantedFits(img: seq<Byte>, i: Info)
    requires InfoOk(img, i) && HeadersFit(img) && Wanted(i).Some?
    ensures Fits(img, Wanted(i).value.0, Wanted(i).value.1)
  {
    OpenInfo(img, i);
    assert i.ehdr == Ehdr(img);
    if i.state.hdr.WaitShstrtab? { assert i.shdrs.value == ShTable(img); }
  }

  lemma NoShstrtabError(img: seq<Byte>, win: seq<Byte>, off: nat, i: Info, last: LoadState)
    requires i.ehdr == Ehdr(img) && HeadersFit(img) &&
      (i.state.hdr.WaitShstrtab? ==> i.shdrs.Some? && ShNum(i.ehdr) > 0)
    ensures ParseShstrtab(win, off, i, last).ret.State?
  {}

  lemma NoShdrsError(img: seq<Byte>, win: seq<Byte>, off: nat, i: Info, last: LoadState)
    requires i.ehdr == Ehdr(img) && HeadersFit(img) &&
      (i.state.hdr.WaitShstrtab? ==> i.shdrs.Some? && ShNum(i.ehdr) > 0)
    ensures ParseShdrs(win, off, i, last).ret.State?
  {
    var h := i.ehdr;
    if !i.state.hdr.WaitShdrs? {
      NoShstrtabError(img, win, off, i, last);
    } else if ShNum(h) > 0 && Covers(off, |win|, ShOff(h), ShTableSize(h)) {
      NoShstrtabError(img, win, off, i.(shdrs := Some(Slice(win, off, ShOff(h), ShTableSize(h))),
                                        state := i.state.(hdr := WaitShstrtab)), last);
    }
  }

  lemma NoPhdrsError(img: seq<Byte>, win: seq<Byte>, off: nat, i: Info)
    requires InfoOk(img, i) && HeadersFit(img)
    ensures ParsePhdrs(win, off, i, i.state).ret.State?
  {
    OpenInfo(img, i);
    var h := i.ehdr;
    if i.state != LoadState(NotReady, WaitPhdrs, 0) {
      NoShdrsError(img, win, off, i, i.state);
    } else if Covers(off, |win|, PhOff(h), PhTableSize(h)) {
      NoShdrsError(img, win, off, i.(phdrs := Some(Slice(win, off, PhOff(h), PhTableSize(h))),
                                     state := LoadState(ReadyToLoad, WaitShdrs, 0)), i.state);
    }
  }

  /** With fitting headers no call fails. */
  lemma NoHeaderError(img: seq<Byte>, win: seq<Byte>, off: nat, info: Maybe<Info>, last: LoadState)
    requires TrueWindow(img, off, win) && Resumable(img, off, win, info, last) && HeadersFit(img)
    ensures LoadHeader(win, off, info, last).ret.State?
  {
    if last == INIT {
      assert win == img[..|win|];
      SameClass(img, |win|);
      if EhdrSize(img) <= |win| {
        assert win[..EhdrSize(img)] == img[..EhdrSize(img)];
        NoPhdrsError(img, win, off, FreshInfo(img[..EhdrSize(img)]));
      }
    } else {
      NoPhdrsError(img, win, off, info.value);
    }
  }

  lemma HeaderErrorIsInval(win: seq<Byte>, off: nat, info: Maybe<Info>, last: LoadState)
    ensures LoadHeader(win, off, info, last).ret.Error? ==> LoadHeader(win, off, info, last).ret.code == -RPROC_EINVAL
  {}
}
