/** Images built from their fields, and what loading them does. First any image of one segment, of either
    class; then images for which loading does what one would not expect: a program header table on which the data loop
    never ends, a trailing header that makes an image fail which is complete without it, and a first
    window that ends before the class. */
module Samples {
  import opened ElfFormat
  import opened ElfEncode
  import opened ElfLoader
  import opened Placement
  import opened ImageTable
  import opened HeaderLoop
  import opened SegmentCursor
  import opened Remoteproc

  // ---- Images that consist of an ELF header and a program header table ----

  /** A 32-bit ELF header with num program headers right behind it and no sections. */
  function SampleHeader(num: nat): (h: seq<Byte>)
    requires num < 65536
    ensures |h| == 52
  {
    seq(52, (i: nat) => if i < 4 then ELF_MAGIC[i] else if i == 4 then 1 else if i == 28 then 52 else if i == 42 then 32
                        else if i == 44 then num % 256 else if i == 45 then num / 256 else 0)
  }

  function Sample(num: nat, table: seq<Byte>): seq<Byte>
    requires num < 65536
  {
    SampleHeader(num) + table
  }

  function ByteAt(s: seq<Byte>, i: nat): nat
    requires i < |s|
  {
    s[i]
  }

  lemma FieldHalf(s: seq<Byte>, off: nat)
    requires off + 2 <= |s|
    ensures Field(s, off, HALF) == ByteAt(s, off) + 256 * ByteAt(s, off + 1)
  {
    assert Field(s, off + 1, 1) == ByteAt(s, off + 1) + 256 * Field(s, off + 2, 0);
  }

  lemma FieldWord(s: seq<Byte>, off: nat)
    requires off + 4 <= |s|
    ensures Field(s, off, WORD) ==
      ByteAt(s, off) + 256 * ByteAt(s, off + 1) + 65536 * ByteAt(s, off + 2) + 16777216 * ByteAt(s, off + 3)
  {
    FieldHalf(s, off + 2);
    assert Field(s, off + 1, 3) == ByteAt(s, off + 1) + 256 * Field(s, off + 2, HALF);
  }

  lemma SampleFields(num: nat, h: seq<Byte>)
    requires num < 65536 && h == SampleHeader(num)
    ensures !Is64(h) && PhOff(h) == 52 && PhEntSize(h) == 32 && PhNum(h) == num && ShNum(h) == 0
  {
    assert Field(h, EI_CLASS, BYTE) == h[4] + 256 * Field(h, EI_CLASS + 1, 0);
    FieldWord(h, 28);
    FieldHalf(h, 42);
    FieldHalf(h, 44);
    FieldHalf(h, 48);
  }

  /** Such an image has fitting headers, and its parsed table is the table it was made of. */
  lemma SampleMeans(num: nat, table: seq<Byte>, img: seq<Byte>)
    requires num < 65536 && |table| == 32 * num && img == Sample(num, table)
    ensures |img| == 52 + 32 * num && img[..4] == ELF_MAGIC && HeadersFit(img)
    ensures |Headers(img)| == num
    ensures forall k: nat :: k < num ==> Headers(img)[k] == EntryAt(table, k)
  {
    var h := SampleHeader(num);
    SampleFields(num, h);
    assert img[..4] == ELF_MAGIC;
    assert Field(img, EI_CLASS, BYTE) == img[4] + 256 * Field(img, EI_CLASS + 1, 0);
    assert Ehdr(img) == img[..52] == h;
    assert PhTable(img) == img[52..52 + 32 * num] == table;
    forall k: nat | k < num ensures Headers(img)[k] == EntryAt(table, k) {
      assert EntryIs(img, Headers(img), k);
    }
  }

  /** Entry k of a table of 32-bit program headers. */
  function EntryAt(table: seq<Byte>, k: nat): Phdr {
    var p := k * 32;
    Phdr(Field(table, p, WORD), Field(table, p + 4, WORD), Field(table, p + 8, WORD), Field(table, p + 16, WORD),
         Field(table, p + 20, WORD))
  }

  /** The store that holds an image and answers exactly. */
  function StoreOf(img: seq<Byte>): Store {
    (off: nat, len: nat) => if off + len <= |img| then len else -1
  }

  lemma StoreAnswers(img: seq<Byte>)
    ensures Honest(img, StoreOf(img)) && Exact(img, StoreOf(img))
  {}

  // ---- A loop without end ----

  /** 257 loadable segments of size 0 at address 0. */
  function EmptySegments(): (t: seq<Byte>)
    ensures |t| == 32 * 257
    ensures forall j :: 0 <= j < |t| ==> t[j] == if j % 32 == 0 then 1 else 0
  {
    seq(32 * 257, (j: nat) => if j % 32 == 0 then 1 else 0)
  }

  lemma EmptySegment(t: seq<Byte>, k: nat)
    requires t == EmptySegments() && k < 257
    ensures EntryAt(t, k) == Phdr(PT_LOAD, 0, 0, 0, 0)
  {
    var p := 32 * k;
    forall j | p <= j < p + 32 ensures t[j] == if j == p then 1 else 0 { Remainder(k, j - p, j); }
    EmptyFields(t, p);
  }

  lemma Remainder(k: nat, r: nat, j: nat)
    requires r < 32 && j == 32 * k + r
    ensures j % 32 == r
  {}

  lemma EmptyFields(t: seq<Byte>, p: nat)
    requires p + 32 <= |t| && forall j :: p <= j < p + 32 ==> t[j] == if j == p then 1 else 0
    ensures Field(t, p, WORD) == 1 && Field(t, p + 4, WORD) == Field(t, p + 8, WORD) == 0
    ensures Field(t, p + 16, WORD) == Field(t, p + 20, WORD) == 0
  {
    FieldWord(t, p);
    ZeroField(t, p + 4, WORD);
    ZeroField(t, p + 8, WORD);
    ZeroField(t, p + 16, WORD);
    ZeroField(t, p + 20, WORD);
  }

  /** On any table of 257 such entries no round is the last. */
  lemma NeverEnds(answer: Store, hs: seq<Phdr>, mems: seq<Mem>, m: nat)
    requires |hs| == 257 && mems == [Mem(0, 0, 1)]
    requires forall k: nat :: k < 257 ==> hs[k] == Phdr(PT_LOAD, 0, 0, 0, 0)
    ensures RoundAfter(answer, hs, mems, m).Some?
  {
    assert FindMem(mems, 0, 0, 0) == 0;
    assert IsLoad(hs, 255);
    forall k: nat ensures !Halts(answer, hs, mems, k) {}
    RoundsCircle(answer, hs, mems, m);
  }

  /** An image of 8276 bytes with fitting headers, in an exact store and with all its segments mapped: after
      any number of rounds the data loop is still going on. */
  method EndlessLoad(m: nat) returns (going: bool)
    ensures going
  {
    var table := EmptySegments();
    var img := Sample(257, table);
    SampleMeans(257, table, img);
    StoreAnswers(img);
    forall k: nat | k < 257 ensures Headers(img)[k] == Phdr(PT_LOAD, 0, 0, 0, 0) { EmptySegment(table, k); }
    var loader := new ElfLoader();
    ghost var calls, refused, end;
    var ok, ret, last;
    ok, ret, last, calls, refused, end := LoadHeaders(loader, img, |img|, true, StoreOf(img));
    NeverEnds(StoreOf(img), Headers(img), [Mem(0, 0, 1)], m);
    going := FirstRounds(loader, img, StoreOf(img), [Mem(0, 0, 1)], last, map[], m, Headers(img));
  }

  // ---- A trailing header ----

  /** A loadable segment of size 0 at address 0, and a note at address 4096. */
  function SegmentAndNote(): (t: seq<Byte>)
    ensures |t| == 64
    ensures forall j :: 0 <= j < 64 ==> t[j] == if j == 0 then 1 else if j == 32 then 4 else if j == 41 then 16 else 0
  {
    seq(64, (j: nat) => if j == 0 then 1 else if j == 32 then 4 else if j == 41 then 16 else 0)
  }

  lemma SegmentThenNote(t: seq<Byte>)
    requires t == SegmentAndNote()
    ensures EntryAt(t, 0) == Phdr(PT_LOAD, 0, 0, 0, 0)
    ensures EntryAt(t, 1).ptype == 4 && EntryAt(t, 1).vaddr == 4096
  {
    FieldWord(t, 0);
    ZeroField(t, 4, WORD);
    ZeroField(t, 8, WORD);
    ZeroField(t, 16, WORD);
    ZeroField(t, 20, WORD);
    FieldWord(t, 32);
    FieldWord(t, 40);
  }

  /** An image whose one loadable segment is mapped and present, in an exact store: it loads if and only if
      the address of the note behind that segment is mapped too, although the note is never stored. */
  method TrailingNote(noteMapped: bool) returns (ok: bool)
    ensures ok <==> noteMapped
  {
    var table := SegmentAndNote();
    var img := Sample(2, table);
    SampleMeans(2, table, img);
    SegmentThenNote(table);
    StoreAnswers(img);
    var mems := if noteMapped then [Mem(0, 0, 1), Mem(8, 4096, 1)] else [Mem(0, 0, 1)];
    NoteDecides(img, Headers(img), mems, noteMapped);
    LoopEndsExactly(StoreOf(img), Headers(img), mems);
    var ret, phys, info;
    ghost var issued, refused;
    ok, ret, phys, info, issued, refused := Load(img, |img|, 0, true, StoreOf(img), mems, map[]);
  }

  lemma NoteDecides(img: seq<Byte>, hs: seq<Phdr>, mems: seq<Mem>, noteMapped: bool)
    requires |hs| == 2 && hs[0] == Phdr(PT_LOAD, 0, 0, 0, 0) && hs[1].ptype == 4 && hs[1].vaddr == 4096
    requires mems == if noteMapped then [Mem(0, 0, 1), Mem(8, 4096, 1)] else [Mem(0, 0, 1)]
    ensures Regular(hs) && AllPlaceable(img, hs, mems, 2) && (TrailingOk(hs, mems) <==> noteMapped)
  {
    assert FindMem(mems, 0, 0, 0) == 0;
    if noteMapped { assert InMem(mems[1], 4096, 0); }
  }

  // ---- A first window of four bytes ----

  /** An ELF header of 52 bytes and nothing else: if the store opens it with a window of four bytes, it
      loads if and only if the byte behind that window is not the mark of a 64-bit image. */
  method FourByteWindow(stray: Byte) returns (ok: bool)
    ensures ok <==> stray != ELFCLASS64
  {
    var img := Sample(0, []);
    SampleMeans(0, [], img);
    StoreAnswers(img);
    LoopEndsExactly(StoreOf(img), Headers(img), []);
    var ret, phys, info;
    ghost var issued, refused;
    ok, ret, phys, info, issued, refused := Load(img, 4, stray, true, StoreOf(img), [], map[]);
  }

  // ---- Any image of one segment ----

  function Ident(wide: bool): (r: seq<Byte>)
    ensures |r| == 16 && r[..4] == ELF_MAGIC && r[4] == if wide then 2 else 1
  {
    ELF_MAGIC + [if wide then 2 else 1] + seq(11, _ => 0)
  }

  function HeadLen(wide: bool): nat { if wide then 64 else 52 }

  function EntryLen(wide: bool): nat { if wide then 56 else 32 }

  /** The program header lies right behind the ELF header; there are no sections. */
  function OneHeader(wide: bool): EhdrFields {
    EhdrFields(2, 0, 1, 0, HeadLen(wide), 0, 0, HeadLen(wide), EntryLen(wide), 1, 0, 0, 0)
  }

  /** A segment whose bytes lie behind the program header. */
  function OneSegment(wide: bool, flags: nat, vaddr: nat, paddr: nat, filesz: nat, memsz: nat, align: nat): PhdrFields {
    PhdrFields(PT_LOAD, flags, HeadLen(wide) + EntryLen(wide), vaddr, paddr, filesz, memsz, align)
  }

  function OneImage(wide: bool, f: PhdrFields, data: seq<Byte>): seq<Byte> {
    EncodeEhdr(Ident(wide), OneHeader(wide)) + EncodePhdr(wide, f) + data
  }

  lemma OneHeaderFits(wide: bool)
    ensures Fit(EhdrItems(wide, OneHeader(wide)))
  {
    assert Limit(2) == 65536;
    assert Limit(4) == 65536 * Limit(2) && Limit(8) == 65536 * Limit(6) && Limit(6) == 65536 * Limit(4);
  }

  /** An ELF header for one program header right behind it. */
  lemma OneHeaderMeans(wide: bool, rest: seq<Byte>, img: seq<Byte>)
    requires img == EncodeEhdr(Ident(wide), OneHeader(wide)) + rest && EntryLen(wide) <= |rest|
    ensures |img| == HeadLen(wide) + |rest| && img[..4] == ELF_MAGIC && HeadersFit(img) && PhNum(Ehdr(img)) == 1
    ensures Ehdr(img) == EncodeEhdr(Ident(wide), OneHeader(wide)) && PhOff(Ehdr(img)) == HeadLen(wide)
    ensures Is64(Ehdr(img)) == wide
  {
    var head := EncodeEhdr(Ident(wide), OneHeader(wide));
    OneHeaderFits(wide);
    EhdrRoundTrip(Ident(wide), OneHeader(wide), rest);
    EhdrRoundTrip(Ident(wide), OneHeader(wide), []);
    assert head + [] == head;
    assert Ehdr(img) == img[..|head|] == head;
    assert img[..4] == Ident(wide)[..4];
  }

  /** Such an image has fitting headers, and its table is the one segment. */
  lemma OneImageMeans(wide: bool, f: PhdrFields, data: seq<Byte>, img: seq<Byte>)
    requires Fit(PhdrItems(wide, f)) && img == OneImage(wide, f, data)
    ensures |img| == HeadLen(wide) + EntryLen(wide) + |data| && img[..4] == ELF_MAGIC && HeadersFit(img)
    ensures img[HeadLen(wide) + EntryLen(wide)..] == data
    ensures Headers(img) == [Phdr(f.ptype, f.offset, f.vaddr, f.filesz, f.memsz)]
  {
    var head, entry := EncodeEhdr(Ident(wide), OneHeader(wide)), EncodePhdr(wide, f);
    PhdrSizes(wide, f);
    assert img == head + (entry + data);
    OneHeaderMeans(wide, entry + data, img);
    PhdrRoundTrip(head, head, f, data);
    EntriesFromImage(img, head, HeadLen(wide), 0);
  }

  /** For either class and every segment: it loads if and only if a memory holds its range of virtual
      addresses, and then its bytes are, followed by zeros, where the first such memory has these
      addresses. The physical address, the flags and the alignment do not matter. */
  method LoadOne(wide: bool, flags: nat, vaddr: nat, paddr: nat, memsz: nat, align: nat, data: seq<Byte>,
                 mems: seq<Mem>)
    returns (ok: bool, phys: Phys)
    requires Fit(PhdrItems(wide, OneSegment(wide, flags, vaddr, paddr, |data|, memsz, align)))
    requires vaddr != ANY_ADDR && |data| <= memsz
    ensures ok <==> exists i: nat :: FirstFor(mems, vaddr, memsz, i)
    ensures ok ==> DataThere(phys, mems, vaddr, memsz, data)
  {
    var f := OneSegment(wide, flags, vaddr, paddr, |data|, memsz, align);
    var img := OneImage(wide, f, data);
    OneImageMeans(wide, f, data, img);
    ok, phys := LoadSingle(img, f, data, mems);
    TranslateExact(mems, vaddr, memsz);
  }

  method LoadSingle(img: seq<Byte>, f: PhdrFields, data: seq<Byte>, mems: seq<Mem>) returns (ok: bool, phys: Phys)
    requires HeadersFit(img) && 4 < |img| && img[..4] == ELF_MAGIC
    requires Headers(img) == [Phdr(PT_LOAD, f.offset, f.vaddr, f.filesz, f.memsz)]
    requires f.offset <= |img| && img[f.offset..] == data && f.filesz == |data| <= f.memsz && f.vaddr != ANY_ADDR
    ensures ok <==> Translate(mems, f.vaddr, f.memsz).Some?
    ensures ok ==> DataThere(phys, mems, f.vaddr, f.memsz, data)
  {
    ghost var j := Job(img, Headers(img), mems, map[]);
    StoreAnswers(img);
    LoopEndsExactly(StoreOf(img), j.hs, mems);
    OneLoads(j, f, data);
    var ret, info;
    ghost var issued, refused;
    ok, ret, phys, info, issued, refused := Load(img, |img|, 0, true, StoreOf(img), mems, map[]);
    if ok { OneLaid(j, f, data, phys, issued); }
  }

  lemma OneLaid(j: Job, f: PhdrFields, data: seq<Byte>, phys: Phys, issued: seq<nat>)
    requires Progress(j, phys, issued, 1) && j.hs == [Phdr(PT_LOAD, f.offset, f.vaddr, f.filesz, f.memsz)]
    requires f.offset <= |j.img| && j.img[f.offset..] == data && f.filesz == |data| <= f.memsz
    ensures DataThere(phys, j.mems, f.vaddr, f.memsz, data)
  {
    LoadedImageIsCorrect(j, phys, issued, 0);
    forall i: nat, b: nat | FirstFor(j.mems, f.vaddr, f.memsz, i) && b < f.memsz
      ensures ByteIs(phys, j.mems[i].pa + (f.vaddr + b - j.mems[i].da), if b < |data| then data[b] else 0)
    {
      assert LaidAt(phys, j.img, j.mems[i], j.hs[0], b);
      assert b < |data| ==> data[b] == j.img[f.offset + b];
    }
  }

  /** The data, followed by zeros, lies where the first memory that holds the range has its addresses. */
  ghost predicate DataThere(phys: Phys, mems: seq<Mem>, vaddr: nat, memsz: nat, data: seq<Byte>) {
    forall i: nat, b: nat :: FirstFor(mems, vaddr, memsz, i) && b < memsz ==>
      ByteIs(phys, mems[i].pa + (vaddr + b - mems[i].da), if b < |data| then data[b] else 0)
  }

  ghost predicate ByteIs(phys: Phys, a: int, b: Byte) { a in phys && phys[a] == b }

  lemma OneLoads(j: Job, f: PhdrFields, data: seq<Byte>)
    requires j.hs == [Phdr(PT_LOAD, f.offset, f.vaddr, f.filesz, f.memsz)] && f.offset + f.filesz <= |j.img|
    ensures Loads(j.img, j.hs, j.mems) <==> Translate(j.mems, f.vaddr, f.memsz).Some?
    ensures f.vaddr != ANY_ADDR ==> Regular(j.hs)
  {
    assert Placeable(j.img, j.hs, j.mems, 0) <==> Translate(j.mems, f.vaddr, f.memsz).Some?;
    assert IsLoad(j.hs, 0);
  }
}
