/** The other direction: ELF headers written field by field, in the order and with the widths of the
    structures of the System V ABI, and the proof that the loader's accessors read back what was written,
    for both classes. */
module ElfEncode {
  import opened ElfFormat

  // ---- Little-endian fields in a row ----

  datatype Item = Item(width: nat, value: nat)

  /** The number of values that k bytes can hold. */
  function Limit(k: nat): (r: nat)
    ensures r >= 1
  {
    if k == 0 then 1 else 256 * Limit(k - 1)
  }

  function Bytes(v: nat, k: nat): (r: seq<Byte>)
    ensures |r| == k
    decreases k
  {
    if k == 0 then [] else [v % 256] + Bytes(v / 256, k - 1)
  }

  /** Where item n starts. */
  function Start(items: seq<Item>, n: nat): nat
    requires n <= |items|
  {
    if n == 0 then 0 else Start(items, n - 1) + items[n - 1].width
  }

  /** The first n items, one after the other. */
  function Lay(items: seq<Item>, n: nat): (r: seq<Byte>)
    requires n <= |items|
    ensures |r| == Start(items, n)
  {
    if n == 0 then [] else Lay(items, n - 1) + Bytes(items[n - 1].value, items[n - 1].width)
  }

  predicate Fit(items: seq<Item>) { forall i :: 0 <= i < |items| ==> items[i].value < Limit(items[i].width) }

  lemma {:induction false} FieldOfBytes(pre: seq<Byte>, v: nat, k: nat, post: seq<Byte>)
    requires v < Limit(k)
    ensures Field(pre + Bytes(v, k) + post, |pre|, k) == v
    decreases k
  {
    if k > 0 {
      var s := pre + Bytes(v, k) + post;
      assert s == (pre + [v % 256]) + Bytes(v / 256, k - 1) + post;
      FieldOfBytes(pre + [v % 256], v / 256, k - 1, post);
      assert s[|pre|] == v % 256;
    }
  }

  /** Each item is read back from its place. */
  lemma {:induction false} ItemReads(pre: seq<Byte>, items: seq<Item>, n: nat, i: nat, post: seq<Byte>)
    requires i < n <= |items| && Fit(items)
    ensures Field(pre + Lay(items, n) + post, |pre| + Start(items, i), items[i].width) == items[i].value
    decreases n
  {
    var last := Bytes(items[n - 1].value, items[n - 1].width);
    if i == n - 1 {
      FieldOfBytes(pre + Lay(items, i), items[i].value, items[i].width, post);
      assert pre + Lay(items, n) + post == (pre + Lay(items, i)) + last + post;
    } else {
      ItemReads(pre, items, n - 1, i, last + post);
      assert pre + Lay(items, n) + post == pre + Lay(items, n - 1) + (last + post);
    }
  }

  lemma ReadsAt(pre: seq<Byte>, items: seq<Item>, n: nat, i: nat, post: seq<Byte>, s: seq<Byte>, off: nat, width: nat,
                value: nat)
    requires i < n <= |items| && Fit(items) && s == pre + Lay(items, n) + post
    requires off == |pre| + Start(items, i) && items[i] == Item(width, value)
    ensures Field(s, off, width) == value
  {
    ItemReads(pre, items, n, i, post);
  }

  // ---- Program headers ----

  datatype PhdrFields = PhdrFields(ptype: nat, flags: nat, offset: nat, vaddr: nat, paddr: nat, filesz: nat,
                                   memsz: nat, align: nat)

  function PhdrItems(wide: bool, f: PhdrFields): (r: seq<Item>)
    ensures |r| == 8
  {
    if wide then
      [Item(4, f.ptype), Item(4, f.flags), Item(8, f.offset), Item(8, f.vaddr), Item(8, f.paddr), Item(8, f.filesz),
       Item(8, f.memsz), Item(8, f.align)]
    else
      [Item(4, f.ptype), Item(4, f.offset), Item(4, f.vaddr), Item(4, f.paddr), Item(4, f.filesz), Item(4, f.memsz),
       Item(4, f.flags), Item(4, f.align)]
  }

  function EncodePhdr(wide: bool, f: PhdrFields): seq<Byte> { Lay(PhdrItems(wide, f), 8) }

  lemma Starts8(items: seq<Item>)
    requires |items| >= 8
    ensures Start(items, 1) == items[0].width && Start(items, 2) == Start(items, 1) + items[1].width
    ensures Start(items, 3) == Start(items, 2) + items[2].width && Start(items, 4) == Start(items, 3) + items[3].width
    ensures Start(items, 5) == Start(items, 4) + items[4].width && Start(items, 6) == Start(items, 5) + items[5].width
    ensures Start(items, 7) == Start(items, 6) + items[6].width && Start(items, 8) == Start(items, 7) + items[7].width
  {}

  lemma PhdrSizes(wide: bool, f: PhdrFields)
    ensures |EncodePhdr(wide, f)| == if wide then 56 else 32
  {
    Starts8(PhdrItems(wide, f));
  }

  lemma WidePhdr(pre: seq<Byte>, f: PhdrFields, post: seq<Byte>, s: seq<Byte>)
    requires Fit(PhdrItems(true, f)) && s == pre + EncodePhdr(true, f) + post
    ensures Field(s, |pre|, WORD) == f.ptype
    ensures Field(s, |pre| + 8, XWORD) == f.offset
    ensures Field(s, |pre| + 16, XWORD) == f.vaddr
    ensures Field(s, |pre| + 32, XWORD) == f.filesz
    ensures Field(s, |pre| + 40, XWORD) == f.memsz
  {
    var items, n := PhdrItems(true, f), |pre|;
    Starts8(items);
    ReadsAt(pre, items, 8, 0, post, s, n, WORD, f.ptype);
    ReadsAt(pre, items, 8, 2, post, s, n + 8, XWORD, f.offset);
    ReadsAt(pre, items, 8, 3, post, s, n + 16, XWORD, f.vaddr);
    ReadsAt(pre, items, 8, 5, post, s, n + 32, XWORD, f.filesz);
    ReadsAt(pre, items, 8, 6, post, s, n + 40, XWORD, f.memsz);
  }

  lemma NarrowPhdr(pre: seq<Byte>, f: PhdrFields, post: seq<Byte>, s: seq<Byte>)
    requires Fit(PhdrItems(false, f)) && s == pre + EncodePhdr(false, f) + post
    ensures Field(s, |pre|, WORD) == f.ptype
    ensures Field(s, |pre| + 4, WORD) == f.offset
    ensures Field(s, |pre| + 8, WORD) == f.vaddr
    ensures Field(s, |pre| + 16, WORD) == f.filesz
    ensures Field(s, |pre| + 20, WORD) == f.memsz
  {
    var items, n := PhdrItems(false, f), |pre|;
    Starts8(items);
    ReadsAt(pre, items, 8, 0, post, s, n, WORD, f.ptype);
    ReadsAt(pre, items, 8, 1, post, s, n + 4, WORD, f.offset);
    ReadsAt(pre, items, 8, 2, post, s, n + 8, WORD, f.vaddr);
    ReadsAt(pre, items, 8, 4, post, s, n + 16, WORD, f.filesz);
    ReadsAt(pre, items, 8, 5, post, s, n + 20, WORD, f.memsz);
  }

  /** A program header written anywhere in a table is read back, for both classes. */
  lemma PhdrRoundTrip(h: seq<Byte>, pre: seq<Byte>, f: PhdrFields, post: seq<Byte>)
    requires Fit(PhdrItems(Is64(h), f))
    ensures PhdrAt(h, pre + EncodePhdr(Is64(h), f) + post, |pre|) ==
      Phdr(f.ptype, f.offset, f.vaddr, f.filesz, f.memsz)
    ensures |EncodePhdr(Is64(h), f)| == PhSize(h)
  {
    var s := pre + EncodePhdr(Is64(h), f) + post;
    PhdrSizes(Is64(h), f);
    if Is64(h) { WidePhdr(pre, f, post, s); } else { NarrowPhdr(pre, f, post, s); }
  }

  // ---- Section headers ----

  datatype ShdrFields = ShdrFields(name: nat, stype: nat, flags: nat, addr: nat, offset: nat, size: nat, link: nat,
                                   info: nat, addralign: nat, entsize: nat)

  function ShdrItems(wide: bool, f: ShdrFields): (r: seq<Item>)
    ensures |r| == 10
  {
    var w := if wide then 8 else 4;
    [Item(4, f.name), Item(4, f.stype), Item(w, f.flags), Item(w, f.addr), Item(w, f.offset), Item(w, f.size),
     Item(4, f.link), Item(4, f.info), Item(w, f.addralign), Item(w, f.entsize)]
  }

  function EncodeShdr(wide: bool, f: ShdrFields): seq<Byte> { Lay(ShdrItems(wide, f), 10) }

  /** A section header written anywhere in a table is read back, for both classes. */
  lemma ShdrRoundTrip(h: seq<Byte>, pre: seq<Byte>, f: ShdrFields, post: seq<Byte>)
    requires Fit(ShdrItems(Is64(h), f))
    ensures ShdrAt(h, pre + EncodeShdr(Is64(h), f) + post, |pre|) == Shdr(f.offset, f.size)
    ensures |EncodeShdr(Is64(h), f)| == ShSize(h)
  {
    var items := ShdrItems(Is64(h), f);
    Starts8(items);
    assert Start(items, 9) == Start(items, 8) + items[8].width && Start(items, 10) == Start(items, 9) + items[9].width;
    ItemReads(pre, items, 10, 4, post);
    ItemReads(pre, items, 10, 5, post);
  }

  // ---- The ELF header ----

  datatype EhdrFields = EhdrFields(etype: nat, machine: nat, version: nat, entry: nat, phoff: nat, shoff: nat,
                                   flags: nat, ehsize: nat, phentsize: nat, phnum: nat, shentsize: nat, shnum: nat,
                                   shstrndx: nat)

  function EhdrItems(wide: bool, f: EhdrFields): (r: seq<Item>)
    ensures |r| == 13
  {
    var w := if wide then 8 else 4;
    [Item(2, f.etype), Item(2, f.machine), Item(4, f.version), Item(w, f.entry), Item(w, f.phoff), Item(w, f.shoff),
     Item(4, f.flags), Item(2, f.ehsize), Item(2, f.phentsize), Item(2, f.phnum), Item(2, f.shentsize),
     Item(2, f.shnum), Item(2, f.shstrndx)]
  }

  /** The identification, whose byte 4 is the class (2 for 64 bits), and the fields behind it. */
  function EncodeEhdr(ident: seq<Byte>, f: EhdrFields): seq<Byte>
    requires |ident| == 16
  {
    ident + Lay(EhdrItems(ident[4] == 2, f), 13)
  }

  lemma Starts13(items: seq<Item>)
    requires |items| >= 13
    ensures Start(items, 9) == Start(items, 8) + items[8].width
    ensures Start(items, 10) == Start(items, 9) + items[9].width
    ensures Start(items, 11) == Start(items, 10) + items[10].width
    ensures Start(items, 12) == Start(items, 11) + items[11].width
    ensures Start(items, 13) == Start(items, 12) + items[12].width
  {}

  lemma ClassReads(ident: seq<Byte>, rest: seq<Byte>)
    requires |ident| == 16
    ensures Is64(ident + rest) <==> ident[4] == 2
  {
    var s := ident + rest;
    assert Field(s, EI_CLASS, BYTE) == s[4] + 256 * Field(s, EI_CLASS + 1, 0);
  }

  /** An ELF header, with anything behind it, is read back, for both classes. */
  lemma EhdrRoundTrip(ident: seq<Byte>, f: EhdrFields, post: seq<Byte>)
    requires |ident| == 16 && Fit(EhdrItems(ident[4] == 2, f))
    ensures var h := EncodeEhdr(ident, f) + post;
      && (Is64(h) <==> ident[4] == 2) && |EncodeEhdr(ident, f)| == EhdrSize(h)
      && PhOff(h) == f.phoff && PhEntSize(h) == f.phentsize && PhNum(h) == f.phnum
      && ShOff(h) == f.shoff && ShEntSize(h) == f.shentsize && ShNum(h) == f.shnum && ShStrNdx(h) == f.shstrndx
  {
    var items := EhdrItems(ident[4] == 2, f);
    var h := EncodeEhdr(ident, f) + post;
    assert h == ident + (Lay(items, 13) + post);
    ClassReads(ident, Lay(items, 13) + post);
    Starts8(items);
    Starts13(items);
    assert h == ident + Lay(items, 13) + post;
    ItemReads(ident, items, 13, 4, post);
    ItemReads(ident, items, 13, 5, post);
    ItemReads(ident, items, 13, 8, post);
    ItemReads(ident, items, 13, 9, post);
    ItemReads(ident, items, 13, 10, post);
    ItemReads(ident, items, 13, 11, post);
    ItemReads(ident, items, 13, 12, post);
  }
}
