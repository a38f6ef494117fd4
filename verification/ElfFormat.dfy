/** Field layout of 32-bit and 64-bit little-endian ELF headers (System V ABI, chapters 4 and 5),
    read from bytes. */
module ElfFormat {
  type Byte = b: nat | b < 256

  /** The little-endian number of k bytes at offset off; bytes past the end read as zero. */
  function Field(s: seq<Byte>, off: nat, k: nat): nat
    decreases k
  {
    if k == 0 then 0 else (if off < |s| then s[off] else 0) + 256 * Field(s, off + 1, k - 1)
  }

  // Widths of the ELF base types
  const BYTE: nat := 1
  const HALF: nat := 2
  const WORD: nat := 4
  const XWORD: nat := 8

  const EI_CLASS: nat := 4
  const ELFCLASS64: nat := 2
  const PT_LOAD: nat := 1
  const ELF_MAGIC: seq<Byte> := [0x7f, 0x45, 0x4c, 0x46]

  predicate Is64(h: seq<Byte>) { Field(h, EI_CLASS, BYTE) == ELFCLASS64 }

  function EhdrSize(h: seq<Byte>): nat { if Is64(h) then 64 else 52 }
  function PhSize(h: seq<Byte>): nat { if Is64(h) then 56 else 32 }
  function ShSize(h: seq<Byte>): nat { if Is64(h) then 64 else 40 }

  function PhOff(h: seq<Byte>): nat { if Is64(h) then Field(h, 32, XWORD) else Field(h, 28, WORD) }
  function PhEntSize(h: seq<Byte>): nat { if Is64(h) then Field(h, 54, HALF) else Field(h, 42, HALF) }
  function PhNum(h: seq<Byte>): nat { if Is64(h) then Field(h, 56, HALF) else Field(h, 44, HALF) }
  function ShOff(h: seq<Byte>): nat { if Is64(h) then Field(h, 40, XWORD) else Field(h, 32, WORD) }
  function ShEntSize(h: seq<Byte>): nat { if Is64(h) then Field(h, 58, HALF) else Field(h, 46, HALF) }
  function ShNum(h: seq<Byte>): nat { if Is64(h) then Field(h, 60, HALF) else Field(h, 48, HALF) }
  function ShStrNdx(h: seq<Byte>): nat { if Is64(h) then Field(h, 62, HALF) else Field(h, 50, HALF) }

  datatype Phdr = Phdr(ptype: nat, offset: nat, vaddr: nat, filesz: nat, memsz: nat)

  /** The program header at byte p of a table, as elf_parse_segment reads it. */
  function PhdrAt(h: seq<Byte>, table: seq<Byte>, p: nat): Phdr {
    if Is64(h) then
      Phdr(Field(table, p, WORD), Field(table, p + 8, XWORD), Field(table, p + 16, XWORD),
           Field(table, p + 32, XWORD), Field(table, p + 40, XWORD))
    else
      Phdr(Field(table, p, WORD), Field(table, p + 4, WORD), Field(table, p + 8, WORD),
           Field(table, p + 16, WORD), Field(table, p + 20, WORD))
  }

  /** Entry i of a program header table, as elf_get_segment_from_index finds it: the stride is the size
      of the structure, not the entry size that the ELF header states. */
  function ParsePhdr(h: seq<Byte>, table: seq<Byte>, i: nat): Phdr { PhdrAt(h, table, i * PhSize(h)) }

  /** Entry i where the ABI places it. */
  function AbiPhdr(h: seq<Byte>, table: seq<Byte>, i: nat): Phdr { PhdrAt(h, table, i * PhEntSize(h)) }

  datatype Shdr = Shdr(offset: nat, size: nat)

  function ShdrAt(h: seq<Byte>, table: seq<Byte>, p: nat): Shdr {
    if Is64(h) then Shdr(Field(table, p + 24, XWORD), Field(table, p + 32, XWORD))
    else Shdr(Field(table, p + 16, WORD), Field(table, p + 20, WORD))
  }

  function ParseShdr(h: seq<Byte>, table: seq<Byte>, i: nat): Shdr { ShdrAt(h, table, i * ShSize(h)) }

  function PhTableSize(h: seq<Byte>): nat { PhNum(h) * PhEntSize(h) }
  function ShTableSize(h: seq<Byte>): nat { ShNum(h) * ShEntSize(h) }

  // ---- Which bytes are read ----

  ghost predicate SameByte(s: seq<Byte>, p: nat, t: seq<Byte>, r: nat, i: nat) {
    p + i < |s| && r + i < |t| && s[p + i] == t[r + i]
  }

  /** Two places hold the same n bytes. */
  ghost predicate SameBytes(s: seq<Byte>, p: nat, t: seq<Byte>, r: nat, n: nat) {
    forall i: nat :: i < n ==> SameByte(s, p, t, r, i)
  }

  /** Of a field that lies inside s only its own bytes matter, so the default for bytes past the end
      is not used. */
  lemma {:induction false} FieldSame(s: seq<Byte>, p: nat, t: seq<Byte>, r: nat, n: nat, off: nat, k: nat)
    requires SameBytes(s, p, t, r, n) && off + k <= n
    ensures Field(s, p + off, k) == Field(t, r + off, k)
    decreases k
  {
    if k > 0 {
      assert SameByte(s, p, t, r, off);
      FieldSame(s, p, t, r, n, off + 1, k - 1);
    }
  }

  /** A header whose bytes lie inside the table is determined by these bytes. */
  lemma PhdrInside(h: seq<Byte>, s: seq<Byte>, p: nat, t: seq<Byte>, r: nat)
    requires SameBytes(s, p, t, r, PhSize(h))
    ensures PhdrAt(h, s, p) == PhdrAt(h, t, r)
  {
    var n := PhSize(h);
    if Is64(h) {
      FieldSame(s, p, t, r, n, 0, WORD);
      FieldSame(s, p, t, r, n, 8, XWORD);
      FieldSame(s, p, t, r, n, 16, XWORD);
      FieldSame(s, p, t, r, n, 32, XWORD);
      FieldSame(s, p, t, r, n, 40, XWORD);
    } else {
      FieldSame(s, p, t, r, n, 0, WORD);
      FieldSame(s, p, t, r, n, 4, WORD);
      FieldSame(s, p, t, r, n, 8, WORD);
      FieldSame(s, p, t, r, n, 16, WORD);
      FieldSame(s, p, t, r, n, 20, WORD);
    }
  }

  lemma ShdrInside(h: seq<Byte>, s: seq<Byte>, p: nat, t: seq<Byte>, r: nat)
    requires SameBytes(s, p, t, r, ShSize(h))
    ensures ShdrAt(h, s, p) == ShdrAt(h, t, r)
  {
    var n := ShSize(h);
    if Is64(h) {
      FieldSame(s, p, t, r, n, 24, XWORD);
      FieldSame(s, p, t, r, n, 32, XWORD);
    } else {
      FieldSame(s, p, t, r, n, 16, WORD);
      FieldSame(s, p, t, r, n, 20, WORD);
    }
  }

  // ---- Entry sizes ----

  /** The entries that are read lie inside a table of num entries of the stated size. */
  predicate EntriesWhole(num: nat, entsize: nat, size: nat) { num == 0 || size <= entsize }

  ghost predicate EntryInside(num: nat, entsize: nat, size: nat, i: nat) { i * size + size <= num * entsize }

  /** Every entry read lies inside the copied table if and only if there is none or the stated entry
      size is at least that of the structure. */
  lemma EntriesInside(num: nat, entsize: nat, size: nat)
    ensures (forall i: nat :: i < num ==> EntryInside(num, entsize, size, i)) <==> EntriesWhole(num, entsize, size)
  {
    if EntriesWhole(num, entsize, size) {
      forall i: nat | i < num ensures EntryInside(num, entsize, size, i) { WholeEntry(num, entsize, size, i); }
    } else {
      Scale(entsize + 1, size, num);
      assert (num - 1) * size + size == num * size;
      assert !EntryInside(num, entsize, size, num - 1);
    }
  }

  lemma WholeEntry(num: nat, entsize: nat, size: nat, i: nat)
    requires size <= entsize && i < num
    ensures i * size + size <= num * entsize
  {
    Scale(i + 1, num, size);
    Scale(size, entsize, num);
    assert i * size + size == (i + 1) * size;
  }

  lemma Scale(a: nat, b: nat, c: nat)
    requires a <= b
    ensures a * c <= b * c
  {
    assert b * c - a * c == (b - a) * c;
  }

  /** A field lying inside a prefix is the same read from the whole. */
  lemma {:induction false} FieldPrefix(s: seq<Byte>, n: nat, off: nat, k: nat)
    requires off + k <= n <= |s|
    ensures Field(s[..n], off, k) == Field(s, off, k)
    decreases k
  {
    if k > 0 {
      FieldPrefix(s, n, off + 1, k - 1);
    }
  }
}
