/** The loader's state: a loader phase, a header phase and an 8-bit segment cursor, which the code
    packs into one 32-bit int and handles by masks. */
module ElfState {
  import opened Bits

  datatype Loader = NotReady | ReadyToLoad | PostDataLoad | LoadComplete
  datatype Hdr = HInit | WaitPhdrs | WaitShdrs | WaitShstrtab | HdrsComplete

  type Cursor = c: nat | c < 256

  datatype LoadState = LoadState(loader: Loader, hdr: Hdr, seg: Cursor)

  const INIT: LoadState := LoadState(NotReady, HInit, 0)

  const ELF_NEXT_SEGMENT_MASK: nat := 0xFF
  const ELF_STATE_MASK: nat := 0xFF00
  const RPROC_LOADER_MASK: nat := 0xFF_0000

  const ELF_STATE_INIT: nat := 0
  const ELF_STATE_WAIT_FOR_PHDRS: nat := 0x100
  const ELF_STATE_WAIT_FOR_SHDRS: nat := 0x200
  const ELF_STATE_WAIT_FOR_SHSTRTAB: nat := 0x400
  const ELF_STATE_HDRS_COMPLETE: nat := 0x800

  const RPROC_LOADER_NOT_READY: nat := 0
  const RPROC_LOADER_READY_TO_LOAD: nat := 0x1_0000
  const RPROC_LOADER_POST_DATA_LOAD: nat := 0x2_0000
  const RPROC_LOADER_LOAD_COMPLETE: nat := 0x4_0000

  /** The bits of the packed word for a phase, and their value within their own byte. */
  function LoaderFlag(l: Loader): nat {
    match l
    case NotReady => RPROC_LOADER_NOT_READY
    case ReadyToLoad => RPROC_LOADER_READY_TO_LOAD
    case PostDataLoad => RPROC_LOADER_POST_DATA_LOAD
    case LoadComplete => RPROC_LOADER_LOAD_COMPLETE
  }

  function HdrFlag(h: Hdr): nat {
    match h
    case HInit => ELF_STATE_INIT
    case WaitPhdrs => ELF_STATE_WAIT_FOR_PHDRS
    case WaitShdrs => ELF_STATE_WAIT_FOR_SHDRS
    case WaitShstrtab => ELF_STATE_WAIT_FOR_SHSTRTAB
    case HdrsComplete => ELF_STATE_HDRS_COMPLETE
  }

  function LoaderBits(l: Loader): (b: nat)
    ensures LoaderFlag(l) == b * 65536 && b < 256
  {
    LoaderFlag(l) / 65536
  }

  function HdrBits(h: Hdr): (b: nat)
    ensures HdrFlag(h) == b * 256 && b < 256
  {
    HdrFlag(h) / 256
  }

  function Word(l: nat, h: nat, g: nat): nat { l * 65536 + h * 256 + g }

  function Pack(s: LoadState): nat { Word(LoaderBits(s.loader), HdrBits(s.hdr), s.seg) }

  /** `(x & ~mask) | bits` on a 32-bit word. */
  function Assign(x: nat, mask: nat, bits: nat): nat
    requires mask <= 0xFFFF_FFFF
  {
    Or(And(x, 0xFFFF_FFFF - mask), bits)
  }

  // ---- Masks that are shifted by whole bytes ----

  lemma AndEven(x: nat, y: nat)
    ensures And(x, 2 * y) == 2 * And(x / 2, y)
  {
    assert (2 * y) / 2 == y && (2 * y) % 2 == 0;
  }

  lemma AndTimes4(x: nat, y: nat)
    ensures And(x, 4 * y) == 4 * And(x / 4, y)
  {
    AndEven(x, 2 * y);
    AndEven(x / 2, y);
    assert x / 2 / 2 == x / 4;
  }

  lemma AndTimes16(x: nat, y: nat)
    ensures And(x, 16 * y) == 16 * And(x / 16, y)
  {
    AndTimes4(x, 4 * y);
    AndTimes4(x / 4, y);
    assert x / 4 / 4 == x / 16;
  }

  /** A mask shifted by a byte selects from the word shifted by a byte. */
  lemma AndTimes256(x: nat, y: nat)
    ensures And(x, 256 * y) == 256 * And(x / 256, y)
  {
    AndTimes16(x, 16 * y);
    AndTimes16(x / 16, y);
    assert x / 16 / 16 == x / 256;
  }

  lemma AndByte(x: nat)
    ensures And(x, 255) == x % 256
  {
    Pow2Values();
    AndLowMask(x, 8);
  }

  // ---- The three fields ----

  lemma WordDivisions(l: nat, h: nat, g: nat)
    requires h < 256 && g < 256
    ensures var x := Word(l, h, g); x % 256 == g && x / 256 == l * 256 + h && x / 256 % 256 == h && x / 256 / 256 == l
  {}

  /** What a mask on one field selects. */
  lemma LowMask(l: nat, h: nat, g: nat, m: nat)
    requires h < 256 && g < 256 && m < 256
    ensures And(Word(l, h, g), m) == And(g, m)
  {
    WordDivisions(l, h, g);
    Pow2Values();
    AndModulo(Word(l, h, g), m, 8);
  }

  lemma MidMask(l: nat, h: nat, g: nat, m: nat)
    requires h < 256 && g < 256 && m < 256
    ensures And(Word(l, h, g), 256 * m) == 256 * And(h, m)
  {
    WordDivisions(l, h, g);
    AndTimes256(Word(l, h, g), m);
    Pow2Values();
    AndModulo(l * 256 + h, m, 8);
  }

  lemma HighMask(l: nat, h: nat, g: nat, m: nat)
    requires h < 256 && g < 256 && m < 256
    ensures And(Word(l, h, g), 65536 * m) == 65536 * And(l, m)
  {
    WordDivisions(l, h, g);
    AndTimes256(Word(l, h, g), 256 * m);
    AndTimes256(l * 256 + h, m);
  }

  /** The whole-field masks select exactly the three fields. */
  lemma LoaderMask(l: nat, h: nat, g: nat)
    requires l < 256 && h < 256 && g < 256
    ensures And(Word(l, h, g), RPROC_LOADER_MASK) == l * 65536
  {
    HighMask(l, h, g, 255);
    AndByte(l);
  }

  lemma HdrMask(l: nat, h: nat, g: nat)
    requires l < 256 && h < 256 && g < 256
    ensures And(Word(l, h, g), ELF_STATE_MASK) == h * 256
  {
    MidMask(l, h, g, 255);
    AndByte(h);
  }

  lemma SegMask(l: nat, h: nat, g: nat)
    requires l < 256 && h < 256 && g < 256
    ensures And(Word(l, h, g), ELF_NEXT_SEGMENT_MASK) == g
  {
    WordDivisions(l, h, g);
    AndByte(Word(l, h, g));
  }

  lemma MasksSelectFields(s: LoadState)
    ensures And(Pack(s), RPROC_LOADER_MASK) == LoaderFlag(s.loader)
    ensures And(Pack(s), ELF_STATE_MASK) == HdrFlag(s.hdr)
    ensures And(Pack(s), ELF_NEXT_SEGMENT_MASK) == s.seg
  {
    LoaderMask(LoaderBits(s.loader), HdrBits(s.hdr), s.seg);
    HdrMask(LoaderBits(s.loader), HdrBits(s.hdr), s.seg);
    SegMask(LoaderBits(s.loader), HdrBits(s.hdr), s.seg);
  }

  /** Different states have different words. */
  lemma PackInjective(s: LoadState, t: LoadState)
    requires Pack(s) == Pack(t)
    ensures s == t
  {
    WordDivisions(LoaderBits(s.loader), HdrBits(s.hdr), s.seg);
    WordDivisions(LoaderBits(t.loader), HdrBits(t.hdr), t.seg);
  }

  // ---- The tests on single bits ----

  lemma OneBit(a: nat, b: nat)
    requires a in {0, 1, 2, 4, 8} && b in {1, 2, 4, 8}
    ensures And(a, b) == if a == b then b else 0
  {
    assert And(0, 0) == 0 && And(0, 1) == 0 && And(1, 0) == 0 && And(1, 1) == 1;
    assert And(1, 2) == 0 && And(2, 1) == 0 && And(2, 2) == 2 && And(2, 4) == 0 && And(4, 2) == 0;
    assert And(1, 4) == 0 && And(4, 1) == 0 && And(4, 4) == 4 && And(1, 8) == 0 && And(8, 1) == 0;
    assert And(2, 8) == 0 && And(8, 2) == 0 && And(4, 8) == 0 && And(8, 4) == 0 && And(8, 8) == 8;
  }

  /** Masking the word with one header bit tests for that header phase, and likewise for the loader. */
  lemma HdrBitTest(s: LoadState, h: Hdr)
    requires h != HInit
    ensures And(Pack(s), HdrFlag(h)) != 0 <==> s.hdr == h
  {
    MidMask(LoaderBits(s.loader), HdrBits(s.hdr), s.seg, HdrBits(h));
    OneBit(HdrBits(s.hdr), HdrBits(h));
  }

  lemma LoaderBitTest(s: LoadState, l: Loader)
    requires l != NotReady
    ensures And(Pack(s), LoaderFlag(l)) != 0 <==> s.loader == l
  {
    HighMask(LoaderBits(s.loader), HdrBits(s.hdr), s.seg, LoaderBits(l));
    OneBit(LoaderBits(s.loader), LoaderBits(l));
  }

  /** Comparing words compares records. */
  lemma WordTest(s: LoadState, t: LoadState)
    ensures Pack(s) == Pack(t) <==> s == t
  {
    if Pack(s) == Pack(t) { PackInjective(s, t); }
  }

  /** The two constants that the code compares whole words with. */
  lemma InitTest(s: LoadState)
    ensures Pack(s) == ELF_STATE_INIT <==> s == INIT
  {
    if Pack(s) == ELF_STATE_INIT {
      ZeroIsInit(s);
    } else if s == INIT {
      InitIsZero(s);
    }
  }

  lemma ZeroIsInit(s: LoadState)
    requires Pack(s) == 0
    ensures s == INIT
  {}

  lemma InitIsZero(s: LoadState)
    requires s == INIT
    ensures Pack(s) == 0
  {}

  lemma FirstWaitWord()
    ensures Pack(LoadState(NotReady, WaitPhdrs, 0)) == ELF_STATE_WAIT_FOR_PHDRS
  {}

  // ---- The updates under a mask ----

  lemma Pow2Of32()
    ensures Pow2(32) == 0x1_0000_0000
  {
    Pow2Values();
    assert Pow2(20) == 16 * Pow2(16) && Pow2(24) == 16 * Pow2(20);
    assert Pow2(28) == 16 * Pow2(24) && Pow2(32) == 16 * Pow2(28);
  }

  /** Clearing leaves what the mask does not select. */
  lemma ClearMeans(x: nat, mask: nat, rest: nat)
    requires x <= 0xFFFF_FFFF && mask <= 0xFFFF_FFFF && x == rest + And(x, mask)
    ensures And(x, 0xFFFF_FFFF - mask) == rest
  {
    Pow2Of32();
    var p := Pow2(32);
    AndNot(x, mask, 32);
    assert And(x, p - 1 - mask) == rest;
  }

  /** Clearing what the mask selects and adding bits that the rest does not have. */
  lemma AssignMeans(x: nat, mask: nat, bits: nat, rest: nat)
    requires mask <= 0xFFFF_FFFF && And(x, 0xFFFF_FFFF - mask) == rest && And(rest, bits) == 0
    ensures Assign(x, mask, bits) == rest + bits
  {
    OrDisjoint(rest, bits);
  }

  lemma AssignLoader(l: nat, h: nat, g: nat, l': nat)
    requires l < 256 && h < 256 && g < 256 && l' < 256
    ensures Assign(Word(l, h, g), RPROC_LOADER_MASK, l' * 65536) == Word(l', h, g)
  {
    LoaderMask(l, h, g);
    HighMask(0, h, g, l');
    ClearMeans(Word(l, h, g), RPROC_LOADER_MASK, Word(0, h, g));
    AssignMeans(Word(l, h, g), RPROC_LOADER_MASK, l' * 65536, Word(0, h, g));
  }

  lemma AssignHdr(l: nat, h: nat, g: nat, h': nat)
    requires l < 256 && h < 256 && g < 256 && h' < 256
    ensures Assign(Word(l, h, g), ELF_STATE_MASK, h' * 256) == Word(l, h', g)
  {
    HdrMask(l, h, g);
    MidMask(l, 0, g, h');
    ClearMeans(Word(l, h, g), ELF_STATE_MASK, Word(l, 0, g));
    AssignMeans(Word(l, h, g), ELF_STATE_MASK, h' * 256, Word(l, 0, g));
  }

  lemma AssignSeg(l: nat, h: nat, g: nat, g': nat)
    requires l < 256 && h < 256 && g < 256 && g' < 256
    ensures Assign(Word(l, h, g), ELF_NEXT_SEGMENT_MASK, g') == Word(l, h, g')
  {
    SegMask(l, h, g);
    LowMask(l, h, 0, g');
    ClearMeans(Word(l, h, g), ELF_NEXT_SEGMENT_MASK, Word(l, h, 0));
    AssignMeans(Word(l, h, g), ELF_NEXT_SEGMENT_MASK, g', Word(l, h, 0));
  }

  /** The code's updates under a mask are updates of one field of the record. */
  lemma SetLoader(s: LoadState, l: Loader)
    ensures Assign(Pack(s), RPROC_LOADER_MASK, LoaderFlag(l)) == Pack(s.(loader := l))
  {
    AssignLoader(LoaderBits(s.loader), HdrBits(s.hdr), s.seg, LoaderBits(l));
  }

  lemma SetHdr(s: LoadState, h: Hdr)
    ensures Assign(Pack(s), ELF_STATE_MASK, HdrFlag(h)) == Pack(s.(hdr := h))
  {
    AssignHdr(LoaderBits(s.loader), HdrBits(s.hdr), s.seg, HdrBits(h));
  }

  lemma SetSeg(s: LoadState, n: nat)
    ensures Assign(Pack(s), ELF_NEXT_SEGMENT_MASK, And(n, ELF_NEXT_SEGMENT_MASK)) == Pack(s.(seg := n % 256))
  {
    AndByte(n);
    AssignSeg(LoaderBits(s.loader), HdrBits(s.hdr), s.seg, n % 256);
  }

  /** The word of the first ready state, as the code writes it. */
  lemma FirstReady()
    ensures Or(ELF_STATE_WAIT_FOR_SHDRS, RPROC_LOADER_READY_TO_LOAD) == Pack(LoadState(ReadyToLoad, WaitShdrs, 0))
  {
    ReadyDisjoint(ELF_STATE_WAIT_FOR_SHDRS, RPROC_LOADER_READY_TO_LOAD);
  }

  lemma ReadyDisjoint(x: nat, y: nat)
    requires x == 512 && y == 65536
    ensures Or(x, y) == x + y
  {
    HighMask(0, 2, 0, 1);
    OrDisjoint(x, y);
  }
}
