/** The ELF loader as an object that updates its record in place, one method per loader operation. */
module ElfLoader {
  import opened Wrappers
  import opened Bits
  import opened ElfFormat
  import opened ElfState
  import opened ElfParse

  /** RPROC_LOAD_ANYADDR, which is also METAL_BAD_PHYS. */
  const ANY_ADDR: nat := 0xFFFF_FFFF_FFFF_FFFF

  datatype SegWalk = SegWalk(found: bool, next: nat, da: nat, noff: nat, filesz: nat, memsz: nat)

  /** elf_next_load_segment from entry n: the out-parameters keep the last entry parsed. */
  function NextSegment(i: Info, n: nat, da: nat, noff: nat): SegWalk
    decreases PhNum(i.ehdr) - n
  {
    if i.phdrs.None? || n >= PhNum(i.ehdr) then SegWalk(false, n, da, noff, 0, 0)
    else
      var p := ParsePhdr(i.ehdr, i.phdrs.value, n);
      if p.ptype == PT_LOAD then SegWalk(true, n + 1, p.vaddr, p.offset, p.filesz, p.memsz)
      else NextSegment(i, n + 1, p.vaddr, p.offset)
  }

  /** Out-parameters of elf_load: device address, image range, size in memory. */
  datatype Loaded = Loaded(info: Info, ret: Ret, da: nat, noff: nat, nlen: nat, msize: nat)

  /** elf_load while segments remain to be issued. */
  function ReadyStep(i: Info): Loaded {
    var w := NextSegment(i, i.state.seg, ANY_ADDR, 0);
    var st := i.state.(seg := w.next % 256,
                       loader := if w.found && w.next == PhNum(i.ehdr) then PostDataLoad else i.state.loader);
    var i' := i.(state := st);
    Loaded(i', State(st), w.da, w.noff, if w.found then w.filesz else 0, if w.found then w.memsz else 0)
  }

  /** elf_load after the last segment: finish the headers, then declare completion. */
  function PostStep(win: seq<Byte>, off: nat, i: Info, last: LoadState): Loaded {
    var done := i.(state := i.state.(loader := LoadComplete));
    if i.state.hdr.HdrsComplete? then Loaded(done, State(done.state), ANY_ADDR, 0, 0, 0)
    else
      var p := LoadHeader(win, off, Some(i), last);
      var i' := if p.info.Some? then p.info.value else i;
      if p.ret.Error? then Loaded(i', p.ret, ANY_ADDR, 0, 0, 0)
      else if p.ret.state.hdr.HdrsComplete? then
        var c := i'.(state := i'.state.(loader := LoadComplete));
        Loaded(c, State(c.state), ANY_ADDR, 0, 0, 0)
      else
        Loaded(i', State(i'.state), ANY_ADDR, if p.req.Ask? then p.req.off else 0, if p.req.Ask? then p.req.len
          else 0, 0)
  }

  /** elf_load from the ready state on. */
  function LoadData(win: seq<Byte>, off: nat, i: Info, last: LoadState): Loaded {
    match i.state.loader
    case ReadyToLoad => ReadyStep(i)
    case PostDataLoad => PostStep(win, off, i, last)
    case _ => Loaded(i, State(i.state), ANY_ADDR, 0, 0, 0)
  }

  /** The loader's record. Its state word is what the operations test and update by masks; the state
      inside info is the word decoded. */
  class ElfLoader {
    var info: Maybe<Info>
    var loadState: nat

    ghost predicate Packed()
      reads this
    {
      info.Some? ==> loadState == Pack(info.value.state)
    }

    constructor ()
      ensures info == None && Packed()
    {
      info, loadState := None, ELF_STATE_INIT;
    }

    /** A test of the word for one header phase. */
    method HeaderIs(h: Hdr) returns (yes: bool)
      requires Packed() && info.Some? && h != HInit
      ensures yes <==> info.value.state.hdr == h
    {
      HdrBitTest(info.value.state, h);
      yes := And(loadState, HdrFlag(h)) != 0;
    }

    /** A test of the word for one loader phase. */
    method LoaderIs(l: Loader) returns (yes: bool)
      requires Packed() && info.Some? && l != NotReady
      ensures yes <==> info.value.state.loader == l
    {
      LoaderBitTest(info.value.state, l);
      yes := And(loadState, LoaderFlag(l)) != 0;
    }

    /** Updates of one field of the word. */
    method SetHeader(h: Hdr)
      requires Packed() && info.Some?
      modifies this
      ensures Packed() && info == Some(old(info.value).(state := old(info.value.state).(hdr := h)))
    {
      SetHdr(info.value.state, h);
      loadState := Assign(loadState, ELF_STATE_MASK, HdrFlag(h));
      info := Some(info.value.(state := info.value.state.(hdr := h)));
    }

    method SetPhase(l: Loader)
      requires Packed() && info.Some?
      modifies this
      ensures Packed() && info == Some(old(info.value).(state := old(info.value.state).(loader := l)))
    {
      SetLoader(info.value.state, l);
      loadState := Assign(loadState, RPROC_LOADER_MASK, LoaderFlag(l));
      info := Some(info.value.(state := info.value.state.(loader := l)));
    }

    method SetCursor(n: nat)
      requires Packed() && info.Some?
      modifies this
      ensures Packed() && info == Some(old(info.value).(state := old(info.value.state).(seg := n % 256)))
    {
      SetSeg(info.value.state, n);
      loadState := Assign(loadState, ELF_NEXT_SEGMENT_MASK, And(n, ELF_NEXT_SEGMENT_MASK));
      info := Some(info.value.(state := info.value.state.(seg := n % 256)));
    }

    /** The cursor in the word. */
    method Cursor() returns (n: nat)
      requires Packed() && info.Some?
      ensures n == info.value.state.seg
    {
      MasksSelectFields(info.value.state);
      n := And(loadState, ELF_NEXT_SEGMENT_MASK);
    }

    /** Comparisons of whole words. */
    method IsInit(last: LoadState) returns (yes: bool)
      ensures yes <==> last == INIT
    {
      InitTest(last);
      yes := Pack(last) == ELF_STATE_INIT;
    }

    method IsCurrent(last: LoadState) returns (yes: bool)
      requires Packed() && info.Some?
      ensures yes <==> last == info.value.state
    {
      WordTest(last, info.value.state);
      yes := Pack(last) == loadState;
    }

    method WaitsForPhdrs() returns (yes: bool)
      requires Packed() && info.Some?
      ensures yes <==> info.value.state == LoadState(NotReady, WaitPhdrs, 0)
    {
      FirstWaitWord();
      WordTest(info.value.state, LoadState(NotReady, WaitPhdrs, 0));
      yes := loadState == ELF_STATE_WAIT_FOR_PHDRS;
    }

    /** The program headers have been copied. */
    method SetReady(table: seq<Byte>)
      requires info.Some?
      modifies this
      ensures Packed()
      ensures info == Some(old(info.value).(phdrs := Some(table), state := LoadState(ReadyToLoad, WaitShdrs, 0)))
    {
      FirstReady();
      loadState := Or(ELF_STATE_WAIT_FOR_SHDRS, RPROC_LOADER_READY_TO_LOAD);
      info := Some(info.value.(phdrs := Some(table), state := LoadState(ReadyToLoad, WaitShdrs, 0)));
    }

    /** The start of elf_load_header: take the ELF header from the window and begin to wait. */
    method Begin(header: seq<Byte>)
      modifies this
      ensures Packed() && info == Some(if old(info).Some?
        then old(info.value).(ehdr := header, state := LoadState(NotReady, WaitPhdrs, 0)) else FreshInfo(header))
    {
      if info.None? {
        info := Some(FreshInfo([]));
      }
      FirstWaitWord();
      loadState := ELF_STATE_WAIT_FOR_PHDRS;
      info := Some(info.value.(ehdr := header, state := LoadState(NotReady, WaitPhdrs, 0)));
    }

    /** elf_load_header: each phase copies its table out of the window or asks for it. */
    method LoadHeader(win: seq<Byte>, off: nat, last: LoadState) returns (ret: Ret, req: Request)
      requires Packed()
      modifies this
      ensures Packed() && Parsed(info, ret, req) == ElfParse.LoadHeader(win, off, old(info), last)
    {
      var now := last;
      var first := IsInit(last);
      if first {
        var size := EhdrSize(win);
        if |win| < size {
          return State(INIT), Ask(0, size);
        }
        Begin(win[..size]);
        now := LoadState(NotReady, WaitPhdrs, 0);
      }
      if info.None? {
        return Error(-RPROC_EINVAL), Untouched;
      }
      var current := IsCurrent(now);
      if !current {
        return Error(-RPROC_EINVAL), Untouched;
      }
      ret, req := LoadProgramHeaders(win, off, now);
    }

    /** The program header phase of elf_load_header and what follows it. */
    method LoadProgramHeaders(win: seq<Byte>, off: nat, last: LoadState) returns (ret: Ret, req: Request)
      requires Packed() && info.Some?
      modifies this
      ensures Packed() && Parsed(info, ret, req) == ParsePhdrs(win, off, old(info.value), last)
    {
      var h := info.value.ehdr;
      var waiting := WaitsForPhdrs();
      if waiting {
        if off > PhOff(h) || off + |win| < PhOff(h) + PhTableSize(h) {
          return State(info.value.state), Ask(PhOff(h), PhTableSize(h));
        }
        var at := PhOff(h) - off;
        SetReady(win[at..at + PhTableSize(h)]);
      }
      ret, req := LoadSectionHeaders(win, off, last);
    }

    /** The section header phase of elf_load_header and what follows it. */
    method LoadSectionHeaders(win: seq<Byte>, off: nat, last: LoadState) returns (ret: Ret, req: Request)
      requires Packed() && info.Some?
      modifies this
      ensures Packed() && Parsed(info, ret, req) == ParseShdrs(win, off, old(info.value), last)
    {
      var h := info.value.ehdr;
      var waiting := HeaderIs(WaitShdrs);
      if waiting {
        if ShNum(h) == 0 {
          SetHeader(HdrsComplete);
          return State(info.value.state), Nothing;
        }
        if off > ShOff(h) || off + |win| < ShOff(h) + ShTableSize(h) {
          return State(info.value.state), Ask(ShOff(h), ShTableSize(h));
        }
        var at := ShOff(h) - off;
        info := Some(info.value.(shdrs := Some(win[at..at + ShTableSize(h)])));
        SetHeader(WaitShstrtab);
      }
      ret, req := LoadStringTable(win, off, last);
    }

    /** The string table phase of elf_load_header. */
    method LoadStringTable(win: seq<Byte>, off: nat, last: LoadState) returns (ret: Ret, req: Request)
      requires Packed() && info.Some?
      modifies this
      ensures Packed() && Parsed(info, ret, req) == ParseShstrtab(win, off, old(info.value), last)
    {
      var h := info.value.ehdr;
      var waiting := HeaderIs(WaitShstrtab);
      if waiting {
        if info.value.shdrs.None? || ShStrNdx(h) >= ShNum(h) {
          return Error(-RPROC_EINVAL), Untouched;
        }
        var s := ParseShdr(h, info.value.shdrs.value, ShStrNdx(h));
        if off > s.offset || off + |win| < s.offset + s.size {
          return State(info.value.state), Ask(s.offset, s.size);
        }
        var at := s.offset - off;
        info := Some(info.value.(shstrtab := Some(win[at..at + s.size])));
        SetHeader(HdrsComplete);
        return State(info.value.state), Nothing;
      }
      return State(last), Untouched;
    }

    /** elf_next_load_segment: advance the cursor past the next loadable entry. */
    method NextLoadSegment(nseg: nat) returns (w: SegWalk)
      requires info.Some?
      ensures w == NextSegment(info.value, nseg, ANY_ADDR, 0)
    {
      var i, n, da, noff := info.value, nseg, ANY_ADDR, 0;
      while i.phdrs.Some? && n < PhNum(i.ehdr)
        invariant NextSegment(i, n, da, noff) == NextSegment(i, nseg, ANY_ADDR, 0)
        decreases PhNum(i.ehdr) - n
      {
        var p := ParsePhdr(i.ehdr, i.phdrs.value, n);
        n := n + 1;
        if p.ptype == PT_LOAD {
          return SegWalk(true, n, p.vaddr, p.offset, p.filesz, p.memsz);
        }
        da, noff := p.vaddr, p.offset;
      }
      return SegWalk(false, n, da, noff, 0, 0);
    }

    /** elf_load while segments remain. */
    method IssueSegment() returns (da: nat, noff: nat, nlen: nat, msize: nat)
      requires Packed() && info.Some? && info.value.state.loader.ReadyToLoad?
      modifies this
      ensures Packed() && info.Some?
      ensures Loaded(info.value, State(info.value.state), da, noff, nlen, msize) == ReadyStep(old(info.value))
    {
      var nseg := Cursor();
      var w := NextLoadSegment(nseg);
      da, noff, nlen, msize := w.da, w.noff, 0, 0;
      if w.found {
        nlen, msize := w.filesz, w.memsz;
        if w.next == PhNum(info.value.ehdr) {
          SetPhase(PostDataLoad);
        }
      }
      SetCursor(w.next);
    }

    /** elf_load after the last segment. */
    method FinishHeaders(win: seq<Byte>, off: nat, last: LoadState) returns (ret: Ret, noff: nat, nlen: nat)
      requires Packed() && info.Some? && info.value.state.loader.PostDataLoad? && last == info.value.state
      modifies this
      ensures Packed() && info.Some?
      ensures Loaded(info.value, ret, ANY_ADDR, noff, nlen, 0) == PostStep(win, off, old(info.value), last)
    {
      noff, nlen := 0, 0;
      var complete := HeaderIs(HdrsComplete);
      if !complete {
        HeaderKeepsInfo(win, off, info.value);
        var r, q := LoadHeader(win, off, last);
        if r.Error? {
          return r, 0, 0;
        }
        if q.Ask? { noff, nlen := q.off, q.len; }
        complete := r.state.hdr == HdrsComplete;
        if complete { noff, nlen := 0, 0; }
      }
      if complete {
        SetPhase(LoadComplete);
      }
      ret := State(info.value.state);
    }

    /** elf_load once the loader is ready. */
    method Load(win: seq<Byte>, off: nat, last: LoadState) returns (ret: Ret, da: nat, noff: nat, nlen: nat, msize: nat)
      requires Packed() && info.Some? && !info.value.state.loader.NotReady? && last == info.value.state
      modifies this
      ensures Packed() && info.Some?
      ensures Loaded(info.value, ret, da, noff, nlen, msize) == LoadData(win, off, old(info.value), last)
    {
      da, noff, nlen, msize := ANY_ADDR, 0, 0, 0;
      var ready := LoaderIs(ReadyToLoad);
      if ready {
        da, noff, nlen, msize := IssueSegment();
        return State(info.value.state), da, noff, nlen, msize;
      }
      var post := LoaderIs(PostDataLoad);
      if post {
        ret, noff, nlen := FinishHeaders(win, off, last);
        return;
      }
      ret := State(info.value.state);
    }
  }

  lemma HeaderKeepsInfo(win: seq<Byte>, off: nat, i: Info)
    requires i.state != INIT
    ensures LoadHeader(win, off, Some(i), i.state).info.Some?
  {}
}
