/** The header loop of remoteproc_load, over an image store that may refuse requests. */
module HeaderLoop {
  import opened Wrappers
  import opened ElfFormat
  import opened ElfState
  import opened ElfParse
  import opened ElfLoader
  import opened ImageTable

  // ---- The image store ----

  /** What an image store answers to a request for a range of the image: the number of bytes that it
      delivers, or an error. */
  type Store = (nat, nat) -> int

  /** A store never claims to have delivered bytes that the image does not have. */
  ghost predicate Honest(img: seq<Byte>, answer: Store) {
    forall off: nat, len: nat :: answer(off, len) >= len ==> off + len <= |img|
  }

  /** A store that answers every request inside the image exactly. */
  ghost predicate Exact(img: seq<Byte>, answer: Store) {
    forall off: nat, len: nat :: off + len <= |img| ==> answer(off, len) == len
  }

  /** The bytes a store delivers. */
  function Deliver(img: seq<Byte>, off: nat, len: nat): (w: seq<Byte>)
    requires off + len <= |img|
    ensures TrueWindow(img, off, w) && |w| == len
  {
    img[off..off + len]
  }

  /** The request that belongs to the parser's record: the ELF header, or the table it waits for. */
  ghost predicate Requested(img: seq<Byte>, info: Maybe<Info>, r: (nat, nat)) {
    if info.None? then r == (0, EhdrSize(img)) else Wanted(info.value) == Some(r)
  }

  /** The window is exactly what the parser waits for. */
  ghost predicate ExactWindow(img: seq<Byte>, off: nat, win: seq<Byte>, info: Maybe<Info>, last: LoadState) {
    if last == INIT then |win| == EhdrSize(img) else info.Some? && Wanted(info.value) == Some((off, |win|))
  }

  /** After a call that neither failed nor finished, the request is the next table, and it belongs to
      a later phase if the window was the requested table. */
  lemma CallAsks(img: seq<Byte>, win: seq<Byte>, off: nat, info: Maybe<Info>, last: LoadState)
    requires TrueWindow(img, off, win) && Resumable(img, off, win, info, last) && NoDataYet(info)
    ensures var p := LoadHeader(win, off, info, last);
      && NoDataYet(p.info)
      && (p.ret.State? ==>
            && (p.ret.state != INIT ==> p.info.Some? && InfoOk(img, p.info.value) && p.info.value.state == p.ret.state)
            && (p.ret.state == INIT ==> p.info.None? && p.req == Ask(0, EhdrSize(img)))
            && (p.ret.state.hdr.HdrsComplete? ==> !p.req.Ask?)
            && (!p.ret.state.hdr.HdrsComplete? ==> p.req.Ask?)
            && (p.req.Ask? && p.ret.state != INIT ==> Wanted(p.info.value) == Some((p.req.off, p.req.len)))
            && (last == INIT && |win| < EhdrSize(img) ==> p.ret.state == INIT)
            && HdrRank(last.hdr) <= HdrRank(p.ret.state.hdr)
            && (ExactWindow(img, off, win, info, last) ==> HdrRank(last.hdr) < HdrRank(p.ret.state.hdr)))
  {
    HeaderCall(img, win, off, info, last);
    NoDataCall(win, off, info, last);
    var p := LoadHeader(win, off, info, last);
    if p.info.Some? { InfoPhase(img, p.info.value); }
    if last == INIT {
      assert win == img[..|win|];
      SameClass(img, |win|);
    }
    if last != INIT && ExactWindow(img, off, win, info, last) {
      ExactWindowAdvances(img, win, off, info.value);
    }
  }

  /** One call of the loader's header operation from the header loop. */
  method CallHeader(loader: ElfLoader, img: seq<Byte>, win: seq<Byte>, off: nat, last: LoadState)
    returns (r: Ret, req: Request)
    requires TrueWindow(img, off, win) && Resumable(img, off, win, loader.info, last) && NoDataYet(loader.info)
    requires loader.Packed()
    modifies loader
    ensures NoDataYet(loader.info) && loader.Packed()
    ensures r.Error? ==> r.code == -RPROC_EINVAL && !HeadersFit(img)
    ensures r.State? ==> if r.state == INIT then loader.info.None? && req == Ask(0, EhdrSize(img)) else
      && loader.info.Some? && InfoOk(img, loader.info.value) && loader.info.value.state == r.state
      && (req.Ask? <==> !r.state.hdr.HdrsComplete?)
      && (r.state.loader.NotReady? <==> r.state.hdr.WaitPhdrs?)
      && (req.Ask? ==> Wanted(loader.info.value) == Some((req.off, req.len)))
      && (req.Ask? && HeadersFit(img) ==> Fits(img, req.off, req.len))
    ensures r.State? && last == INIT && |win| < EhdrSize(img) ==> r.state == INIT
    ensures last == INIT && |win| < EhdrSize(img) ==> r.State?
    ensures r.State? ==> HdrRank(last.hdr) <= HdrRank(r.state.hdr)
    ensures r.State? && old(ExactWindow(img, off, win, loader.info, last)) ==> HdrRank(last.hdr) < HdrRank(r.state.hdr)
  {
    CallAsks(img, win, off, loader.info, last);
    HeaderErrorIsInval(win, off, loader.info, last);
    if HeadersFit(img) { NoHeaderError(img, win, off, loader.info, last); }
    r, req := loader.LoadHeader(win, off, last);
    if HeadersFit(img) && r.State? && req.Ask? && r.state != INIT { WantedFits(img, loader.info.value); }
    if r.State? && r.state != INIT { InfoPhase(img, loader.info.value); }
  }

  /** All header tables have been copied, or the next one is empty, which ends the header calls as well. */
  ghost predicate AllHeaders(i: Info) {
    i.state.hdr.HdrsComplete? || (Wanted(i).Some? && Wanted(i).value.1 == 0)
  }

  /** The header loop of remoteproc_load. It ends after at most five calls of the parser for every image
      and store, because a window that is exactly the requested table always advances the phase. If it
      fails, then because the parser does, or because the store answers a request short: then the
      result is that answer, whatever it is. If it succeeds, it has seen all headers, or it has stopped
      before a table that starts beyond what it has read, in a store that cannot seek; and in such a store
      it never asks for such a table once segments can be loaded. */
  method LoadHeaders(loader: ElfLoader, img: seq<Byte>, first: nat, seek: bool, answer: Store)
    returns (ok: bool, ret: int, last: LoadState, ghost calls: nat, ghost refused: Maybe<(nat, nat)>, ghost end: nat)
    requires loader.info == None && loader.Packed() && 5 <= first <= |img| && Honest(img, answer)
    modifies loader
    ensures loader.Packed() && 1 <= calls <= 5
    ensures ok ==> loader.info.Some? && Stopped(loader.info.value, seek, end)
    ensures refused.Some? && last.loader.ReadyToLoad? ==> seek || refused.value.0 <= end
    ensures ok ==>
      && ret == 0 && refused == None
      && loader.info.Some? && InfoOk(img, loader.info.value) && loader.info.value.state == last
      && last.loader.ReadyToLoad? && last.seg == 0
    ensures !ok && refused.None? ==> ret == -RPROC_EINVAL
    ensures refused.Some? ==>
      && !ok && Requested(img, loader.info, refused.value)
      && ret == answer(refused.value.0, refused.value.1) < refused.value.1
    ensures HeadersFit(img) && Exact(img, answer) ==> ok
    ensures first < EhdrSize(img) && answer(0, EhdrSize(img)) < EhdrSize(img) ==> refused == Some((0, EhdrSize(img)))
  {
    var off: nat, win := 0, Deliver(img, 0, first);
    last, calls, refused, end := INIT, 0, None, first;
    ghost var exact := false;
    while true
      invariant TrueWindow(img, off, win) && Resumable(img, off, win, loader.info, last) && NoDataYet(loader.info)
      invariant loader.Packed() && calls <= HdrRank(last.hdr) + (if exact then 1 else 0) && HdrRank(last.hdr) <= 4
      invariant exact ==> ExactWindow(img, off, win, loader.info, last)
      invariant !exact ==> last == INIT && |win| == first && calls == 0
      invariant first < EhdrSize(img) && answer(0, EhdrSize(img)) < EhdrSize(img) ==> !exact
      decreases 4 - HdrRank(last.hdr), if exact then 0 else 1
    {
      var r, req := CallHeader(loader, img, win, off, last);
      calls, end := calls + 1, off + |win|;
      if r.Error? {
        return false, r.code, last, calls, None, end;
      }
      last := r.state;
      var nlen := if req.Ask? then req.len else 0;
      if last.loader.ReadyToLoad? && nlen == 0 {
        return true, 0, last, calls, None, end;
      }
      var noff := req.off;
      if last.loader.ReadyToLoad? && noff > off + |win| && !seek {
        return true, 0, last, calls, None, end;
      }
      var got := answer(noff, nlen);
      if got < nlen {
        return false, got, last, calls, Some((noff, nlen)), end;
      }
      off, win, exact := noff, Deliver(img, noff, nlen), true;
    }
  }

  /** Where the header loop stops when it succeeds. */
  ghost predicate Stopped(i: Info, seek: bool, end: nat) {
    AllHeaders(i) || (!seek && Wanted(i).Some? && Wanted(i).value.0 > end)
  }

  function ClassSize(c: Byte): nat { if c == ELFCLASS64 then 64 else 52 }

  /** The header loop for any first window in which the magic number can be found. A window of four bytes
      ends before the class of the image, which the first call then reads from the byte behind the
      window, whatever that is: it asks for a header of that class, and the loop goes on with this
      larger window. */
  method LoadFromFirst(loader: ElfLoader, img: seq<Byte>, first: nat, stray: Byte, seek: bool, answer: Store)
    returns (ok: bool, ret: int, last: LoadState, ghost calls: nat, ghost refused: Maybe<(nat, nat)>, ghost end: nat)
    requires loader.info == None && loader.Packed() && 4 <= first <= |img| && Honest(img, answer)
    modifies loader
    ensures loader.Packed() && 1 <= calls <= 6
    ensures ok ==> loader.info.Some? && Stopped(loader.info.value, seek, end)
    ensures refused.Some? && last.loader.ReadyToLoad? ==> seek || refused.value.0 <= end
    ensures ok ==>
      && ret == 0 && refused == None
      && loader.info.Some? && InfoOk(img, loader.info.value) && loader.info.value.state == last
      && last.loader.ReadyToLoad? && last.seg == 0
    ensures !ok && refused.None? ==> ret == -RPROC_EINVAL
    ensures refused.Some? ==> !ok && ret == answer(refused.value.0, refused.value.1) < refused.value.1
    ensures HeadersFit(img) && Exact(img, answer) && (first == 4 ==> ClassSize(stray) <= |img|) ==> ok
    ensures first == 4 && answer(0, ClassSize(stray)) < ClassSize(stray) ==> refused == Some((0, ClassSize(stray)))
    ensures 4 < first < EhdrSize(img) && answer(0, EhdrSize(img)) < EhdrSize(img) ==>
      refused == Some((0, EhdrSize(img)))
  {
    var size := first;
    calls, end := 0, first;
    if first == 4 {
      var seen := Deliver(img, 0, 4) + [stray];
      ShortWindow(seen);
      var r, req := loader.LoadHeader(seen, 0, INIT);
      calls := 1;
      var got := answer(req.off, req.len);
      if got < req.len {
        return false, got, INIT, calls, Some((req.off, req.len)), end;
      }
      size := req.len;
    }
    ghost var more;
    ok, ret, last, more, refused, end := LoadHeaders(loader, img, size, seek, answer);
    calls := calls + more;
  }

  lemma ShortWindow(win: seq<Byte>)
    requires |win| == 5
    ensures LoadHeader(win, 0, None, INIT) == Parsed(None, State(INIT), Ask(0, ClassSize(win[4])))
  {
    assert Field(win, EI_CLASS, BYTE) == win[4] + 256 * Field(win, EI_CLASS + 1, 0);
  }
}
