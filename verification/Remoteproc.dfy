/** remoteproc_load: the header loop, then the loop that issues the segments and finishes the headers,
    over an image store that may refuse requests. */
module Remoteproc {
  import opened Wrappers
  import opened ElfFormat
  import opened ElfState
  import opened ElfParse
  import opened ElfLoader
  import opened Placement
  import opened ImageTable
  import opened HeaderLoop
  import opened SegmentCursor

  // ---- Calls of the data operation ----

  /** Header parsing after the program headers moves only the header phase. */
  lemma HeaderKeepsCursor(win: seq<Byte>, off: nat, i: Info)
    requires HdrRank(i.state.hdr) >= 2
    ensures var p := LoadHeader(win, off, Some(i), i.state);
      && p.info.Some?
      && p.info.value.state.loader == i.state.loader && p.info.value.state.seg == i.state.seg
  {}

  ghost predicate LoaderOk(loader: ElfLoader, img: seq<Byte>, last: LoadState)
    reads loader
  {
    && loader.Packed() && loader.info.Some? && InfoOk(img, loader.info.value) && loader.info.value.state == last
    && !last.loader.NotReady?
  }

  /** Moving the segment cursor does not disturb the copied tables. */
  lemma CursorMoves(img: seq<Byte>, i: Info, l: Loader, seg: Cursor)
    requires InfoOk(img, i) && !i.state.loader.NotReady? && !l.NotReady?
    ensures InfoOk(img, i.(state := LoadState(l, i.state.hdr, seg)))
  {
    OpenInfo(img, i);
  }

  lemma FinishedInfo(img: seq<Byte>, m: Maybe<Info>)
    requires m.Some? ==> InfoOk(img, m.value)
    ensures m.Some? && !m.value.state.loader.NotReady? ==>
      InfoOk(img, m.value.(state := m.value.state.(loader := LoadComplete)))
  {
    if m.Some? && !m.value.state.loader.NotReady? { CursorMoves(img, m.value, LoadComplete, m.value.state.seg); }
  }

  /** What the loader parses from its cursor on is the walk over the image's table. */
  lemma WalkFacts(img: seq<Byte>, i: Info, hs: seq<Phdr>)
    requires InfoOk(img, i) && i.state.loader.ReadyToLoad? && TableOf(img, hs) && i.state.seg <= |hs|
    ensures PhNum(i.ehdr) == |hs|
    ensures NextSegment(i, i.state.seg, ANY_ADDR, 0) == NextIn(hs, i.state.seg, ANY_ADDR, 0)
    ensures NextIn(hs, i.state.seg, ANY_ADDR, 0).next <= |hs|
  {
    OpenInfo(img, i);
    CopiedTable(img, i, hs, 0);
    WalkIsNextIn(img, i, hs, i.state.seg, ANY_ADDR, 0);
    NextInMeans(hs, i.state.seg, ANY_ADDR, 0);
  }

  /** The state after an issue. */
  ghost predicate Advanced(hs: seq<Phdr>, w: SegWalk, st: LoadState) {
    st.loader == (if w.found && w.next == |hs| then PostDataLoad else ReadyToLoad) && st.seg == w.next % 256
  }

  /** A call of the loader's data operation while segments remain. */
  method CallReady(loader: ElfLoader, img: seq<Byte>, win: seq<Byte>, off: nat, last: LoadState, ghost hs: seq<Phdr>)
    returns (r: Ret, da: nat, noff: nat, nlen: nat, msize: nat)
    requires LoaderOk(loader, img, last) && last.loader.ReadyToLoad? && TableOf(img, hs) && last.seg <= |hs|
    modifies loader
    ensures r.State? && LoaderOk(loader, img, r.state)
    ensures var w := NextIn(hs, last.seg, ANY_ADDR, 0);
      Phdr(PT_LOAD, noff, da, nlen, msize) == Issue(w) && Advanced(hs, w, r.state)
    ensures old(AllHeaders(loader.info.value)) ==> AllHeaders(loader.info.value)
  {
    ghost var i := loader.info.value;
    WalkFacts(img, i, hs);
    r, da, noff, nlen, msize := loader.Load(win, off, last);
    CursorMoves(img, i, r.state.loader, r.state.seg);
  }

  /** A call of the loader's data operation after the last segment. */
  method CallPost(loader: ElfLoader, img: seq<Byte>, win: seq<Byte>, off: nat, last: LoadState)
    returns (r: Ret, da: nat, noff: nat, nlen: nat, msize: nat)
    requires LoaderOk(loader, img, last) && last.loader.PostDataLoad? && TrueWindow(img, off, win)
    modifies loader
    ensures r.Error? ==> r.code == -RPROC_EINVAL && !HeadersFit(img)
    ensures r.State? ==>
      LoaderOk(loader, img, r.state) && (r.state.loader.PostDataLoad? || r.state.loader.LoadComplete?)
    ensures da == ANY_ADDR && msize == 0
    ensures r.State? && r.state.loader.LoadComplete? ==> nlen == 0 && r.state.hdr.HdrsComplete?
    ensures r.State? && nlen == 0 ==> AllHeaders(loader.info.value)
    ensures r.State? && r.state.loader.PostDataLoad? && HeadersFit(img) ==> Fits(img, noff, nlen)
    ensures r.State? && r.state.loader.PostDataLoad? ==>
      && Wanted(loader.info.value) == Some((noff, nlen))
      && HdrRank(last.hdr) <= HdrRank(r.state.hdr)
      && (old(Wanted(loader.info.value)) == Some((off, |win|)) ==> HdrRank(last.hdr) < HdrRank(r.state.hdr))
  {
    ghost var i := loader.info.value;
    InfoPhase(img, i);
    CursorMoves(img, i, LoadComplete, i.state.seg);
    if !last.hdr.HdrsComplete? {
      HeaderCall(img, win, off, Some(i), last);
      FinishedInfo(img, LoadHeader(win, off, Some(i), last).info);
      HeaderKeepsCursor(win, off, i);
      HeaderErrorIsInval(win, off, Some(i), last);
      if HeadersFit(img) { NoHeaderError(img, win, off, Some(i), last); }
      if Wanted(i) == Some((off, |win|)) { ExactWindowAdvances(img, win, off, i); }
    }
    r, da, noff, nlen, msize := loader.Load(win, off, last);
    if r.State? && r.state.loader.PostDataLoad? && HeadersFit(img) { WantedFits(img, loader.info.value); }
  }

  // ---- Progress through the table ----

  /** What is being loaded: an image, its parsed table, the memories, and memory before the load. */
  datatype Job = Job(img: seq<Byte>, hs: seq<Phdr>, mems: seq<Mem>, phys0: Phys)

  /** What has been achieved when the entries before cur have been dealt with. */
  ghost predicate Progress(j: Job, phys: Phys, issued: seq<nat>, cur: nat) {
    && phys == PlaceUpto(j.phys0, j.img, j.mems, j.hs, cur)
    && issued == Loadable(j.hs, cur)
    && AllPlaceable(j.img, j.hs, j.mems, cur)
  }

  lemma ProgressSkips(j: Job, phys: Phys, issued: seq<nat>, n: nat, m: nat)
    requires Progress(j, phys, issued, n) && n <= m
    requires forall k: nat :: n <= k < m ==> !IsLoad(j.hs, k)
    ensures Progress(j, phys, issued, m)
  {
    SkipsNonLoadable(j.phys0, j.img, j.mems, j.hs, n, m);
  }

  lemma ProgressPlaces(j: Job, phys: Phys, issued: seq<nat>, k: nat)
    requires Progress(j, phys, issued, k) && IsLoad(j.hs, k) && Placeable(j.img, j.hs, j.mems, k)
    ensures var target := Target(j.hs, j.mems, k).value;
      Progress(j, PlaceSegment(phys, j.img, target, j.hs[k]), issued + [k], k + 1)
  {}

  /** The range has a memory behind it and lies in the image. */
  ghost predicate Present(img: seq<Byte>, mems: seq<Mem>, p: Phdr) {
    Translate(mems, p.vaddr, p.memsz).Some? && (p.filesz > 0 ==> p.offset + p.filesz <= |img|)
  }

  /** Memory after one issued range has been fetched and its remainder cleared. */
  ghost predicate Stored(img: seq<Byte>, mems: seq<Mem>, before: Phys, after: Phys, p: Phdr) {
    && Present(img, mems, p)
    && after == PlaceSegment(before, img, Translate(mems, p.vaddr, p.memsz).value, p)
  }

  /** Fetch one segment into the memory behind its device address and clear the rest of it. */
  method StoreSegment(img: seq<Byte>, answer: Store, mems: seq<Mem>, phys0: Phys,
                      da: nat, noff: nat, nlen: nat, msize: nat) returns (ok: bool, phys: Phys)
    requires Honest(img, answer)
    ensures ok ==> Stored(img, mems, phys0, phys, Phdr(PT_LOAD, noff, da, nlen, msize))
    ensures ok <==> Storable(answer, mems, Phdr(PT_LOAD, noff, da, nlen, msize))
    ensures ok <==> (exists i: nat :: FirstFor(mems, da, msize, i)) && (nlen > 0 ==> answer(noff, nlen) == nlen)
    ensures forall i: nat, b: nat :: ok && FirstFor(mems, da, msize, i) && nlen <= msize && b < msize ==>
      LaidAt(phys, img, mems[i], Phdr(PT_LOAD, noff, da, nlen, msize), b)
  {
    phys := phys0;
    var pa := Mmap(mems, da, msize);
    if pa.None? {
      return false, phys;
    }
    if nlen > 0 {
      var got := answer(noff, nlen);
      if got != nlen {
        return false, phys;
      }
      phys := WriteBytes(phys, pa.value, Deliver(img, noff, nlen));
    }
    if msize > nlen {
      phys := WriteZeros(phys, pa.value + nlen, msize - nlen);
    }
    ok := true;
    if nlen <= msize { StoredLaid(img, mems, phys0, phys, Phdr(PT_LOAD, noff, da, nlen, msize)); }
  }

  /** Byte b of a segment is where memory m has its device address, a file byte or a zero. */
  ghost predicate LaidAt(phys: Phys, img: seq<Byte>, m: Mem, p: Phdr, b: nat) {
    var a := m.pa + (p.vaddr + b - m.da);
    a in phys && if b < p.filesz then p.offset + b < |img| && phys[a] == img[p.offset + b] else phys[a] == 0
  }

  lemma StoredLaid(img: seq<Byte>, mems: seq<Mem>, before: Phys, after: Phys, p: Phdr)
    requires Stored(img, mems, before, after, p) && p.filesz <= p.memsz
    ensures forall i: nat, b: nat :: FirstFor(mems, p.vaddr, p.memsz, i) && b < p.memsz ==>
      LaidAt(after, img, mems[i], p, b)
  {
    SegmentHolds(before, img, Translate(mems, p.vaddr, p.memsz).value, p);
    HeldLaid(img, mems, after, p);
  }

  lemma HeldLaid(img: seq<Byte>, mems: seq<Mem>, phys: Phys, p: Phdr)
    requires Translate(mems, p.vaddr, p.memsz).Some?
    requires Holds(phys, img, Translate(mems, p.vaddr, p.memsz).value, p)
    ensures forall i: nat, b: nat :: FirstFor(mems, p.vaddr, p.memsz, i) && b < p.memsz ==>
      LaidAt(phys, img, mems[i], p, b)
  {
    TranslateExact(mems, p.vaddr, p.memsz);
    forall i: nat, b: nat | FirstFor(mems, p.vaddr, p.memsz, i) && b < p.memsz
      ensures LaidAt(phys, img, mems[i], p, b)
    {
      assert HoldsAt(phys, img, Translate(mems, p.vaddr, p.memsz).value, p, b);
    }
  }

  /** Every loadable segment has a memory and its bytes, and a trailing entry is mapped. */
  ghost predicate Loads(img: seq<Byte>, hs: seq<Phdr>, mems: seq<Mem>) {
    AllPlaceable(img, hs, mems, |hs|) && TrailingOk(hs, mems)
  }

  function IssuedBy(w: SegWalk): seq<nat>
    requires w.found ==> w.next > 0
  {
    if w.found && w.da != ANY_ADDR then [w.next - 1] else []
  }

  /** Storing what the walk handed out moves the progress to the new cursor. */
  lemma AfterStore(j: Job, before: Phys, after: Phys, issued: seq<nat>, n: nat)
    requires n <= |j.hs| && Progress(j, before, issued, n)
    requires var w := NextIn(j.hs, n, ANY_ADDR, 0); w.da != ANY_ADDR && Stored(j.img, j.mems, before, after, Issue(w))
    ensures var w := NextIn(j.hs, n, ANY_ADDR, 0);
      && n < w.next <= |j.hs|
      && Progress(j, after, issued + IssuedBy(w), w.next)
      && (w.next == |j.hs| ==> TrailingOk(j.hs, j.mems))
  {
    var w := NextIn(j.hs, n, ANY_ADDR, 0);
    NextInMeans(j.hs, n, ANY_ADDR, 0);
    if w.found {
      ProgressSkips(j, before, issued, n, w.next - 1);
      assert j.hs[w.next - 1] == Issue(w);
      ProgressPlaces(j, before, issued, w.next - 1);
    } else {
      ProgressSkips(j, before, issued, n, |j.hs|);
      assert after == before;
      assert issued + IssuedBy(w) == issued;
    }
  }

  /** A walk over regular segments that hands out no address has passed the whole table. */
  lemma AfterIdle(j: Job, phys: Phys, issued: seq<nat>, n: nat)
    requires n <= |j.hs| && Progress(j, phys, issued, n) && Regular(j.hs)
    requires NextIn(j.hs, n, ANY_ADDR, 0).da == ANY_ADDR && (n == |j.hs| ==> TrailingOk(j.hs, j.mems))
    ensures !NextIn(j.hs, n, ANY_ADDR, 0).found
    ensures Progress(j, phys, issued, |j.hs|) && TrailingOk(j.hs, j.mems)
  {
    NextInMeans(j.hs, n, ANY_ADDR, 0);
    ProgressSkips(j, phys, issued, n, |j.hs|);
  }

  /** If the image loads, whatever the walk hands out is present. */
  lemma LoadsMeansPresent(j: Job, n: nat)
    requires n <= |j.hs| && NextIn(j.hs, n, ANY_ADDR, 0).da != ANY_ADDR
    ensures Loads(j.img, j.hs, j.mems) ==> Present(j.img, j.mems, Issue(NextIn(j.hs, n, ANY_ADDR, 0)))
  {
    var w := NextIn(j.hs, n, ANY_ADDR, 0);
    NextInMeans(j.hs, n, ANY_ADDR, 0);
    assert w.found && Loads(j.img, j.hs, j.mems) ==> Placeable(j.img, j.hs, j.mems, w.next - 1);
  }

  // ---- The segment part of the data loop ----

  datatype Outcome = Continue | Leave | Fail

  /** What one round of the data loop does from cursor n on. */
  ghost predicate RoundDone(img: seq<Byte>, answer: Store, hs: seq<Phdr>, mems: seq<Mem>, n: nat, phys: Phys,
                            out: Outcome, ret: int, phys': Phys, st: LoadState, refused: Maybe<(nat, nat)>) {
    var w := NextIn(hs, n, ANY_ADDR, 0);
    && (RoundStep(answer, hs, mems, n) == if out.Continue? && st.loader.ReadyToLoad? then Some(st.seg) else None)
    && match out
       case Continue =>
         && Advanced(hs, w, st) && refused.None?
         && (if w.da != ANY_ADDR then Stored(img, mems, phys, phys', Issue(w)) else w.found && phys' == phys)
       case Leave =>
         && w.da == ANY_ADDR && phys' == phys && refused.None?
         && (w.found && w.filesz > 0 ==> w.next == |hs| && answer(w.noff, w.filesz) < w.filesz)
       case Fail =>
         if w.da != ANY_ADDR then !Storable(answer, mems, Issue(w)) && ret == -RPROC_EINVAL && refused.None?
         else
           && w.found && w.next != |hs|
           && refused == Some((w.noff, w.filesz)) && ret == answer(w.noff, w.filesz) < w.filesz
  }

  /** One iteration of the data loop while segments remain, for any table and any cursor in it. It fails
      because a segment cannot be stored or because a request is answered short, and then the result is
      the answer. The cursor moves as RoundStep says. */
  method LoadNext(loader: ElfLoader, img: seq<Byte>, answer: Store, mems: seq<Mem>, phys: Phys,
                  last: LoadState, off: nat, win: seq<Byte>, ghost hs: seq<Phdr>)
    returns (out: Outcome, ret: int, phys': Phys, last': LoadState, off': nat, win': seq<Byte>,
             ghost refused: Maybe<(nat, nat)>)
    requires TableOf(img, hs) && Honest(img, answer) && last.seg <= |hs|
    requires LoaderOk(loader, img, last) && last.loader.ReadyToLoad? && TrueWindow(img, off, win)
    modifies loader
    ensures !out.Fail? ==> LoaderOk(loader, img, last') && TrueWindow(img, off', win')
    ensures RoundDone(img, answer, hs, mems, last.seg, phys, out, ret, phys', last', refused)
    ensures old(AllHeaders(loader.info.value)) && loader.info.Some? ==> AllHeaders(loader.info.value)
  {
    NextInMeans(hs, last.seg, ANY_ADDR, 0);
    var r, da, noff, nlen, msize := CallReady(loader, img, win, off, last, hs);
    out, ret, phys', last', off', win', refused := Continue, 0, phys, r.state, off, win, None;
    if da != ANY_ADDR {
      var stored;
      stored, phys' := StoreSegment(img, answer, mems, phys, da, noff, nlen, msize);
      if !stored {
        out, ret := Fail, -RPROC_EINVAL;
      }
    } else if nlen == 0 {
      out := Leave;
    } else {
      var got := answer(noff, nlen);
      if got >= nlen {
        off', win' := noff, Deliver(img, noff, nlen);
      } else if last'.loader.PostDataLoad? {
        out := Leave;
      } else {
        out, ret, refused := Fail, got, Some((noff, nlen));
      }
    }
  }

  /** The segment part of the loop at table entry cur: everything before it has been dealt with, and what
      ends the loop is still ahead. */
  ghost predicate AtEntry(j: Job, answer: Store, phys: Phys, last: LoadState, issued: seq<nat>, cur: nat) {
    && cur <= |j.hs|
    && (last.loader.PostDataLoad? || last.loader.ReadyToLoad?)
    && (if last.loader.PostDataLoad? then cur == |j.hs|
        else cur <= 255 && last.seg == cur && EndsAfter(answer, j.hs, j.mems, cur))
    && (Regular(j.hs) ==> Progress(j, phys, issued, cur))
    && (Regular(j.hs) && cur == |j.hs| ==> TrailingOk(j.hs, j.mems))
  }

  /** A round that is not the last brings the loop to a later entry. */
  lemma EntryAfterRound(j: Job, answer: Store, before: Phys, after: Phys, last: LoadState, st: LoadState,
                        issued: seq<nat>, n: nat, ret: int)
    requires AtEntry(j, answer, before, last, issued, n) && last.loader.ReadyToLoad?
    requires RoundDone(j.img, answer, j.hs, j.mems, n, before, Continue, ret, after, st, None)
    ensures var w := NextIn(j.hs, n, ANY_ADDR, 0);
      && n < w.next && AtEntry(j, answer, after, st, issued + IssuedBy(w), w.next)
      && (st.loader.ReadyToLoad? && w.next == |j.hs| ==> !IsLoad(j.hs, w.next - 1))
  {
    var w := NextIn(j.hs, n, ANY_ADDR, 0);
    NextInMeans(j.hs, n, ANY_ADDR, 0);
    CursorStays(answer, j.hs, j.mems, n);
    if st.loader.ReadyToLoad? { EndStaysAhead(answer, j.hs, j.mems, n); }
    if Regular(j.hs) {
      if w.da == ANY_ADDR { AfterIdle(j, before, issued, n); } else { AfterStore(j, before, after, issued, n); }
    }
  }

  /** For regular segments, a round that leaves the loop has found everything dealt with, and a round
      that fails has met something that cannot be stored. */
  lemma EntryAtLast(j: Job, answer: Store, before: Phys, after: Phys, last: LoadState, st: LoadState,
                    issued: seq<nat>, n: nat, out: Outcome, ret: int, refused: Maybe<(nat, nat)>)
    requires AtEntry(j, answer, before, last, issued, n) && last.loader.ReadyToLoad? && Regular(j.hs)
    requires RoundDone(j.img, answer, j.hs, j.mems, n, before, out, ret, after, st, refused)
    ensures out.Leave? ==> Progress(j, after, issued, |j.hs|) && TrailingOk(j.hs, j.mems)
    ensures out.Leave? && n < |j.hs| ==> !IsLoad(j.hs, |j.hs| - 1)
    ensures out.Fail? ==> refused.None? && !(Loads(j.img, j.hs, j.mems) && Exact(j.img, answer))
  {
    NextInMeans(j.hs, n, ANY_ADDR, 0);
    if NextIn(j.hs, n, ANY_ADDR, 0).da == ANY_ADDR {
      AfterIdle(j, before, issued, n);
    } else {
      LoadsMeansPresent(j, n);
    }
  }

  /** The segment part of the data loop, up to the last loadable segment. It reports that the whole
      loop is finished when nothing more is asked for. */
  method LoadReady(loader: ElfLoader, img: seq<Byte>, answer: Store, mems: seq<Mem>, start: LoadState,
                   phys0: Phys, ghost j: Job)
    returns (ok: bool, ret: int, phys: Phys, last: LoadState, off: nat, win: seq<Byte>, finished: bool,
             ghost issued: seq<nat>, ghost refused: Maybe<(nat, nat)>)
    requires LoaderOk(loader, img, start) && start.loader.ReadyToLoad? && start.seg == 0
    requires j.img == img && j.mems == mems && j.phys0 == phys0 && TableOf(img, j.hs) && Honest(img, answer)
    requires Ends(answer, j.hs, mems)
    modifies loader
    ensures ok ==> LoaderOk(loader, img, last) && TrueWindow(img, off, win) && (!finished ==> last.loader.PostDataLoad?)
    ensures ok && Regular(j.hs) ==> Progress(j, phys, issued, |j.hs|) && TrailingOk(j.hs, mems)
    ensures Regular(j.hs) && Loads(img, j.hs, mems) && Exact(img, answer) ==> ok
    ensures ok ==> ret == 0 && refused.None?
    ensures !ok ==>
      ret == if refused.Some? then answer(refused.value.0, refused.value.1) else -RPROC_EINVAL
    ensures refused.Some? ==> !Regular(j.hs) && answer(refused.value.0, refused.value.1) < refused.value.1
    ensures ok ==> (old(AllHeaders(loader.info.value)) ==> AllHeaders(loader.info.value))
    ensures ok && finished && Regular(j.hs) ==> |j.hs| == 0 || !IsLoad(j.hs, |j.hs| - 1)
  {
    off, win, phys, last, issued, refused := 0, Deliver(img, 0, 0), phys0, start, [], None;
    ghost var cur: nat := 0;
    EndsFromStart(answer, j.hs, mems);
    while last.loader.ReadyToLoad?
      invariant LoaderOk(loader, img, last) && TrueWindow(img, off, win)
      invariant AtEntry(j, answer, phys, last, issued, cur) && refused.None?
      invariant old(AllHeaders(loader.info.value)) ==> AllHeaders(loader.info.value)
      invariant last.loader.ReadyToLoad? && cur == |j.hs| > 0 ==> !IsLoad(j.hs, cur - 1)
      decreases |j.hs| - cur
    {
      var out, phys', last';
      out, ret, phys', last', off, win, refused := LoadNext(loader, img, answer, mems, phys, last, off, win, j.hs);
      if !out.Continue? && Regular(j.hs) {
        EntryAtLast(j, answer, phys, phys', last, last', issued, cur, out, ret, refused);
      }
      if out.Fail? {
        return false, ret, phys', last', off, win, true, issued, refused;
      }
      if out.Leave? {
        return true, 0, phys', last', off, win, true, issued, None;
      }
      EntryAfterRound(j, answer, phys, phys', last, last', issued, cur, ret);
      ghost var w := NextIn(j.hs, cur, ANY_ADDR, 0);
      issued, cur, phys, last := issued + IssuedBy(w), w.next, phys', last';
    }
    ok, ret, finished := true, 0, false;
  }

  /** The data loop cut off after m rounds, for any table: whether it is still going on in the segment part
      is what RoundAfter says. */
  method FirstRounds(loader: ElfLoader, img: seq<Byte>, answer: Store, mems: seq<Mem>, start: LoadState, phys0: Phys,
                     m: nat, ghost hs: seq<Phdr>)
    returns (going: bool)
    requires LoaderOk(loader, img, start) && start.loader.ReadyToLoad? && start.seg == 0
    requires TableOf(img, hs) && Honest(img, answer)
    modifies loader
    ensures going <==> RoundAfter(answer, hs, mems, m).Some?
  {
    var off: nat, win, phys, last := 0, Deliver(img, 0, 0), phys0, start;
    going := true;
    for k := 0 to m
      invariant LoaderOk(loader, img, last) && last.loader.ReadyToLoad? && TrueWindow(img, off, win) && going
      invariant last.seg <= |hs| && RoundAfter(answer, hs, mems, k) == Some(last.seg)
    {
      going, phys, last, off, win := OneRound(loader, img, answer, mems, phys, last, off, win, hs);
      if !going {
        EndedStays(answer, hs, mems, k + 1, m);
        return;
      }
    }
  }

  method OneRound(loader: ElfLoader, img: seq<Byte>, answer: Store, mems: seq<Mem>, phys: Phys, last: LoadState,
                  off: nat, win: seq<Byte>, ghost hs: seq<Phdr>)
    returns (going: bool, phys': Phys, last': LoadState, off': nat, win': seq<Byte>)
    requires TableOf(img, hs) && Honest(img, answer) && last.seg <= |hs|
    requires LoaderOk(loader, img, last) && last.loader.ReadyToLoad? && TrueWindow(img, off, win)
    modifies loader
    ensures RoundStep(answer, hs, mems, last.seg) == if going then Some(last'.seg) else None
    ensures going ==>
      LoaderOk(loader, img, last') && last'.loader.ReadyToLoad? && TrueWindow(img, off', win') && last'.seg <= |hs|
  {
    var out, ret;
    ghost var refused;
    NextInMeans(hs, last.seg, ANY_ADDR, 0);
    out, ret, phys', last', off', win', refused := LoadNext(loader, img, answer, mems, phys, last, off, win, hs);
    going := out.Continue? && last'.loader.ReadyToLoad?;
  }

  /** The header part of the data loop, after the last segment: it ends because each exact answer
      advances the header phase, and a refused request just ends the loop. */
  method LoadPost(loader: ElfLoader, img: seq<Byte>, answer: Store, start: LoadState,
                  off0: nat, win0: seq<Byte>)
    returns (ok: bool, ret: int)
    requires LoaderOk(loader, img, start) && start.loader.PostDataLoad?
    requires TrueWindow(img, off0, win0) && Honest(img, answer)
    modifies loader
    ensures HeadersFit(img) ==> ok
    ensures if ok then ret == 0 else ret == -RPROC_EINVAL
    ensures ok ==> loader.info.Some? && InfoOk(img, loader.info.value)
    ensures Exact(img, answer) && HeadersFit(img) ==> AllHeaders(loader.info.value)
  {
    var off: nat, win, last := off0, win0, start;
    ghost var exact := false;
    while true
      invariant LoaderOk(loader, img, last) && last.loader.PostDataLoad? && TrueWindow(img, off, win)
      invariant exact ==> Wanted(loader.info.value) == Some((off, |win|))
      decreases 4 - HdrRank(last.hdr), if exact then 0 else 1
    {
      var r, da, noff, nlen, msize := CallPost(loader, img, win, off, last);
      if r.Error? {
        return false, r.code;
      }
      last := r.state;
      if nlen == 0 {
        return true, 0;
      }
      var got := answer(noff, nlen);
      if got < nlen {
        return true, 0;
      }
      off, win, exact := noff, Deliver(img, noff, nlen), true;
    }
  }

  // ---- The whole load ----

  /** remoteproc_load from opening the image on; first is what opening it answers, and stray is the byte
      behind a first window of four bytes. It demands no more than that its data loop ends. If it reports
      success, every loadable segment has been placed, in table order and each once. For an image with
      regular segments and fitting headers in a store that answers exactly, it succeeds if and only if
      every loadable segment has a memory and its bytes, and a trailing entry that is not loadable is
      mapped; with a first window of four bytes, as long as the image has the bytes of a header of the
      class that is read behind it. It fails with result 0 exactly if the request that ended it was
      answered with zero bytes; for regular segments that happens in the header loop, before anything is
      stored. The record that it hands out holds right copies of the headers, and of all of them in such
      a store if it can seek or the table ends in a loadable segment. */
  method Load(img: seq<Byte>, first: int, stray: Byte, seek: bool, answer: Store, mems: seq<Mem>, phys0: Phys)
    returns (ok: bool, ret: int, phys: Phys, info: Maybe<Info>, ghost issued: seq<nat>,
             ghost refused: Maybe<(nat, nat)>)
    requires first <= |img| && Honest(img, answer) && Ends(answer, Headers(img), mems)
    ensures ok ==> ret == 0 && refused.None?
    ensures refused.Some? ==> answer(refused.value.0, refused.value.1) < refused.value.1
    ensures !ok && ret == 0 <==> refused.Some? && answer(refused.value.0, refused.value.1) == 0
    ensures refused.Some? && Regular(Headers(img)) ==> phys == phys0 && issued == []
    ensures ok && Regular(Headers(img)) && PhdrsWhole(Ehdr(img)) ==>
      && Progress(Job(img, Headers(img), mems, phys0), phys, issued, |Headers(img)|)
      && TrailingOk(Headers(img), mems)
    ensures ok ==> info.Some? && InfoOk(img, info.value)
    ensures ok && Regular(Headers(img)) && HeadersFit(img) && Exact(img, answer) && SeesAll(Headers(img), seek) ==>
      AllHeaders(info.value)
    ensures first < 4 || img[..4] != ELF_MAGIC ==> !ok && ret == -RPROC_EINVAL
    ensures Regular(Headers(img)) && HeadersFit(img) && Exact(img, answer) && FirstIs(img, first, stray) ==>
      (ok <==> Loads(img, Headers(img), mems))
    ensures 5 <= first < EhdrSize(img) && img[..4] == ELF_MAGIC && answer(0, EhdrSize(img)) < EhdrSize(img) ==>
      refused == Some((0, EhdrSize(img)))
    ensures first == 4 && img[..4] == ELF_MAGIC && answer(0, ClassSize(stray)) < ClassSize(stray) ==>
      refused == Some((0, ClassSize(stray)))
  {
    phys, info, issued, refused := phys0, None, [], None;
    if first <= 0 {
      return false, -RPROC_EINVAL, phys, None, issued, None;
    }
    if first < 4 || img[..4] != ELF_MAGIC {
      return false, -RPROC_EINVAL, phys, None, issued, None;
    }
    ghost var j := Job(img, Headers(img), mems, phys0);
    var loader := new ElfLoader();
    var last;
    ghost var calls;
    ghost var end;
    ok, ret, last, calls, refused, end := LoadFromFirst(loader, img, first, stray, seek, answer);
    if !ok {
      return;
    }
    var off, win, finished;
    ok, ret, phys, last, off, win, finished, issued, refused :=
      LoadReady(loader, img, answer, mems, last, phys, j);
    if ok && !finished {
      ok, ret := LoadPost(loader, img, answer, last, off, win);
    }
    if ok {
      info := loader.info;
    }
  }

  /** The headers behind the segments are read before or after them. */
  ghost predicate SeesAll(hs: seq<Phdr>, seek: bool) { seek || (|hs| > 0 && IsLoad(hs, |hs| - 1)) }

  /** The first window shows an ELF image. */
  ghost predicate FirstIs(img: seq<Byte>, first: int, stray: Byte) {
    4 <= first <= |img| && img[..4] == ELF_MAGIC && (first == 4 ==> ClassSize(stray) <= |img|)
  }

  /** A store that delivers nothing. */
  function Unwilling(img: seq<Byte>): Store {
    (off: nat, len: nat) => if off + len <= |img| then 0 else -1
  }

  /** Loading can fail and report 0: the first window holds the magic number and the class but not the
      whole ELF header, and the store answers the request for the header with zero bytes. */
  method FailsWithZero(img: seq<Byte>, mems: seq<Mem>, phys0: Phys) returns (ok: bool, ret: int)
    requires 5 <= |img| && img[..4] == ELF_MAGIC && EhdrSize(img) <= |img| && Ends(Unwilling(img), Headers(img), mems)
    ensures !ok && ret == 0
  {
    var phys, info;
    ghost var issued, refused;
    ok, ret, phys, info, issued, refused := Load(img, 5, 0, true, Unwilling(img), mems, phys0);
  }

  /** The smallest such image: the magic number, the 32-bit class, and zeros. */
  method FailsWithZeroExample() returns (ok: bool, ret: int)
    ensures !ok && ret == 0
  {
    var img := ELF_MAGIC + [1] + seq(47, _ => 0 as Byte);
    SmallImage(img);
    LoopEndsExactly(Unwilling(img), Headers(img), []);
    ok, ret := FailsWithZero(img, [], map[]);
  }

  lemma SmallImage(img: seq<Byte>)
    requires |img| == 52 && img[4] == 1 && forall i :: 5 <= i < 52 ==> img[i] == 0
    ensures EhdrSize(img) == 52 && |Headers(img)| == 0
  {
    assert Field(img, EI_CLASS, BYTE) == img[4] + 256 * Field(img, EI_CLASS + 1, 0);
    assert Ehdr(img) == img;
    ZeroField(img, 44, HALF);
  }

  /** What success means for memory: each loadable segment that no later one overlaps is there, file
      bytes first and zeros up to its memory size, each byte where the first memory that holds the whole
      segment has its device address. */
  lemma LoadedImageIsCorrect(j: Job, phys: Phys, issued: seq<nat>, k: nat)
    requires Progress(j, phys, issued, |j.hs|)
    requires IsLoad(j.hs, k) && j.hs[k].filesz <= j.hs[k].memsz
    requires forall i: nat :: k < i < |j.hs| ==> Apart(j.hs, j.mems, k, i)
    ensures exists i: nat :: FirstFor(j.mems, j.hs[k].vaddr, j.hs[k].memsz, i)
    ensures forall i: nat, b: nat :: FirstFor(j.mems, j.hs[k].vaddr, j.hs[k].memsz, i) && b < j.hs[k].memsz ==>
      LaidAt(phys, j.img, j.mems[i], j.hs[k], b)
    ensures forall a, b :: 0 <= a < b < |issued| ==> issued[a] < issued[b]
    ensures forall i: nat :: i in issued <==> IsLoad(j.hs, i)
  {
    assert Placeable(j.img, j.hs, j.mems, k);
    PlacedStays(j.phys0, j.img, j.mems, j.hs, k, |j.hs|);
    TranslateExact(j.mems, j.hs[k].vaddr, j.hs[k].memsz);
    HeldLaid(j.img, j.mems, phys, j.hs[k]);
    LoadableExact(j.hs, |j.hs|);
  }
}
