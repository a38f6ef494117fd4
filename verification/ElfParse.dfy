/** The resumable ELF header parser on values, and its agreement with a one-shot parse of the
    whole image. */
module ElfParse {
  import opened Wrappers
  import opened ElfFormat
  import opened ElfState

  const RPROC_EINVAL: int := 2

  /** What the loader has copied out of the image so far. */
  datatype Info = Info(ehdr: seq<Byte>, state: LoadState, phdrs: Maybe<seq<Byte>>, shdrs: Maybe<seq<Byte>>,
                       shstrtab: Maybe<seq<Byte>>)

  /** The out-parameters noffset and nlen: untouched, set to a request, or nlen set to zero. */
  datatype Request = Untouched | Ask(off: nat, len: nat) | Nothing

  datatype Ret = State(state: LoadState) | Error(code: int)

  datatype Parsed = Parsed(info: Maybe<Info>, ret: Ret, req: Request)

  predicate Covers(off: nat, len: nat, toff: nat, tsize: nat) {
    off <= toff && toff + tsize <= off + len
  }

  function Slice(win: seq<Byte>, off: nat, toff: nat, tsize: nat): seq<Byte>
    requires Covers(off, |win|, toff, tsize)
  {
    win[toff - off..toff - off + tsize]
  }

  /** The last phase of elf_load_header: the section name string table. */
  function ParseShstrtab(win: seq<Byte>, off: nat, info: Info, last: LoadState): Parsed {
    if info.state.hdr != WaitShstrtab then Parsed(Some(info), State(last), Untouched)
    else if info.shdrs.None? || ShStrNdx(info.ehdr) >= ShNum(info.ehdr) then
      Parsed(Some(info), Error(-RPROC_EINVAL), Untouched)
    else
      var s := ParseShdr(info.ehdr, info.shdrs.value, ShStrNdx(info.ehdr));
      if !Covers(off, |win|, s.offset, s.size) then Parsed(Some(info), State(info.state), Ask(s.offset, s.size))
      else
        var info' := info.(shstrtab := Some(Slice(win, off, s.offset, s.size)),
                           state := info.state.(hdr := HdrsComplete));
        Parsed(Some(info'), State(info'.state), Nothing)
  }

  function ParseShdrs(win: seq<Byte>, off: nat, info: Info, last: LoadState): Parsed {
    var h := info.ehdr;
    if info.state.hdr != WaitShdrs then ParseShstrtab(win, off, info, last)
    else if ShNum(h) == 0 then
      var info' := info.(state := info.state.(hdr := HdrsComplete));
      Parsed(Some(info'), State(info'.state), Nothing)
    else if !Covers(off, |win|, ShOff(h), ShTableSize(h)) then
      Parsed(Some(info), State(info.state), Ask(ShOff(h), ShTableSize(h)))
    else
      ParseShstrtab(win, off, info.(shdrs := Some(Slice(win, off, ShOff(h), ShTableSize(h))),
                                    state := info.state.(hdr := WaitShstrtab)), last)
  }

  function ParsePhdrs(win: seq<Byte>, off: nat, info: Info, last: LoadState): Parsed {
    var h := info.ehdr;
    if info.state != LoadState(NotReady, WaitPhdrs, 0) then ParseShdrs(win, off, info, last)
    else if !Covers(off, |win|, PhOff(h), PhTableSize(h)) then
      Parsed(Some(info), State(info.state), Ask(PhOff(h), PhTableSize(h)))
    else
      ParseShdrs(win, off, info.(phdrs := Some(Slice(win, off, PhOff(h), PhTableSize(h))),
                                 state := LoadState(ReadyToLoad, WaitShdrs, 0)), last)
  }

  function FreshInfo(ehdr: seq<Byte>): Info {
    Info(ehdr, LoadState(NotReady, WaitPhdrs, 0), None, None, None)
  }

  /** elf_load_header on the window win that starts at offset off of the image. */
  function LoadHeader(win: seq<Byte>, off: nat, info: Maybe<Info>, last: LoadState): Parsed {
    if last == INIT then
      if |win| < EhdrSize(win) then Parsed(info, State(last), Ask(0, EhdrSize(win)))
      else
        var e := win[..EhdrSize(win)];
        var info' := if info.Some? then info.value.(ehdr := e, state := LoadState(NotReady, WaitPhdrs, 0))
          else FreshInfo(e);
        ParsePhdrs(win, off, info', info'.state)
    else if info.None? || info.value.state != last then Parsed(info, Error(-RPROC_EINVAL), Untouched)
    else ParsePhdrs(win, off, info.value, last)
  }

  // ---- Windows of an image ----

  /** win is what the image holds from off on. */
  ghost predicate TrueWindow(img: seq<Byte>, off: nat, win: seq<Byte>) {
    off + |win| <= |img| && win == img[off..off + |win|]
  }

  function HdrRank(h: Hdr): nat {
    match h case HInit => 0 case WaitPhdrs => 1 case WaitShdrs => 2 case WaitShstrtab => 3 case HdrsComplete => 4
  }

  ghost predicate TableIs(img: seq<Byte>, t: Maybe<seq<Byte>>, off: nat, size: nat) {
    t.Some? && off + size <= |img| && t.value == img[off..off + size]
  }

  /** Everything copied in the phases passed is the slice of the whole image it should be, and the
      loader is ready as soon as the program headers are there. */
  ghost predicate CopiesRight(img: seq<Byte>, i: Info) {
    var h := i.ehdr;
    && EhdrSize(img) <= |img| && h == img[..EhdrSize(img)]
    && 1 <= HdrRank(i.state.hdr)
    && (i.state.loader.NotReady? <==> i.state.hdr.WaitPhdrs?)
    && (i.state.hdr.WaitPhdrs? ==> i == FreshInfo(h))
    && (HdrRank(i.state.hdr) >= 2 ==> TableIs(img, i.phdrs, PhOff(h), PhTableSize(h)))
    && (if i.state.hdr.WaitShstrtab? || (i.state.hdr.HdrsComplete? && ShNum(h) > 0)
        then TableIs(img, i.shdrs, ShOff(h), ShTableSize(h)) && ShNum(h) > 0 else i.shdrs.None?)
    && (if i.state.hdr.HdrsComplete? && ShNum(h) > 0
        then StrtabIs(img, i) else i.shstrtab.None?)
  }

  ghost predicate SameInfo(i: Info, j: Info) { i == j }

  /** The same, stated so that callers carry it without unfolding it. */
  ghost predicate InfoOk(img: seq<Byte>, i: Info) {
    forall j: Info :: SameInfo(i, j) ==> CopiesRight(img, j)
  }

  lemma OpenInfo(img: seq<Byte>, i: Info)
    requires InfoOk(img, i)
    ensures CopiesRight(img, i)
  {
    assert SameInfo(i, i);
  }

  /** Which loader states go with which header phases. */
  lemma InfoPhase(img: seq<Byte>, i: Info)
    requires InfoOk(img, i)
    ensures 1 <= HdrRank(i.state.hdr) && (i.state.loader.NotReady? <==> i.state.hdr.WaitPhdrs?)
  {
    OpenInfo(img, i);
  }

  ghost predicate StrtabIs(img: seq<Byte>, i: Info) {
    && i.shdrs.Some? && ShStrNdx(i.ehdr) < ShNum(i.ehdr)
    && var s := ParseShdr(i.ehdr, i.shdrs.value, ShStrNdx(i.ehdr));
    TableIs(img, i.shstrtab, s.offset, s.size)
  }

  /** The table the current phase waits for; None when there is nothing to wait for. */
  function Wanted(i: Info): Maybe<(nat, nat)> {
    var h := i.ehdr;
    match i.state.hdr
    case WaitPhdrs => Some((PhOff(h), PhTableSize(h)))
    case WaitShdrs => if ShNum(h) == 0 then None else Some((ShOff(h), ShTableSize(h)))
    case WaitShstrtab =>
      if i.shdrs.None? || ShStrNdx(h) >= ShNum(h) then None
      else var s := ParseShdr(h, i.shdrs.value, ShStrNdx(h)); Some((s.offset, s.size))
    case _ => None
  }

  /** What one call with a true window does: it keeps the copies right, never goes back a phase,
      asks for the table of the phase it stops in, and passes every phase whose table is in the window. */
  ghost predicate CallOk(img: seq<Byte>, win: seq<Byte>, off: nat, before: nat, p: Parsed) {
    && (p.ret.State? ==> before <= HdrRank(p.ret.state.hdr))
    && (p.info.Some? ==> InfoOk(img, p.info.value))
    && (p.ret.State? && p.ret.state != INIT ==> p.info.Some? && p.info.value.state == p.ret.state)
    && (p.req.Ask? && p.info.Some? ==>
          && Wanted(p.info.value) == Some((p.req.off, p.req.len))
          && !Covers(off, |win|, p.req.off, p.req.len))
    && (p.ret.State? && p.ret.state.hdr == HdrsComplete ==> !p.req.Ask?)
    && (p.ret.State? && 1 <= HdrRank(p.ret.state.hdr) < 4 ==> p.req.Ask?)
  }

  lemma SliceIsSlice(img: seq<Byte>, win: seq<Byte>, off: nat, toff: nat, tsize: nat)
    requires TrueWindow(img, off, win) && Covers(off, |win|, toff, tsize)
    ensures TableIs(img, Some(Slice(win, off, toff, tsize)), toff, tsize)
  {
    var s := Slice(win, off, toff, tsize);
    forall k | 0 <= k < tsize ensures s[k] == img[toff + k] {
      assert s[k] == win[toff - off + k];
    }
    assert s == img[toff..toff + tsize];
  }

  lemma ShstrtabCall(img: seq<Byte>, win: seq<Byte>, off: nat, i: Info, last: LoadState)
    requires TrueWindow(img, off, win) && InfoOk(img, i) && HdrRank(i.state.hdr) >= 3
    requires i.state.hdr.HdrsComplete? ==> last == i.state
    ensures CallOk(img, win, off, HdrRank(i.state.hdr), ParseShstrtab(win, off, i, last))
    ensures ParseShstrtab(win, off, i, last).info.Some?
  {
    OpenInfo(img, i);
    if i.state.hdr.WaitShstrtab? && ShStrNdx(i.ehdr) < ShNum(i.ehdr) {
      var s := ParseShdr(i.ehdr, i.shdrs.value, ShStrNdx(i.ehdr));
      if Covers(off, |win|, s.offset, s.size) { SliceIsSlice(img, win, off, s.offset, s.size); }
    }
  }

  lemma ShdrsCall(img: seq<Byte>, win: seq<Byte>, off: nat, i: Info, last: LoadState)
    requires TrueWindow(img, off, win) && InfoOk(img, i) && HdrRank(i.state.hdr) >= 2
    requires i.state.hdr.HdrsComplete? ==> last == i.state
    ensures CallOk(img, win, off, HdrRank(i.state.hdr), ParseShdrs(win, off, i, last))
    ensures ParseShdrs(win, off, i, last).info.Some?
  {
    OpenInfo(img, i);
    var h := i.ehdr;
    if !i.state.hdr.WaitShdrs? {
      ShstrtabCall(img, win, off, i, last);
    } else if ShNum(h) > 0 && Covers(off, |win|, ShOff(h), ShTableSize(h)) {
      SliceIsSlice(img, win, off, ShOff(h), ShTableSize(h));
      var i' := i.(shdrs := Some(Slice(win, off, ShOff(h), ShTableSize(h))), state := i.state.(hdr := WaitShstrtab));
      ShstrtabCall(img, win, off, i', last);
    }
  }

  lemma PhdrsCall(img: seq<Byte>, win: seq<Byte>, off: nat, i: Info)
    requires TrueWindow(img, off, win) && InfoOk(img, i)
    ensures CallOk(img, win, off, HdrRank(i.state.hdr), ParsePhdrs(win, off, i, i.state))
    ensures ParsePhdrs(win, off, i, i.state).info.Some?
  {
    OpenInfo(img, i);
    var h := i.ehdr;
    if i.state != LoadState(NotReady, WaitPhdrs, 0) {
      ShdrsCall(img, win, off, i, i.state);
    } else if Covers(off, |win|, PhOff(h), PhTableSize(h)) {
      SliceIsSlice(img, win, off, PhOff(h), PhTableSize(h));
      var i' := i.(phdrs := Some(Slice(win, off, PhOff(h), PhTableSize(h))),
                   state := LoadState(ReadyToLoad, WaitShdrs, 0));
      ShdrsCall(img, win, off, i', i.state);
    }
  }

  /** The class byte decides the header size; it is the same in the window and in the image. */
  lemma SameClass(img: seq<Byte>, n: nat)
    requires 5 <= n <= |img|
    ensures EhdrSize(img[..n]) == EhdrSize(img)
  {
    FieldPrefix(img, n, EI_CLASS, BYTE);
  }

  /** The state before a call: nothing read yet and the window at the start of the image, or a good
      record whose state is passed back in. */
  ghost predicate Resumable(img: seq<Byte>, off: nat, win: seq<Byte>, info: Maybe<Info>, last: LoadState) {
    if last == INIT then info.None? && off == 0 && 5 <= |win|
    else info.Some? && InfoOk(img, info.value) && info.value.state == last
  }

  /** One call of elf_load_header on any true window. */
  lemma HeaderCall(img: seq<Byte>, win: seq<Byte>, off: nat, info: Maybe<Info>, last: LoadState)
    requires TrueWindow(img, off, win) && Resumable(img, off, win, info, last)
    ensures CallOk(img, win, off, HdrRank(last.hdr), LoadHeader(win, off, info, last))
    ensures var p := LoadHeader(win, off, info, last);
      p.ret == State(INIT) ==> p.info.None? && p.req == Ask(0, EhdrSize(img)) && |win| < EhdrSize(img)
    ensures var p := LoadHeader(win, off, info, last); p.ret != State(INIT) ==> p.info.Some?
  {
    if last == INIT {
      assert win == img[..|win|];
      SameClass(img, |win|);
      if EhdrSize(img) <= |win| {
        assert win[..EhdrSize(img)] == img[..EhdrSize(img)];
        var i := FreshInfo(img[..EhdrSize(img)]);
        PhdrsCall(img, win, off, i);
      }
    } else {
      PhdrsCall(img, win, off, info.value);
    }
  }

  /** A call that does not advance the phase changes nothing. */
  lemma StuckCall(win: seq<Byte>, off: nat, i: Info)
    requires 1 <= HdrRank(i.state.hdr)
    ensures var p := LoadHeader(win, off, Some(i), i.state);
      p.ret.State? && p.ret.state.hdr == i.state.hdr ==> p.info == Some(i)
  {}

  /** A call given exactly the table it waits for advances the phase or fails. */
  lemma ExactWindowAdvances(img: seq<Byte>, win: seq<Byte>, off: nat, i: Info)
    requires TrueWindow(img, off, win) && InfoOk(img, i) && Wanted(i) == Some((off, |win|))
    ensures var p := LoadHeader(win, off, Some(i), i.state);
      p.ret.State? ==> HdrRank(i.state.hdr) < HdrRank(p.ret.state.hdr)
  {
    HeaderCall(img, win, off, Some(i), i.state);
    StuckCall(win, off, i);
  }

  // ---- Any sequence of windows ----

  datatype Window = Window(off: nat, win: seq<Byte>)

  /** The parser after a sequence of calls, each given the state the previous one returned. */
  function Stream(ws: seq<Window>): Parsed {
    if ws == [] then Parsed(None, State(INIT), Untouched)
    else
      var p := Stream(ws[..|ws| - 1]);
      var w := ws[|ws| - 1];
      if p.ret.Error? then p else LoadHeader(w.win, w.off, p.info, p.ret.state)
  }

  /** Window k is true, and it starts at offset 0 if the header is not complete before it. */
  ghost predicate WindowOk(img: seq<Byte>, ws: seq<Window>, k: nat)
    requires k < |ws|
  {
    && TrueWindow(img, ws[k].off, ws[k].win)
    && (Stream(ws[..k]).ret == State(INIT) ==> ws[k].off == 0 && 5 <= |ws[k].win|)
  }

  ghost predicate TrueStream(img: seq<Byte>, ws: seq<Window>) {
    forall k: nat :: k < |ws| ==> WindowOk(img, ws, k)
  }

  lemma StreamPrefix(img: seq<Byte>, ws: seq<Window>, n: nat)
    requires TrueStream(img, ws) && n <= |ws|
    ensures TrueStream(img, ws[..n])
  {
    forall k: nat | k < n ensures WindowOk(img, ws[..n], k) {
      assert WindowOk(img, ws, k);
      assert ws[..n][..k] == ws[..k];
    }
  }

  /** However the image is cut into windows, what has been copied is right. */
  lemma {:induction false} StreamOk(img: seq<Byte>, ws: seq<Window>)
    requires TrueStream(img, ws)
    ensures var p := Stream(ws);
      && (p.info.Some? ==> InfoOk(img, p.info.value))
      && (p.ret.State? && p.ret.state == INIT ==> p.info.None?)
      && (p.ret.State? && p.ret.state != INIT ==> p.info.Some? && p.info.value.state == p.ret.state)
    decreases |ws|
  {
    if ws != [] {
      var n := |ws| - 1;
      StreamPrefix(img, ws, n);
      StreamOk(img, ws[..n]);
      assert WindowOk(img, ws, n);
      var p, w := Stream(ws[..n]), ws[n];
      if p.ret.State? {
        HeaderCall(img, w.win, w.off, p.info, p.ret.state);
      }
    }
  }

  /** The phase never goes backwards as more windows arrive. */
  lemma {:induction false} PhaseMonotone(img: seq<Byte>, ws: seq<Window>, n: nat)
    requires TrueStream(img, ws) && n <= |ws| && Stream(ws).ret.State?
    ensures Stream(ws[..n]).ret.State?
    ensures HdrRank(Stream(ws[..n]).ret.state.hdr) <= HdrRank(Stream(ws).ret.state.hdr)
    decreases |ws|
  {
    if n == |ws| {
      assert ws[..n] == ws;
    } else {
      var m := |ws| - 1;
      StreamPrefix(img, ws, m);
      StreamOk(img, ws[..m]);
      assert WindowOk(img, ws, m);
      HeaderCall(img, ws[m].win, ws[m].off, Stream(ws[..m]).info, Stream(ws[..m]).ret.state);
      PhaseMonotone(img, ws[..m], n);
      assert ws[..m][..n] == ws[..n];
    }
  }

  /** A streaming parse that completes its headers has the same record as one call on the whole image. */
  lemma StreamEqualsOneShot(img: seq<Byte>, ws: seq<Window>)
    requires TrueStream(img, ws) && Stream(ws).ret.State? && Stream(ws).ret.state.hdr.HdrsComplete?
    ensures Stream(ws).info == LoadHeader(img, 0, None, INIT).info
    ensures LoadHeader(img, 0, None, INIT).req == Nothing
  {
    StreamOk(img, ws);
    NoDataStream(ws);
    InfoPhase(img, Stream(ws).info.value);
    OneShotIs(img, Stream(ws).info.value);
  }

  /** While only headers are read the cursor stays at 0 and the loader is at most "ready". */
  ghost predicate NoDataYet(m: Maybe<Info>) {
    m.Some? ==> m.value.state.seg == 0 && !m.value.state.loader.PostDataLoad? && !m.value.state.loader.LoadComplete?
  }

  lemma NoDataShdrs(win: seq<Byte>, off: nat, i: Info, last: LoadState)
    requires NoDataYet(Some(i))
    ensures NoDataYet(ParseShdrs(win, off, i, last).info)
  {}

  lemma NoDataPhdrs(win: seq<Byte>, off: nat, i: Info, last: LoadState)
    requires NoDataYet(Some(i))
    ensures NoDataYet(ParsePhdrs(win, off, i, last).info)
  {
    var h := i.ehdr;
    if i.state != LoadState(NotReady, WaitPhdrs, 0) {
      NoDataShdrs(win, off, i, last);
    } else if Covers(off, |win|, PhOff(h), PhTableSize(h)) {
      NoDataShdrs(win, off, i.(phdrs := Some(Slice(win, off, PhOff(h), PhTableSize(h))),
                               state := LoadState(ReadyToLoad, WaitShdrs, 0)), last);
    }
  }

  lemma NoDataCall(win: seq<Byte>, off: nat, info: Maybe<Info>, last: LoadState)
    requires NoDataYet(info)
    ensures NoDataYet(LoadHeader(win, off, info, last).info)
  {
    if last != INIT {
      if info.Some? { NoDataPhdrs(win, off, info.value, last); }
    } else if EhdrSize(win) <= |win| {
      var wait := LoadState(NotReady, WaitPhdrs, 0);
      var e := win[..EhdrSize(win)];
      NoDataPhdrs(win, off, if info.Some? then info.value.(ehdr := e, state := wait) else FreshInfo(e), wait);
    }
  }

  lemma {:induction false} NoDataStream(ws: seq<Window>)
    ensures NoDataYet(Stream(ws).info)
    decreases |ws|
  {
    if ws != [] {
      var n := |ws| - 1;
      NoDataStream(ws[..n]);
      var p := Stream(ws[..n]);
      if p.ret.State? { NoDataCall(ws[n].win, ws[n].off, p.info, p.ret.state); }
    }
  }

  lemma OneShotIs(img: seq<Byte>, i: Info)
    requires InfoOk(img, i) && i.state == LoadState(ReadyToLoad, HdrsComplete, 0)
    ensures LoadHeader(img, 0, None, INIT) == Parsed(Some(i), State(i.state), Nothing)
  {
    OpenInfo(img, i);
    var h := i.ehdr;
    assert 5 <= |img|;
    assert img[..|img|] == img;
    var i1 := FreshInfo(h);
    var i2 := i1.(phdrs := i.phdrs, state := LoadState(ReadyToLoad, WaitShdrs, 0));
    assert LoadHeader(img, 0, None, INIT) == ParsePhdrs(img, 0, i1, i1.state);
    assert ParsePhdrs(img, 0, i1, i1.state) == ParseShdrs(img, 0, i2, i1.state);
    if ShNum(h) > 0 {
      var i3 := i2.(shdrs := i.shdrs, state := LoadState(ReadyToLoad, WaitShstrtab, 0));
      assert ParseShdrs(img, 0, i2, i1.state) == ParseShstrtab(img, 0, i3, i1.state);
    }
  }
}
