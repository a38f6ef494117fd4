/** The endpoint registry over whole runs. Each locked section is one step, and so is each part of a call
    that runs without the lock: rpmsg_create_ept registers, decides whether to announce, and withdraws
    the endpoint when the announcement fails; the receive callback looks up an endpoint and then binds
    it. Any other events may come between these steps. */
module Binding {
  import opened Wrappers
  import opened RpmsgErrors
  import opened RpmsgEndpoint
  import opened Registry

  /** How far the create call of a registered endpoint has got. */
  datatype Stage = Listed | Announcing

  /** A message on its way to the endpoint that was looked up for it. */
  datatype Delivery = Delivery(id: Endpoint, src: nat)

  datatype State = State(reg: Reg, ns: bool, creating: map<Endpoint, Stage>, routed: Maybe<Delivery>)

  datatype Event =
    | ERegister(id: Endpoint, name: seq<char>, src: nat, dest: nat)
    | EDecide(id: Endpoint)
    | EAnnounced(id: Endpoint, result: int)
    | EDestroy(id: Endpoint)
    | ERoute(dst: nat, src: nat)
    | EBind
    | EAnnounce(len: nat, nm: seq<char>, remote: nat, destroy: bool)

  function Step(w: State, e: Event): State {
    match e
    case ERegister(id, name, src, dest) =>
      var (r, status) := Register(w.reg, id, name, src, dest);
      w.(reg := r, creating := if status == RPMSG_SUCCESS then w.creating[id := Listed] else w.creating)
    case EDecide(id) =>
      w.(creating := if ToAnnounce(w.reg, w.ns, id) then w.creating[id := Announcing] else w.creating - {id})
    case EAnnounced(id, result) => w.(reg := Announced(w.reg, id, result), creating := w.creating - {id})
    case EDestroy(id) => w.(reg := Unregister(w.reg, id))
    case ERoute(dst, src) =>
      w.(routed := match Route(w.reg, dst) case Some(id) => Some(Delivery(id, src)) case None => None)
    case EBind =>
      w.(reg := match w.routed case Some(d) => BindFirst(w.reg, d.id, d.src) case None => w.reg, routed := None)
    case EAnnounce(len, nm, remote, destroy) => w.(reg := Announce(w.reg, len, nm, remote, destroy))
  }

  /** An endpoint structure may not be created twice, nor destroyed while it is being created; addresses
      are 32-bit; there is one receive loop. */
  predicate Legal(w: State, e: Event) {
    match e
    case ERegister(id, _, src, _) => src <= ADDR_ANY && Index(w.reg.eps, id) == |w.reg.eps| && id !in w.creating
    case EDecide(id) => id in w.creating && w.creating[id].Listed?
    case EAnnounced(id, _) => id in w.creating && w.creating[id].Announcing?
    case EDestroy(id) => id !in w.creating
    case ERoute(_, _) => w.routed.None?
    case EBind => w.routed.Some?
    case EAnnounce(_, _, _, _) => true
  }

  function Start(ns: bool): State { State(Empty(), ns, map[], None) }

  ghost predicate Leads(w: State, e: Event, w': State) { Legal(w, e) && w' == Step(w, e) }

  ghost predicate StepAt(ws: seq<State>, es: seq<Event>, i: nat) {
    i < |es| && i + 1 < |ws| && Leads(ws[i], es[i], ws[i + 1])
  }

  ghost predicate IsRun(ns: bool, ws: seq<State>, es: seq<Event>) {
    |ws| == |es| + 1 && ws[0] == Start(ns) && forall i: nat :: i < |es| ==> StepAt(ws, es, i)
  }

  // ---- Whole calls ----

  /** With nothing in between, the steps of a create are rpmsg_create_ept. */
  lemma CreateIsSteps(w: State, id: Endpoint, name: seq<char>, src: nat, dest: nat, result: int)
    requires Agrees(w.reg) && Legal(w, ERegister(id, name, src, dest))
    ensures var (r, status) := Create(w.reg, id, name, src, dest, w.ns, result);
      var w1 := Step(w, ERegister(id, name, src, dest));
      if !Grants(w.reg, src) then w1 == w.(reg := r) && status != RPMSG_SUCCESS
      else
        && Legal(w1, EDecide(id))
        && var w2 := Step(w1, EDecide(id));
        if id !in w2.creating then w2 == w.(reg := r) && status == RPMSG_SUCCESS
        else Legal(w2, EAnnounced(id, result)) && Step(w2, EAnnounced(id, result)) == w.(reg := r)
  {
    RegisterAgrees(w.reg, id, name, src, dest);
    assert w.creating[id := Listed] - {id} == w.creating;
    assert w.creating[id := Listed][id := Announcing] - {id} == w.creating;
  }

  /** With nothing in between, the two steps of a delivery are the receive callback. */
  lemma ReceiveIsSteps(w: State, dst: nat, src: nat)
    requires w.routed.None?
    ensures var w1 := Step(w, ERoute(dst, src));
      (if w1.routed.Some? then Step(w1, EBind) else w1) == w.(reg := Receive(w.reg, dst, src))
  {}

  /** Whether an endpoint is announced is decided by what it is at that moment: it has a name, the device
      supports names and it has not been bound since it was listed. */
  lemma DecideExact(w: State, id: Endpoint)
    requires Legal(w, EDecide(id)) && Index(w.reg.eps, id) < |w.reg.eps|
    ensures var e, w' := w.reg.eps[Index(w.reg.eps, id)], Step(w, EDecide(id));
      && (id in w'.creating && w'.creating[id].Announcing? <==> e.name != [] && w.ns && e.dest == 0xFFFF_FFFF)
      && (id in w'.creating ==> w'.creating[id].Announcing?)
      && w'.reg == w.reg && w'.routed == w.routed
  {}

  // ---- Agreement ----

  ghost predicate InList(r: Reg, id: Endpoint) { Index(r.eps, id) < |r.eps| }

  /** Bitmap and list agree, and an endpoint that is being created is in the list. */
  ghost predicate Good(w: State) {
    Agrees(w.reg) && forall id :: id in w.creating ==> InList(w.reg, id)
  }

  /** How a list changes in a step, seen from one endpoint. */
  lemma {:induction false} AppendIndex(eps: seq<Ept>, e: Ept, id: Endpoint)
    requires Index(eps, id) < |eps|
    ensures Index(eps + [e], id) == Index(eps, id)
  {
    var all := eps + [e];
    var i, k := Index(eps, id), Index(all, id);
    assert all[i] == eps[i];
    assert forall j :: 0 <= j < |eps| ==> all[j] == eps[j];
  }

  /** The entry of an endpoint in the list. */
  function Entry(r: Reg, id: Endpoint): (e: Ept)
    requires Index(r.eps, id) < |r.eps|
    ensures e.id == id
  {
    r.eps[Index(r.eps, id)]
  }

  /** An unregistered endpoint is gone. */
  lemma OwnEntryGone(r: Reg, id: Endpoint)
    requires Agrees(r)
    ensures !InList(Unregister(r, id), id)
  {
    var at, eps := Index(r.eps, id), Unregister(r, id).eps;
    RemoveAt(r.eps, id);
    if at < |r.eps| {
      assert eps == Drop(r.eps, at);
      forall k | 0 <= k < |eps| ensures eps[k].id != id {
        assert if k < at then PairOk(r.eps, k, at) else PairOk(r.eps, at, k + 1);
      }
    }
  }

  lemma DropIndex(eps: seq<Ept>, at: nat, id: Endpoint)
    requires at < |eps| && Index(eps, id) < |eps| && Index(eps, id) != at
    ensures var d := Drop(eps, at); Index(d, id) < |d| && d[Index(d, id)] == eps[Index(eps, id)]
  {
    var d, i := Drop(eps, at), Index(eps, id);
    var j := if i < at then i else i - 1;
    assert d[j] == eps[i];
    assert forall k :: 0 <= k < j ==> d[k].id != id;
  }

  /** Unregistering one endpoint leaves the entries of the others. */
  lemma UnregisterEntry(r: Reg, id: Endpoint, id': Endpoint)
    requires id != id' && InList(r, id')
    ensures InList(Unregister(r, id), id') && Entry(Unregister(r, id), id') == Entry(r, id')
  {
    var at, r' := Index(r.eps, id), Unregister(r, id);
    UnregisterList(r, id, r');
    if at < |r.eps| { DropIndex(r.eps, at, id'); }
  }

  lemma UnregisterList(r: Reg, id: Endpoint, r': Reg)
    requires r' == Unregister(r, id)
    ensures r'.eps == if Index(r.eps, id) < |r.eps| then Drop(r.eps, Index(r.eps, id)) else r.eps
  {
    RemoveAt(r.eps, id);
  }

  /** Rebinding leaves every entry but for the remote address of one. */
  lemma RebindEntry(r: Reg, i: nat, dest: nat, id: Endpoint)
    requires Agrees(r) && i < |r.eps| && InList(r, id)
    ensures var r' := r.(eps := r.eps[i := r.eps[i].(dest := dest)]);
      InList(r', id) && Entry(r', id) == Entry(r, id).(dest := Entry(r', id).dest)
  {
    var r' := r.(eps := r.eps[i := r.eps[i].(dest := dest)]);
    RebindAgrees(r, i, dest);
    var k := Index(r.eps, id);
    assert r'.eps[k].id == id;
    IndexOfEntry(r', k);
  }

  /** The event takes the endpoint off the list. */
  predicate Removes(e: Event, id: Endpoint) {
    (e.EDestroy? && e.id == id) || (e.EAnnounced? && e.id == id && e.result < 0)
  }

  /** A listed endpoint stays listed, with its name and address, until it is destroyed or withdrawn. */
  lemma EntryStep(w: State, e: Event, id: Endpoint)
    requires Agrees(w.reg) && Legal(w, e) && InList(w.reg, id) && !Removes(e, id)
    ensures InList(Step(w, e).reg, id)
    ensures Entry(Step(w, e).reg, id) == Entry(w.reg, id).(dest := Entry(Step(w, e).reg, id).dest)
  {
    match e {
      case ERegister(id', name, src, dest) =>
        RegisterAgrees(w.reg, id', name, src, dest);
        if Grants(w.reg, src) { AppendIndex(w.reg.eps, Ept(id', CName(name), GrantedAddr(w.reg, src), dest), id); }
      case EDecide(_) =>
      case EAnnounced(id', result) => if result < 0 { UnregisterEntry(w.reg, id', id); }
      case EDestroy(id') => UnregisterEntry(w.reg, id', id);
      case ERoute(_, _) =>
      case EBind =>
        var i := Index(w.reg.eps, w.routed.value.id);
        if i < |w.reg.eps| { RebindEntry(w.reg, i, w.routed.value.src, id); }
      case EAnnounce(len, nm, remote, destroy) =>
        var i := Find(w.reg.eps, true, nm, ADDR_ANY, remote, 0);
        if i < |w.reg.eps| { RebindEntry(w.reg, i, if destroy then ADDR_ANY else remote, id); }
    }
  }

  lemma StepAgrees(w: State, e: Event)
    requires Agrees(w.reg) && Legal(w, e)
    ensures Agrees(Step(w, e).reg)
  {
    match e {
      case ERegister(id, name, src, dest) => RegisterAgrees(w.reg, id, name, src, dest);
      case EDecide(_) =>
      case EAnnounced(id, result) => if result < 0 { UnregisterAgrees(w.reg, id); }
      case EDestroy(id) => UnregisterAgrees(w.reg, id);
      case ERoute(_, _) =>
      case EBind => BindFirstAgrees(w.reg, w.routed.value.id, w.routed.value.src);
      case EAnnounce(len, nm, remote, destroy) =>
        var i := Find(w.reg.eps, true, nm, ADDR_ANY, remote, 0);
        if i < |w.reg.eps| { RebindAgrees(w.reg, i, if destroy then ADDR_ANY else remote); }
    }
  }

  /** Only its own registration brings an endpoint into creation. */
  lemma CreatingStep(w: State, e: Event, id: Endpoint)
    requires Agrees(w.reg) && Legal(w, e) && id in Step(w, e).creating
    ensures id in w.creating || (e.ERegister? && e.id == id && Grants(w.reg, e.src))
    ensures id in w.creating ==> !Removes(e, id)
  {
    if e.ERegister? { RegisterAgrees(w.reg, e.id, e.name, e.src, e.dest); }
  }

  lemma StepGood(w: State, e: Event)
    requires Good(w) && Legal(w, e)
    ensures Good(Step(w, e))
  {
    StepAgrees(w, e);
    forall id | id in Step(w, e).creating ensures InList(Step(w, e).reg, id) {
      CreatingStep(w, e, id);
      if id in w.creating {
        EntryStep(w, e, id);
      } else {
        RegisterAgrees(w.reg, e.id, e.name, e.src, e.dest);
      }
    }
  }

  /** In every reachable state bit b is set exactly if an endpoint has address 1024 + b, dynamic
      addresses are unique and no endpoint has the "any" address. An endpoint whose announcement is
      under way is in the list, so its withdrawal finds its device. */
  lemma {:induction false} RegistryAgreement(ns: bool, ws: seq<State>, es: seq<Event>, i: nat)
    requires IsRun(ns, ws, es) && i < |ws|
    ensures Good(ws[i]) && !Registered(ws[i].reg, ADDR_ANY)
  {
    if i == 0 {
      assert forall b: nat :: b < BMP_SIZE ==> BitOk(ws[0].reg, b);
    } else {
      RegistryAgreement(ns, ws, es, i - 1);
      assert StepAt(ws, es, i - 1);
      StepGood(ws[i - 1], es[i - 1]);
    }
    RoutingExact(ws[i].reg, ADDR_ANY);
  }

  // ---- What a failed create leaves behind ----

  /** The entry of an endpoint as its registration made it, but for its remote address. */
  ghost predicate EntryIs(r: Reg, id: Endpoint, name: seq<char>, addr: nat) {
    InList(r, id) && Entry(r, id) == Ept(id, CName(name), addr, Entry(r, id).dest)
  }

  lemma {:induction false} CreatingSince(ns: bool, ws: seq<State>, es: seq<Event>, i: nat, j: nat, id: Endpoint)
    requires IsRun(ns, ws, es) && i < j < |ws| && id in ws[j].creating
    requires forall k: nat :: i < k < j ==> !(es[k].ERegister? && es[k].id == id)
    requires es[i].ERegister? && es[i].id == id
    ensures Grants(ws[i].reg, es[i].src) && EntryIs(ws[j].reg, id, es[i].name, GrantedAddr(ws[i].reg, es[i].src))
    decreases j
  {
    RegistryAgreement(ns, ws, es, j - 1);
    assert StepAt(ws, es, j - 1);
    CreatingStep(ws[j - 1], es[j - 1], id);
    if j == i + 1 {
      RegisterAgrees(ws[i].reg, id, es[i].name, es[i].src, es[i].dest);
    } else {
      CreatingSince(ns, ws, es, i, j - 1, id);
      EntryStep(ws[j - 1], es[j - 1], id);
    }
  }

  /** A create that registers its endpoint at i and fails at j to announce it leaves the registry as the
      events in between have made it, without that endpoint: exactly its entry is gone, which still had
      the name and the address from i and any remote address it had been bound to, and its dynamic
      address is free again. */
  lemma FailedCreateLeaves(ns: bool, ws: seq<State>, es: seq<Event>, i: nat, j: nat, id: Endpoint)
    requires IsRun(ns, ws, es) && i < j < |es|
    requires es[i].ERegister? && es[i].id == id
    requires es[j].EAnnounced? && es[j].id == id && es[j].result < 0
    requires forall k: nat :: i < k < j ==> !(es[k].ERegister? && es[k].id == id)
    ensures Grants(ws[i].reg, es[i].src) && EntryIs(ws[j].reg, id, es[i].name, GrantedAddr(ws[i].reg, es[i].src))
    ensures Withdrawn(ws[j].reg, ws[j + 1].reg, id, GrantedAddr(ws[i].reg, es[i].src))
  {
    RegistryAgreement(ns, ws, es, j);
    assert StepAt(ws, es, j);
    CreatingSince(ns, ws, es, i, j, id);
    WithdrawLeaves(ws[j].reg, id);
  }

  /** Exactly the entry of id is gone, and its dynamic address is free again. */
  ghost predicate Withdrawn(r: Reg, r': Reg, id: Endpoint, addr: nat) {
    && InList(r, id) && r'.eps == Drop(r.eps, Index(r.eps, id)) && !InList(r', id)
    && r'.bits == ReleaseAddress(r.bits, addr)
    && (RESERVED <= addr ==> Registered(r, addr) && !Registered(r', addr))
  }

  lemma WithdrawLeaves(r: Reg, id: Endpoint)
    requires Agrees(r) && InList(r, id)
    ensures Withdrawn(r, Unregister(r, id), id, Entry(r, id).addr)
  {
    var at, r' := Index(r.eps, id), Unregister(r, id);
    assert AddrOk(r.eps[at]);
    RemoveAt(r.eps, id);
    OwnEntryGone(r, id);
    if RESERVED <= r.eps[at].addr {
      AddressGone(r, at);
      SameList(r', Reg(Drop(r.eps, at), r.bits), r.eps[at].addr);
    }
  }

  lemma SameList(r: Reg, r': Reg, addr: nat)
    requires r.eps == r'.eps
    ensures Registered(r, addr) <==> Registered(r', addr)
  {}

  // ---- Binding ----

  /** In every run a message is delivered to an endpoint with its destination address, and the step that
      binds gives this endpoint, if it is still listed, the source of the message as its remote exactly if
      it has none; no other entry and no bit changes. */
  lemma RouteInRun(ns: bool, ws: seq<State>, es: seq<Event>, k: nat)
    requires IsRun(ns, ws, es) && k < |es| && es[k].ERoute?
    ensures ws[k + 1].reg == ws[k].reg && (ws[k + 1].routed.Some? <==> Registered(ws[k].reg, es[k].dst))
    ensures var d := ws[k + 1].routed; d.Some? ==>
      d.value.src == es[k].src && InList(ws[k].reg, d.value.id) && Entry(ws[k].reg, d.value.id).addr == es[k].dst
  {
    assert StepAt(ws, es, k);
    RegistryAgreement(ns, ws, es, k);
    RoutingExact(ws[k].reg, es[k].dst);
    var i := Find(ws[k].reg.eps, false, [], es[k].dst, ADDR_ANY, 0);
    if i < |ws[k].reg.eps| { IndexOfEntry(ws[k].reg, i); }
  }

  lemma BindInRun(ns: bool, ws: seq<State>, es: seq<Event>, k: nat)
    requires IsRun(ns, ws, es) && k < |es| && es[k].EBind?
    ensures ws[k].routed.Some? && ws[k + 1].routed.None?
    ensures var r, d := ws[k].reg, ws[k].routed.value;
      if InList(r, d.id) then
        var dest := Entry(r, d.id).dest;
        Rebound(r, ws[k + 1].reg, Index(r.eps, d.id), if dest == 0xFFFF_FFFF then d.src else dest)
      else ws[k + 1].reg == r
  {
    assert StepAt(ws, es, k);
  }

  /** A destruction that is announced for an endpoint that has its name alone does unbind it, in every run. */
  lemma DestroyUnbinds(ns: bool, ws: seq<State>, es: seq<Event>, k: nat, id: Endpoint, name: seq<char>, d: nat)
    requires IsRun(ns, ws, es) && k < |es| && es[k] == EAnnounce(40, name, d, true) && Bound(ws[k].reg, id, name, d)
    requires forall i :: 0 <= i < |ws[k].reg.eps| && i != Index(ws[k].reg.eps, id) ==>
      CName(ws[k].reg.eps[i].name) != CName(name)
    ensures Bound(ws[k + 1].reg, id, name, 0xFFFF_FFFF)
  {
    assert StepAt(ws, es, k);
    RegistryAgreement(ns, ws, es, k);
    var r, r', at := ws[k].reg, ws[k + 1].reg, Index(ws[k].reg.eps, id);
    AnnounceExact(r, name, d, true);
    assert FirstAddressed(r.eps, name, d, at);
    assert Rebound(r, r', at, 0xFFFF_FFFF);
    RegistryAgreement(ns, ws, es, k + 1);
    IndexOfEntry(r', at);
  }

  /** Endpoint id is registered under this name and bound to remote d. */
  ghost predicate Bound(r: Reg, id: Endpoint, name: seq<char>, d: nat) {
    InList(r, id) && CName(Entry(r, id).name) == CName(name) && Entry(r, id).dest == d
  }

  /** The only events that may end the binding of id to d. */
  predicate Unbinds(e: Event, id: Endpoint, name: seq<char>, d: nat) {
    || Removes(e, id)
    || (e.EAnnounce? && e.destroy && e.len == NS_MSG_SIZE && CName(e.nm) == CName(name) && e.remote == d)
  }

  /** An announcement that binds or unbinds an endpoint bound to d is a matching destroy announcement. */
  lemma AnnounceKeeps(r: Reg, e: Event, id: Endpoint, name: seq<char>, d: nat)
    requires Agrees(r) && Bound(r, id, name, d) && d != ADDR_ANY && e.EAnnounce? && !Unbinds(e, id, name, d)
    ensures Bound(Announce(r, e.len, e.nm, e.remote, e.destroy), id, name, d)
  {
    var at, i := Index(r.eps, id), Find(r.eps, true, e.nm, ADDR_ANY, e.remote, 0);
    assert AddrOk(r.eps[at]);
    if e.len == NS_MSG_SIZE && i < |r.eps| {
      var dest := if e.destroy then ADDR_ANY else e.remote;
      RebindEntry(r, i, dest, id);
      RebindAgrees(r, i, dest);
      IndexOfEntry(Announce(r, e.len, e.nm, e.remote, e.destroy), at);
      if i == at { assert !e.destroy ==> e.remote == d; }
    }
  }

  /** A first message binds only endpoints that are not bound. */
  lemma BindKeeps(r: Reg, id': Endpoint, src: nat, id: Endpoint, name: seq<char>, d: nat)
    requires Agrees(r) && Bound(r, id, name, d) && d != ADDR_ANY
    ensures Bound(BindFirst(r, id', src), id, name, d)
  {
    var i := Index(r.eps, id');
    if i < |r.eps| && r.eps[i].dest == ADDR_ANY {
      assert id != id';
      RebindEntry(r, i, src, id);
      RebindAgrees(r, i, src);
      IndexOfEntry(BindFirst(r, id', src), Index(r.eps, id));
    }
  }

  lemma BindingStep(w: State, e: Event, id: Endpoint, name: seq<char>, d: nat)
    requires Agrees(w.reg) && Legal(w, e) && Bound(w.reg, id, name, d) && d != ADDR_ANY && !Unbinds(e, id, name, d)
    ensures Bound(Step(w, e).reg, id, name, d)
  {
    EntryStep(w, e, id);
    match e {
      case ERegister(id', nm, src, dest) =>
        RegisterAgrees(w.reg, id', nm, src, dest);
        if Grants(w.reg, src) { AppendIndex(w.reg.eps, Ept(id', CName(nm), GrantedAddr(w.reg, src), dest), id); }
      case EDecide(_) =>
      case EAnnounced(id', result) => if result < 0 { UnregisterEntry(w.reg, id', id); }
      case EDestroy(id') => UnregisterEntry(w.reg, id', id);
      case ERoute(_, _) =>
      case EBind => BindKeeps(w.reg, w.routed.value.id, w.routed.value.src, id, name, d);
      case EAnnounce(_, _, _, _) => AnnounceKeeps(w.reg, e, id, name, d);
    }
  }

  lemma BindingInRun(ns: bool, ws: seq<State>, es: seq<Event>, k: nat, id: Endpoint, name: seq<char>, d: nat)
    requires IsRun(ns, ws, es) && k < |es| && Bound(ws[k].reg, id, name, d) && d != ADDR_ANY
    requires !Unbinds(es[k], id, name, d)
    ensures Bound(ws[k + 1].reg, id, name, d)
  {
    RegistryAgreement(ns, ws, es, k);
    assert StepAt(ws, es, k);
    BindingStep(ws[k], es[k], id, name, d);
  }

  /** A bound endpoint keeps its remote address through any received messages, announcements and
      creation or destruction of other endpoints, until it is destroyed itself, its own announcement
      fails, or a destroy announcement with its name and that address arrives. */
  lemma {:induction false} BindingSafety(ns: bool, ws: seq<State>, es: seq<Event>, i: nat, j: nat, id: Endpoint,
                                         name: seq<char>, d: nat)
    requires IsRun(ns, ws, es) && i <= j < |ws| && Bound(ws[i].reg, id, name, d) && d != ADDR_ANY
    requires forall k :: i <= k < j ==> !Unbinds(es[k], id, name, d)
    ensures Bound(ws[j].reg, id, name, d)
    decreases j
  {
    if i < j {
      BindingSafety(ns, ws, es, i, j - 1, id, name, d);
      BindingInRun(ns, ws, es, j - 1, id, name, d);
    }
  }

  /** A failing announcement does end a binding: a remote announces the name while this endpoint's own
      announcement is under way, which then fails. */
  lemma BoundThenWithdrawn(id: Endpoint, name: seq<char>, d: nat) returns (ws: seq<State>, es: seq<Event>)
    requires CName(name) != [] && d < ADDR_ANY
    ensures IsRun(true, ws, es) && |es| == 4
    ensures Bound(ws[3].reg, id, name, d) && !InList(ws[4].reg, id)
    ensures forall k :: 0 <= k < |es| ==> !es[k].EDestroy? && !(es[k].EAnnounce? && es[k].destroy)
  {
    var e0, e1 := ERegister(id, name, 1, ADDR_ANY), EDecide(id);
    var e2, e3 := EAnnounce(NS_MSG_SIZE, name, d, false), EAnnounced(id, -1);
    var w1, w2 := OnlyEntry(Start(true), id, name, e0, e1);
    var w3, w4 := BoundMeanwhile(w2, id, name, d, e2, e3);
    ws, es := [Start(true), w1, w2, w3, w4], [e0, e1, e2, e3];
  }

  lemma OnlyEntry(w: State, id: Endpoint, name: seq<char>, e: Event, e': Event) returns (w1: State, w2: State)
    requires w == Start(true) && CName(name) != [] && e == ERegister(id, name, 1, ADDR_ANY) && e' == EDecide(id)
    ensures Leads(w, e, w1) && Leads(w1, e', w2)
    ensures w2.reg.eps == [Ept(id, CName(name), 1, ADDR_ANY)] && id in w2.creating && w2.creating[id].Announcing?
  {
    w1 := Step(w, e);
    assert w1.reg.eps == [Ept(id, CName(name), 1, ADDR_ANY)];
    w2 := Step(w1, e');
  }

  lemma BoundMeanwhile(w: State, id: Endpoint, name: seq<char>, d: nat, e: Event, e': Event)
    returns (w1: State, w2: State)
    requires w.reg.eps == [Ept(id, CName(name), 1, ADDR_ANY)] && id in w.creating && w.creating[id].Announcing?
    requires d < ADDR_ANY && e == EAnnounce(NS_MSG_SIZE, name, d, false) && e' == EAnnounced(id, -1)
    ensures Leads(w, e, w1) && Leads(w1, e', w2) && Bound(w1.reg, id, name, d) && !InList(w2.reg, id)
  {
    w1 := Step(w, e);
    CNameTwice(name, NAME_SIZE);
    assert Matches(w.reg.eps[0], true, name, ADDR_ANY, d);
    assert w1.reg.eps == [Ept(id, CName(name), 1, d)];
    w2 := Step(w1, e');
    assert w2.reg.eps == [];
  }

  lemma {:induction false} CNameTwice(s: seq<char>, k: nat)
    ensures CPrefix(CPrefix(s, k), k) == CPrefix(s, k)
    decreases k
  {
    if k > 0 && s != [] && s[0] != '\0' {
      CNameTwice(s[1..], k - 1);
      assert CPrefix(s, k)[1..] == CPrefix(s[1..], k - 1);
    }
  }
}
