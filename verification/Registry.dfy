/** Endpoint registry and name-service binding: the address bitmap, the list of endpoints, the
    dispatch of received messages and the handling of announcements, on values. */
module Registry {
  import opened Wrappers
  import opened RpmsgErrors
  import opened RpmsgEndpoint

  const ADDR_ANY: nat := 0xFFFF_FFFF
  const RESERVED: nat := 1024
  const BMP_SIZE: nat := 128
  const NAME_SIZE: nat := 32

  datatype Reg = Reg(eps: seq<Ept>, bits: seq<bool>)

  /** What strncpy and strncmp with the size of the name field see of a string. */
  function CName(s: seq<char>): seq<char> { CPrefix(s, NAME_SIZE) }

  function CPrefix(s: seq<char>, k: nat): seq<char>
    decreases k
  {
    if k == 0 || s == [] || s[0] == '\0' then [] else [s[0]] + CPrefix(s[1..], k - 1)
  }

  // ---- The address bitmap ----

  /** The first clear bit at or after i, or the size if there is none. */
  function NextClear(bits: seq<bool>, i: nat): (r: nat)
    requires i <= |bits|
    ensures i <= r <= |bits|
    ensures forall k :: i <= k < r ==> bits[k]
    ensures r < |bits| ==> !bits[r]
    decreases |bits| - i
  {
    if i == |bits| || !bits[i] then i else NextClear(bits, i + 1)
  }

  /** Conversion of a uint32_t argument to an int parameter. */
  function ToInt(addr: nat): int { if addr < 0x8000_0000 then addr else addr - 0x1_0000_0000 }

  function GetAddress(bits: seq<bool>): (nat, seq<bool>) {
    var b := NextClear(bits, 0);
    if b < |bits| then (RESERVED + b, bits[b := true]) else (ADDR_ANY, bits)
  }

  function ReleaseAddress(bits: seq<bool>, addr: nat): seq<bool> {
    var a := ToInt(addr) - RESERVED;
    if 0 <= a < |bits| then bits[a := false] else bits
  }

  function IsAddressSet(bits: seq<bool>, addr: nat): int {
    var a := ToInt(addr) - RESERVED;
    if 0 <= a < |bits| then (if bits[a] then 1 else 0) else RPMSG_ERR_PARAM
  }

  function SetAddress(bits: seq<bool>, addr: nat): seq<bool> {
    var a := ToInt(addr) - RESERVED;
    if 0 <= a < |bits| then bits[a := true] else bits
  }

  // ---- The list ----

  function Remove(eps: seq<Ept>, id: Endpoint): (r: seq<Ept>)
    ensures |r| <= |eps|
  {
    if eps == [] then [] else if eps[0].id == id then eps[1..] else [eps[0]] + Remove(eps[1..], id)
  }

  function Index(eps: seq<Ept>, id: Endpoint): (i: nat)
    ensures i <= |eps|
    ensures i < |eps| ==> eps[i].id == id
    ensures forall k :: 0 <= k < i ==> eps[k].id != id
  {
    if eps == [] then 0 else if eps[0].id == id then 0 else 1 + Index(eps[1..], id)
  }

  predicate Matches(e: Ept, named: bool, name: seq<char>, addr: nat, dest: nat) {
    || (addr != ADDR_ANY && e.addr == addr)
    || (addr == e.addr && dest == e.dest)
    || (named && CName(e.name) == CName(name) && dest != ADDR_ANY && e.dest == dest)
    || (named && CName(e.name) == CName(name) && addr == ADDR_ANY && e.dest == ADDR_ANY)
  }

  /** rpmsg_get_endpoint: the first endpoint that one of the four tests accepts. */
  function Find(eps: seq<Ept>, named: bool, name: seq<char>, addr: nat, dest: nat, i: nat): (r: nat)
    requires i <= |eps|
    ensures i <= r <= |eps|
    ensures r < |eps| ==> Matches(eps[r], named, name, addr, dest)
    ensures forall k :: i <= k < r ==> !Matches(eps[k], named, name, addr, dest)
    decreases |eps| - i
  {
    if i == |eps| || Matches(eps[i], named, name, addr, dest) then i
    else Find(eps, named, name, addr, dest, i + 1)
  }

  // ---- Operations ----

  function Unregister(r: Reg, id: Endpoint): Reg {
    var i := Index(r.eps, id);
    if i < |r.eps| then
      Reg(Remove(r.eps, id), if r.eps[i].addr != ADDR_ANY then ReleaseAddress(r.bits, r.eps[i].addr) else r.bits)
    else r
  }

  /** The locked section of rpmsg_create_ept: an address is reserved and the endpoint listed, or neither. */
  function Register(r: Reg, id: Endpoint, name: seq<char>, src: nat, dest: nat): (Reg, int) {
    var (addr, bits, status) :=
      if src == ADDR_ANY then
        var (a, b) := GetAddress(r.bits);
        (a, b, if a == ADDR_ANY then RPMSG_ERR_ADDR else RPMSG_SUCCESS)
      else if src >= RESERVED then
        var s := IsAddressSet(r.bits, src);
        (src, if s == 0 then SetAddress(r.bits, src) else r.bits, if s > 0 then RPMSG_ERR_ADDR else s)
      else (src, r.bits, RPMSG_SUCCESS);
    if status != RPMSG_SUCCESS then (Reg(r.eps, bits), status)
    else (Reg(r.eps + [Ept(id, CName(name), addr, dest)], bits), RPMSG_SUCCESS)
  }

  /** The test after that section, without the lock: whether the endpoint is to be announced. */
  predicate ToAnnounce(r: Reg, ns: bool, id: Endpoint) {
    var i := Index(r.eps, id);
    i < |r.eps| && r.eps[i].name != [] && ns && r.eps[i].dest == ADDR_ANY
  }

  /** The end of rpmsg_create_ept when an announcement was sent: its failure unregisters the endpoint. */
  function Announced(r: Reg, id: Endpoint, result: int): Reg {
    if result < 0 then Unregister(r, id) else r
  }

  /** rpmsg_create_ept when nothing intervenes; nsResult is what the announcement's send returns if one
      is sent. */
  function Create(r: Reg, id: Endpoint, name: seq<char>, src: nat, dest: nat, supportNs: bool, nsResult: int)
    : (Reg, int)
  {
    var (r', status) := Register(r, id, name, src, dest);
    if status == RPMSG_SUCCESS && ToAnnounce(r', supportNs, id)
    then (Announced(r', id, nsResult), if nsResult < 0 then nsResult else RPMSG_SUCCESS)
    else (r', status)
  }

  /** The first message to an endpoint binds it to the sender. */
  function BindFirst(r: Reg, id: Endpoint, src: nat): Reg {
    var i := Index(r.eps, id);
    if i < |r.eps| && r.eps[i].dest == ADDR_ANY then r.(eps := r.eps[i := r.eps[i].(dest := src)]) else r
  }

  /** The endpoint that a message is routed to. */
  function Route(r: Reg, dst: nat): Maybe<Endpoint> {
    var i := Find(r.eps, false, [], dst, ADDR_ANY, 0);
    if i < |r.eps| then Some(r.eps[i].id) else None
  }

  /** The receive callback when nothing intervenes. */
  function Receive(r: Reg, dst: nat, src: nat): Reg {
    match Route(r, dst) case Some(id) => BindFirst(r, id, src) case None => r
  }

  const NS_MSG_SIZE: nat := NAME_SIZE + 8

  /** The name-service callback: an announcement of the wrong size is ignored; destroy unbinds the
      endpoint found, create binds it. */
  function Announce(r: Reg, len: nat, name: seq<char>, remote: nat, destroy: bool): Reg {
    if len != NS_MSG_SIZE then r
    else
      var i := Find(r.eps, true, name, ADDR_ANY, remote, 0);
      if i < |r.eps| then r.(eps := r.eps[i := r.eps[i].(dest := if destroy then ADDR_ANY else remote)]) else r
  }

  function Empty(): Reg { Reg([], seq(BMP_SIZE, i => false)) }

  // ---- Agreement of bitmap and list ----

  ghost predicate Registered(r: Reg, addr: nat) {
    exists i :: 0 <= i < |r.eps| && r.eps[i].addr == addr
  }

  ghost predicate BitOk(r: Reg, b: nat) {
    b < |r.bits| && (r.bits[b] <==> Registered(r, RESERVED + b))
  }

  ghost predicate AddrOk(e: Ept) {
    e.addr < RESERVED + BMP_SIZE
  }

  /** Two positions hold different endpoints, and different addresses unless these are reserved. */
  ghost predicate PairOk(eps: seq<Ept>, i: nat, j: nat) {
    && i < |eps| && j < |eps|
    && eps[i].id != eps[j].id
    && (eps[i].addr == eps[j].addr ==> eps[i].addr < RESERVED)
  }

  ghost predicate Agrees(r: Reg) {
    && |r.bits| == BMP_SIZE
    && (forall b: nat :: b < BMP_SIZE ==> BitOk(r, b))
    && (forall i :: 0 <= i < |r.eps| ==> AddrOk(r.eps[i]))
    && (forall i: nat, j: nat :: i < j < |r.eps| ==> PairOk(r.eps, i, j))
  }

  lemma {:induction false} RemoveAt(eps: seq<Ept>, id: Endpoint)
    ensures var i := Index(eps, id);
      Remove(eps, id) == if i < |eps| then eps[..i] + eps[i + 1..] else eps
  {
    if eps != [] && eps[0].id != id {
      RemoveAt(eps[1..], id);
    }
  }

  /** The list without position i. */
  function Drop(eps: seq<Ept>, i: nat): (r: seq<Ept>)
    requires i < |eps|
    ensures |r| == |eps| - 1
    ensures forall k :: 0 <= k < |r| ==> r[k] == eps[if k < i then k else k + 1]
  {
    eps[..i] + eps[i + 1..]
  }

  lemma DropRegistered(r: Reg, i: nat, addr: nat)
    requires i < |r.eps|
    ensures Registered(Reg(Drop(r.eps, i), r.bits), addr) ==> Registered(r, addr)
    ensures Registered(r, addr) && r.eps[i].addr != addr ==> Registered(Reg(Drop(r.eps, i), r.bits), addr)
  {
    var d := Drop(r.eps, i);
    if Registered(r, addr) && r.eps[i].addr != addr {
      var k :| 0 <= k < |r.eps| && r.eps[k].addr == addr;
      assert d[if k < i then k else k - 1].addr == addr;
    }
  }

  /** Removing an endpoint and clearing its bit keeps agreement. */
  lemma DropAgrees(r: Reg, i: nat)
    requires Agrees(r) && i < |r.eps|
    ensures Agrees(Reg(Drop(r.eps, i), ReleaseAddress(r.bits, r.eps[i].addr)))
  {
    var d, e := Drop(r.eps, i), r.eps[i];
    var r' := Reg(d, ReleaseAddress(r.bits, e.addr));
    assert AddrOk(e);
    forall k | 0 <= k < |d| ensures AddrOk(d[k]) { assert AddrOk(r.eps[if k < i then k else k + 1]); }
    forall j: nat, k: nat | j < k < |d| ensures PairOk(d, j, k) {
      assert PairOk(r.eps, if j < i then j else j + 1, if k < i then k else k + 1);
    }
    forall b: nat | b < BMP_SIZE ensures BitOk(r', b) {
      assert BitOk(r, b);
      DropRegistered(r, i, RESERVED + b);
      assert Registered(r', RESERVED + b) <==> Registered(Reg(d, r.bits), RESERVED + b);
      if e.addr == RESERVED + b { AddressGone(r, i); }
    }
  }

  /** A dynamic address has no second owner. */
  lemma AddressGone(r: Reg, i: nat)
    requires Agrees(r) && i < |r.eps| && RESERVED <= r.eps[i].addr
    ensures !Registered(Reg(Drop(r.eps, i), r.bits), r.eps[i].addr)
  {
    var d := Drop(r.eps, i);
    forall k | 0 <= k < |d| ensures d[k].addr != r.eps[i].addr {
      assert if k < i then PairOk(r.eps, k, i) else PairOk(r.eps, i, k + 1);
    }
  }

  /** Unregistering frees exactly the address of that endpoint and removes no other. */
  lemma UnregisterAgrees(r: Reg, id: Endpoint)
    requires Agrees(r)
    ensures Agrees(Unregister(r, id))
    ensures var i := Index(r.eps, id);
      Unregister(r, id) ==
        if i < |r.eps| then Reg(Drop(r.eps, i), ReleaseAddress(r.bits, r.eps[i].addr)) else r
  {
    RemoveAt(r.eps, id);
    var i := Index(r.eps, id);
    if i < |r.eps| {
      assert AddrOk(r.eps[i]);
      DropAgrees(r, i);
    }
  }

  /** A new endpoint at the tail, with its bit set if its address is dynamic. */
  lemma AppendAgrees(r: Reg, e: Ept, bits: seq<bool>)
    requires Agrees(r) && AddrOk(e) && (forall i :: 0 <= i < |r.eps| ==> r.eps[i].id != e.id)
    requires RESERVED <= e.addr ==> !r.bits[e.addr - RESERVED] && bits == r.bits[e.addr - RESERVED := true]
    requires e.addr < RESERVED ==> bits == r.bits
    ensures Agrees(Reg(r.eps + [e], bits))
  {
    var r' := Reg(r.eps + [e], bits);
    if RESERVED <= e.addr { assert BitOk(r, e.addr - RESERVED); }
    forall i: nat, j: nat | i < j < |r'.eps| ensures PairOk(r'.eps, i, j) {
      assert j < |r.eps| ==> PairOk(r.eps, i, j);
    }
    forall k | 0 <= k < |r'.eps| ensures AddrOk(r'.eps[k]) { assert k < |r.eps| ==> AddrOk(r.eps[k]); }
    forall b: nat | b < BMP_SIZE ensures BitOk(r', b) {
      assert BitOk(r, b);
      if Registered(r, RESERVED + b) {
        var k :| 0 <= k < |r.eps| && r.eps[k].addr == RESERVED + b;
        assert r'.eps[k].addr == RESERVED + b;
      }
      assert r'.eps[|r.eps|] == e;
    }
  }

  /** Appending and then unregistering the same endpoint restores the registry. */
  lemma AppendUnregister(r: Reg, e: Ept, bits: seq<bool>)
    requires Agrees(r) && AddrOk(e) && (forall i :: 0 <= i < |r.eps| ==> r.eps[i].id != e.id)
    requires RESERVED <= e.addr ==> !r.bits[e.addr - RESERVED] && bits == r.bits[e.addr - RESERVED := true]
    requires e.addr < RESERVED ==> bits == r.bits
    ensures Unregister(Reg(r.eps + [e], bits), e.id) == r
  {
    var eps := r.eps + [e];
    LastIndex(r.eps, e);
    LastRemoved(r.eps, e);
    assert RESERVED <= e.addr ==> bits[e.addr - RESERVED := false] == r.bits;
  }

  lemma LastRemoved(eps: seq<Ept>, e: Ept)
    requires Index(eps + [e], e.id) == |eps|
    ensures Remove(eps + [e], e.id) == eps
  {
    RemoveAt(eps + [e], e.id);
  }

  /** The address and bitmap with which rpmsg_create_ept goes on, when it does. */
  ghost predicate Grants(r: Reg, src: nat) {
    && (src == ADDR_ANY ==> exists b :: 0 <= b < |r.bits| && !r.bits[b])
    && (RESERVED <= src < ADDR_ANY ==> src - RESERVED < |r.bits| && !r.bits[src - RESERVED])
  }

  function GrantedAddr(r: Reg, src: nat): nat {
    if src == ADDR_ANY then RESERVED + NextClear(r.bits, 0) else src
  }

  function GrantedBits(r: Reg, addr: nat): seq<bool> {
    if RESERVED <= addr < RESERVED + |r.bits| then r.bits[addr - RESERVED := true] else r.bits
  }

  predicate AnnounceFails(name: seq<char>, dest: nat, supportNs: bool, nsResult: int) {
    CName(name) != [] && supportNs && dest == ADDR_ANY && nsResult < 0
  }

  /** The address belongs to the first clear bit, counted from 1024. */
  ghost predicate LowestFree(bits: seq<bool>, addr: nat) {
    1024 <= addr < 1024 + |bits| && !bits[addr - 1024] && forall b :: 0 <= b < addr - 1024 ==> bits[b]
  }

  /** The locked section of rpmsg_create_ept in two outcomes: no address, registered. */
  lemma RegisterCases(r: Reg, id: Endpoint, name: seq<char>, src: nat, dest: nat)
    requires |r.bits| == BMP_SIZE && src <= ADDR_ANY
    ensures var (r', status) := Register(r, id, name, src, dest);
      var addr := GrantedAddr(r, src);
      if !Grants(r, src) then
        r' == r && status == if src == ADDR_ANY || src < RESERVED + BMP_SIZE then RPMSG_ERR_ADDR else RPMSG_ERR_PARAM
      else r' == Reg(r.eps + [Ept(id, CName(name), addr, dest)], GrantedBits(r, addr)) && status == RPMSG_SUCCESS
  {}

  /** Registering keeps agreement; unregistering the same endpoint at once restores the registry. */
  lemma RegisterAgrees(r: Reg, id: Endpoint, name: seq<char>, src: nat, dest: nat)
    requires Agrees(r) && src <= ADDR_ANY && Index(r.eps, id) == |r.eps|
    ensures var (r', status) := Register(r, id, name, src, dest);
      && Agrees(r')
      && (status == RPMSG_SUCCESS <==> Grants(r, src))
      && (status != RPMSG_SUCCESS ==> r' == r)
      && (status == RPMSG_SUCCESS ==>
            && r'.eps == r.eps + [Ept(id, CName(name), GrantedAddr(r, src), dest)] && Index(r'.eps, id) == |r.eps|
            && (src != ADDR_ANY ==> GrantedAddr(r, src) == src)
            && (src == ADDR_ANY ==> LowestFree(r.bits, GrantedAddr(r, src)))
            && (RESERVED <= GrantedAddr(r, src) ==> !Registered(r, GrantedAddr(r, src)))
            && Unregister(r', id) == r)
  {
    RegisterCases(r, id, name, src, dest);
    if Grants(r, src) {
      var addr := GrantedAddr(r, src);
      if RESERVED <= addr { assert BitOk(r, addr - RESERVED); }
      CreateAt(r, id, name, addr, dest, GrantedBits(r, addr));
      LastIndex(r.eps, Ept(id, CName(name), addr, dest));
    }
  }

  lemma LastIndex(eps: seq<Ept>, e: Ept)
    requires Index(eps, e.id) == |eps|
    ensures Index(eps + [e], e.id) == |eps|
  {
    var all := eps + [e];
    assert all[|eps|] == e;
    forall k | 0 <= k < |eps| ensures all[k].id != e.id { assert all[k] == eps[k]; }
  }

  /** Creating without interference keeps agreement. It succeeds exactly if an address can be granted and
      a needed announcement is sent; then one endpoint is added, at the tail, with the requested address
      or a free dynamic one. On failure the registry is what it was. */
  lemma CreateAgrees(r: Reg, id: Endpoint, name: seq<char>, src: nat, dest: nat, supportNs: bool, nsResult: int)
    requires Agrees(r) && src <= ADDR_ANY && Index(r.eps, id) == |r.eps|
    ensures var (r', status) := Create(r, id, name, src, dest, supportNs, nsResult);
      && Agrees(r')
      && (status == RPMSG_SUCCESS <==> Grants(r, src) && !AnnounceFails(name, dest, supportNs, nsResult))
      && (status != RPMSG_SUCCESS ==> r' == r)
      && (status == RPMSG_SUCCESS ==>
            && r'.eps == r.eps + [Ept(id, CName(name), GrantedAddr(r, src), dest)]
            && (src != ADDR_ANY ==> GrantedAddr(r, src) == src)
            && (src == ADDR_ANY ==> LowestFree(r.bits, GrantedAddr(r, src)))
            && (RESERVED <= GrantedAddr(r, src) ==> !Registered(r, GrantedAddr(r, src))))
      && (!Grants(r, src) ==>
            status == if src == ADDR_ANY || src < RESERVED + BMP_SIZE then RPMSG_ERR_ADDR else RPMSG_ERR_PARAM)
      && (Grants(r, src) && AnnounceFails(name, dest, supportNs, nsResult) ==> status == nsResult)
  {
    RegisterCases(r, id, name, src, dest);
    RegisterAgrees(r, id, name, src, dest);
  }

  lemma CreateAt(r: Reg, id: Endpoint, name: seq<char>, addr: nat, dest: nat, bits: seq<bool>)
    requires Agrees(r) && addr < RESERVED + BMP_SIZE && (forall i :: 0 <= i < |r.eps| ==> r.eps[i].id != id)
    requires RESERVED <= addr ==> !r.bits[addr - RESERVED] && bits == r.bits[addr - RESERVED := true]
    requires addr < RESERVED ==> bits == r.bits
    ensures var e := Ept(id, CName(name), addr, dest);
      Agrees(Reg(r.eps + [e], bits)) && Unregister(Reg(r.eps + [e], bits), id) == r
  {
    AppendAgrees(r, Ept(id, CName(name), addr, dest), bits);
    AppendUnregister(r, Ept(id, CName(name), addr, dest), bits);
  }

  /** Changing the remote address of one endpoint keeps agreement. */
  lemma RebindAgrees(r: Reg, i: nat, dest: nat)
    requires Agrees(r) && i < |r.eps|
    ensures Agrees(r.(eps := r.eps[i := r.eps[i].(dest := dest)]))
  {
    var r' := r.(eps := r.eps[i := r.eps[i].(dest := dest)]);
    assert forall k :: 0 <= k < |r.eps| ==> r'.eps[k].addr == r.eps[k].addr && r'.eps[k].id == r.eps[k].id;
    forall b: nat | b < BMP_SIZE ensures BitOk(r', b) {
      assert BitOk(r, b);
      assert Registered(r', RESERVED + b) <==> Registered(r, RESERVED + b);
    }
    forall k | 0 <= k < |r'.eps| ensures AddrOk(r'.eps[k]) { assert AddrOk(r.eps[k]); }
    forall j: nat, k: nat | j < k < |r'.eps| ensures PairOk(r'.eps, j, k) { assert PairOk(r.eps, j, k); }
  }

  // ---- Routing ----

  /** A received message goes to the one endpoint that has its dynamic destination address, and to
      no endpoint if none has it; a message to the "any" address goes nowhere. */
  lemma RoutingExact(r: Reg, dst: nat)
    requires Agrees(r)
    ensures var i := Find(r.eps, false, [], dst, ADDR_ANY, 0);
      && (i < |r.eps| <==> Registered(r, dst))
      && (i < |r.eps| ==> r.eps[i].addr == dst)
      && (i < |r.eps| && RESERVED <= dst ==> forall k :: 0 <= k < |r.eps| && r.eps[k].addr == dst ==> k == i)
    ensures !Registered(r, ADDR_ANY)
  {
    var i: nat := Find(r.eps, false, [], dst, ADDR_ANY, 0);
    forall k | 0 <= k < |r.eps| ensures r.eps[k].addr != ADDR_ANY { assert AddrOk(r.eps[k]); }
    forall k: nat | k < |r.eps| && r.eps[k].addr == dst && i < |r.eps| && RESERVED <= dst ensures k == i {
      assert i < k ==> PairOk(r.eps, i, k);
    }
  }

  lemma IndexOfEntry(r: Reg, i: nat)
    requires Agrees(r) && i < |r.eps|
    ensures Index(r.eps, r.eps[i].id) == i
  {
    var k := Index(r.eps, r.eps[i].id);
    assert k < i ==> PairOk(r.eps, k, i);
  }

  /** The characters of a string before the first NUL, at most k. */
  lemma {:induction false} CPrefixMeans(s: seq<char>, k: nat)
    ensures var r := CPrefix(s, k);
      && |r| <= k && |r| <= |s| && r == s[..|r|] && '\0' !in r
      && (|r| == k || |r| == |s| || s[|r|] == '\0')
    decreases k
  {
    if k > 0 && s != [] && s[0] != '\0' {
      CPrefixMeans(s[1..], k - 1);
    }
  }

  /** What strncpy and strncmp see of a string: its characters before the first NUL, at most 32. */
  lemma CNameMeans(s: seq<char>)
    ensures var r := CName(s);
      && |r| <= 32 && |r| <= |s| && r == s[..|r|] && '\0' !in r
      && (|r| == 32 || |r| == |s| || s[|r|] == '\0')
  {
    CPrefixMeans(s, NAME_SIZE);
  }

  /** r' is r with the remote address of the endpoint at i changed, and nothing else. */
  ghost predicate Rebound(r: Reg, r': Reg, i: nat, dest: nat) {
    && i < |r.eps| == |r'.eps| && r'.bits == r.bits
    && r'.eps[i] == Ept(r.eps[i].id, r.eps[i].name, r.eps[i].addr, dest)
    && forall k :: 0 <= k < |r.eps| && k != i ==> r'.eps[k] == r.eps[k]
  }

  /** The endpoint at i is the first with this address. */
  ghost predicate FirstAt(eps: seq<Ept>, addr: nat, i: nat) {
    i < |eps| && eps[i].addr == addr && forall k :: 0 <= k < i ==> eps[k].addr != addr
  }

  /** A message binds the endpoint with its destination address to its source exactly if that is not
      bound, and changes nothing else; without such an endpoint it changes nothing. */
  lemma ReceiveExact(r: Reg, dst: nat, src: nat)
    requires Agrees(r)
    ensures !Registered(r, dst) ==> Receive(r, dst, src) == r
    ensures Registered(r, dst) ==> exists i: nat :: FirstAt(r.eps, dst, i)
    ensures forall i: nat :: FirstAt(r.eps, dst, i) ==>
      Rebound(r, Receive(r, dst, src), i, if r.eps[i].dest == 0xFFFF_FFFF then src else r.eps[i].dest)
  {
    RoutingExact(r, dst);
    var i := Find(r.eps, false, [], dst, ADDR_ANY, 0);
    if i < |r.eps| {
      IndexOfEntry(r, i);
      assert forall k :: 0 <= k < i ==> !Matches(r.eps[k], false, [], dst, ADDR_ANY);
      assert AddrOk(r.eps[i]);
      assert FirstAt(r.eps, dst, i);
    }
  }

  /** The endpoint that an announcement is for: it has the name and is bound to that remote, or to none. */
  ghost predicate Addressed(e: Ept, name: seq<char>, remote: nat) {
    CName(e.name) == CName(name) && (e.dest == remote || e.dest == 0xFFFF_FFFF)
  }

  ghost predicate FirstAddressed(eps: seq<Ept>, name: seq<char>, remote: nat, i: nat) {
    i < |eps| && Addressed(eps[i], name, remote) && forall k :: 0 <= k < i ==> !Addressed(eps[k], name, remote)
  }

  /** An announcement of the right size, 40 bytes, concerns the first endpoint that it is addressed to: a
      destruction unbinds it, a creation binds it to the remote, and nothing else changes. */
  lemma AnnounceExact(r: Reg, name: seq<char>, remote: nat, destroy: bool)
    requires Agrees(r)
    ensures forall len: nat :: len != 40 ==> Announce(r, len, name, remote, destroy) == r
    ensures (forall k :: 0 <= k < |r.eps| ==> !Addressed(r.eps[k], name, remote)) ==>
      Announce(r, 40, name, remote, destroy) == r
    ensures forall i: nat :: FirstAddressed(r.eps, name, remote, i) ==>
      Rebound(r, Announce(r, 40, name, remote, destroy), i, if destroy then 0xFFFF_FFFF else remote)
  {
    forall k | 0 <= k < |r.eps|
      ensures Matches(r.eps[k], true, name, ADDR_ANY, remote) <==> Addressed(r.eps[k], name, remote)
    {
      assert AddrOk(r.eps[k]);
    }
  }

  /** Binding an endpoint to its first sender keeps agreement. */
  lemma BindFirstAgrees(r: Reg, id: Endpoint, src: nat)
    requires Agrees(r)
    ensures Agrees(BindFirst(r, id, src))
  {
    var i := Index(r.eps, id);
    if i < |r.eps| { RebindAgrees(r, i, src); }
  }
}
