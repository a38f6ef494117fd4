/** The endpoint list and the address bitmap updated in place: endpoints are objects linked to
    their device, and each operation is shown to be the registry operation of the same name. */
module RpmsgDevice {
  import opened RpmsgErrors
  import opened RpmsgEndpoint
  import opened Registry

  class RpmsgDevice {
    var eps: seq<Endpoint>
    const bitmap: array<bool>
    const supportNs: bool

    ghost function ListView(list: seq<Endpoint>): (r: seq<Ept>)
      reads list
      ensures |r| == |list|
      ensures forall i :: 0 <= i < |list| ==> r[i] == list[i].View()
    {
      seq(|list|, i requires 0 <= i < |list| reads list => list[i].View())
    }

    ghost function View(): Reg
      reads this, eps, bitmap
    {
      Reg(ListView(eps), bitmap[..])
    }

    /** Bitmap and list agree; every listed endpoint points back to this device. */
    ghost predicate Valid()
      reads this, eps, bitmap
    {
      && Agrees(View())
      && (forall i :: 0 <= i < |eps| ==> eps[i].rdev == this)
    }

    constructor (supportNs: bool)
      ensures Valid() && fresh(bitmap) && eps == [] && this.supportNs == supportNs
      ensures View() == Empty()
    {
      eps := [];
      bitmap := new bool[BMP_SIZE](i => false);
      this.supportNs := supportNs;
      new;
      assert bitmap[..] == Empty().bits;
      assert forall b: nat :: b < BMP_SIZE ==> BitOk(View(), b);
    }

    lemma ListIndex(ept: Endpoint, i: nat)
      requires Valid() && i < |eps| && eps[i] == ept
      ensures Index(ListView(eps), ept) == i
    {
      var v := ListView(eps);
      var k := Index(v, ept);
      assert v[i].id == ept;
      assert k < i ==> PairOk(v, k, i);
    }

    /** rpmsg_get_endpoint: the first endpoint in list order that one of the tests accepts. */
    method GetEndpoint(named: bool, name: seq<char>, addr: nat, dest: nat) returns (ept: Endpoint?, ghost at: nat)
      ensures ept ==
        if Find(View().eps, named, name, addr, dest,
                0) < |eps| then eps[Find(View().eps, named, name, addr, dest, 0)] else null
      ensures at == Find(View().eps, named, name, addr, dest, 0)
    {
      ghost var v := ListView(eps);
      var i := 0;
      while i < |eps|
        invariant 0 <= i <= |eps|
        invariant Find(v, named, name, addr, dest, 0) == Find(v, named, name, addr, dest, i)
      {
        var e := eps[i];
        var nameMatch := named && CName(e.name) == CName(name);
        if addr != ADDR_ANY && e.addr == addr { return e, i; }
        if addr == e.addr && dest == e.dest { return e, i; }
        if nameMatch {
          if dest != ADDR_ANY && e.dest == dest { return e, i; }
          if addr == ADDR_ANY && e.dest == ADDR_ANY { return e, i; }
        }
        i := i + 1;
      }
      return null, i;
    }

    lemma Apart(i: nat, j: nat)
      requires Valid() && i < |eps| && j < |eps| && i != j
      ensures eps[i] != eps[j]
    {
      var v := ListView(eps);
      assert (i < j ==> PairOk(v, i, j)) && (j < i ==> PairOk(v, j, i));
    }

    /** metal_list_del and rpmsg_release_address for the endpoint at position i. */
    method Delete(ept: Endpoint, i: nat)
      requires bitmap.Length == BMP_SIZE && i < |eps| && eps[i] == ept
      modifies this, bitmap, ept`rdev
      ensures eps == old(eps)[..i] + old(eps)[i + 1..]
      ensures bitmap[..] == if ept.addr != ADDR_ANY then ReleaseAddress(old(bitmap[..]), ept.addr) else old(bitmap[..])
      ensures ept.rdev == null
    {
      if ept.addr != ADDR_ANY {
        var a := ToInt(ept.addr) - RESERVED;
        if 0 <= a < BMP_SIZE { bitmap[a] := false; }
      }
      eps := eps[..i] + eps[i + 1..];
      ept.rdev := null;
    }

    /** The position of a listed endpoint. */
    method IndexOf(ept: Endpoint) returns (i: nat)
      requires Valid() && ept in eps
      ensures i < |eps| && eps[i] == ept && i == Index(ListView(eps), ept)
      ensures ept !in eps[..i] + eps[i + 1..]
    {
      i := 0;
      while eps[i] != ept
        invariant 0 <= i < |eps| && ept !in eps[..i]
        decreases |eps| - i
      {
        i := i + 1;
      }
      ListIndex(ept, i);
      forall k | 0 <= k < |eps| && k != i ensures eps[k] != ept { Apart(k, i); }
    }

    lemma DropView(i: nat)
      requires i < |eps|
      ensures ListView(eps[..i] + eps[i + 1..]) == Drop(ListView(eps), i)
    {
      var rest := eps[..i] + eps[i + 1..];
      assert forall k :: 0 <= k < |rest| ==> rest[k] == eps[if k < i then k else k + 1];
    }

    /** The effect of Delete on what the registry knows. */
    method DeleteAt(ept: Endpoint, i: nat)
      requires bitmap.Length == BMP_SIZE && i < |eps| && eps[i] == ept && ept !in eps[..i] + eps[i + 1..]
      modifies this, bitmap, ept`rdev
      ensures eps == old(eps)[..i] + old(eps)[i + 1..] && ept.rdev == null
      ensures ListView(eps) == Drop(old(ListView(eps)), i)
      ensures bitmap[..] == if ept.addr != ADDR_ANY then ReleaseAddress(old(bitmap[..]), ept.addr) else old(bitmap[..])
    {
      DropView(i);
      ghost var rest := eps[..i] + eps[i + 1..];
      ghost var v := ListView(rest);
      Delete(ept, i);
      assert ListView(rest) == v;
    }

    /** rpmsg_unregister_endpoint. */
    method Unregister(ept: Endpoint) returns (ghost at: nat)
      requires Valid() && ept in eps
      modifies this, bitmap, ept`rdev
      ensures Valid() && View() == Registry.Unregister(old(View()), ept)
      ensures ept.rdev == null && at < |old(eps)| && old(eps)[at] == ept
      ensures eps == old(eps)[..at] + old(eps)[at + 1..] && ept !in eps
    {
      ghost var v := View();
      var i := IndexOf(ept);
      at := i;
      UnregisterAgrees(v, ept);
      assert AddrOk(v.eps[i]);
      DeleteAt(ept, i);
    }

    /** The address part of rpmsg_create_ept. */
    method ReserveAddress(src: nat) returns (addr: nat, status: int)
      requires bitmap.Length == BMP_SIZE && src <= ADDR_ANY
      modifies bitmap
      ensures status == RPMSG_SUCCESS <==> Grants(old(View()), src)
      ensures status == RPMSG_SUCCESS ==>
        addr == GrantedAddr(old(View()), src) && bitmap[..] == GrantedBits(old(View()), addr)
      ensures status == RPMSG_SUCCESS ==>
        if src == ADDR_ANY then LowestFree(old(bitmap[..]), addr) else addr == src
      ensures status != RPMSG_SUCCESS ==> bitmap[..] == old(bitmap[..])
      ensures src == ADDR_ANY && status != RPMSG_SUCCESS ==> status == RPMSG_ERR_ADDR
      ensures src != ADDR_ANY && status != RPMSG_SUCCESS ==>
        status == if src < RESERVED + BMP_SIZE then RPMSG_ERR_ADDR else RPMSG_ERR_PARAM
    {
      addr, status := src, RPMSG_SUCCESS;
      if src == ADDR_ANY {
        var bit := NextClear(bitmap[..], 0);
        if bit == BMP_SIZE {
          status := RPMSG_ERR_ADDR;
        } else {
          addr := RESERVED + bit;
          bitmap[bit] := true;
        }
      } else if src >= RESERVED {
        var state := IsAddressSet(bitmap[..], src);
        if state == 0 {
          bitmap[src - RESERVED] := true;
        } else {
          status := if state > 0 then RPMSG_ERR_ADDR else state;
        }
      }
    }

    /** rpmsg_initialize_ept and rpmsg_register_endpoint. */
    method Register(ept: Endpoint, name: seq<char>, addr: nat, dest: nat)
      requires ept !in eps
      modifies this`eps, ept
      ensures eps == old(eps) + [ept] && ept.rdev == this
      ensures ListView(eps) == old(ListView(eps)) + [Ept(ept, CName(name), addr, dest)]
    {
      ghost var v := ListView(eps);
      ept.name, ept.addr, ept.dest := CName(name), addr, dest;
      ept.rdev := this;
      eps := eps + [ept];
      assert ListView(eps) == v + [Ept(ept, CName(name), addr, dest)];
    }

    /** The locked section of rpmsg_create_ept. */
    method Enlist(ept: Endpoint, name: seq<char>, src: nat, dest: nat) returns (status: int)
      requires Valid() && ept !in eps && src <= ADDR_ANY
      modifies this, bitmap, ept
      ensures Valid()
      ensures (View(), status) == Registry.Register(old(View()), ept, name, src, dest)
      ensures status == RPMSG_SUCCESS ==> eps == old(eps) + [ept] && ept.rdev == this
      ensures status != RPMSG_SUCCESS ==> eps == old(eps)
    {
      ghost var v := View();
      Unlisted(ept);
      RegisterAgrees(v, ept, name, src, dest);
      RegisterCases(v, ept, name, src, dest);
      var addr;
      addr, status := ReserveAddress(src);
      if status != RPMSG_SUCCESS {
        assert ListView(eps) == v.eps;
        return;
      }
      Register(ept, name, addr, dest);
    }

    lemma Unlisted(ept: Endpoint)
      requires ept !in eps
      ensures Index(ListView(eps), ept) == |eps|
    {
      var v := ListView(eps);
      forall k | 0 <= k < |v| ensures v[k].id != ept { assert v[k].id == eps[k]; }
    }

    /** The test between the two sections. */
    method WantsAnnouncement(ept: Endpoint) returns (yes: bool)
      requires Valid() && ept in eps
      ensures yes <==> ToAnnounce(View(), supportNs, ept)
    {
      ghost var i := Listed(ept);
      yes := ept.name != [] && supportNs && ept.dest == ADDR_ANY;
    }

    lemma Listed(ept: Endpoint) returns (i: nat)
      requires Valid() && ept in eps
      ensures i < |eps| && eps[i] == ept && Index(ListView(eps), ept) == i
    {
      i :| 0 <= i < |eps| && eps[i] == ept;
      ListIndex(ept, i);
    }

    /** The end of rpmsg_create_ept when the announcement has been sent or has failed. */
    method Conclude(ept: Endpoint, result: int) returns (status: int)
      requires Valid() && ept in eps
      modifies this, bitmap, ept`rdev
      ensures Valid() && View() == Announced(old(View()), ept, result)
      ensures status == if result < 0 then result else RPMSG_SUCCESS
      ensures result >= 0 ==> eps == old(eps)
      ensures result < 0 ==> ept.rdev == null && ept !in eps
      ensures result < 0 && old(eps)[|old(eps)| - 1] == ept ==> eps == old(eps)[..|old(eps)| - 1]
    {
      status := RPMSG_SUCCESS;
      if result < 0 {
        status := result;
        forall k | 0 <= k < |eps| - 1 && eps[|eps| - 1] == ept ensures eps[k] != ept { Apart(k, |eps| - 1); }
        ghost var at := Unregister(ept);
      }
    }

    /** rpmsg_create_ept when nothing intervenes; the endpoint must not be in a list already. */
    method CreateEpt(ept: Endpoint, name: seq<char>, src: nat, dest: nat, nsResult: int) returns (status: int)
      requires Valid() && ept !in eps && src <= ADDR_ANY
      modifies this, bitmap, ept
      ensures Valid()
      ensures (View(), status) == Create(old(View()), ept, name, src, dest, supportNs, nsResult)
      ensures status == RPMSG_SUCCESS ==> eps == old(eps) + [ept]
      ensures status != RPMSG_SUCCESS ==> eps == old(eps)
    {
      status := Enlist(ept, name, src, dest);
      if status == RPMSG_SUCCESS {
        var announce := WantsAnnouncement(ept);
        if announce {
          status := Conclude(ept, nsResult);
        }
      }
    }

    /** rpmsg_destroy_ept: nothing to do for an endpoint without a device; otherwise the destruction of a
        named endpoint with a dynamic address is announced, whatever becomes of the announcement. */
    method DestroyEpt(ept: Endpoint) returns (announced: bool)
      requires Valid() && (ept.rdev == null || ept.rdev == this) && (ept.rdev == this ==> ept in eps)
      modifies this, bitmap, ept`rdev
      ensures Valid() && ept.rdev == null
      ensures announced <==> old(ept.rdev) == this && ept.name != [] && supportNs && ept.addr >= RESERVED
      ensures old(ept.rdev) == null ==> View() == old(View())
      ensures old(ept.rdev) == this ==> View() == Registry.Unregister(old(View()), ept) && |eps| == |old(eps)| - 1
      ensures forall e :: e in eps ==> e in old(eps)
      ensures old(ept.rdev) == this && old(eps)[0] == ept ==> eps == old(eps)[1..]
    {
      if ept.rdev == null {
        return false;
      }
      forall k | 0 < k < |eps| && eps[0] == ept ensures eps[k] != ept { Apart(0, k); }
      announced := ept.name != [] && supportNs && ept.addr >= RESERVED;
      ghost var at := Unregister(ept);
    }

    /** The lookup of rpmsg_virtio_rx_callback, under the lock. */
    method RouteTo(dst: nat) returns (ept: Endpoint?)
      requires Valid()
      ensures ept == match Route(View(), dst) case Some(id) => id case None => null
      ensures ept != null ==> ept in eps && ept.addr == dst
      ensures ept == null <==> !Registered(View(), dst)
    {
      RoutingExact(View(), dst);
      ghost var at;
      ept, at := GetEndpoint(false, [], dst, ADDR_ANY);
    }

    /** The binding by a first message, without the lock. */
    method BindTo(ept: Endpoint, src: nat)
      requires Valid() && ept in eps
      modifies ept`dest
      ensures Valid() && View() == BindFirst(old(View()), ept, src)
      ensures ept.dest == if old(ept.dest) == 0xFFFF_FFFF then src else old(ept.dest)
    {
      ghost var i := Listed(ept);
      if ept.dest == ADDR_ANY {
        Rebind(ept, i, src);
      }
    }

    /** The routing part of rpmsg_virtio_rx_callback when nothing intervenes. */
    method Receive(dst: nat, src: nat) returns (ept: Endpoint?)
      requires Valid()
      modifies eps
      ensures Valid() && eps == old(eps) && View() == Registry.Receive(old(View()), dst, src)
      ensures ept != null ==> ept in eps && ept.addr == dst
      ensures ept == null <==> !Registered(old(View()), dst)
      ensures forall e :: e in old(eps) ==> e.name == old(e.name) && e.addr == old(e.addr) && e.rdev == old(e.rdev)
      ensures forall e :: e in old(eps) ==>
        e.dest == if e == ept && old(e.dest) == 0xFFFF_FFFF then src else old(e.dest)
    {
      ept := RouteTo(dst);
      if ept != null {
        BindTo(ept, src);
      }
    }

    /** Assignment to the remote address of a registered endpoint. */
    method Rebind(ept: Endpoint, ghost at: nat, dest: nat)
      requires Valid() && at < |eps| && eps[at] == ept
      modifies ept`dest
      ensures Valid() && ept.dest == dest
      ensures View() == old(View()).(eps := old(View()).eps[at := old(View()).eps[at].(dest := dest)])
    {
      ghost var v := View();
      RebindAgrees(v, at, dest);
      forall k | 0 <= k < |eps| && k != at ensures eps[k] != ept { Apart(k, at); }
      ept.dest := dest;
      SameExcept(v.eps, at, dest);
    }

    /** rpmsg_virtio_ns_callback, without the application's callbacks. */
    method Announce(len: nat, name: seq<char>, remote: nat, destroy: bool) returns (ept: Endpoint?)
      requires Valid()
      modifies eps
      ensures Valid() && eps == old(eps) && View() == Registry.Announce(old(View()), len, name, remote, destroy)
      ensures ept != null ==> ept in eps && ept.dest == if destroy then ADDR_ANY else remote
      ensures ept == null <==>
        len != 40 || forall e :: e in old(eps) ==> !Addressed(old(e.View()), name, remote)
      ensures forall e :: e in old(eps) ==> e.name == old(e.name) && e.addr == old(e.addr) && e.rdev == old(e.rdev)
      ensures forall e :: e in old(eps) ==>
        e.dest == if e == ept then (if destroy then 0xFFFF_FFFF else remote) else old(e.dest)
    {
      if len != NS_MSG_SIZE {
        return null;
      }
      ghost var v := View();
      ghost var at;
      ept, at := GetEndpoint(true, name, ADDR_ANY, remote);
      if ept != null {
        Rebind(ept, at, if destroy then ADDR_ANY else remote);
      }
    }

    lemma SameExcept(before: seq<Ept>, at: nat, dest: nat)
      requires at < |eps| == |before|
      requires forall k :: 0 <= k < |eps| ==> eps[k].View() == if k == at then before[at].(dest := dest) else before[k]
      ensures ListView(eps) == before[at := before[at].(dest := dest)]
    {}

    /** How many of these endpoints have a destruction to announce. */
    ghost function Named(list: seq<Endpoint>): nat
      reads list
    {
      if list == [] then 0
      else Named(list[1..]) + (if list[0].name != [] && supportNs && list[0].addr >= 1024 then 1 else 0)
    }

    /** The teardown loop of rpmsg_deinit_vdev: destroys the first endpoint until none is left, with an
        announcement for each that is named and has a dynamic address. */
    method Deinit() returns (announcements: nat)
      requires Valid()
      modifies this, bitmap, eps
      ensures eps == [] && View() == Empty() && announcements == old(Named(eps))
      ensures forall e :: e in old(eps) ==> e.rdev == null
    {
      ghost var all := eps;
      announcements := 0;
      while |eps| > 0
        invariant Valid() && (forall e :: e in eps ==> e in all)
        invariant forall e :: e in all ==> e in eps || e.rdev == null
        invariant announcements + Named(eps) == old(Named(eps))
        decreases |eps|
      {
        assert eps[0] in eps && eps[0] in all;
        ghost var before := eps;
        ghost var rest := Named(eps[1..]);
        var announced := DestroyEpt(eps[0]);
        assert eps == before[1..] && Named(eps) == rest;
        announcements := announcements + (if announced then 1 else 0);
      }
      forall b: nat | b < BMP_SIZE ensures !bitmap[b] { assert BitOk(View(), b); }
      assert bitmap[..] == Empty().bits;
    }
  }
}
