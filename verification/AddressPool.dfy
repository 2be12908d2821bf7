/** The internal address pool for one address family, IPv4 (ikev2_cp_setaddr and
    ikev2_cp_setaddr_pool in iked/ikev2.c; section 2.19 of RFC 7296).  Addresses are in
    host byte order. */
module AddressPool {
  import opened Arith
  import opened Bytes
  import opened Options

  // ----- prefixes -----

  /** A configured network; prefix lengths above 32 count as 32. */
  datatype Network = Network(addr: Word32, prefixlen: nat)

  function Power(n: nat): nat {
    if n == 0 then 1 else 2 * Power(n - 1)
  }

  /** The number of addresses under a prefix: the complement of prefixlen2mask, plus 1. */
  function Size(net: Network): nat {
    Power(if net.prefixlen > 32 then 0 else 32 - net.prefixlen)
  }

  lemma {:induction false} PowerDivides(n: nat, m: nat)
    requires n <= m
    ensures Power(n) > 0 && Power(m) == Power(n) * Power(m - n)
    decreases m - n
  {
    if n < m {
      PowerDivides(n + 1, m);
      assert Power(n + 1) * Power(m - n - 1) == Power(n) * (2 * Power(m - n - 1));
    } else {
      PowerPositive(n);
    }
  }

  lemma {:induction false} PowerPositive(n: nat)
    ensures Power(n) > 0
  {
    if n > 0 {
      PowerPositive(n - 1);
    }
  }

  /** `a` and the configured address agree under the mask. */
  predicate Inside(net: Network, a: Word32)
    requires Size(net) > 0
  {
    a / Size(net) == net.addr / Size(net)
  }

  /** The network part of the configured address. */
  function Base(net: Network): int
    requires Size(net) > 0
  {
    net.addr - net.addr % Size(net)
  }

  /** The network part and a host part make an address inside the prefix. */
  lemma HostsInside(net: Network, host: nat)
    ensures 0 < Size(net) <= 0x1_0000_0000 && 0 <= Base(net)
    ensures host < Size(net) ==> Base(net) + host < 0x1_0000_0000 && Inside(net, Base(net) + host)
  {
    var bits := if net.prefixlen > 32 then 0 else 32 - net.prefixlen;
    PowerDivides(bits, 32);
    Power32();
    PowerPositive(32 - bits);
    HostFits(Power(bits), Power(32 - bits), net.addr, if host < Size(net) then host else 0);
  }

  lemma HostFits(n: nat, k: nat, a: nat, host: nat)
    requires 0 < n && host < n && a < n * k
    ensures n <= n * k && 0 <= a - a % n && a - a % n + host < n * k && (a - a % n + host) / n == a / n
  {
    var q := a / n;
    assert a == n * q + a % n;
    DivMod(n, q, host);
    Distribute(n, k, q);
    AtLeastOnce(n, k - q);
    AtLeastOnce(n, k);
  }

  lemma Distribute(n: int, k: int, q: int)
    ensures n * (k - q) == n * k - n * q
  {}

  lemma AtLeastOnce(n: nat, e: int)
    requires 0 < n * e
    ensures n <= n * e
  {
    Distribute(n, e, 1);
    assert e >= 1;
  }

  lemma Power32()
    ensures Power(32) == 0x1_0000_0000
  {
    assert Power(8) == 256;
    PowerDivides(8, 16);
    PowerDivides(16, 32);
  }

  // ----- the candidates -----

  function Lower(net: Network): nat
    requires Size(net) > 0
  {
    var lower, upper := net.addr % Size(net), Size(net) - 1;
    if lower < upper && lower == 0 then 1 else lower
  }

  /** The addresses from the configured one up, without network and broadcast address,
      or that single address. */
  predicate Candidate(net: Network, a: int)
    requires Size(net) > 0
  {
    var first, last := Base(net) + Lower(net), Base(net) + Size(net) - 1;
    first <= a < last || a == first
  }

  lemma CandidateInside(net: Network, a: int)
    requires Size(net) > 0 && Candidate(net, a)
    ensures 0 <= a < 0x1_0000_0000 && Inside(net, a)
  {
    HostsInside(net, a - Base(net));
  }

  /** Without the bounds of the loop: the addresses of the network from the configured one
      up, but not the network address if there is another, and not the broadcast address
      unless no other is left. */
  lemma CandidateIs(net: Network, a: int)
    ensures 0 < Size(net)
    ensures Candidate(net, a) <==>
      && Base(net) <= net.addr <= a < Base(net) + Size(net)
      && (a == Base(net) ==> Size(net) == 1)
      && (a == Base(net) + Size(net) - 1 ==> a == net.addr || Size(net) <= 2)
  {
    HostsInside(net, 0);
  }

  /** The addresses under a prefix are one block. */
  lemma InsideIs(net: Network, a: Word32)
    ensures 0 < Size(net)
    ensures Inside(net, a) <==> Base(net) <= a < Base(net) + Size(net)
  {
    HostsInside(net, 0);
    SameBlock(Size(net), net.addr, a);
  }

  lemma SameBlock(n: nat, a: nat, b: nat)
    requires 0 < n
    ensures b / n == a / n <==> a - a % n <= b < a - a % n + n
  {
    var q, r := a / n, b / n;
    assert a == n * q + a % n && b == n * r + b % n;
    if n * q <= b < n * q + n {
      DivMod(n, q, b - n * q);
    }
  }

  // ----- the allocator -----

  class Sa {
    var addrpool: Option<Word32>
    var cpaddr: Option<Word32>

    constructor ()
      ensures addrpool == None && cpaddr == None
    {
      addrpool, cpaddr := None, None;
    }
  }

  class Env {
    /** The tree sc_addrpool, by address. */
    var index: map<Word32, Sa>
    /** All SAs. */
    ghost var sas: set<Sa>

    /** The index holds exactly the addresses that SAs own, with their owners. */
    ghost predicate Valid()
      reads this, sas
    {
      && (forall sa :: sa in sas && sa.addrpool.Some? ==> sa.addrpool.value in index && index[sa.addrpool.value] == sa)
      && (forall a :: a in index ==> index[a] in sas && index[a].addrpool == Some(a))
    }

    constructor ()
      ensures Valid() && sas == {}
    {
      index, sas := map[], {};
    }

    /** No two SAs own the same address. */
    lemma OneOwner(a: Sa, b: Sa)
      requires Valid() && a in sas && b in sas && a.addrpool.Some? && a.addrpool == b.addrpool
      ensures a == b
    {
      assert index[a.addrpool.value] == a && index[b.addrpool.value] == b;
    }

    /** A new SA, without an address. */
    method AddSa(sa: Sa)
      requires Valid() && sa.addrpool == None
      modifies this
      ensures Valid() && sas == old(sas) + {sa} && index == old(index)
    {
      sas := sas + {sa};
    }

    /** RB_INSERT of an SA with its new address, which no SA owns. */
    method Own(sa: Sa, a: Word32)
      requires Valid() && sa in sas && sa.addrpool == None && a !in index
      modifies this`index, sa`addrpool
      ensures Valid() && sa.addrpool == Some(a) && index == old(index)[a := sa]
    {
      sa.addrpool := Some(a);
      index := index[a := sa];
    }

    /** RB_REMOVE, a change of owner and RB_INSERT: ikev2_ikesa_enable, and the sticky
        address of ikev2_cp_setaddr_pool. */
    method Transfer(from: Sa, to: Sa)
      requires Valid() && from in sas && to in sas && to.addrpool == None
      modifies this`index, from`addrpool, to`addrpool
      ensures Valid() && from.addrpool == None && to.addrpool == old(from.addrpool)
      ensures index.Keys == old(index.Keys)
      ensures forall a :: a in index ==> index[a] == if old(index[a]) == from then to else old(index[a])
    {
      if from.addrpool.Some? {
        var a := from.addrpool.value;
        index := index - {a};
        to.addrpool := from.addrpool;
        from.addrpool := None;
        index := index[a := to];
      }
    }

    /** config_free_sa. */
    method FreeSa(sa: Sa)
      requires Valid() && sa in sas
      modifies this
      ensures Valid() && sas == old(sas) - {sa}
      ensures index == if sa.addrpool.Some? then old(index) - {sa.addrpool.value} else old(index)
    {
      if sa.addrpool.Some? {
        index := index - {sa.addrpool.value};
      }
      sas := sas - {sa};
    }

    /** The cyclic search: a candidate address that is free, or none if there is none. */
    method Search(net: Network, uniform: nat -> nat) returns (a: Option<Word32>)
      requires forall n: nat :: uniform(n) < n || (n == 0 && uniform(n) == 0)
      ensures Size(net) > 0
      ensures a.Some? ==> a.value !in index && Candidate(net, a.value) && Inside(net, a.value)
      ensures a.None? <==> forall x | Candidate(net, x) :: x in index
    {
      HostsInside(net, 0);
      var lower: nat, upper: nat := net.addr % Size(net), Size(net) - 1;
      if lower < upper && lower == 0 {
        lower := 1;
      }
      // A host part is never above the largest one, so `upper` needs no adjustment.
      var start: nat := uniform(upper - lower) + lower;
      var base := net.addr - net.addr % Size(net);
      forall x | Candidate(net, x)
        ensures 0 <= x < 0x1_0000_0000 && Inside(net, x)
      {
        CandidateInside(net, x);
      }
      assert Candidate(net, base + lower) && (lower < upper ==> Candidate(net, base + upper - 1));
      a := SearchFrom(base, lower, upper, start);
    }

    /** The loop of the search, from a random candidate around to it again. */
    method SearchFrom(base: nat, lower: nat, upper: nat, start: nat) returns (a: Option<Word32>)
      requires lower <= start && (start < upper || start == lower) && lower <= upper < 0x1_0000_0000
      requires base + lower < 0x1_0000_0000 && base + upper <= 0x1_0000_0000
      ensures a.Some? ==> a.value !in index && (base + lower <= a.value < base + upper || a.value == base + lower)
      ensures a.None? ==> forall x :: base + lower <= x < base + upper || x == base + lower ==> x in index
    {
      var host := start;
      ghost var wrapped := false;
      while true
        invariant lower <= host && (host < upper || host == lower)
        invariant !wrapped ==> start <= host && forall x :: base + start <= x < base + host ==> x in index
        invariant wrapped ==> host < start < upper
        invariant wrapped ==> forall x :: base + start <= x < base + upper || base + lower <= x < base + host ==> x in index
        decreases if wrapped then start - host else upper + start - host + 1
      {
        var addr := base + host;
        if addr !in index {
          return Some(addr);
        }
        host := (host + 1) % 0x1_0000_0000;
        if host >= upper || host < lower {
          host := lower;
          wrapped := true;
        }
        if host == start {
          return None;
        }
      }
    }

    /** Every candidate of a network is taken. */
    ghost predicate Exhausted(net: Network)
      reads this
    {
      Size(net) > 0 && forall x | Candidate(net, x) :: x in index
    }

    /** ikev2_cp_setaddr_pool; `sticky` is the old SA of the same peer, if addresses
        stick and there is one. */
    method SetAddrPool(sa: Sa, net: Network, request: bool, sticky: Sa?, uniform: nat -> nat) returns (ok: bool)
      requires Valid() && sa in sas && sa.addrpool == None && (sticky != null ==> sticky in sas)
      requires forall n: nat :: uniform(n) < n || (n == 0 && uniform(n) == 0)
      modifies this`index, sa, if sticky != null then {sticky} else {}
      ensures Valid() && sas == old(sas) && Size(net) > 0
      ensures ok <==> sa.addrpool.Some?
      ensures ok ==> index == old(index)[sa.addrpool.value := sa]
      ensures !ok ==> index == old(index) && sa.cpaddr == old(sa.cpaddr) && (sticky != null ==> sticky.addrpool == old(sticky.addrpool))
      ensures !request ==> !ok
      ensures request && old(Sticks(sticky)) ==> ok && TakenOver(sticky, sa.addrpool.value)
      ensures request && !old(Sticks(sticky)) && old(sa.cpaddr).Some? ==>
        (ok <==> Inside(net, old(sa.cpaddr).value) && old(sa.cpaddr).value !in old(index))
      ensures ok && !old(Sticks(sticky)) && old(sa.cpaddr).Some? ==> sa.addrpool == old(sa.cpaddr) && sa.cpaddr == None
      ensures request && !old(Sticks(sticky)) && old(sa.cpaddr) == None ==> (ok <==> !old(Exhausted(net)))
      ensures ok && !old(Sticks(sticky)) && old(sa.cpaddr) == None ==>
        Candidate(net, sa.addrpool.value) && Inside(net, sa.addrpool.value) && sa.addrpool.value !in old(index) && sa.cpaddr == None
    {
      HostsInside(net, 0);
      if !request {
        return false;
      }
      if sticky != null && sticky.addrpool.Some? {
        Transfer(sticky, sa);
        return true;
      }
      if sa.cpaddr.Some? {
        var a := sa.cpaddr.value;
        if !Inside(net, a) || a in index {
          return false;
        }
        sa.cpaddr := None;
        Own(sa, a);
        return true;
      }
      var a := Search(net, uniform);
      if a.None? {
        return false;
      }
      Own(sa, a.value);
      return true;
    }

    /** One pass of ikev2_cp_setaddr over the configured networks. */
    method TryNetworks(sa: Sa, nets: seq<Network>, request: bool, sticky: Sa?, uniform: nat -> nat) returns (ok: bool)
      requires Valid() && sa in sas && sa.addrpool == None && (sticky != null ==> sticky in sas)
      requires forall n: nat :: uniform(n) < n || (n == 0 && uniform(n) == 0)
      modifies this`index, sa, if sticky != null then {sticky} else {}
      ensures Valid() && sas == old(sas)
      ensures ok <==> sa.addrpool.Some?
      ensures ok ==> index == old(index)[sa.addrpool.value := sa]
      ensures ok ==> TakenOver(sticky, sa.addrpool.value) || FromNetwork(nets, sa.addrpool.value)
      ensures !ok ==> index == old(index) && sa.cpaddr == old(sa.cpaddr) && (sticky != null ==> sticky.addrpool == old(sticky.addrpool))
      ensures !request ==> !ok
      ensures request && nets != [] && old(Sticks(sticky)) ==> ok && TakenOver(sticky, sa.addrpool.value)
      ensures request && !old(Sticks(sticky)) && old(sa.cpaddr).Some? ==>
        (ok <==> FromNetwork(nets, old(sa.cpaddr).value) && old(sa.cpaddr).value !in old(index))
      ensures ok && !old(Sticks(sticky)) && old(sa.cpaddr).Some? ==> sa.addrpool == old(sa.cpaddr) && sa.cpaddr == None
      ensures request && !old(Sticks(sticky)) && old(sa.cpaddr) == None ==>
        (ok <==> exists j :: 0 <= j < |nets| && !old(Exhausted(nets[j])))
      ensures ok && !old(Sticks(sticky)) && old(sa.cpaddr) == None ==> FirstFree(nets, sa.addrpool.value) && sa.cpaddr == None
    {
      for i := 0 to |nets|
        invariant Valid() && sas == old(sas) && sa.addrpool == None && index == old(index) && sa.cpaddr == old(sa.cpaddr)
        invariant sticky != null ==> sticky.addrpool == old(sticky.addrpool)
        invariant request && old(Sticks(sticky)) ==> i == 0
        invariant request && !old(Sticks(sticky)) && old(sa.cpaddr).Some? ==>
          old(sa.cpaddr).value in old(index) || !FromNetwork(nets[..i], old(sa.cpaddr).value)
        invariant request && !old(Sticks(sticky)) && old(sa.cpaddr) == None ==> forall j :: 0 <= j < i ==> old(Exhausted(nets[j]))
      {
        ok := SetAddrPool(sa, nets[i], request, sticky, uniform);
        if ok {
          return;
        }
        assert nets[..i + 1][..i] == nets[..i];
      }
      assert nets[..|nets|] == nets;
      ok := false;
    }

    /** A free candidate of the first network that has one. */
    twostate predicate FirstFree(nets: seq<Network>, a: Word32)
    {
      && a !in old(index)
      && exists j :: 0 <= j < |nets| && Size(nets[j]) > 0 && Candidate(nets[j], a) && forall i :: 0 <= i < j ==> old(Exhausted(nets[i]))
    }

    /** The peer asks for a free address of a configured network. */
    ghost predicate Granted(sa: Sa, nets: seq<Network>)
      reads this, sa
    {
      sa.cpaddr.Some? && FromNetwork(nets, sa.cpaddr.value) && sa.cpaddr.value !in index
    }

    /** ikev2_cp_setaddr: an SA that has an address keeps it.  Otherwise it gets that of the
        old SA of its peer, or else the one it asks for, or else a free candidate of the
        first network that has one, unless every candidate of every network is taken. */
    method SetAddr(sa: Sa, nets: seq<Network>, request: bool, sticky: Sa?, uniform: nat -> nat) returns (ok: bool)
      requires Valid() && sa in sas && (sticky != null ==> sticky in sas)
      requires forall n: nat :: uniform(n) < n || (n == 0 && uniform(n) == 0)
      modifies this`index, sa, if sticky != null then {sticky} else {}
      ensures Valid() && sas == old(sas)
      ensures old(sa.addrpool).Some? || nets == [] ==> ok && sa.addrpool == old(sa.addrpool) && index == old(index)
      ensures old(sa.addrpool) == None && nets != [] ==> (ok <==> sa.addrpool.Some?)
      ensures ok && old(sa.addrpool) == None && nets != [] ==> request && index == old(index)[sa.addrpool.value := sa]
      ensures ok && old(sa.addrpool) == None && nets != [] ==>
        TakenOver(sticky, sa.addrpool.value) || FromNetwork(nets, sa.addrpool.value)
      ensures !ok ==> index == old(index) && sa.cpaddr == None && (sticky != null ==> sticky.addrpool == old(sticky.addrpool))
      ensures old(sa.addrpool) == None && nets != [] && request && old(Sticks(sticky)) ==> ok && TakenOver(sticky, sa.addrpool.value)
      ensures old(sa.addrpool) == None && nets != [] && request && !old(Sticks(sticky)) && old(Granted(sa, nets)) ==>
        ok && sa.addrpool == old(sa.cpaddr)
      ensures old(sa.addrpool) == None && nets != [] && request && !old(Sticks(sticky)) && !old(Granted(sa, nets)) ==>
        && (ok <==> exists j :: 0 <= j < |nets| && !old(Exhausted(nets[j])))
        && (ok ==> FirstFree(nets, sa.addrpool.value))
    {
      if sa.addrpool.Some? || nets == [] {
        return true;
      }
      var requested := sa.cpaddr.Some?;
      ok := TryNetworks(sa, nets, request, sticky, uniform);
      if ok {
        return;
      }
      sa.cpaddr := None;
      if requested {
        ok := TryNetworks(sa, nets, request, sticky, uniform);
        if !ok {
          sa.cpaddr := None;
        }
      }
    }
  }

  ghost predicate FromNetwork(nets: seq<Network>, a: Word32) {
    exists j :: 0 <= j < |nets| && Size(nets[j]) > 0 && Inside(nets[j], a)
  }

  /** The old SA of the same peer has an address to give up. */
  ghost predicate Sticks(sticky: Sa?)
    reads if sticky != null then {sticky} else {}
  {
    sticky != null && sticky.addrpool.Some?
  }

  /** The address that an old SA of the same peer had. */
  twostate predicate TakenOver(sticky: Sa?, a: Word32)
    reads if sticky != null then {sticky} else {}
  {
    sticky != null && old(sticky.addrpool) == Some(a) && sticky.addrpool == None
  }
}
