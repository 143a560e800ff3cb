/** The UDP connection table: `uip_udp_new` in src/net/uip.c. */
module UdpTable {
  import opened Octets
  import opened TcpTable
  import opened Sets

  class UdpConn {
    var lport: U16  // in network order; zero when the slot is free
    var rport: U16
    var rip: U32
    var ttl: Byte

    constructor ()
      ensures lport == 0
    {
      lport, rport, rip, ttl := 0, 0, 0, 0;
    }

    method Fill(lport: U16, rport: U16, rip: Option<U32>, ttl: Byte)
      modifies this
      ensures this.lport == lport && this.rport == rport && this.ttl == ttl
      ensures this.rip == if rip.Some? then rip.value else 0
    {
      this.lport := lport;
      this.rport := rport;
      this.rip := if rip.Some? then rip.value else 0;
      this.ttl := ttl;
    }
  }

  /** The local ports of all slots as values, free slots included. */
  ghost function LocalPorts(conns: seq<UdpConn>): (ports: seq<U16>)
    reads conns
    ensures |ports| == |conns|
    ensures forall i :: 0 <= i < |conns| ==> ports[i] == conns[i].lport
  {
    if conns == [] then [] else [conns[0].lport] + LocalPorts(conns[1..])
  }

  function InHostOrder(ports: seq<U16>): set<U16> {
    set i | 0 <= i < |ports| :: Htons(ports[i])
  }

  lemma {:induction false} InHostOrderIsSmall(ports: seq<U16>)
    ensures |InHostOrder(ports)| <= |ports|
    decreases |ports|
  {
    if ports == [] {
      assert InHostOrder(ports) == {};
    } else {
      var n := |ports| - 1;
      InHostOrderIsSmall(ports[..n]);
      assert InHostOrder(ports) <= InHostOrder(ports[..n]) + {Htons(ports[n])};
      SubsetSize(InHostOrder(ports), InHostOrder(ports[..n]) + {Htons(ports[n])});
    }
  }

  /** No two slots in use share a local port. */
  predicate DistinctPorts(ports: seq<U16>) {
    forall i, j :: 0 <= i < j < |ports| && ports[i] != 0 ==> ports[i] != ports[j]
  }

  /** Putting a port the search found free into a free slot keeps the ports distinct. */
  lemma FreshPortKeepsDistinct(ports: seq<U16>, l: U16, p: U16, slot: nat)
    requires DistinctPorts(ports) && slot < |ports| && ports[slot] == 0
    requires l < 32000 && IsNextFree(InHostOrder(ports), l, p)
    ensures Htons(p) != 0 && DistinctPorts(ports[slot := Htons(p)])
  {
    HtonsInvolution(p);
    assert Htons(ports[slot]) in InHostOrder(ports);
    forall j | 0 <= j < |ports| && j != slot
      ensures ports[j] != Htons(p)
    {
      assert Htons(ports[j]) in InHostOrder(ports);
    }
  }

  class Udp {
    const ttl: Byte  // UIP_TTL
    const conns: seq<UdpConn>
    var lastport: U16

    ghost predicate Valid()
      reads this, conns
    {
      && |conns| < 0x100 && lastport < 32000
      && (forall i, j :: 0 <= i < j < |conns| ==> conns[i] != conns[j])
      && DistinctPorts(LocalPorts(conns))
    }

    /** Zeroed memory and `uip_init`: every slot is free. */
    constructor (connsNb: nat, ttl: Byte)
      requires connsNb < 0x100
      ensures Valid() && fresh(conns) && |conns| == connsNb && this.ttl == ttl && lastport == 1024
      ensures forall i :: 0 <= i < connsNb ==> conns[i].lport == 0
    {
      var slots: seq<UdpConn> := [];
      while |slots| < connsNb
        invariant |slots| <= connsNb && fresh(slots)
        invariant forall i :: 0 <= i < |slots| ==> slots[i].lport == 0
        invariant forall i, j :: 0 <= i < j < |slots| ==> slots[i] != slots[j]
      {
        var slot := new UdpConn();
        slots := slots + [slot];
      }
      this.ttl, conns, lastport := ttl, slots, 0;
      new;
      Init();
    }

    /** The UDP part of `uip_init`. */
    method Init()
      requires |conns| < 0x100 && forall i, j :: 0 <= i < j < |conns| ==> conns[i] != conns[j]
      modifies this`lastport, conns`lport
      ensures Valid() && lastport == 1024 && forall i :: 0 <= i < |conns| ==> conns[i].lport == 0
    {
      lastport := 1024;
      for c := 0 to |conns|
        invariant forall i :: 0 <= i < c ==> conns[i].lport == 0
        modifies conns`lport
      {
        conns[c].lport := 0;
      }
    }

    method PortInUse() returns (taken: bool)
      ensures taken <==> lastport in InHostOrder(LocalPorts(conns))
    {
      ghost var ports := LocalPorts(conns);
      HtonsInvolution(lastport);
      var c := 0;
      while c < |conns|
        invariant 0 <= c <= |conns|
        invariant forall j :: 0 <= j < c ==> ports[j] != Htons(lastport)
      {
        if conns[c].lport == Htons(lastport) {
          assert Htons(ports[c]) in InHostOrder(ports);
          return true;
        }
        c := c + 1;
      }
      forall j | 0 <= j < |ports|
        ensures Htons(ports[j]) != lastport
      {
        HtonsInvolution(ports[j]);
      }
      taken := false;
    }

    method ChoosePort()
      requires Valid()
      modifies this`lastport
      ensures lastport < 32000 && IsNextFree(InHostOrder(LocalPorts(conns)), old(lastport), lastport)
    {
      hide Searched, NextPort, PortDistance, InHostOrder, IsNextFree, PortsAhead, Htons, DistinctPorts;
      ghost var used, tries: nat := InHostOrder(LocalPorts(conns)), 1;
      InHostOrderIsSmall(LocalPorts(conns));
      ghost var f := FreePortExists(used, 4096);
      SearchStarts(used, lastport);
      var taken := TryNextPort(used);
      while taken
        invariant lastport < 32000 && Searched(used, old(lastport), lastport, tries)
        invariant used == InHostOrder(LocalPorts(conns)) && (taken <==> lastport in used)
        decreases taken, PortDistance(lastport, f)
      {
        SearchComesCloser(used, old(lastport), lastport, tries, f);
        taken := TryNextPort(used);
        tries := tries + 1;
      }
      SearchEnds(used, old(lastport), lastport, tries);
    }

    /** One step of the search. */
    method TryNextPort(ghost used: set<U16>) returns (taken: bool)
      requires used == InHostOrder(LocalPorts(conns))
      modifies this`lastport
      ensures lastport == NextPort(old(lastport)) && used == InHostOrder(LocalPorts(conns))
      ensures taken <==> lastport in used
    {
      hide InHostOrder, NextPort, Htons;
      lastport := NextPort(lastport);
      taken := PortInUse();
    }

    /** `uip_udp_new`; a missing remote address is stored as zero. The result is -1 when the table is full. */
    method New(rip: Option<U32>, rport: U16) returns (slot: int)
      requires Valid()
      modifies this`lastport, conns
      ensures Valid()
      ensures IsNextFree(InHostOrder(old(LocalPorts(conns))), old(lastport), lastport)
      ensures -1 <= slot < |conns|
      ensures slot == -1 <==> forall j :: 0 <= j < |conns| ==> old(conns[j].lport) != 0
      ensures slot >= 0 ==> old(conns[slot].lport) == 0 && forall j :: 0 <= j < slot ==> old(conns[j].lport) != 0
      ensures slot >= 0 ==>
        conns[slot].lport == Htons(lastport) && conns[slot].rport == rport && conns[slot].ttl == ttl &&
        conns[slot].rip == if rip.Some? then rip.value else 0
      ensures forall j :: 0 <= j < |conns| && j != slot ==> unchanged(conns[j])
    {
      hide DistinctPorts, IsNextFree, InHostOrder, Htons;
      ghost var ports := LocalPorts(conns);
      ChoosePort();
      slot := -1;
      var c := 0;
      while c < |conns|
        invariant 0 <= c <= |conns|
        invariant forall j :: 0 <= j < c ==> conns[j].lport != 0
      {
        if conns[c].lport == 0 {
          slot := c;
          break;
        }
        c := c + 1;
      }
      if slot == -1 {
        assert LocalPorts(conns) == ports;
        return;
      }
      FreshPortKeepsDistinct(ports, old(lastport), lastport, slot);
      conns[slot].Fill(Htons(lastport), rport, rip, ttl);
      assert LocalPorts(conns) == ports[slot := Htons(lastport)];
    }
  }
}
