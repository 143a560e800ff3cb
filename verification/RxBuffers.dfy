/**
 * The two layers that pass receive buffers around: src/board/brd_rxtx.c below, which wraps the
 * packets of the hardware, and src/kernel/rx.c above, which offers them to callbacks. Wrappers
 * are recycled last-in first-out and independently of the buffers they once carried, yet no
 * buffer is ever lost or in two places, and a wrapper is always there when one is needed.
 */
module RxBuffers {
  import Chain = RxChain

  datatype RxFlag = Timestamp | TrafficClass | Truncated | ErrorCrc | ErrorOther

  /** `sys_pkt_t`: a wrapper of the upper layer. Buffers are identified by numbers. */
  class SysPkt {
    var data: nat
    var pktLen: nat
    var bufLen: nat
    var flags: set<RxFlag>
    var cos: nat
    var timestamp: nat
    var next: SysPkt?

    constructor (data: nat, bufLen: nat)
      ensures this.data == data && this.bufLen == bufLen
    {
      this.data, this.bufLen := data, bufLen;
      pktLen, flags, cos, timestamp, next := 0, {}, 0, 0, null;
    }
  }

  /** `soc_rx_packet_t`: a packet descriptor of the hardware. */
  class SocPkt {
    var buffer: nat
    var bufLen: nat
    var pktLen: nat
    var flags: set<RxFlag>
    var trafficClass: nat
    var timestamp: nat
    var next: SocPkt?

    constructor ()
    {
      buffer, bufLen, pktLen, flags, trafficClass, timestamp, next := 0, 0, 0, {}, 0, 0, null;
    }
  }

  // ---------- Intrusive lists ----------

  ghost function SysAt(nodes: seq<SysPkt>, i: int): SysPkt? {
    if 0 <= i < |nodes| then nodes[i] else null
  }

  ghost predicate SysLinked(list: SysPkt?, nodes: seq<SysPkt>)
    reads nodes
  {
    && list == SysAt(nodes, 0)
    && (forall i {:trigger nodes[i].next} :: 0 <= i < |nodes| ==> nodes[i].next == SysAt(nodes, i + 1))
    && (forall i, j :: 0 <= i < j < |nodes| ==> nodes[i] != nodes[j])
  }

  ghost function SocAt(nodes: seq<SocPkt>, i: int): SocPkt? {
    if 0 <= i < |nodes| then nodes[i] else null
  }

  ghost predicate SocLinked(list: SocPkt?, nodes: seq<SocPkt>)
    reads nodes
  {
    && list == SocAt(nodes, 0)
    && (forall i {:trigger nodes[i].next} :: 0 <= i < |nodes| ==> nodes[i].next == SocAt(nodes, i + 1))
    && (forall i, j :: 0 <= i < j < |nodes| ==> nodes[i] != nodes[j])
  }

  ghost function SysSet(nodes: seq<SysPkt>): set<SysPkt> {
    set n | n in nodes
  }

  ghost function SocSet(nodes: seq<SocPkt>): set<SocPkt> {
    set n | n in nodes
  }

  // ---------- Where the buffers are ----------

  /**
   * `ring` says which buffer each descriptor in the hardware carries, `outside` which buffer each
   * wrapper of the upper layer carries. No buffer is carried twice, and none is missing.
   */
  ghost predicate EachOnce(ring: map<SocPkt, nat>, outside: map<SysPkt, nat>, buffers: set<nat>) {
    && (forall s, t :: s in ring && t in ring && s != t ==> ring[s] != ring[t])
    && (forall v, w :: v in outside && w in outside && v != w ==> outside[v] != outside[w])
    && (forall s, w :: s in ring && w in outside ==> ring[s] != outside[w])
    && buffers == ring.Values + outside.Values
  }

  /** A buffer moves from a descriptor to a wrapper that carried none. */
  lemma MoveUp(ring: map<SocPkt, nat>, outside: map<SysPkt, nat>, buffers: set<nat>, s: SocPkt, w: SysPkt)
    requires EachOnce(ring, outside, buffers) && s in ring && w !in outside
    ensures EachOnce(ring - {s}, outside[w := ring[s]], buffers)
  {
    var ring', outside' := ring - {s}, outside[w := ring[s]];
    assert outside'[w] in outside'.Values;
    forall b | b in buffers
      ensures b in ring'.Values + outside'.Values
    {
      if b in ring.Values {
        var t: SocPkt :| t in ring && ring[t] == b;
        if t != s { assert ring'[t] == b; }
      } else {
        var v: SysPkt :| v in outside && outside[v] == b;
        assert outside'[v] == b;
      }
    }
  }

  /** A buffer moves from a wrapper to a descriptor that carried none. */
  lemma MoveDown(ring: map<SocPkt, nat>, outside: map<SysPkt, nat>, buffers: set<nat>, s: SocPkt, w: SysPkt)
    requires EachOnce(ring, outside, buffers) && s !in ring && w in outside
    ensures EachOnce(ring[s := outside[w]], outside - {w}, buffers)
  {
    var ring', outside' := ring[s := outside[w]], outside - {w};
    assert ring'[s] in ring'.Values;
    forall b | b in buffers
      ensures b in ring'.Values + outside'.Values
    {
      if b in outside.Values {
        var v: SysPkt :| v in outside && outside[v] == b;
        if v != w { assert outside'[v] == b; }
      } else {
        var t: SocPkt :| t in ring && ring[t] == b;
        assert ring'[t] == b;
      }
    }
  }

  /** A new buffer comes in with a new wrapper. */
  lemma MoveIn(ring: map<SocPkt, nat>, outside: map<SysPkt, nat>, buffers: set<nat>, w: SysPkt, b: nat)
    requires EachOnce(ring, outside, buffers) && w !in outside && b !in buffers
    ensures EachOnce(ring, outside[w := b], buffers + {b})
  {
    var outside' := outside[w := b];
    assert outside'[w] in outside'.Values;
    forall v | v in outside
      ensures outside[v] in outside'.Values && outside[v] in buffers
    {
      assert outside'[v] == outside[v];
    }
    forall s | s in ring
      ensures ring[s] in buffers
    {
    }
  }

  lemma {:induction false} InjectiveSize<T>(m: map<T, nat>)
    requires forall s, t :: s in m && t in m && s != t ==> m[s] != m[t]
    ensures |m.Values| == |m|
    decreases |m|
  {
    if |m| == 0 {
      assert m.Values == {};
    } else {
      var t :| t in m;
      var rest := m - {t};
      assert m.Values == rest.Values + {m[t]} by {
        forall b | b in m.Values
          ensures b in rest.Values + {m[t]}
        {
          var s :| s in m && m[s] == b;
          if s != t { assert rest[s] == b; }
        }
      }
      InjectiveSize(rest);
    }
  }

  /** Conservation in numbers: as many buffers as descriptors in the hardware and wrappers above. */
  lemma BuffersAreCounted(ring: map<SocPkt, nat>, outside: map<SysPkt, nat>, buffers: set<nat>)
    requires EachOnce(ring, outside, buffers)
    ensures |buffers| == |ring| + |outside|
  {
    InjectiveSize(ring);
    InjectiveSize(outside);
    assert ring.Values !! outside.Values;
  }

  /** The descriptors and wrappers really carry what the maps say. */
  ghost predicate Carries(ring: map<SocPkt, nat>, outside: map<SysPkt, nat>)
    reads ring.Keys`buffer, outside.Keys`data
  {
    && (forall s :: s in ring ==> s.buffer == ring[s])
    && (forall w :: w in outside ==> w.data == outside[w])
  }

  lemma CarriesOneMore(ring: map<SocPkt, nat>, outside: map<SysPkt, nat>, w: SysPkt)
    requires Carries(ring, outside)
    ensures Carries(ring, outside[w := w.data])
  {
  }

  class Board {
    var sysList: SysPkt?   // rx_syspkt_list
    var socList: SocPkt?   // rx_pkt_list

    ghost var sysFree: seq<SysPkt>         // the wrappers in the first list
    ghost var socFree: seq<SocPkt>         // the descriptors in the second
    ghost var ring: map<SocPkt, nat>       // the descriptors the hardware holds, with their buffers
    ghost var outside: map<SysPkt, nat>    // the wrappers that are with the upper layer, with their buffers
    ghost var buffers: set<nat>            // all buffers given to the system

    /** `brdimpl_rxtx_init` */
    constructor ()
      ensures Valid() && sysFree == [] && socFree == [] && ring == map[] && outside == map[] && buffers == {}
    {
      sysList, socList := null, null;
      sysFree, socFree, ring, outside, buffers := [], [], map[], map[], {};
    }

    ghost predicate Valid()
      reads this, sysFree, socFree, ring.Keys, outside.Keys
    {
      && SysLinked(sysList, sysFree)
      && SocLinked(socList, socFree)
      && (forall s :: s in socFree ==> s !in ring)
      && (forall w :: w in sysFree ==> w !in outside)
      && |sysFree| == |ring|
      && Carries(ring, outside)
      && EachOnce(ring, outside, buffers)
    }

    /** All wrappers of the system: each is free or outside. */
    ghost function Wrappers(): set<SysPkt>
      reads this
    {
      SysSet(sysFree) + outside.Keys
    }

    /** Taking a wrapper from the free list. */
    method PopWrapper() returns (wrap: SysPkt)
      requires SysLinked(sysList, sysFree) && sysFree != []
      modifies this`sysList, this`sysFree
      ensures SysLinked(sysList, sysFree) && old(sysFree) == [wrap] + sysFree && wrap !in sysFree
    {
      wrap := sysList;
      sysList := wrap.next;
      sysFree := sysFree[1..];
    }

    method PushWrapper(wrap: SysPkt)
      requires SysLinked(sysList, sysFree) && wrap !in sysFree
      modifies this`sysList, this`sysFree, wrap`next
      ensures SysLinked(sysList, sysFree) && sysFree == [wrap] + old(sysFree)
    {
      ghost var rest := sysFree;
      sysFree := [wrap] + sysFree;
      wrap.next := sysList;
      sysList := wrap;
      assert sysFree[1..] == rest;
    }

    /** A free descriptor, or a new one when the list is empty. */
    method TakeDescriptor() returns (spkt: SocPkt)
      requires SocLinked(socList, socFree)
      modifies this`socList, this`socFree
      ensures SocLinked(socList, socFree) && spkt !in socFree
      ensures if old(socFree) == [] then fresh(spkt) && socFree == [] else old(socFree) == [spkt] + socFree
    {
      if socList == null {
        spkt := new SocPkt();
      } else {
        spkt := socList;
        socList := spkt.next;
        socFree := socFree[1..];
      }
    }

    method PushDescriptor(pkt: SocPkt)
      requires SocLinked(socList, socFree) && pkt !in socFree
      modifies this`socList, this`socFree, pkt`next
      ensures SocLinked(socList, socFree) && socFree == [pkt] + old(socFree)
    {
      ghost var rest := socFree;
      socFree := [pkt] + socFree;
      pkt.next := socList;
      socList := pkt;
      assert socFree[1..] == rest;
    }

    /** The fields a wrapper gets from a filled descriptor. */
    method Wrap(wrap: SysPkt, pkt: SocPkt)
      modifies wrap
      ensures wrap.data == pkt.buffer && wrap.pktLen == pkt.pktLen && wrap.bufLen == pkt.bufLen && wrap.flags == pkt.flags
      ensures wrap.timestamp == if Timestamp in pkt.flags then pkt.timestamp else old(wrap.timestamp)
      ensures wrap.cos == if TrafficClass in pkt.flags then pkt.trafficClass else old(wrap.cos)
    {
      wrap.data := pkt.buffer;
      wrap.pktLen := pkt.pktLen;
      wrap.bufLen := pkt.bufLen;
      wrap.next := null;
      if Timestamp in pkt.flags {
        wrap.timestamp := pkt.timestamp;
      }
      if TrafficClass in pkt.flags {
        wrap.cos := pkt.trafficClass;
      }
      wrap.flags := pkt.flags;
    }

    /** The buffer of a filled descriptor moves into a free wrapper. */
    method TakeWrapper(pkt: SocPkt) returns (wrap: SysPkt)
      requires SysLinked(sysList, sysFree) && sysFree != [] && (forall w :: w in sysFree ==> w !in outside)
      requires Carries(ring, outside) && EachOnce(ring, outside, buffers) && pkt in ring
      modifies this`sysList, this`sysFree, this`ring, this`outside, sysFree
      ensures SysLinked(sysList, sysFree) && Carries(ring, outside) && EachOnce(ring, outside, buffers)
      ensures old(sysFree) == [wrap] + sysFree && wrap !in sysFree
      ensures ring == old(ring) - {pkt} && outside == old(outside)[wrap := old(ring)[pkt]]
      ensures wrap.flags == pkt.flags
    {
      hide EachOnce, SysLinked;
      assert sysFree[0] in SysSet(sysFree);
      MoveUp(ring, outside, buffers, pkt, sysFree[0]);
      ring, outside := ring - {pkt}, outside[sysFree[0] := ring[pkt]];
      wrap := PopWrapper();
      assert wrap == old(sysFree)[0];
      Wrap(wrap, pkt);
    }

    /** The buffer of a wrapper moves into a free descriptor. */
    method FillDescriptor(spkt: SocPkt, pkt: SysPkt)
      requires Carries(ring, outside) && EachOnce(ring, outside, buffers) && pkt in outside && spkt !in ring
      modifies this`ring, this`outside, spkt`buffer, spkt`bufLen
      ensures Carries(ring, outside) && EachOnce(ring, outside, buffers)
      ensures ring == old(ring)[spkt := old(outside)[pkt]] && outside == old(outside) - {pkt}
    {
      MoveDown(ring, outside, buffers, spkt, pkt);
      hide EachOnce;
      ring, outside := ring[spkt := outside[pkt]], outside - {pkt};
      spkt.buffer := pkt.data;
      spkt.bufLen := pkt.bufLen;
    }

    /** The buffer of `pkt` goes to a wrapper, and `pkt` to the free descriptors. */
    method WrapAndPush(pkt: SocPkt) returns (wrap: SysPkt)
      requires SysLinked(sysList, sysFree) && SocLinked(socList, socFree)
      requires Carries(ring, outside) && EachOnce(ring, outside, buffers)
      requires sysFree != [] && (forall w :: w in sysFree ==> w !in outside) && pkt in ring && pkt !in socFree
      modifies this`sysList, this`socList, this`sysFree, this`socFree, this`ring, this`outside, sysFree, pkt`next
      ensures SysLinked(sysList, sysFree) && SocLinked(socList, socFree)
      ensures Carries(ring, outside) && EachOnce(ring, outside, buffers)
      ensures old(sysFree) == [wrap] + sysFree && wrap !in sysFree && socFree == [pkt] + old(socFree)
      ensures ring == old(ring) - {pkt} && outside == old(outside)[wrap := old(ring)[pkt]]
      ensures wrap.flags == pkt.flags
    {
      hide EachOnce, SysLinked, SocLinked;
      wrap := TakeWrapper(pkt);
      PushDescriptor(pkt);
    }

    /**
     * `brdimpl_rx_handler` up to the call of the upper layer: the hardware gives back the filled
     * `pkt`. There always is a free wrapper, and the buffer moves into it.
     */
    method RxHandler(pkt: SocPkt) returns (wrap: SysPkt)
      requires Valid() && pkt in ring
      modifies this`sysList, this`socList, this`sysFree, this`socFree, this`ring, this`outside, sysFree, pkt`next
      ensures Valid() && Wrappers() == old(Wrappers())
      ensures old(sysFree) == [wrap] + sysFree && socFree == [pkt] + old(socFree)
      ensures ring == old(ring) - {pkt} && outside == old(outside)[wrap := old(ring)[pkt]]
      ensures wrap.flags == pkt.flags
    {
      hide EachOnce, SysLinked, SocLinked, Carries;
      wrap := WrapAndPush(pkt);
    }

    /** The buffer of `pkt` goes to a descriptor for the hardware, and `pkt` to the free wrappers. */
    method FillAndPush(pkt: SysPkt) returns (spkt: SocPkt)
      requires SysLinked(sysList, sysFree) && SocLinked(socList, socFree)
      requires Carries(ring, outside) && EachOnce(ring, outside, buffers)
      requires pkt in outside && pkt !in sysFree && forall s :: s in socFree ==> s !in ring
      modifies this`sysList, this`socList, this`sysFree, this`socFree, this`ring, this`outside, socFree, pkt`next
      ensures SysLinked(sysList, sysFree) && SocLinked(socList, socFree)
      ensures Carries(ring, outside) && EachOnce(ring, outside, buffers)
      ensures if old(socFree) == [] then fresh(spkt) && socFree == [] else old(socFree) == [spkt] + socFree
      ensures spkt !in socFree && spkt !in old(ring)
      ensures sysFree == [pkt] + old(sysFree)
      ensures ring == old(ring)[spkt := old(outside)[pkt]] && outside == old(outside) - {pkt}
    {
      hide EachOnce, SysLinked, SocLinked;
      spkt := TakeDescriptor();
      assert old(socFree) != [] ==> spkt == old(socFree)[0] && spkt in old(socFree);
      FillDescriptor(spkt, pkt);
      PushWrapper(pkt);
    }

    /** `brdimpl_rx_fill_buffer`, the memory and the hardware accepting. */
    method RxFillBuffer(pkt: SysPkt) returns (spkt: SocPkt)
      requires Valid() && pkt in outside
      modifies this`sysList, this`socList, this`sysFree, this`socFree, this`ring, this`outside, socFree, pkt`next
      ensures Valid() && Wrappers() == old(Wrappers())
      ensures sysFree == [pkt] + old(sysFree) && outside == old(outside) - {pkt}
      ensures spkt !in old(ring) && ring == old(ring)[spkt := old(outside)[pkt]]
      ensures forall s :: s in socFree ==> s in old(socFree)
    {
      hide EachOnce, SysLinked, SocLinked, Carries;
      spkt := FillAndPush(pkt);
    }
  
    /** A new wrapper with a new buffer belongs to the upper layer. */
    ghost method Adopt(pkt: SysPkt)
      requires Valid() && pkt !in outside && pkt !in sysFree && pkt.data !in buffers
      modifies this`outside, this`buffers
      ensures Valid()
      ensures outside == old(outside)[pkt := pkt.data] && buffers == old(buffers) + {pkt.data}
    {
      hide EachOnce, SysLinked, SocLinked, Carries;
      MoveIn(ring, outside, buffers, pkt, pkt.data);
      CarriesOneMore(ring, outside, pkt);
      outside, buffers := outside[pkt := pkt.data], buffers + {pkt.data};
    }
  }

  /** Damaged packets are those the hardware flagged as truncated or erroneous. */
  predicate Damaged(flags: set<RxFlag>) {
    Truncated in flags || ErrorCrc in flags || ErrorOther in flags
  }

  class RxKernel {
    const board: Board
    const callbacks: Chain.Callbacks
    var pool: SysPkt?              // rx_pkt_pool
    ghost var pooled: seq<SysPkt>  // the wrappers in the pool

    /** The pool is a list of wrappers with buffers, and it is empty while a callback is registered. */
    ghost predicate PoolOk()
      reads this, board, callbacks`count, pooled
    {
      && SysLinked(pool, pooled)
      && SysSet(pooled) <= board.outside.Keys
      && (callbacks.count > 0 ==> pooled == [])
    }

    ghost predicate Valid()
      reads this, board, board.sysFree, board.socFree, board.ring.Keys, board.outside.Keys
      reads callbacks, callbacks.slots, callbacks.chain, pooled
    {
      board.Valid() && callbacks.Valid() && PoolOk()
    }

    /** The wrappers that are with the dispatcher or a client. */
    ghost function Held(): set<SysPkt>
      reads this, board
    {
      board.outside.Keys - SysSet(pooled)
    }

    /** `sys_rx_init` */
    constructor (board: Board, callbacks: Chain.Callbacks)
      requires board.Valid() && callbacks.Valid()
      ensures this.board == board && this.callbacks == callbacks && pooled == [] && Valid()
    {
      this.board, this.callbacks := board, callbacks;
      pool, pooled := null, [];
    }

    /** `sys_rx_refill` */
    method Refill(pkt: SysPkt)
      requires board.Valid() && PoolOk() && pkt in Held()
      modifies this`pool, this`pooled, board, SocSet(board.socFree), pkt`next
      ensures board.Valid() && PoolOk()
      ensures Held() == old(Held()) - {pkt}
      ensures board.buffers == old(board.buffers) && board.Wrappers() == old(board.Wrappers())
      ensures callbacks.count > 0 ==> pkt in board.sysFree
      ensures callbacks.count == 0 ==> pooled == [pkt] + old(pooled)
      ensures SocSet(board.socFree) <= SocSet(old(board.socFree))
    {
      hide EachOnce, SysLinked, SocLinked;
      if callbacks.count > 0 {
        var _ := board.RxFillBuffer(pkt);
        EmptyIsLinked();
      } else {
        PushPool(pkt);
      }
    }

    lemma EmptyIsLinked()
      ensures forall list :: SysLinked(list, []) <==> list == null
    {
    }

    method PushPool(pkt: SysPkt)
      requires SysLinked(pool, pooled) && pkt !in pooled
      modifies this`pool, this`pooled, pkt`next
      ensures SysLinked(pool, pooled) && pooled == [pkt] + old(pooled)
    {
      ghost var rest := pooled;
      pooled := [pkt] + pooled;
      pkt.next := pool;
      pool := pkt;
      assert pooled[1..] == rest;
    }

    method PopPool() returns (pkt: SysPkt)
      requires SysLinked(pool, pooled) && pooled != []
      modifies this`pool, this`pooled
      ensures SysLinked(pool, pooled) && old(pooled) == [pkt] + pooled && pkt !in pooled
    {
      pkt := pool;
      pool := pool.next;
      pooled := pooled[1..];
    }

    /** One turn of the draining loop of `sys_rx_register`. */
    method DrainOne()
      requires board.Valid() && SysLinked(pool, pooled) && SysSet(pooled) <= board.outside.Keys && pooled != []
      modifies this`pool, this`pooled, board, SocSet(board.socFree), SysSet(pooled)
      ensures board.Valid() && SysLinked(pool, pooled) && SysSet(pooled) <= board.outside.Keys
      ensures |pooled| < |old(pooled)| && SysSet(pooled) <= SysSet(old(pooled)) && Held() == old(Held())
      ensures board.buffers == old(board.buffers) && board.Wrappers() == old(board.Wrappers())
      ensures SocSet(board.socFree) <= SocSet(old(board.socFree))
    {
      hide EachOnce, SysLinked, SocLinked, Carries;
      assert pooled[0] in SysSet(pooled);
      var pkt := PopPool();
      assert pkt == old(pooled)[0];
      var _ := board.RxFillBuffer(pkt);
    }

    lemma PoolEnds()
      requires SysLinked(pool, pooled)
      ensures pool == null <==> pooled == []
    {
    }

    /** The draining loop: the whole pool goes to the hardware. */
    method Drain()
      requires board.Valid() && SysLinked(pool, pooled) && SysSet(pooled) <= board.outside.Keys
      modifies this`pool, this`pooled, board, SocSet(board.socFree), SysSet(pooled)
      ensures board.Valid() && SysLinked(pool, pooled) && pooled == [] && Held() == old(Held())
      ensures board.buffers == old(board.buffers) && board.Wrappers() == old(board.Wrappers())
    {
      hide EachOnce, SysLinked, SocLinked, Carries, Board.Valid, Held, Board.Wrappers, SysSet, SocSet;
      PoolEnds();
      while pool != null
        invariant board.Valid() && SysLinked(pool, pooled) && SysSet(pooled) <= board.outside.Keys
        invariant pool == null <==> pooled == []
        invariant Held() == old(Held()) && board.buffers == old(board.buffers) && board.Wrappers() == old(board.Wrappers())
        invariant SysSet(pooled) <= SysSet(old(pooled)) && SocSet(board.socFree) <= SocSet(old(board.socFree))
        decreases |pooled|
      {
        DrainOne();
        PoolEnds();
      }
    }

    /** `sys_rx_register`: the first callback sends the pool to the hardware. */
    method Register(callback: nat, priority: nat, cookie: nat, acceptsTruncated: bool) returns (rv: Chain.SysError)
      requires Valid()
      modifies this`pool, this`pooled, board, SocSet(board.socFree), SysSet(pooled), callbacks, callbacks.slots
      ensures Valid() && Held() == old(Held())
      ensures board.buffers == old(board.buffers) && board.Wrappers() == old(board.Wrappers())
      ensures callbacks.regs == Chain.Serve(old(callbacks.regs), |callbacks.slots|,
        Chain.Request.Register(Chain.Registration(callback, priority, cookie, acceptsTruncated)))
      ensures rv.Ok? ==> pooled == []
    {
      hide EachOnce, SysLinked, SocLinked, Carries, Board.Valid, Held, Board.Wrappers, SysSet, SocSet;
      hide Chain.Callbacks.Valid;
      rv := callbacks.Register(callback, priority, cookie, acceptsTruncated);
      if rv.Ok? && callbacks.count == 1 {
        Drain();
        EmptyPoolIsOk();
      }
    }

    lemma EmptyPoolIsOk()
      requires SysLinked(pool, pooled) && pooled == []
      ensures PoolOk()
    {
    }

    /** `sys_rx_unregister` */
    method Unregister(callback: nat) returns (rv: Chain.SysError)
      requires Valid()
      modifies callbacks, callbacks.slots
      ensures Valid() && Held() == old(Held())
      ensures callbacks.regs == Chain.Serve(old(callbacks.regs), |callbacks.slots|, Chain.Request.Unregister(callback))
    {
      hide EachOnce, SysLinked, SocLinked, Carries, Board.Valid, SysSet, SocSet;
      hide Chain.Callbacks.Valid;
      rv := callbacks.Unregister(callback);
    }

    /** `sys_rx_free_packet`: a client gives a packet back. */
    method FreePacket(pkt: SysPkt?)
      requires Valid() && (pkt != null ==> pkt in Held())
      modifies this`pool, this`pooled, board, SocSet(board.socFree), if pkt == null then {} else {pkt}
      ensures Valid() && Held() == old(Held()) - (if pkt == null then {} else {pkt})
      ensures board.buffers == old(board.buffers) && board.Wrappers() == old(board.Wrappers())
      ensures SocSet(board.socFree) <= SocSet(old(board.socFree))
    {
      hide EachOnce, SysLinked, SocLinked, Carries, Board.Valid, Held, Board.Wrappers, SysSet, SocSet, PoolOk;
      hide Chain.Callbacks.Valid;
      if pkt != null {
        Refill(pkt);
      }
    }

    /** A fresh wrapper is held. */
    method NewHeld(buffer: nat, size: nat) returns (pkt: SysPkt)
      requires board.Valid() && PoolOk() && buffer !in board.buffers
      modifies board`outside, board`buffers
      ensures board.Valid() && PoolOk() && fresh(pkt) && Held() == old(Held()) + {pkt} && pkt !in old(Held())
      ensures board.buffers == old(board.buffers) + {buffer}
      ensures board.Wrappers() == old(board.Wrappers()) + {pkt}
    {
      hide EachOnce, SysLinked, SocLinked, Carries;
      pkt := new SysPkt(buffer, size);
      assert pkt !in pooled;
      board.Adopt(pkt);
    }

    /** `sys_rx_add_buffer`: a new buffer, unless it is NULL or empty, enters the system in a new wrapper. */
    method AddBuffer(buffer: nat, size: nat)
      requires Valid() && buffer !in board.buffers
      modifies this`pool, this`pooled, board, SocSet(board.socFree)
      ensures Valid() && Held() == old(Held())
      ensures board.buffers == if buffer == 0 || size == 0 then old(board.buffers) else old(board.buffers) + {buffer}
      ensures if buffer == 0 || size == 0 then board.Wrappers() == old(board.Wrappers())
              else exists w :: fresh(w) && board.Wrappers() == old(board.Wrappers()) + {w}
    {
      hide EachOnce, SysLinked, SocLinked, Carries, Board.Valid, Held, Board.Wrappers, SysSet, SocSet, PoolOk;
      hide Chain.Callbacks.Valid;
      if buffer == 0 || size == 0 {
        return;
      }
      var pkt := NewHeld(buffer, size);
      Refill(pkt);
    }

    /** The hardware's packet becomes a held wrapper. */
    method TakeIn(pkt: SocPkt) returns (wrap: SysPkt)
      requires board.Valid() && PoolOk() && pkt in board.ring
      modifies board, SysSet(board.sysFree), pkt`next
      ensures board.Valid() && PoolOk()
      ensures Held() == old(Held()) + {wrap} && wrap in old(board.Wrappers()) && wrap !in old(Held())
      ensures wrap.flags == pkt.flags
      ensures board.buffers == old(board.buffers) && board.Wrappers() == old(board.Wrappers())
      ensures SocSet(board.socFree) == SocSet(old(board.socFree)) + {pkt} && wrap in SysSet(old(board.sysFree))
    {
      hide EachOnce, SocLinked, Carries;
      forall w | w in pooled
        ensures w !in board.sysFree
      {
        assert w in SysSet(pooled);
      }
      wrap := board.RxHandler(pkt);
      assert wrap == old(board.sysFree)[0];
      forall i | 0 <= i < |pooled|
        ensures pooled[i].next == old(pooled[i].next)
      {
        assert pooled[i] in pooled;
      }
    }

    /** `board_rx_fill_buffer` for a held wrapper. */
    method GiveBack(pkt: SysPkt)
      requires board.Valid() && PoolOk() && pkt in Held()
      modifies board, SocSet(board.socFree), pkt`next
      ensures board.Valid() && PoolOk() && Held() == old(Held()) - {pkt}
      ensures board.buffers == old(board.buffers) && board.Wrappers() == old(board.Wrappers())
      ensures pkt in board.sysFree
    {
      hide EachOnce, SysLinked, SocLinked, Carries;
      var _ := board.RxFillBuffer(pkt);
    }

    /** A callback may give back packets it holds; afterwards it answers. */
    method FreeAll(frees: seq<SysPkt>)
      requires Valid() && GivesBack(frees, Held())
      modifies this`pool, this`pooled, board, SocSet(board.socFree), SysSet(frees)
      ensures Valid() && Held() == old(Held()) - SysSet(frees)
      ensures board.buffers == old(board.buffers) && board.Wrappers() == old(board.Wrappers())
      ensures SocSet(board.socFree) <= SocSet(old(board.socFree))
    {
      hide *;
      var i := 0;
      NoneFreed(frees);
      while i < |frees|
        invariant 0 <= i <= |frees| && Valid() && Held() == old(Held()) - SysSet(frees[..i])
        invariant board.buffers == old(board.buffers) && board.Wrappers() == old(board.Wrappers())
        invariant SocSet(board.socFree) <= SocSet(old(board.socFree))
      {
        OneMoreFreed(frees, i, old(Held()));
        FreePacket(frees[i]);
        i := i + 1;
      }
      assert frees[..i] == frees;
    }

    /** The state the walk began in, as far as it matters. */
    ghost function Now(): Start
      reads this, board
    {
      Start(Held(), board.buffers, board.Wrappers(), SocSet(board.socFree))
    }

    /** After `n` turns exactly what their callbacks gave back is no longer held. */
    ghost predicate AfterTurns(turns: seq<Turn>, n: nat, wrap: SysPkt, start: Start)
      reads this, board, board.sysFree, board.socFree, board.ring.Keys, board.outside.Keys
      reads callbacks, callbacks.slots, callbacks.chain, pooled
    {
      && Valid() && n <= |turns| && wrap in Held() && Held() == start.held - SysSet(Frees(turns[..n]))
      && board.buffers == start.buffers && board.Wrappers() == start.wrappers && SocSet(board.socFree) <= start.socFree
    }

    lemma NoTurns(turns: seq<Turn>, wrap: SysPkt)
      requires Valid() && wrap in Held()
      ensures AfterTurns(turns, 0, wrap, Now())
    {
      NothingFreed(turns);
    }

    /** What the `n`-th callback gives back while the packet is offered to it. */
    method OneTurn(turns: seq<Turn>, n: nat, wrap: SysPkt, ghost start: Start)
      requires AfterTurns(turns, n, wrap, start) && n < |turns|
      requires GivesBack(Frees(turns), start.held - {wrap}) && wrap in start.held
      modifies this`pool, this`pooled, board, SocSet(board.socFree), SysSet(turns[n].frees)
      ensures AfterTurns(turns, n + 1, wrap, start) && callbacks.Valid()
      ensures SocSet(board.socFree) <= SocSet(old(board.socFree))
    {
      hide Valid, Held, SysSet, SocSet, Board.Wrappers, Frees, GivesBack;
      OneMoreTurn(turns, n, start.held, wrap);
      StillHeld(turns, n + 1, start.held, wrap);
      FreeAll(turns[n].frees);
      ChainIsValid();
    }

    lemma ChainIsValid()
      requires Valid()
      ensures callbacks.Valid()
    {
    }

    /**
     * The walk of `sys_rx_handler`: the eligible callbacks are asked in chain order, each at most
     * once, up to the first that takes the packet. `calls` is how many were called, the k-th of
     * which gives back `turns[k].frees` and then answers; `asked` is the trace of the calls.
     */
    method Offer(wrap: SysPkt, damaged: bool, turns: seq<Turn>)
      returns (verdict: Chain.Verdict, calls: nat, ghost asked: seq<Chain.Registration>)
      requires Valid() && wrap in Held() && GivesBack(Frees(turns), Held() - {wrap})
      requires |Chain.EligibleOnes(callbacks.regs, damaged)| <= |turns|
      modifies this`pool, this`pooled, board, SocSet(board.socFree), SysSet(Frees(turns))
      ensures AfterTurns(turns, calls, wrap, old(Now()))
      ensures calls == 0 ==> pooled == old(pooled)
      ensures calls <= |Chain.EligibleOnes(callbacks.regs, damaged)|
      ensures asked == Chain.EligibleOnes(callbacks.regs, damaged)[..calls]
      ensures forall j :: 0 <= j < calls - 1 ==> turns[j].answer.NotHandled? || turns[j].answer.Invalid?
      ensures calls < |Chain.EligibleOnes(callbacks.regs, damaged)| ==>
        calls > 0 && (turns[calls - 1].answer.Handled? || turns[calls - 1].answer.HandledAndOwned?)
      ensures verdict == if calls == 0 then Chain.Refill
                         else match turns[calls - 1].answer
                           case Handled => Chain.FillBuffer
                           case HandledAndOwned => Chain.Owned
                           case _ => Chain.Refill
    {
      hide *;
      ghost var all := Chain.EligibleOnes(callbacks.regs, damaged);
      asked, calls := [], 0;
      ghost var todo := all;
      ghost var start := Now();
      TraceStarts(all);
      NoTurns(turns, wrap);
      StartIs(start);
      SettlesFirst(turns);
      var cur;
      ghost var k;
      cur, k := callbacks.First(damaged);
      verdict := Chain.Refill;
      while cur != null && verdict.Refill?
        invariant calls <= |all| <= |turns| && asked == Asked(all, calls) && todo == ToBeAsked(all, calls)
        invariant all == Chain.EligibleOnes(callbacks.regs, damaged)
        invariant AfterTurns(turns, calls, wrap, start) && SocSet(board.socFree) <= SocSet(old(board.socFree))
        invariant verdict.Refill? ==> k <= |callbacks.chain| && callbacks.ToAsk(cur, k, damaged, todo)
        invariant Settles(turns, calls, verdict)
        invariant calls == 0 ==> pooled == old(pooled)
        decreases verdict.Refill?, |callbacks.chain| - k
      {
        callbacks.NotDone(cur, k, damaged, todo);
        TraceGrows(all, calls);
        asked := asked + [todo[0]];
        FreesAreKnown(turns, calls);
        OneTurn(turns, calls, wrap, start);
        calls := calls + 1;
        SettlesAfter(turns, calls, verdict);
        if Chain.Ends(turns[calls - 1].answer) {
          verdict := if turns[calls - 1].answer.Handled? then Chain.FillBuffer else Chain.Owned;
        } else {
          cur, k := callbacks.After(cur, k, damaged, todo);
        }
        todo := todo[1..];
      }
      if verdict.Refill? {
        callbacks.Done(k, damaged, todo);
      }
      Settled(turns, calls, verdict);
      TraceIs(all, calls);
    }

    /** The verdict after `n` turns: that of the last one, no earlier one having taken the packet. */
    ghost predicate Settles(turns: seq<Turn>, n: nat, verdict: Chain.Verdict) {
      && n <= |turns| && (forall j :: 0 <= j < n - 1 ==> !Chain.Ends(turns[j].answer))
      && verdict == if n == 0 || !Chain.Ends(turns[n - 1].answer) then Chain.Refill
                    else if turns[n - 1].answer.Handled? then Chain.FillBuffer else Chain.Owned
    }

    lemma SettlesFirst(turns: seq<Turn>)
      ensures Settles(turns, 0, Chain.Refill)
    {
    }

    lemma SettlesAfter(turns: seq<Turn>, n: nat, verdict: Chain.Verdict)
      requires 0 < n <= |turns| && Settles(turns, n - 1, verdict) && verdict.Refill?
      ensures Settles(turns, n, if !Chain.Ends(turns[n - 1].answer) then Chain.Refill
                                else if turns[n - 1].answer.Handled? then Chain.FillBuffer else Chain.Owned)
    {
    }

    lemma Settled(turns: seq<Turn>, n: nat, verdict: Chain.Verdict)
      requires n <= |turns| && Settles(turns, n, verdict)
      ensures forall j :: 0 <= j < n - 1 ==> turns[j].answer.NotHandled? || turns[j].answer.Invalid?
      ensures verdict == if n == 0 then Chain.Refill
                         else match turns[n - 1].answer
                           case Handled => Chain.FillBuffer
                           case HandledAndOwned => Chain.Owned
                           case _ => Chain.Refill
    {
    }

    ghost function Asked(all: seq<Chain.Registration>, n: nat): seq<Chain.Registration> {
      if n <= |all| then all[..n] else all
    }

    ghost function ToBeAsked(all: seq<Chain.Registration>, n: nat): seq<Chain.Registration> {
      if n <= |all| then all[n..] else []
    }

    lemma TraceStarts(all: seq<Chain.Registration>)
      ensures Asked(all, 0) == [] && ToBeAsked(all, 0) == all
    {
    }

    lemma TraceGrows(all: seq<Chain.Registration>, n: nat)
      requires ToBeAsked(all, n) != []
      ensures n < |all| && Asked(all, n) + [ToBeAsked(all, n)[0]] == Asked(all, n + 1)
      ensures ToBeAsked(all, n)[1..] == ToBeAsked(all, n + 1)
    {
    }

    lemma TraceIs(all: seq<Chain.Registration>, n: nat)
      requires n <= |all|
      ensures Asked(all, n) == all[..n] && (ToBeAsked(all, n) == [] ==> n == |all|)
    {
    }

    lemma StartIs(start: Start)
      requires Valid() && start == Now()
      ensures callbacks.Valid() && start.held == Held() && start.buffers == board.buffers
      ensures start.wrappers == board.Wrappers() && start.socFree == SocSet(board.socFree)
    {
    }

    lemma AfterTurnsMeans(turns: seq<Turn>, n: nat, wrap: SysPkt, start: Start)
      requires AfterTurns(turns, n, wrap, start)
      ensures Valid() && callbacks.Valid() && n <= |turns|
      ensures wrap in Held() && Held() == start.held - SysSet(Frees(turns[..n]))
      ensures board.buffers == start.buffers && board.Wrappers() == start.wrappers && SocSet(board.socFree) <= start.socFree
    {
    }

    /**
     * The hardware gives back `pkt`: its buffer is wrapped and offered along the chain, and then
     * goes back to the hardware or the pool, or stays with the callback that kept it. The callbacks
     * may meanwhile give back packets that they kept before.
     */
    method Receive(pkt: SocPkt, turns: seq<Turn>)
      returns (wrap: SysPkt, calls: nat, ghost asked: seq<Chain.Registration>)
      requires Valid() && pkt in board.ring && GivesBack(Frees(turns), Held())
      requires |Chain.EligibleOnes(callbacks.regs, Damaged(pkt.flags))| <= |turns|
      modifies this`pool, this`pooled, board, SysSet(board.sysFree), SocSet(board.socFree), SysSet(Frees(turns)), pkt
      ensures Valid()
      ensures board.buffers == old(board.buffers) && board.Wrappers() == old(board.Wrappers())
      ensures wrap in old(board.Wrappers()) && wrap !in old(Held())
      ensures calls <= |Chain.EligibleOnes(callbacks.regs, Damaged(old(pkt.flags)))| && calls <= |turns|
      ensures asked == Chain.EligibleOnes(callbacks.regs, Damaged(old(pkt.flags)))[..calls]
      ensures var kept := calls > 0 && turns[calls - 1].answer.HandledAndOwned?;
        Held() == old(Held()) - SysSet(Frees(turns[..calls])) + if kept then {wrap} else {}
      ensures callbacks.count == 0 ==> calls == 0 && pooled == [wrap] + old(pooled)
      ensures callbacks.count > 0 ==> pooled == [] && (wrap in board.sysFree || wrap in Held())
    {
      hide Board.Valid, Held, Board.Wrappers, SysSet, SocSet, PoolOk, Chain.Callbacks.Valid, Chain.EligibleOnes;
      hide Frees, GivesBack, Damaged;
      var damaged := Damaged(pkt.flags);
      wrap := TakeIn(pkt);
      assert pooled == old(pooled);
      FreesAreOthers(turns, old(Held()), wrap);
      calls, asked := OfferAndSettle(wrap, damaged, turns);
      FreedBefore(turns, calls, old(Held()), wrap);
    }

    lemma NobodyToAsk(damaged: bool)
      requires Valid()
      ensures callbacks.count == 0 ==> Chain.EligibleOnes(callbacks.regs, damaged) == []
    {
    }

    lemma PoolIsEmpty()
      requires PoolOk()
      ensures callbacks.count > 0 ==> pooled == []
    {
    }

    /** What happens to a wrapped packet. */
    method OfferAndSettle(wrap: SysPkt, damaged: bool, turns: seq<Turn>)
      returns (calls: nat, ghost asked: seq<Chain.Registration>)
      requires Valid() && wrap in Held() && GivesBack(Frees(turns), Held() - {wrap})
      requires |Chain.EligibleOnes(callbacks.regs, damaged)| <= |turns|
      modifies this`pool, this`pooled, board, SocSet(board.socFree), SysSet(Frees(turns)), wrap`next
      ensures Valid()
      ensures board.buffers == old(board.buffers) && board.Wrappers() == old(board.Wrappers())
      ensures calls <= |Chain.EligibleOnes(callbacks.regs, damaged)| && calls <= |turns|
      ensures asked == Chain.EligibleOnes(callbacks.regs, damaged)[..calls]
      ensures var kept := calls > 0 && turns[calls - 1].answer.HandledAndOwned?;
        Held() == old(Held()) - SysSet(Frees(turns[..calls])) - if kept then {} else {wrap}
      ensures callbacks.count == 0 ==> calls == 0 && pooled == [wrap] + old(pooled)
      ensures callbacks.count > 0 ==> pooled == [] && (wrap in board.sysFree || wrap in Held())
    {
      hide EachOnce, SysLinked, SocLinked, Carries, Board.Valid, Held, Board.Wrappers, SysSet, SocSet, PoolOk;
      hide Chain.Callbacks.Valid, Chain.EligibleOnes, Frees, GivesBack, AfterTurns, Now;
      ghost var start := Now();
      StartIs(start);
      var verdict;
      NobodyToAsk(damaged);
      verdict, calls, asked := Offer(wrap, damaged, turns);
      AfterTurnsMeans(turns, calls, wrap, start);
      match verdict {
        case FillBuffer => GiveBack(wrap);
        case Owned =>
        case Refill => Refill(wrap);
      }
      PoolIsEmpty();
    }
  }

  /** A damaged packet is offered to the callbacks that accept such packets, any other to all, each in its place in the chain. */
  lemma {:induction false} OfferedTo(regs: seq<Chain.Registration>, flags: set<RxFlag>, r: Chain.Registration)
    ensures r in Chain.EligibleOnes(regs, Damaged(flags)) <==>
      r in regs && (r.acceptsTruncated || (Truncated !in flags && ErrorCrc !in flags && ErrorOther !in flags))
    decreases |regs|
  {
    if regs != [] {
      OfferedTo(regs[1..], flags, r);
    }
  }

  datatype Start = Start(held: set<SysPkt>, buffers: set<nat>, wrappers: set<SysPkt>, socFree: set<SocPkt>)

  /** What one call of a callback does: packets it held are given back, and then it answers. */
  datatype Turn = Turn(frees: seq<SysPkt>, answer: Chain.Answer)

  /** Different packets, all of them among those held. */
  ghost predicate GivesBack(frees: seq<SysPkt>, held: set<SysPkt>) {
    && (forall i :: 0 <= i < |frees| ==> frees[i] in held)
    && (forall i, j :: 0 <= i < j < |frees| ==> frees[i] != frees[j])
  }

  /** What the callbacks give back, in the order of their calls. */
  function Frees(turns: seq<Turn>): seq<SysPkt> {
    if turns == [] then [] else Frees(turns[..|turns| - 1]) + turns[|turns| - 1].frees
  }

  lemma NoneFreed(frees: seq<SysPkt>)
    ensures SysSet(frees[..0]) == {}
  {
  }

  lemma OneMoreFreed(frees: seq<SysPkt>, i: nat, held: set<SysPkt>)
    requires GivesBack(frees, held) && i < |frees|
    ensures frees[i] in held - SysSet(frees[..i]) && frees[i] in SysSet(frees)
    ensures held - SysSet(frees[..i]) - {frees[i]} == held - SysSet(frees[..i + 1])
  {
    assert frees[..i + 1] == frees[..i] + [frees[i]];
  }

  lemma NothingFreed(turns: seq<Turn>)
    ensures Frees(turns[..0]) == [] && SysSet(Frees(turns[..0])) == {}
  {
  }

  lemma {:induction false} FreesArePrefix(turns: seq<Turn>, n: nat)
    requires n <= |turns|
    ensures Frees(turns[..n]) <= Frees(turns)
    decreases |turns| - n
  {
    if n == |turns| {
      assert turns[..n] == turns;
    } else {
      FreesArePrefix(turns, n + 1);
      assert turns[..n + 1][..n] == turns[..n];
    }
  }

  lemma FreesAreKnown(turns: seq<Turn>, n: nat)
    requires n < |turns|
    ensures SysSet(turns[n].frees) <= SysSet(Frees(turns))
  {
    FreesArePrefix(turns, n + 1);
    FreesOfOneMore(turns, n);
    hide Frees;
    forall w | w in turns[n].frees ensures w in Frees(turns) {
      var j :| 0 <= j < |turns[n].frees| && turns[n].frees[j] == w;
      assert Frees(turns[..n + 1])[|Frees(turns[..n])| + j] == w;
    }
  }

  lemma OneMoreTurn(turns: seq<Turn>, n: nat, held: set<SysPkt>, wrap: SysPkt)
    requires n < |turns| && GivesBack(Frees(turns), held - {wrap})
    ensures GivesBack(turns[n].frees, held - SysSet(Frees(turns[..n])))
    ensures SysSet(turns[n].frees) <= SysSet(Frees(turns))
    ensures held - SysSet(Frees(turns[..n])) - SysSet(turns[n].frees) == held - SysSet(Frees(turns[..n + 1]))
  {
    hide *;
    FreesArePrefix(turns, n + 1);
    FreesOfOneMore(turns, n);
    var before, now, all := Frees(turns[..n]), turns[n].frees, Frees(turns);
    var rest := all[|before + now|..];
    assert all == before + now + rest;
    MiddlePart(before, now, rest, held, wrap);
  }

  lemma FreesOfOneMore(turns: seq<Turn>, n: nat)
    requires n < |turns|
    ensures Frees(turns[..n + 1]) == Frees(turns[..n]) + turns[n].frees
  {
    assert turns[..n + 1][..n] == turns[..n];
  }

  lemma MiddlePart(before: seq<SysPkt>, now: seq<SysPkt>, rest: seq<SysPkt>, held: set<SysPkt>, wrap: SysPkt)
    requires GivesBack(before + now + rest, held - {wrap})
    ensures GivesBack(now, held - SysSet(before)) && SysSet(now) <= SysSet(before + now + rest)
    ensures held - SysSet(before) - SysSet(now) == held - SysSet(before + now)
  {
    var all := before + now + rest;
    assert forall i :: 0 <= i < |before| ==> all[i] == before[i];
    forall i | 0 <= i < |now| ensures all[|before| + i] == now[i] && now[i] in held && now[i] !in before {
      assert all[|before| + i] == now[i];
    }
    forall i, j | 0 <= i < j < |now| ensures now[i] != now[j] {
      assert all[|before| + i] == now[i] && all[|before| + j] == now[j];
    }
  }

  lemma StillHeld(turns: seq<Turn>, n: nat, held: set<SysPkt>, wrap: SysPkt)
    requires n <= |turns| && GivesBack(Frees(turns), held - {wrap}) && wrap in held
    ensures wrap in held - SysSet(Frees(turns[..n]))
  {
    FreesArePrefix(turns, n);
    forall i | 0 <= i < |Frees(turns[..n])| ensures Frees(turns[..n])[i] != wrap {
      assert Frees(turns)[i] == Frees(turns[..n])[i];
    }
  }

  lemma FreesAreOthers(turns: seq<Turn>, held: set<SysPkt>, wrap: SysPkt)
    requires GivesBack(Frees(turns), held) && wrap !in held
    ensures GivesBack(Frees(turns), held + {wrap} - {wrap})
  {
  }

  lemma FreedBefore(turns: seq<Turn>, n: nat, held: set<SysPkt>, wrap: SysPkt)
    requires n <= |turns| && GivesBack(Frees(turns), held) && wrap !in held
    ensures held + {wrap} - SysSet(Frees(turns[..n])) == held - SysSet(Frees(turns[..n])) + {wrap}
    ensures held + {wrap} - SysSet(Frees(turns[..n])) - {wrap} == held - SysSet(Frees(turns[..n]))
  {
    FreesArePrefix(turns, n);
    forall i | 0 <= i < |Frees(turns[..n])| ensures Frees(turns[..n])[i] != wrap {
      assert Frees(turns)[i] == Frees(turns[..n])[i];
    }
  }
}
