/**
 * The chain of receive callbacks of src/kernel/rx.c: slots of a static array linked in order of
 * priority, and the walk that offers a packet along the chain.
 */
module RxChain {
  import opened Sets

  /** A registration; callbacks are identified by a number, zero standing for NULL. */
  datatype Registration = Registration(cbk: nat, priority: nat, cookie: nat, acceptsTruncated: bool)

  predicate Sorted(chain: seq<Registration>) {
    forall i, j :: 0 <= i < j < |chain| ==> chain[i].priority <= chain[j].priority
  }

  /** Where a registration goes: before the first entry of the same or a greater priority. */
  function Position(chain: seq<Registration>, priority: nat): (k: nat)
    ensures k <= |chain|
    ensures k < |chain| ==> chain[k].priority >= priority
    ensures forall j :: 0 <= j < k ==> chain[j].priority < priority
  {
    if chain == [] || chain[0].priority >= priority then 0 else 1 + Position(chain[1..], priority)
  }

  /** The first entry of a callback, or the length of the chain. */
  function Lookup(chain: seq<Registration>, cbk: nat): (k: nat)
    ensures k <= |chain|
    ensures k < |chain| ==> chain[k].cbk == cbk
    ensures forall j :: 0 <= j < k ==> chain[j].cbk != cbk
  {
    if chain == [] || chain[0].cbk == cbk then 0 else 1 + Lookup(chain[1..], cbk)
  }

  function InsertAt(s: seq<Registration>, k: nat, x: Registration): seq<Registration>
    requires k <= |s|
  {
    s[..k] + [x] + s[k..]
  }

  function RemoveAt(s: seq<Registration>, k: nat): seq<Registration>
    requires k < |s|
  {
    s[..k] + s[k + 1..]
  }

  datatype Request =
    | Register(r: Registration)
    | Unregister(cbk: nat)

  /** A request to a chain with room for `max` registrations. */
  function Serve(chain: seq<Registration>, max: nat, request: Request): seq<Registration> {
    match request
    case Register(r) =>
      if r.cbk == 0 || |chain| >= max then chain else InsertAt(chain, Position(chain, r.priority), r)
    case Unregister(cbk) =>
      var k := Lookup(chain, cbk);
      if k == |chain| then chain else RemoveAt(chain, k)
  }

  lemma InsertionKeepsSorted(chain: seq<Registration>, r: Registration)
    requires Sorted(chain)
    ensures Sorted(InsertAt(chain, Position(chain, r.priority), r))
  {
    var k := Position(chain, r.priority);
    var longer := InsertAt(chain, k, r);
    forall i, j | 0 <= i < j < |longer|
      ensures longer[i].priority <= longer[j].priority
    {
      assert longer[i] == if i < k then chain[i] else if i == k then r else chain[i - 1];
      assert longer[j] == if j < k then chain[j] else if j == k then r else chain[j - 1];
    }
  }

  lemma ServeKeepsSorted(chain: seq<Registration>, max: nat, request: Request)
    requires Sorted(chain)
    ensures Sorted(Serve(chain, max, request))
    ensures |chain| <= max ==> |Serve(chain, max, request)| <= max
  {
    hide Position, Lookup;
    if request.Register? {
      InsertionKeepsSorted(chain, request.r);
    }
  }

  function ServeAll(chain: seq<Registration>, max: nat, requests: seq<Request>): seq<Registration>
    decreases |requests|
  {
    if requests == [] then chain else ServeAll(Serve(chain, max, requests[0]), max, requests[1..])
  }

  /** Any run of registrations and removals keeps the chain sorted and within its capacity. */
  lemma {:induction false} RunKeepsSorted(chain: seq<Registration>, max: nat, requests: seq<Request>)
    requires Sorted(chain) && |chain| <= max
    ensures Sorted(ServeAll(chain, max, requests)) && |ServeAll(chain, max, requests)| <= max
    decreases |requests|
  {
    if requests != [] {
      ServeKeepsSorted(chain, max, requests[0]);
      RunKeepsSorted(Serve(chain, max, requests[0]), max, requests[1..]);
    }
  }

  /** Removing what was just registered restores the chain, if the callback was not registered before. */
  lemma UnregisterUndoesRegister(chain: seq<Registration>, max: nat, r: Registration)
    requires r.cbk != 0 && |chain| < max && forall i :: 0 <= i < |chain| ==> chain[i].cbk != r.cbk
    ensures Serve(Serve(chain, max, Register(r)), max, Unregister(r.cbk)) == chain
  {
    var k := Position(chain, r.priority);
    var longer := InsertAt(chain, k, r);
    assert longer[k].cbk == r.cbk;
    var l := Lookup(longer, r.cbk);
    assert forall j :: 0 <= j < k ==> longer[j] == chain[j];
    assert l == k;
    assert RemoveAt(longer, k) == chain;
  }

  // ---------- Offering a packet ----------

  datatype Answer = Invalid | NotHandled | Handled | HandledAndOwned

  /** What is left to do with the packet after the walk. */
  datatype Verdict = Refill | FillBuffer | Owned

  /** Truncated and erroneous packets go only to callbacks that accept truncated ones. */
  predicate Eligible(r: Registration, damaged: bool) {
    damaged ==> r.acceptsTruncated
  }

  function EligibleOnes(chain: seq<Registration>, damaged: bool): seq<Registration> {
    if chain == [] then []
    else (if Eligible(chain[0], damaged) then [chain[0]] else []) + EligibleOnes(chain[1..], damaged)
  }

  predicate Ends(a: Answer) {
    a.Handled? || a.HandledAndOwned?
  }

  // ---------- The chain in memory ----------

  datatype SysError = Ok | Parameter | Full

  class RxCbk {
    var priority: nat
    var cbk: nat
    var cookie: nat
    var acceptsTruncated: bool
    var next: RxCbk?

    ghost function View(): Registration
      reads this
    {
      Registration(cbk, priority, cookie, acceptsTruncated)
    }
  }

  /** Filling in a slot. */
  method Fill(cbk: RxCbk, r: Registration)
    modifies cbk
    ensures cbk.View() == r
  {
    cbk.priority := r.priority;
    cbk.cbk := r.cbk;
    cbk.cookie := r.cookie;
    cbk.acceptsTruncated := r.acceptsTruncated;
    cbk.next := null;
  }

  ghost function NodeAt(nodes: seq<RxCbk>, i: int): RxCbk? {
    if 0 <= i < |nodes| then nodes[i] else null
  }

  /** The list from `list` on runs over the nodes of `chain` and no node twice. */
  ghost predicate Linked(list: RxCbk?, chain: seq<RxCbk>)
    reads chain
  {
    && list == NodeAt(chain, 0)
    && (forall i {:trigger chain[i].next} :: 0 <= i < |chain| ==> chain[i].next == NodeAt(chain, i + 1))
    && Distinct(chain)
  }

  ghost predicate Distinct(nodes: seq<RxCbk>) {
    forall i, j :: 0 <= i < j < |nodes| ==> nodes[i] != nodes[j]
  }

  lemma DistinctAfterInsertion(nodes: seq<RxCbk>, k: nat, x: RxCbk)
    requires Distinct(nodes) && k <= |nodes| && x !in nodes
    ensures Distinct(nodes[..k] + [x] + nodes[k..])
  {
    var longer := nodes[..k] + [x] + nodes[k..];
    forall i, j | 0 <= i < j < |longer|
      ensures longer[i] != longer[j]
    {
      assert longer[i] == if i < k then nodes[i] else if i == k then x else nodes[i - 1];
      assert longer[j] == if j < k then nodes[j] else if j == k then x else nodes[j - 1];
    }
  }

  lemma DistinctAfterRemoval(nodes: seq<RxCbk>, k: nat)
    requires Distinct(nodes) && k < |nodes|
    ensures Distinct(nodes[..k] + nodes[k + 1..])
  {
  }

  ghost predicate Mirrors(chain: seq<RxCbk>, regs: seq<Registration>)
    reads chain
  {
    && |chain| == |regs|
    && forall i {:trigger chain[i]} {:trigger regs[i]} :: 0 <= i < |chain| ==> chain[i].View() == regs[i]
  }

  lemma MirrorsInsertion(chain: seq<RxCbk>, regs: seq<Registration>, k: nat, cbk: RxCbk)
    requires k <= |chain| == |regs|
    requires forall i {:trigger chain[i]} :: 0 <= i < |chain| ==> chain[i].View() == regs[i]
    ensures Mirrors(chain[..k] + [cbk] + chain[k..], InsertAt(regs, k, cbk.View()))
  {
    var longer, regs' := chain[..k] + [cbk] + chain[k..], InsertAt(regs, k, cbk.View());
    forall i | 0 <= i < |longer|
      ensures longer[i].View() == regs'[i]
    {
      if i < k {
        assert longer[i] == chain[i] && regs'[i] == regs[i];
      } else if i > k {
        assert longer[i] == chain[i - 1] && regs'[i] == regs[i - 1];
      }
    }
  }

  lemma MirrorsRemoval(chain: seq<RxCbk>, regs: seq<Registration>, k: nat)
    requires k < |chain| && |chain| == |regs|
    requires forall i {:trigger chain[i]} :: 0 <= i < |chain| && i != k ==> chain[i].View() == regs[i]
    ensures Mirrors(chain[..k] + chain[k + 1..], RemoveAt(regs, k))
  {
    var shorter, regs' := chain[..k] + chain[k + 1..], RemoveAt(regs, k);
    forall i | 0 <= i < |shorter|
      ensures shorter[i].View() == regs'[i]
    {
      if i < k {
        assert shorter[i] == chain[i] && regs'[i] == regs[i];
      } else {
        assert shorter[i] == chain[i + 1] && regs'[i] == regs[i + 1];
      }
    }
  }

  /** Linking a node in between `prev` and `cur`. */
  method LinkIn(list: RxCbk?, prev: RxCbk?, cur: RxCbk?, cbk: RxCbk, ghost chain: seq<RxCbk>, ghost k: nat)
    returns (list': RxCbk)
    requires Linked(list, chain) && cbk !in chain && k <= |chain|
    requires cur == NodeAt(chain, k) && prev == NodeAt(chain, k - 1)
    modifies cbk`next, if prev == null then {} else {prev}
    ensures Linked(list', chain[..k] + [cbk] + chain[k..])
    ensures cbk.View() == old(cbk.View())
    ensures forall c :: c in chain ==> c.View() == old(c.View())
  {
    DistinctAfterInsertion(chain, k, cbk);
    cbk.next := cur;
    if prev == null {
      list' := cbk;
    } else {
      list' := list;
      prev.next := cbk;
    }
    ghost var longer := chain[..k] + [cbk] + chain[k..];
    forall i | 0 <= i < |longer|
      ensures longer[i].next == NodeAt(longer, i + 1)
    {
      if i < k {
        assert longer[i] == chain[i];
      } else if i > k {
        assert longer[i] == chain[i - 1];
      }
    }
  }

  /** Cutting out the node `cur` after `prev`, and freeing its slot. */
  method CutOut(list: RxCbk?, prev: RxCbk?, cur: RxCbk, ghost chain: seq<RxCbk>, ghost k: nat) returns (list': RxCbk?)
    requires Linked(list, chain) && k < |chain|
    requires cur == chain[k] && prev == NodeAt(chain, k - 1)
    modifies cur`cbk, if prev == null then {} else {prev}
    ensures Linked(list', chain[..k] + chain[k + 1..])
    ensures cur.cbk == 0 && forall c :: c in chain && c != cur ==> c.View() == old(c.View())
  {
    DistinctAfterRemoval(chain, k);
    if prev == null {
      list' := cur.next;
    } else {
      list' := list;
      prev.next := cur.next;
    }
    cur.cbk := 0;
    ghost var shorter := chain[..k] + chain[k + 1..];
    forall i | 0 <= i < |shorter|
      ensures shorter[i].next == NodeAt(shorter, i + 1)
    {
      if i < k {
        assert shorter[i] == chain[i];
      } else {
        assert shorter[i] == chain[i + 1];
      }
    }
  }

  /** Exactness after one more slot is used and linked. */
  lemma UsedAfterInsertion(slots: seq<RxCbk>, nodes: seq<RxCbk>, cbk: RxCbk, k: nat)
    requires k <= |nodes| && cbk in slots && cbk.cbk != 0
    requires forall s :: s in nodes ==> s in slots
    requires forall s :: s in slots && s != cbk ==> (s.cbk != 0 <==> s in nodes)
    ensures ExactlyUsed(slots, nodes[..k] + [cbk] + nodes[k..])
  {
  }

  /** Exactness after one slot is freed and cut out. */
  lemma UsedAfterRemoval(slots: seq<RxCbk>, nodes: seq<RxCbk>, k: nat)
    requires k < |nodes| && nodes[k].cbk == 0 && Distinct(nodes)
    requires forall s :: s in nodes ==> s in slots
    requires forall s :: s in slots && s != nodes[k] ==> (s.cbk != 0 <==> s in nodes)
    ensures ExactlyUsed(slots, nodes[..k] + nodes[k + 1..])
  {
    var rest := nodes[..k] + nodes[k + 1..];
    forall s | s in nodes && s != nodes[k]
      ensures s in rest
    {
      var j :| 0 <= j < |nodes| && nodes[j] == s;
      assert s == if j < k then rest[j] else rest[j - 1];
    }
  }

  class Callbacks {
    const slots: seq<RxCbk>         // rx_cbks
    var list: RxCbk?                // rx_cbk_list
    var count: nat                  // rx_cbk_count
    ghost var chain: seq<RxCbk>     // the slots in the list
    ghost var regs: seq<Registration>  // what they say

    /** Acyclic, `count` long, and made of exactly the slots whose `cbk` is not NULL. */
    ghost predicate Valid()
      reads this, slots, chain
    {
      && Distinct(slots)
      && Linked(list, chain)
      && Mirrors(chain, regs)
      && count == |chain|
      && ExactlyUsed(slots, chain)
    }

    /** `sys_rx_init`: all slots are free. */
    constructor (slots: seq<RxCbk>)
      requires Distinct(slots)
      modifies slots
      ensures this.slots == slots && regs == [] && count == 0 && Valid()
    {
      this.slots, list, count, chain, regs := slots, null, 0, [], [];
      new;
      var i := 0;
      while i < |slots|
        invariant 0 <= i <= |slots|
        invariant forall j :: 0 <= j < i ==> slots[j].cbk == 0
        invariant this.slots == slots && list == null && count == 0 && chain == [] && regs == []
      {
        slots[i].cbk := 0;
        i := i + 1;
      }
    }

    /** The search for a free slot. */
    method FreeSlot() returns (cbk: RxCbk?)
      requires Valid()
      ensures cbk == null ==> |chain| == |slots|
      ensures cbk != null ==> cbk in slots && cbk !in chain && |chain| < |slots|
    {
      hide Mirrors;
      var i := 0;
      while i < |slots|
        invariant 0 <= i <= |slots|
        invariant forall j :: 0 <= j < i ==> slots[j].cbk != 0
      {
        if slots[i].cbk == 0 {
          assert slots[i] in slots;
          RoomLeft(chain, slots, slots[i]);
          return slots[i];
        }
        i := i + 1;
      }
      NoRoomLeft(chain, slots);
      cbk := null;
    }

    /** The walk to the first entry of the same or a greater priority. */
    method FindPlace(priority: nat) returns (prev: RxCbk?, cur: RxCbk?)
      requires Linked(list, chain) && Mirrors(chain, regs)
      ensures var k := Position(regs, priority);
        cur == NodeAt(chain, k) && prev == NodeAt(chain, k - 1)
    {
      ghost var k := 0;
      prev, cur := null, list;
      while cur != null && cur.priority < priority
        invariant 0 <= k <= |chain|
        invariant cur == NodeAt(chain, k) && prev == NodeAt(chain, k - 1)
        invariant forall j :: 0 <= j < k ==> regs[j].priority < priority
        decreases |chain| - k
      {
        prev, cur := cur, cur.next;
        k := k + 1;
      }
      PositionIs(regs, priority, k);
    }

    /** `sys_rx_register`, up to the draining of the pool. */
    method Register(callback: nat, priority: nat, cookie: nat, acceptsTruncated: bool) returns (rv: SysError)
      requires Valid()
      modifies this, slots
      ensures Valid()
      ensures regs == Serve(old(regs), |slots|, Request.Register(Registration(callback, priority, cookie, acceptsTruncated)))
      ensures rv == if callback == 0 then Parameter else if |old(regs)| == |slots| then Full else Ok
      ensures count == if rv == Ok then old(count) + 1 else old(count)
    {
      if callback == 0 {
        return Parameter;
      }
      var cbk := FreeSlot();
      if cbk == null {
        return Full;
      }
      FillAndLink(cbk, Registration(callback, priority, cookie, acceptsTruncated));
      rv := Ok;
    }

    /** Linking a filled slot in. */
    method LinkSlot(cbk: RxCbk, ghost r: Registration)
      requires Linked(list, chain) && Mirrors(chain, regs)
      requires cbk in slots && cbk !in chain && cbk.View() == r && r.cbk != 0
      requires (forall s :: s in chain ==> s in slots) && forall s :: s in slots && s != cbk ==> (s.cbk != 0 <==> s in chain)
      modifies this`list, this`chain, this`regs, slots
      ensures Linked(list, chain) && Mirrors(chain, regs) && ExactlyUsed(slots, chain) && |chain| == |old(chain)| + 1
      ensures regs == InsertAt(old(regs), Position(old(regs), r.priority), r)
    {
      hide Linked, Position, InsertAt, Distinct;
      ghost var k := Position(regs, r.priority);
      ghost var nodes, were := chain, regs;
      var prev, cur := FindPlace(cbk.priority);
      assert prev != null ==> prev in nodes;
      chain, regs := nodes[..k] + [cbk] + nodes[k..], InsertAt(regs, k, r);
      list := LinkIn(list, prev, cur, cbk, nodes, k);
      MirrorsInsertion(nodes, were, k, cbk);
      UsedAfterInsertion(slots, nodes, cbk, k);
    }

    method FillAndLink(cbk: RxCbk, r: Registration)
      requires Valid() && cbk in slots && cbk !in chain && r.cbk != 0
      modifies this`list, this`count, this`chain, this`regs, slots
      ensures Valid() && count == old(count) + 1
      ensures regs == InsertAt(old(regs), Position(old(regs), r.priority), r)
    {
      hide Linked, Position, InsertAt, Distinct, Mirrors;
      Fill(cbk, r);
      LinkSlot(cbk, r);
      count := count + 1;
    }

    /** Unlinking and freeing the slot at index `k`. */
    method UnlinkSlot(cur: RxCbk, prev: RxCbk?, ghost k: nat)
      requires Linked(list, chain) && Mirrors(chain, regs) && ExactlyUsed(slots, chain)
      requires k < |chain| && cur == chain[k] && prev == NodeAt(chain, k - 1)
      modifies this`list, this`chain, this`regs, slots
      ensures Linked(list, chain) && Mirrors(chain, regs) && ExactlyUsed(slots, chain) && |chain| == |old(chain)| - 1
      ensures regs == RemoveAt(old(regs), k)
    {
      hide Linked, Distinct, RemoveAt;
      ghost var nodes, were := chain, regs;
      LinkedIsDistinct(list, nodes);
      assert prev != null ==> prev in nodes;
      chain, regs := nodes[..k] + nodes[k + 1..], RemoveAt(regs, k);
      list := CutOut(list, prev, cur, nodes, k);
      OthersDiffer(nodes, k);
      MirrorsRemoval(nodes, were, k);
      UsedAfterRemoval(slots, nodes, k);
    }

    /** `sys_rx_unregister` */
    method Unregister(callback: nat) returns (rv: SysError)
      requires Valid()
      modifies this`list, this`chain, this`regs, this`count, slots
      ensures Valid()
      ensures regs == Serve(old(regs), |slots|, Request.Unregister(callback))
      ensures rv == if Lookup(old(regs), callback) < |old(regs)| then Ok else Parameter
      ensures count == if rv == Ok then old(count) - 1 else old(count)
    {
      hide Linked, Distinct, RemoveAt, Mirrors;
      MirrorsLength(chain, regs);
      var cur, prev := FindCallback(callback);
      if cur == null {
        return Parameter;
      }
      UnlinkSlot(cur, prev, Lookup(regs, callback));
      count := count - 1;
      rv := Ok;
    }

    /** The walk to the first entry of a callback. */
    method FindCallback(callback: nat) returns (cur: RxCbk?, prev: RxCbk?)
      requires Linked(list, chain) && Mirrors(chain, regs)
      ensures var k := Lookup(regs, callback);
        cur == NodeAt(chain, k) && prev == NodeAt(chain, k - 1)
    {
      ghost var k := 0;
      cur, prev := list, null;
      while cur != null
        invariant 0 <= k <= |chain|
        invariant cur == NodeAt(chain, k) && prev == NodeAt(chain, k - 1)
        invariant forall j :: 0 <= j < k ==> regs[j].cbk != callback
        decreases |chain| - k
      {
        if cur.cbk == callback {
          LookupIs(regs, callback, k);
          return;
        }
        prev, cur := cur, cur.next;
        k := k + 1;
      }
    }

    /** The callbacks still to be asked when the walk is at `cur`, whose index is `k`. */
    ghost predicate ToAsk(cur: RxCbk?, k: nat, damaged: bool, todo: seq<Registration>)
      reads this`chain, this`regs
    {
      if cur == null then todo == []
      else
        && k < |chain| == |regs| && cur == chain[k]
        && todo == [regs[k]] + EligibleOnes(regs[k + 1..], damaged)
    }

    lemma NotDone(cur: RxCbk, k: nat, damaged: bool, todo: seq<Registration>)
      requires ToAsk(cur, k, damaged, todo)
      ensures todo != []
    {
    }

    lemma Done(k: nat, damaged: bool, todo: seq<Registration>)
      requires ToAsk(null, k, damaged, todo)
      ensures todo == []
    {
    }

    /** The part of the walk of `sys_rx_handler` that passes over callbacks which are not to see the packet. */
    method NextEligible(from: RxCbk?, ghost j: nat, damaged: bool) returns (cur: RxCbk?, ghost k: nat)
      requires Linked(list, chain) && Mirrors(chain, regs) && j <= |chain| && from == NodeAt(chain, j)
      ensures j <= k <= |chain| && ToAsk(cur, k, damaged, EligibleOnes(regs[j..], damaged))
      ensures cur == null <==> EligibleOnes(regs[j..], damaged) == []
      ensures cur != null ==> cur.View() == EligibleOnes(regs[j..], damaged)[0]
    {
      hide EligibleOnes;
      cur, k := from, j;
      while cur != null
        invariant j <= k <= |chain| && cur == NodeAt(chain, k)
        invariant EligibleOnes(regs[j..], damaged) == EligibleOnes(regs[k..], damaged)
        decreases |chain| - k
      {
        EligibleFrom(regs, k, damaged);
        if damaged && !cur.acceptsTruncated {
          cur, k := cur.next, k + 1;
          continue;
        }
        return;
      }
      NoneEligibleAtEnd(regs, damaged);
    }

    /** The first callback to ask. */
    method First(damaged: bool) returns (cur: RxCbk?, ghost k: nat)
      requires Valid()
      ensures k <= |chain| && ToAsk(cur, k, damaged, EligibleOnes(regs, damaged))
    {
      assert regs[0..] == regs;
      cur, k := NextEligible(list, 0, damaged);
    }

    /** The one after a callback that did not take the packet. */
    method After(cur: RxCbk, ghost k: nat, damaged: bool, ghost todo: seq<Registration>)
      returns (cur': RxCbk?, ghost k': nat)
      requires Valid() && ToAsk(cur, k, damaged, todo)
      ensures k < k' <= |chain| && todo != [] && ToAsk(cur', k', damaged, todo[1..])
    {
      hide EligibleOnes;
      cur', k' := NextEligible(cur.next, k + 1, damaged);
      assert todo[1..] == EligibleOnes(regs[k + 1..], damaged);
    }
  }

  lemma NoneEligibleAtEnd(regs: seq<Registration>, damaged: bool)
    ensures EligibleOnes(regs[|regs|..], damaged) == []
  {
  }

  lemma EligibleFrom(regs: seq<Registration>, k: nat, damaged: bool)
    requires k < |regs|
    ensures EligibleOnes(regs[k..], damaged)
         == (if Eligible(regs[k], damaged) then [regs[k]] else []) + EligibleOnes(regs[k + 1..], damaged)
  {
    assert regs[k..][1..] == regs[k + 1..];
  }

  ghost predicate ExactlyUsed(slots: seq<RxCbk>, chain: seq<RxCbk>)
    reads slots
  {
    && (forall s :: s in chain ==> s in slots)
    && (forall s :: s in slots ==> (s.cbk != 0 <==> s in chain))
  }

  lemma MirrorsLength(chain: seq<RxCbk>, regs: seq<Registration>)
    requires Mirrors(chain, regs)
    ensures |chain| == |regs|
  {
  }

  lemma LinkedIsDistinct(list: RxCbk?, chain: seq<RxCbk>)
    requires Linked(list, chain)
    ensures Distinct(chain)
  {
  }

  lemma OthersDiffer(nodes: seq<RxCbk>, k: nat)
    requires Distinct(nodes) && k < |nodes|
    ensures forall i {:trigger nodes[i]} :: 0 <= i < |nodes| && i != k ==> nodes[i] != nodes[k]
  {
  }

  lemma RoomLeft(chain: seq<RxCbk>, slots: seq<RxCbk>, free: RxCbk)
    requires Distinct(chain)
    requires Distinct(slots)
    requires free in slots && free !in chain && forall s :: s in chain ==> s in slots
    ensures |chain| < |slots|
  {
    DistinctSize(chain);
    DistinctSize(slots);
    ghost var all := set s | s in slots;
    assert free in all;
    SubsetSize((set s | s in chain), all);
  }

  lemma NoRoomLeft(chain: seq<RxCbk>, slots: seq<RxCbk>)
    requires Distinct(chain)
    requires Distinct(slots)
    requires forall s :: s in chain <==> s in slots
    ensures |chain| == |slots|
  {
    DistinctSize(chain);
    DistinctSize(slots);
    assert (set s | s in chain) == (set s | s in slots);
  }

  lemma PositionIs(chain: seq<Registration>, priority: nat, k: nat)
    requires k <= |chain| && forall j :: 0 <= j < k ==> chain[j].priority < priority
    requires k < |chain| ==> chain[k].priority >= priority
    ensures Position(chain, priority) == k
  {
  }

  lemma LookupIs(chain: seq<Registration>, cbk: nat, k: nat)
    requires k < |chain| && chain[k].cbk == cbk && forall j :: 0 <= j < k ==> chain[j].cbk != cbk
    ensures Lookup(chain, cbk) == k
  {
  }

  /** A sequence without repetitions has as many elements as entries. */
  lemma {:induction false} DistinctSize(s: seq<RxCbk>)
    requires forall i, j :: 0 <= i < j < |s| ==> s[i] != s[j]
    ensures |set x | x in s| == |s|
    decreases |s|
  {
    if s == [] {
      assert (set x | x in s) == {};
    } else {
      var n := |s| - 1;
      DistinctSize(s[..n]);
      assert (set x | x in s) == (set x | x in s[..n]) + {s[n]};
    }
  }
}
