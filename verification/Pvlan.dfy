/**
 * The port-based VLAN database of src/board/brd_vlan.c: a heap-allocated linked list of groups,
 * the per-port index of the groups a port is in, and the egress masks in the switch hardware.
 */
module Pvlan {

  // ---------- What the database means ----------

  datatype Group = Group(id: nat, ports: set<nat>)

  /** The groups port `p` is in. */
  function MembershipOf(groups: seq<Group>, p: nat): set<nat> {
    set g | g in groups && p in g.ports :: g.id
  }

  /** The ports that share a group with port `p`: where its packets may leave. */
  function EgressOf(groups: seq<Group>, p: nat): set<nat> {
    set g, q | g in groups && p in g.ports && q in g.ports :: q
  }

  /** Port-based isolation works both ways. */
  lemma EgressIsSymmetric(groups: seq<Group>, p: nat, q: nat)
    ensures q in EgressOf(groups, p) <==> p in EgressOf(groups, q)
  {
  }

  predicate DistinctIds(groups: seq<Group>) {
    forall i, j :: 0 <= i < j < |groups| ==> groups[i].id != groups[j].id
  }

  /** The index of the group with this id, or the number of groups. */
  function Find(groups: seq<Group>, id: nat): (k: nat)
    ensures k <= |groups|
    ensures k < |groups| ==> groups[k].id == id
    ensures forall j :: 0 <= j < k ==> groups[j].id != id
  {
    if groups == [] || groups[0].id == id then 0 else 1 + Find(groups[1..], id)
  }

  lemma FoundAt(groups: seq<Group>, id: nat, k: nat)
    requires k < |groups| && groups[k].id == id
    requires forall j :: 0 <= j < k ==> groups[j].id != id
    ensures Find(groups, id) == k
  {
    assert groups[Find(groups, id)].id == id || Find(groups, id) >= k;
  }

  /** A group without ports has no part in any egress mask or membership. */
  lemma EmptyGroupIsInvisible(groups: seq<Group>, k: nat, p: nat)
    requires k < |groups| && groups[k].ports == {}
    ensures EgressOf(groups[..k] + groups[k + 1..], p) == EgressOf(groups, p)
    ensures MembershipOf(groups[..k] + groups[k + 1..], p) == MembershipOf(groups, p)
  {
    var rest := groups[..k] + groups[k + 1..];
    assert forall g :: g in rest ==> g in groups;
    assert forall g :: g in groups && g.ports != {} ==> g in rest by {
      forall g | g in groups && g.ports != {}
        ensures g in rest
      {
        var j :| 0 <= j < |groups| && groups[j] == g;
        assert j != k;
        assert g == if j < k then rest[j] else rest[j - 1];
      }
    }
  }

  lemma NewGroupIsInvisible(groups: seq<Group>, id: nat, p: nat)
    ensures EgressOf(groups + [Group(id, {})], p) == EgressOf(groups, p)
    ensures MembershipOf(groups + [Group(id, {})], p) == MembershipOf(groups, p)
  {
  }

  /** The masks of the first `n` groups, other than `skip`, that the index lists: the inner loop of the update. */
  function MasksBut(groups: seq<Group>, n: nat, skip: nat, index: set<nat>): set<nat>
    requires n <= |groups|
  {
    if n == 0 then {}
    else
      var g := groups[n - 1];
      MasksBut(groups, n - 1, skip, index) + if g.id != skip && g.id in index then g.ports else {}
  }

  lemma {:induction false} MasksButMembers(groups: seq<Group>, n: nat, skip: nat, index: set<nat>, q: nat)
    requires n <= |groups|
    ensures q in MasksBut(groups, n, skip, index) <==>
      exists j :: 0 <= j < n && groups[j].id != skip && groups[j].id in index && q in groups[j].ports
    decreases n
  {
    if n > 0 {
      MasksButMembers(groups, n - 1, skip, index, q);
    }
  }

  /** The index after the update of group `k` to `ports`, at port `p`. */
  function Reindexed(index: set<nat>, id: nat, ports: set<nat>, p: nat): set<nat> {
    if p in ports then index + {id} else index - {id}
  }

  /** The egress mask computed for port `p` when group `id` is given `ports`. */
  function MaskAt(groups: seq<Group>, id: nat, ports: set<nat>, index: set<nat>, p: nat): set<nat> {
    (if p in ports then ports else {}) + MasksBut(groups, |groups|, id, index)
  }

  /** The update computes the membership and the egress mask of the changed groups. */
  lemma UpdateIsRight(groups: seq<Group>, k: nat, ports: set<nat>, p: nat)
    requires DistinctIds(groups) && k < |groups|
    ensures var id := groups[k].id;
      var groups' := groups[k := Group(id, ports)];
      var index := Reindexed(MembershipOf(groups, p), id, ports, p);
      && index == MembershipOf(groups', p)
      && MaskAt(groups, id, ports, index, p) == EgressOf(groups', p)
  {
    var id := groups[k].id;
    var groups' := groups[k := Group(id, ports)];
    var index := Reindexed(MembershipOf(groups, p), id, ports, p);
    UpdateReindexes(groups, k, ports, p);
    var masks := MaskAt(groups, id, ports, index, p);
    forall q
      ensures q in masks <==> q in EgressOf(groups', p)
    {
      MasksButMembers(groups, |groups|, id, index, q);
      if q in MasksBut(groups, |groups|, id, index) {
        var j :| 0 <= j < |groups| && groups[j].id != id && groups[j].id in index && q in groups[j].ports;
        MemberById(groups, j, p);
        assert groups'[j] == groups[j];
      }
      if q in EgressOf(groups', p) {
        var g :| g in groups' && p in g.ports && q in g.ports;
        var j :| 0 <= j < |groups'| && groups'[j] == g;
        if j != k {
          assert groups[j] == g && g.id != id && g.id in index;
        }
      }
      if p in ports && q in ports {
        assert groups'[k] in groups';
      }
    }
  }

  /** With distinct ids the index lists a group's id exactly when the group contains the port. */
  lemma MemberById(groups: seq<Group>, j: nat, p: nat)
    requires DistinctIds(groups) && j < |groups|
    ensures groups[j].id in MembershipOf(groups, p) <==> p in groups[j].ports
  {
    if groups[j].id in MembershipOf(groups, p) {
      var g :| g in groups && p in g.ports && g.id == groups[j].id;
      var i :| 0 <= i < |groups| && groups[i] == g;
      assert i == j;
    }
  }

  lemma UpdateReindexes(groups: seq<Group>, k: nat, ports: set<nat>, p: nat)
    requires DistinctIds(groups) && k < |groups|
    ensures Reindexed(MembershipOf(groups, p), groups[k].id, ports, p)
         == MembershipOf(groups[k := Group(groups[k].id, ports)], p)
  {
    var id := groups[k].id;
    var groups' := groups[k := Group(id, ports)];
    assert DistinctIds(groups');
    forall v
      ensures v in Reindexed(MembershipOf(groups, p), id, ports, p) <==> v in MembershipOf(groups', p)
    {
      if v == id {
        MemberById(groups', k, p);
      } else {
        if v in MembershipOf(groups, p) {
          var g :| g in groups && p in g.ports && g.id == v;
          var i :| 0 <= i < |groups| && groups[i] == g;
          assert groups'[i] == g;
        }
        if v in MembershipOf(groups', p) {
          var g :| g in groups' && p in g.ports && g.id == v;
          var i :| 0 <= i < |groups'| && groups'[i] == g;
          assert groups[i] == g;
        }
      }
    }
  }

  // ---------- The database as a value, and its runs ----------

  datatype SysError = Ok | Parameter | State | Full | Exists | NotFound

  /** VT_NONE and VT_PORT_BASED. */
  datatype VlanType = NoVlan | PortBased

  const VLAN_DEFAULT: nat := 1

  /** `memberOf` is `member_of_pvlan_bmp`, `egress` the masks in the hardware; both have every port as a key. */
  datatype Db = Db(
    vlanType: VlanType, maxCount: nat, groups: seq<Group>,
    memberOf: map<nat, set<nat>>, egress: map<nat, set<nat>>)

  datatype Op = Create(id: nat) | Destroy(id: nat) | PortSet(id: nat, ports: set<nat>)

  function CreateIn(db: Db, id: nat): (Db, SysError) {
    if !db.vlanType.PortBased? then (db, State)
    else if id > db.maxCount then (db, Parameter)
    else if |db.groups| == db.maxCount then (db, Full)
    else if Find(db.groups, id) < |db.groups| then (db, Exists)
    else (db.(groups := db.groups + [Group(id, {})]), Ok)
  }

  /** What `brdimpl_pvlan_port_set` does in VT_PORT_BASED mode. */
  function PortSetIn(db: Db, id: nat, ports: set<nat>): (Db, SysError) {
    var k := Find(db.groups, id);
    if k == |db.groups| then (db, NotFound)
    else if db.groups[k].ports == ports then (db, Ok)
    else
      (db.(groups := db.groups[k := Group(id, ports)],
           memberOf := IndexAfter(db.memberOf, id, ports),
           egress := MasksAfter(db.memberOf, db.groups, id, ports)), Ok)
  }

  function IndexAfter(index: map<nat, set<nat>>, id: nat, ports: set<nat>): map<nat, set<nat>> {
    map p | p in index :: Reindexed(index[p], id, ports, p)
  }

  function MasksAfter(index: map<nat, set<nat>>, groups: seq<Group>, id: nat, ports: set<nat>): map<nat, set<nat>> {
    map p | p in index :: MaskAt(groups, id, ports, Reindexed(index[p], id, ports, p), p)
  }

  /** `x` has the values of `after` below `hi` and those of `before` from there on. */
  ghost predicate Between(before: map<nat, set<nat>>, after: map<nat, set<nat>>, hi: nat, x: map<nat, set<nat>>) {
    && x.Keys == before.Keys == after.Keys
    && forall p :: p in x ==> x[p] == if p < hi then after[p] else before[p]
  }

  lemma BetweenSteps(before: map<nat, set<nat>>, after: map<nat, set<nat>>, hi: nat, x: map<nat, set<nat>>)
    requires Between(before, after, hi, x) && hi in after
    ensures Between(before, after, hi + 1, x[hi := after[hi]])
    ensures x[hi] == before[hi]
  {
  }

  lemma BetweenEnds(before: map<nat, set<nat>>, after: map<nat, set<nat>>, hi: nat, x: map<nat, set<nat>>)
    requires Between(before, after, hi, x)
    ensures (forall p :: p in x ==> p >= hi) ==> x == before
    ensures (forall p :: p in x ==> p < hi) ==> x == after
  {
  }

  lemma BetweenStarts(before: map<nat, set<nat>>, after: map<nat, set<nat>>, hi: nat)
    requires before.Keys == after.Keys && forall p :: p in before ==> p >= hi
    ensures Between(before, after, hi, before)
  {
  }

  function DestroyIn(db: Db, id: nat): (Db, SysError) {
    var (db1, rv) := if db.vlanType.PortBased? then PortSetIn(db, id, {}) else (db, Ok);
    if rv != Ok then (db1, rv)
    else
      var k := Find(db1.groups, id);
      if k == |db1.groups| then (db1, NotFound)
      else (db1.(groups := db1.groups[..k] + db1.groups[k + 1..]), Ok)
  }

  function Apply(db: Db, op: Op): (Db, SysError) {
    match op
    case Create(id) => CreateIn(db, id)
    case Destroy(id) => DestroyIn(db, id)
    case PortSet(id, ports) => PortSetIn(db, id, ports)
  }

  function Run(db: Db, ops: seq<Op>): Db
    decreases |ops|
  {
    if ops == [] then db else Run(Apply(db, ops[0]).0, ops[1..])
  }

  /** The ids are one-based, and the port lists name ports of the board. */
  predicate Legal(db: Db, op: Op) {
    op.id >= 1 && (op.PortSet? ==> op.ports <= db.memberOf.Keys)
  }

  /** At most `maxCount` groups with distinct one-based ids, and index and hardware that agree with them. */
  predicate Agrees(db: Db) {
    && |db.groups| <= db.maxCount
    && DistinctIds(db.groups)
    && (forall g :: g in db.groups ==> 1 <= g.id <= db.maxCount && g.ports <= db.memberOf.Keys)
    && db.memberOf.Keys == db.egress.Keys
    && (forall p :: p in db.memberOf ==> db.memberOf[p] == MembershipOf(db.groups, p))
    && (forall p :: p in db.egress ==> db.egress[p] == EgressOf(db.groups, p))
  }

  lemma UpdateKeepsIds(groups: seq<Group>, k: nat, ports: set<nat>)
    requires DistinctIds(groups) && k < |groups|
    ensures var groups' := groups[k := Group(groups[k].id, ports)];
      && DistinctIds(groups')
      && (forall g :: g in groups' ==> g in groups || g == Group(groups[k].id, ports))
      && Find(groups', groups[k].id) == k
  {
    var groups' := groups[k := Group(groups[k].id, ports)];
    FoundAt(groups', groups[k].id, k);
  }

  lemma PortSetAgrees(db: Db, id: nat, ports: set<nat>)
    requires Agrees(db) && ports <= db.memberOf.Keys
    ensures Agrees(PortSetIn(db, id, ports).0)
  {
    hide EgressOf, MembershipOf, MasksBut, Reindexed, DistinctIds, MaskAt;
    var db' := PortSetIn(db, id, ports).0;
    var k := Find(db.groups, id);
    if k < |db.groups| && db.groups[k].ports != ports {
      UpdateKeepsIds(db.groups, k, ports);
      assert db.groups[k] in db.groups;
      forall p | p in db.memberOf
        ensures db'.memberOf[p] == MembershipOf(db'.groups, p) && db'.egress[p] == EgressOf(db'.groups, p)
      {
        UpdateIsRight(db.groups, k, ports, p);
      }
    }
  }

  lemma RemovalKeepsIds(groups: seq<Group>, k: nat)
    requires DistinctIds(groups) && k < |groups|
    ensures var rest := groups[..k] + groups[k + 1..];
      DistinctIds(rest) && forall g :: g in rest ==> g in groups
  {
  }

  lemma AdditionKeepsIds(groups: seq<Group>, id: nat)
    requires DistinctIds(groups) && Find(groups, id) == |groups|
    ensures DistinctIds(groups + [Group(id, {})])
  {
  }

  lemma RemovingAnEmptyGroupAgrees(db: Db, k: nat)
    requires Agrees(db) && k < |db.groups| && db.groups[k].ports == {}
    ensures Agrees(db.(groups := db.groups[..k] + db.groups[k + 1..]))
  {
    hide EgressOf, MembershipOf, DistinctIds;
    RemovalKeepsIds(db.groups, k);
    forall p | p in db.memberOf
      ensures EgressOf(db.groups[..k] + db.groups[k + 1..], p) == EgressOf(db.groups, p)
      ensures MembershipOf(db.groups[..k] + db.groups[k + 1..], p) == MembershipOf(db.groups, p)
    {
      EmptyGroupIsInvisible(db.groups, k, p);
    }
  }

  lemma AddingAnEmptyGroupAgrees(db: Db, id: nat)
    requires Agrees(db) && |db.groups| < db.maxCount && 1 <= id <= db.maxCount
    requires Find(db.groups, id) == |db.groups|
    ensures Agrees(db.(groups := db.groups + [Group(id, {})]))
  {
    hide EgressOf, MembershipOf;
    forall p | p in db.memberOf
      ensures EgressOf(db.groups + [Group(id, {})], p) == EgressOf(db.groups, p)
      ensures MembershipOf(db.groups + [Group(id, {})], p) == MembershipOf(db.groups, p)
    {
      NewGroupIsInvisible(db.groups, id, p);
    }
  }

  /** Every operation keeps the agreement. */
  lemma ApplyAgrees(db: Db, op: Op)
    requires Agrees(db) && db.vlanType.PortBased? && Legal(db, op)
    ensures var db' := Apply(db, op).0;
      Agrees(db') && db'.vlanType == db.vlanType && db'.memberOf.Keys == db.memberOf.Keys
  {
    hide Agrees, DistinctIds;
    match op
    case Create(id) =>
      if CreateIn(db, id).1 == Ok {
        AtMostMax(db);
        AddingAnEmptyGroupAgrees(db, id);
      }
    case Destroy(id) =>
      PortSetAgrees(db, id, {});
      var k := Find(db.groups, id);
      if k < |db.groups| {
        var db1 := PortSetIn(db, id, {}).0;
        AtMostMax(db);
        UpdateKeepsIds(db.groups, k, {});
        assert db.groups[k := Group(id, db.groups[k].ports)] == db.groups;
        assert db1.groups == db.groups[k := Group(id, {})];
        RemovingAnEmptyGroupAgrees(db1, k);
      }
    case PortSet(id, ports) =>
      PortSetAgrees(db, id, ports);
  }

  lemma AtMostMax(db: Db)
    requires Agrees(db)
    ensures |db.groups| <= db.maxCount && DistinctIds(db.groups)
  {
  }

  /** After any run of the operations the egress masks still agree with the groups, and isolate both ways. */
  lemma {:induction false} RunAgrees(db: Db, ops: seq<Op>)
    requires Agrees(db) && db.vlanType.PortBased?
    requires forall op :: op in ops ==> Legal(db, op)
    ensures var db' := Run(db, ops);
      && Agrees(db') && db'.egress.Keys == db.egress.Keys
      && forall p, q :: p in db'.egress && q in db'.egress ==> (q in db'.egress[p] <==> p in db'.egress[q])
    decreases |ops|
  {
    if ops == [] {
      forall p, q | p in db.egress && q in db.egress
        ensures q in db.egress[p] <==> p in db.egress[q]
      {
        EgressIsSymmetric(db.groups, p, q);
      }
    } else {
      hide Agrees, Apply;
      assert ops[0] in ops;
      assert forall op :: op in ops[1..] ==> op in ops;
      ApplyAgrees(db, ops[0]);
      RunAgrees(Apply(db, ops[0]).0, ops[1..]);
    }
  }

  /** The database after a reset: one group with all ports. */
  function DefaultDb(all: set<nat>): Db {
    Db(NoVlan, 1, [Group(VLAN_DEFAULT, all)], map p | p in all :: {VLAN_DEFAULT}, map p | p in all :: all)
  }

  /** So a run may start from there, in either mode. */
  lemma DefaultAgrees(all: set<nat>, vlanType: VlanType, maxCount: nat)
    requires maxCount >= 1
    ensures Agrees(DefaultDb(all).(vlanType := vlanType, maxCount := maxCount))
  {
    var groups := [Group(VLAN_DEFAULT, all)];
    forall p | p in all
      ensures MembershipOf(groups, p) == {VLAN_DEFAULT} && EgressOf(groups, p) == all
    {
      assert groups[0] in groups;
    }
  }

  // ---------- The database in memory ----------

  class VlanNode {
    var vlanId: nat
    var uplist: set<nat>
    var next: VlanNode?

    constructor (vlanId: nat)
      ensures this.vlanId == vlanId && uplist == {} && next == null
    {
      this.vlanId, uplist, next := vlanId, {}, null;
    }
  }

  function PortRange(base: nat, count: nat): (ports: set<nat>)
    ensures forall p :: p in ports <==> base <= p < base + count
  {
    if count == 0 then {} else PortRange(base, count - 1) + {base + count - 1}
  }

  /** The node at index `i` of a list, or null past either end. */
  ghost function NodeAt(nodes: seq<VlanNode>, i: int): VlanNode? {
    if 0 <= i < |nodes| then nodes[i] else null
  }

  ghost predicate Linked(head: VlanNode?, tail: VlanNode?, nodes: seq<VlanNode>)
    reads nodes
  {
    && head == NodeAt(nodes, 0)
    && tail == NodeAt(nodes, |nodes| - 1)
    && (forall i {:trigger nodes[i].next} :: 0 <= i < |nodes| ==> nodes[i].next == NodeAt(nodes, i + 1))
    && (forall i, j :: 0 <= i < j < |nodes| ==> nodes[i] != nodes[j])
  }

  /** Cutting node `k` out of a list: its predecessor, or the head, skips it. */
  method Unlink(head: VlanNode, tail: VlanNode, prev: VlanNode?, vlan: VlanNode, ghost nodes: seq<VlanNode>, ghost k: nat)
    returns (head': VlanNode?, tail': VlanNode?)
    requires Linked(head, tail, nodes) && k < |nodes| && vlan == nodes[k] && prev == NodeAt(nodes, k - 1)
    modifies if prev == null then {} else {prev}
    ensures Linked(head', tail', nodes[..k] + nodes[k + 1..])
    ensures forall n :: n in nodes ==> n.vlanId == old(n.vlanId) && n.uplist == old(n.uplist)
  {
    head', tail' := head, tail;
    if prev != null {
      prev.next := vlan.next;
    } else {
      head' := vlan.next;
    }
    if vlan == tail {
      tail' := prev;
    }
    ghost var rest := nodes[..k] + nodes[k + 1..];
    forall i | 0 <= i < |rest|
      ensures rest[i].next == NodeAt(rest, i + 1)
    {
      if i + 1 < k {
        assert rest[i] == nodes[i];
      } else if i + 1 == k {
        assert rest[i] == prev;
      } else {
        assert rest[i] == nodes[i + 1];
      }
    }
  }

  /** The nodes that stay still say what the groups that stay are. */
  lemma RestSays(nodes: seq<VlanNode>, groups: seq<Group>, k: nat)
    requires k < |nodes| == |groups|
    requires forall i {:trigger nodes[i]} :: 0 <= i < |nodes| ==> groups[i] == Group(nodes[i].vlanId, nodes[i].uplist)
    ensures var nodes', groups' := nodes[..k] + nodes[k + 1..], groups[..k] + groups[k + 1..];
      |nodes'| == |groups'| && forall i :: 0 <= i < |nodes'| ==> groups'[i] == Group(nodes'[i].vlanId, nodes'[i].uplist)
  {
    var nodes', groups' := nodes[..k] + nodes[k + 1..], groups[..k] + groups[k + 1..];
    forall i | 0 <= i < |nodes'| ensures groups'[i] == Group(nodes'[i].vlanId, nodes'[i].uplist) {
      var j := if i < k then i else i + 1;
      assert nodes'[i] == nodes[j] && groups'[i] == groups[j];
    }
  }

  lemma NodesWithout(nodes: seq<VlanNode>, k: nat)
    requires k < |nodes| && forall i, j :: 0 <= i < j < |nodes| ==> nodes[i] != nodes[j]
    ensures var rest := nodes[..k] + nodes[k + 1..];
      (set n | n in rest) == (set n | n in nodes) - {nodes[k]}
  {
    var rest := nodes[..k] + nodes[k + 1..];
    forall n | n in nodes && n != nodes[k]
      ensures n in rest
    {
      var j :| 0 <= j < |nodes| && nodes[j] == n;
      assert n == if j < k then rest[j] else rest[j - 1];
    }
  }

  class VlanDb {
    const uportBase: nat
    const uportCount: nat

    var vlanType: VlanType
    var count: nat
    var maxCount: nat
    var head: VlanNode?
    var tail: VlanNode?
    var memberOf: map<nat, set<nat>>
    var egress: map<nat, set<nat>>

    ghost var nodes: seq<VlanNode>  // the list from head to tail
    ghost var groups: seq<Group>    // what the nodes say
    ghost var heap: set<VlanNode>   // the nodes obtained from sal_malloc and not freed

    /** The list is acyclic and runs from `head` to `tail` over `count` nodes with distinct ids. */
    ghost predicate ListOk()
      reads this`head, this`tail, this`count, this`nodes, this`groups, nodes
    {
      && Linked(head, tail, nodes)
      && count == |nodes| == |groups|
      && (forall i :: 0 <= i < |nodes| ==> groups[i] == Group(nodes[i].vlanId, nodes[i].uplist))
      && DistinctIds(groups)
    }

    /** Besides, every node obtained from the heap is on the list, and the tables cover the ports. */
    ghost predicate Valid()
      reads this, nodes
    {
      && ListOk()
      && heap == (set n | n in nodes)
      && memberOf.Keys == egress.Keys == PortRange(uportBase, uportCount)
    }

    ghost function View(): Db
      reads this
    {
      Db(vlanType, maxCount, groups, memberOf, egress)
    }

    /** Zeroed memory and `_brdimpl_vlan_init`: the default database. */
    constructor (uportBase: nat, uportCount: nat)
      ensures this.uportBase == uportBase && this.uportCount == uportCount
      ensures Valid() && View() == DefaultDb(PortRange(uportBase, uportCount)) && forall n :: n in nodes ==> fresh(n)
    {
      this.uportBase, this.uportCount := uportBase, uportCount;
      vlanType, count, maxCount := NoVlan, 0, 0;
      head, tail := null, null;
      memberOf := map p | p in PortRange(uportBase, uportCount) :: {};
      egress := map p | p in PortRange(uportBase, uportCount) :: {};
      nodes, groups, heap := [], [], {};
      new;
      assert ListOk() && nodes == [];
      Reset();
    }

    /** `_brdimpl_vlan_sw_vlan_group_get` without deletion. */
    method GroupGet(groupId: nat) returns (rv: SysError, vlan: VlanNode?, prev: VlanNode?)
      requires ListOk()
      ensures var k := Find(groups, groupId);
        if k == |groups| then rv == NotFound
        else rv == Ok && vlan == nodes[k] && prev == NodeAt(nodes, k - 1)
    {
      hide DistinctIds;
      prev := null;
      vlan := head;
      ghost var k := 0;
      while vlan != null
        invariant 0 <= k <= |nodes|
        invariant vlan == NodeAt(nodes, k)
        invariant prev == NodeAt(nodes, k - 1)
        invariant forall j :: 0 <= j < k ==> groups[j].id != groupId
        decreases |nodes| - k
      {
        if vlan.vlanId == groupId {
          FoundAt(groups, groupId, k);
          rv := Ok;
          return;
        }
        prev := vlan;
        vlan := vlan.next;
        k := k + 1;
      }
      rv := NotFound;
    }

    /** `_brdimpl_vlan_sw_vlan_group_get` with deletion: the node is unlinked. */
    method GroupTake(groupId: nat) returns (rv: SysError, vlan: VlanNode?)
      requires ListOk()
      modifies this`head, this`tail, this`count, this`nodes, this`groups, nodes
      ensures ListOk()
      ensures var k := Find(old(groups), groupId);
        if k == |old(groups)| then rv == NotFound && nodes == old(nodes) && groups == old(groups)
        else
          && rv == Ok && vlan in old(nodes)
          && (set n | n in nodes) == (set n | n in old(nodes)) - {vlan}
          && groups == old(groups)[..k] + old(groups)[k + 1..]
    {
      hide DistinctIds, ListOk;
      var prev;
      rv, vlan, prev := GroupGet(groupId);
      if rv == Ok {
        NodesAreDistinct();
        TakeOut(vlan, prev, Find(groups, groupId));
      }
    }

    lemma NodesAreDistinct()
      requires ListOk()
      ensures |nodes| == |groups| && forall i, j :: 0 <= i < j < |nodes| ==> nodes[i] != nodes[j]
      ensures head == NodeAt(nodes, 0) && tail == NodeAt(nodes, |nodes| - 1)
    {
    }

    /** Unlinking the node at index `k`. */
    method TakeOut(vlan: VlanNode, prev: VlanNode?, ghost k: nat)
      requires ListOk() && k < |nodes| && vlan == nodes[k] && prev == NodeAt(nodes, k - 1)
      modifies this`head, this`tail, this`count, this`nodes, this`groups, nodes
      ensures ListOk() && groups == old(groups)[..k] + old(groups)[k + 1..]
      ensures (set n | n in nodes) == (set n | n in old(nodes)) - {vlan}
    {
      hide DistinctIds, Linked;
      ghost var were, said := nodes, groups;
      RemovalKeepsIds(said, k);
      NodesAreDistinct();
      NodesWithout(were, k);
      head, tail := Unlink(head, tail, prev, vlan, were, k);
      RestSays(were, said, k);
      count := count - 1;
      nodes, groups := were[..k] + were[k + 1..], said[..k] + said[k + 1..];
    }

    /** `brdimpl_vlan_create`, the memory and the hardware calls succeeding. */
    method Create(vlanId: nat) returns (rv: SysError)
      requires Valid()
      modifies this, nodes
      ensures Valid() && (View(), rv) == CreateIn(old(View()), vlanId)
      ensures fresh(heap - old(heap))
    {
      hide DistinctIds, Linked, PortRange;
      if vlanType == PortBased {
        if vlanId > maxCount {
          return Parameter;
        }
      } else {
        return State;
      }
      if count == maxCount {
        return Full;
      }
      var found, _, _ := GroupGet(vlanId);
      if found != NotFound {
        return Exists;
      }
      AdditionKeepsIds(groups, vlanId);
      Append(vlanId);
      rv := Ok;
    }

    /** A new node without ports at the end of the list. */
    method Append(vlanId: nat)
      requires ListOk() && heap == (set n | n in nodes) && DistinctIds(groups + [Group(vlanId, {})])
      modifies this`head, this`tail, this`count, this`nodes, this`groups, this`heap, nodes
      ensures ListOk() && heap == (set n | n in nodes) && fresh(heap - old(heap))
      ensures groups == old(groups) + [Group(vlanId, {})]
    {
      hide DistinctIds;
      var vlan := new VlanNode(vlanId);
      if tail != null {
        tail.next := vlan;
      }
      tail := vlan;
      if head == null {
        head := tail;
      }
      count := count + 1;
      nodes, groups, heap := nodes + [vlan], groups + [Group(vlanId, {})], heap + {vlan};
    }

    /** One turn of the outer loop of `brdimpl_pvlan_port_set`: the index and the mask of one port. */
    method UpdatePort(vlanId: nat, uplist: set<nat>, uport: nat)
      requires ListOk() && uport in memberOf && uport in egress
      modifies this`memberOf, this`egress
      ensures memberOf.Keys == old(memberOf.Keys) && egress.Keys == old(egress.Keys)
      ensures memberOf == old(memberOf)[uport := Reindexed(old(memberOf)[uport], vlanId, uplist, uport)]
      ensures egress == old(egress)[uport := MaskAt(groups, vlanId, uplist, memberOf[uport], uport)]
    {
      hide DistinctIds;
      var egr: set<nat>;
      if uport in uplist {
        memberOf := memberOf[uport := memberOf[uport] + {vlanId}];
        egr := uplist;
      } else {
        memberOf := memberOf[uport := memberOf[uport] - {vlanId}];
        egr := {};
      }
      var index := memberOf[uport];
      ghost var mine := egr;
      var vlan := head;
      ghost var k := 0;
      while vlan != null
        invariant 0 <= k <= |nodes|
        invariant vlan == NodeAt(nodes, k)
        invariant egr == mine + MasksBut(groups, k, vlanId, index)
        decreases |nodes| - k
      {
        if vlan.vlanId != vlanId {
          if vlan.vlanId in index {
            egr := egr + vlan.uplist;
          }
        }
        vlan := vlan.next;
        k := k + 1;
      }
      egress := egress[uport := egr];
    }

    /** The outer loop of `brdimpl_pvlan_port_set`. */
    method UpdatePorts(vlanId: nat, uplist: set<nat>)
      requires ListOk() && memberOf.Keys == egress.Keys == PortRange(uportBase, uportCount)
      modifies this`memberOf, this`egress
      ensures memberOf == IndexAfter(old(memberOf), vlanId, uplist)
      ensures egress == MasksAfter(old(memberOf), groups, vlanId, uplist)
    {
      hide ListOk, PortRange, Between, MaskAt, Reindexed;
      ghost var was, wasEgress := memberOf, egress;
      ghost var index, masks := IndexAfter(was, vlanId, uplist), MasksAfter(was, groups, vlanId, uplist);
      var uport := uportBase;
      BetweenStarts(was, index, uport);
      BetweenStarts(wasEgress, masks, uport);
      while uport < uportBase + uportCount
        invariant uportBase <= uport <= uportBase + uportCount && ListOk()
        invariant Between(was, index, uport, memberOf) && Between(wasEgress, masks, uport, egress)
        invariant memberOf.Keys == egress.Keys == was.Keys
      {
        BetweenSteps(was, index, uport, memberOf);
        BetweenSteps(wasEgress, masks, uport, egress);
        UpdatePort(vlanId, uplist, uport);
        uport := uport + 1;
      }
      BetweenEnds(was, index, uport, memberOf);
      BetweenEnds(wasEgress, masks, uport, egress);
    }

    /** `brdimpl_pvlan_port_set` in VT_PORT_BASED mode, the hardware calls succeeding. */
    method PvlanPortSet(vlanId: nat, uplist: set<nat>) returns (rv: SysError)
      requires Valid() && vlanType.PortBased?
      modifies this`memberOf, this`egress, this`groups, nodes
      ensures Valid() && (View(), rv) == PortSetIn(old(View()), vlanId, uplist)
    {
      hide Reindexed, MaskAt, DistinctIds, Linked, PortRange;
      var found, thisVlan, _ := GroupGet(vlanId);
      if found != Ok {
        return found;
      }
      if thisVlan.uplist == uplist {
        return Ok;
      }
      ghost var k := Find(groups, vlanId);
      UpdatePorts(vlanId, uplist);
      UpdateKeepsIds(groups, k, uplist);
      SetUplist(thisVlan, uplist, k);
      rv := Ok;
    }

    method SetUplist(thisVlan: VlanNode, uplist: set<nat>, ghost k: nat)
      requires ListOk() && k < |nodes| && thisVlan == nodes[k]
      requires DistinctIds(groups[k := Group(groups[k].id, uplist)])
      modifies this`groups, thisVlan`uplist
      ensures ListOk() && groups == old(groups)[k := Group(old(groups)[k].id, uplist)]
    {
      thisVlan.uplist := uplist;
      groups := groups[k := Group(groups[k].id, uplist)];
    }

    /** `brdimpl_vlan_destroy` */
    method Destroy(vlanId: nat) returns (rv: SysError)
      requires Valid()
      modifies this, nodes
      ensures Valid() && (View(), rv) == DestroyIn(old(View()), vlanId)
      ensures heap <= old(heap)
    {
      hide DistinctIds, PortSetIn, ListOk, PortRange;
      ghost var was := View();
      if vlanType == PortBased {
        rv := PvlanPortSet(vlanId, {});
        if rv != Ok {
          return;
        }
      }
      ghost var db1 := View();
      ghost var k := Find(groups, vlanId);
      var thisVlan;
      rv, thisVlan := GroupTake(vlanId);
      if rv != Ok {
        return;
      }
      heap := heap - {thisVlan};  // sal_free
    }

    /** `_brdimpl_uplist_allport_set` */
    method AllPorts(start: set<nat>) returns (uplist: set<nat>)
      ensures uplist == start + PortRange(uportBase, uportCount)
    {
      uplist := start;
      var uport := uportBase;
      while uport < uportBase + uportCount
        invariant uportBase <= uport <= uportBase + uportCount
        invariant uplist == start + PortRange(uportBase, uport - uportBase)
      {
        uplist := uplist + {uport};
        uport := uport + 1;
      }
    }

    /** The loop of `brdimpl_vlan_reset` that frees all groups but the first. */
    method FreeAllButFirst()
      requires ListOk() && nodes != [] && heap == (set n | n in nodes)
      modifies this`heap
      ensures heap == {nodes[0]}
    {
      hide DistinctIds;
      var thisVlan := head.next;
      ghost var k := 1;
      while thisVlan != null
        invariant 1 <= k <= |nodes|
        invariant thisVlan == NodeAt(nodes, k)
        invariant heap == {nodes[0]} + set n | n in nodes[k..]
        decreases |nodes| - k
      {
        var nextVlan := thisVlan.next;
        assert nodes[k..] == [thisVlan] + nodes[k + 1..];
        heap := heap - {thisVlan};  // sal_free
        thisVlan := nextVlan;
        k := k + 1;
      }
    }

    /** The list part of `brdimpl_vlan_reset`: one group, given all ports. */
    method ResetList()
      requires ListOk() && heap == (set n | n in nodes)
      requires forall g :: g in groups ==> g.ports <= PortRange(uportBase, uportCount)
      modifies this`head, this`tail, this`count, this`nodes, this`groups, this`heap, nodes
      ensures ListOk() && heap == (set n | n in nodes)
      ensures groups == [Group(VLAN_DEFAULT, PortRange(uportBase, uportCount))]
      ensures forall n :: n in nodes && n !in old(nodes) ==> fresh(n)
    {
      var thisVlan := head;
      if thisVlan == null {
        thisVlan := new VlanNode(0);
        head, tail := thisVlan, thisVlan;
        count := 1;
        nodes, groups, heap := [thisVlan], [Group(0, {})], {thisVlan};
      }
      assert groups[0] in groups;
      assert thisVlan == nodes[0];
      FreeAllButFirst();
      thisVlan.vlanId := VLAN_DEFAULT;
      var uplist := AllPorts(thisVlan.uplist);
      thisVlan.uplist := uplist;
      count := 1;
      head.next := null;
      tail := head;
      nodes, groups := [thisVlan], [Group(VLAN_DEFAULT, PortRange(uportBase, uportCount))];
    }

    /** `brdimpl_vlan_reset`; the hardware forgets all egress restrictions. */
    method Reset()
      requires Valid() && forall g :: g in groups ==> g.ports <= memberOf.Keys
      modifies this, nodes
      ensures Valid() && View() == DefaultDb(PortRange(uportBase, uportCount))
      ensures forall n :: n in nodes && n !in old(nodes) ==> fresh(n)
    {
      hide DistinctIds, ListOk, PortRange;
      ResetList();
      maxCount := 1;
      vlanType := NoVlan;
      ResetIndex();
      egress := map p | p in memberOf :: PortRange(uportBase, uportCount);  // soc->vlan_reset
    }

    method ResetIndex()
      requires memberOf.Keys == PortRange(uportBase, uportCount)
      modifies this`memberOf
      ensures memberOf == map p | p in PortRange(uportBase, uportCount) :: {VLAN_DEFAULT}
    {
      hide PortRange;
      var i := uportBase;
      while i < uportBase + uportCount
        invariant uportBase <= i <= uportBase + uportCount
        invariant memberOf.Keys == PortRange(uportBase, uportCount)
        invariant forall p :: p in memberOf && p < i ==> memberOf[p] == {VLAN_DEFAULT}
      {
        memberOf := memberOf[i := {VLAN_DEFAULT}];
        i := i + 1;
      }
    }

    /** `brdimpl_vlan_type_set` */
    method TypeSet(vlanType': VlanType)
      requires Valid() && forall g :: g in groups ==> g.ports <= memberOf.Keys
      modifies this, nodes
      ensures Valid()
      ensures View() == if vlanType' == old(vlanType) then old(View())
        else DefaultDb(PortRange(uportBase, uportCount)).(
          vlanType := vlanType', maxCount := if vlanType' == PortBased then uportCount + 1 else 1)
    {
      if vlanType == vlanType' {
        return;
      }
      Reset();
      vlanType := vlanType';
      if vlanType' == PortBased {
        maxCount := uportCount;
        maxCount := maxCount + 1;
      }
    }
  }
}
