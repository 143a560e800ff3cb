/**
 * The port-based VLAN database refines a simple one: a map from group ids to the ports of each group,
 * of which the index of memberships and the egress masks in the hardware are views.
 */
module PvlanGroups {
  import opened Pvlan

  type PortMap = map<nat, set<nat>>

  function Ids(groups: seq<Group>): set<nat> {
    set g | g in groups :: g.id
  }

  function PortsOf(groups: seq<Group>, id: nat): set<nat> {
    var k := Find(groups, id);
    if k < |groups| then groups[k].ports else {}
  }

  function Abstract(groups: seq<Group>): PortMap {
    map id | id in Ids(groups) :: PortsOf(groups, id)
  }

  lemma AbstractHas(groups: seq<Group>, id: nat)
    ensures id in Abstract(groups) <==> Find(groups, id) < |groups|
    ensures id in Abstract(groups) ==> Abstract(groups)[id] == groups[Find(groups, id)].ports
  {
    if Find(groups, id) < |groups| {
      assert groups[Find(groups, id)] in groups;
    }
  }

  lemma AbstractAt(groups: seq<Group>, i: nat)
    requires DistinctIds(groups) && i < |groups|
    ensures groups[i].id in Abstract(groups) && Abstract(groups)[groups[i].id] == groups[i].ports
  {
    FoundAt(groups, groups[i].id, i);
    AbstractHas(groups, groups[i].id);
  }

  /** A map is the abstraction if it has the groups' ids with their ports and no others. */
  lemma AbstractIs(groups: seq<Group>, m: PortMap)
    requires DistinctIds(groups)
    requires forall i :: 0 <= i < |groups| ==> groups[i].id in m && m[groups[i].id] == groups[i].ports
    requires forall id :: id in m ==> exists i :: 0 <= i < |groups| && groups[i].id == id
    ensures Abstract(groups) == m
  {
    hide DistinctIds;
    forall id ensures id in Abstract(groups) <==> id in m {
      AbstractHas(groups, id);
    }
    forall id | id in m ensures Abstract(groups)[id] == m[id] {
      AbstractHas(groups, id);
    }
  }

  lemma {:induction false} AsManyIds(groups: seq<Group>)
    requires DistinctIds(groups)
    ensures |Abstract(groups)| == |groups|
    decreases |groups|
  {
    if groups == [] {
      assert Abstract(groups) == map[];
    } else {
      var n := |groups| - 1;
      AsManyIds(groups[..n]);
      assert groups == groups[..n] + [groups[n]];
      AppendedIs(groups[..n], groups[n]);
      hide *;
      OneKeyMore(Abstract(groups[..n]), groups[n].id, groups[n].ports);
    }
  }

  lemma OneKeyMore(m: PortMap, id: nat, ports: set<nat>)
    requires id !in m
    ensures |m[id := ports]| == |m| + 1
  {
    assert m[id := ports].Keys == m.Keys + {id};
    assert |m[id := ports]| == |m.Keys + {id}|;
  }

  lemma AppendedIs(groups: seq<Group>, g: Group)
    requires DistinctIds(groups + [g])
    ensures g.id !in Abstract(groups)
    ensures Abstract(groups + [g]) == Abstract(groups)[g.id := g.ports]
  {
    var all := groups + [g];
    forall i, j | 0 <= i < j < |groups| ensures groups[i].id != groups[j].id {
      assert all[i].id != all[j].id;
    }
    assert all[|groups|] == g;
    AbstractHas(groups, g.id);
    forall i | 0 <= i < |groups| ensures all[i] == groups[i] && all[i].id != g.id {
      assert all[i].id != all[|groups|].id;
    }
    var m := Abstract(groups)[g.id := g.ports];
    forall i | 0 <= i < |all| ensures all[i].id in m && m[all[i].id] == all[i].ports {
      if i < |groups| {
        AbstractAt(groups, i);
      }
    }
    forall id | id in m ensures exists i :: 0 <= i < |all| && all[i].id == id {
      AbstractHas(groups, id);
    }
    AbstractIs(all, m);
  }

  lemma ReplacedIs(groups: seq<Group>, k: nat, ports: set<nat>)
    requires DistinctIds(groups) && k < |groups|
    ensures Abstract(groups[k := Group(groups[k].id, ports)]) == Abstract(groups)[groups[k].id := ports]
  {
    var all, m := groups[k := Group(groups[k].id, ports)], Abstract(groups)[groups[k].id := ports];
    UpdateKeepsIds(groups, k, ports);
    forall i | 0 <= i < |all| ensures all[i].id in m && m[all[i].id] == all[i].ports {
      AbstractAt(groups, i);
    }
    forall id | id in m ensures exists i :: 0 <= i < |all| && all[i].id == id {
      AbstractHas(groups, id);
      var i := if id == groups[k].id then k else Find(groups, id);
      assert 0 <= i < |all| && all[i].id == id;
    }
    AbstractIs(all, m);
  }

  lemma OthersHaveOtherIds(groups: seq<Group>, k: nat)
    requires DistinctIds(groups) && k < |groups|
    ensures forall j :: 0 <= j < |groups| && j != k ==> groups[j].id != groups[k].id
  {
  }

  lemma CutIs(groups: seq<Group>, k: nat)
    requires DistinctIds(groups) && k < |groups|
    ensures Abstract(groups[..k] + groups[k + 1..]) == Abstract(groups) - {groups[k].id}
  {
    var all, m := groups[..k] + groups[k + 1..], Abstract(groups) - {groups[k].id};
    RemovalKeepsIds(groups, k);
    OthersHaveOtherIds(groups, k);
    hide DistinctIds, Abstract;
    forall i | 0 <= i < |all| ensures all[i].id in m && m[all[i].id] == all[i].ports {
      AbstractAt(groups, if i < k then i else i + 1);
    }
    forall id | id in m ensures exists i :: 0 <= i < |all| && all[i].id == id {
      AbstractHas(groups, id);
      var j := Find(groups, id);
      assert all[if j < k then j else j - 1] == groups[j];
    }
    AbstractIs(all, m);
  }

  // ---------- The operations ----------

  /** What the caller of the database is promised, `max` being the number of groups it may have. */
  predicate Promised(max: nat, m: PortMap, op: Op, m': PortMap, rv: SysError) {
    match op
    case Create(id) =>
      && (rv == Ok <==> id <= max && |m| < max && id !in m)
      && (rv == Parameter <==> id > max)
      && (rv == Full <==> id <= max && |m| == max)
      && (rv == Exists <==> id <= max && |m| < max && id in m)
      && m' == if rv == Ok then m[id := {}] else m
    case Destroy(id) =>
      && rv == (if id in m then Ok else NotFound)
      && m' == m - {id}
    case PortSet(id, ports) =>
      && rv == (if id in m then Ok else NotFound)
      && m' == if id in m then m[id := ports] else m
  }

  lemma CreateKeepsPromise(groups: seq<Group>, db: Db, id: nat)
    requires DistinctIds(groups) && groups == db.groups && |groups| <= db.maxCount && db.vlanType.PortBased?
    ensures var (db', rv) := CreateIn(db, id);
      Promised(db.maxCount, Abstract(groups), Create(id), Abstract(db'.groups), rv) && db'.maxCount == db.maxCount
  {
    AbstractHas(groups, id);
    AsManyIds(groups);
    if Find(groups, id) == |groups| {
      AdditionKeepsIds(groups, id);
      AppendedIs(groups, Group(id, {}));
    }
    hide Abstract, DistinctIds, Find;
  }

  lemma PortSetKeepsPromise(groups: seq<Group>, db: Db, id: nat, ports: set<nat>)
    requires DistinctIds(groups) && groups == db.groups
    ensures var (db', rv) := PortSetIn(db, id, ports);
      && Promised(db.maxCount, Abstract(groups), PortSet(id, ports), Abstract(db'.groups), rv)
      && db'.maxCount == db.maxCount && DistinctIds(db'.groups)
  {
    AbstractHas(groups, id);
    var k := Find(groups, id);
    if k < |groups| {
      ReplacedIs(groups, k, ports);
      UpdateKeepsIds(groups, k, ports);
      assert groups[k].ports == ports ==> groups[k := Group(id, ports)] == groups;
    }
    hide Abstract, DistinctIds, IndexAfter, MasksAfter;
  }

  lemma DestroyKeepsPromise(groups: seq<Group>, db: Db, id: nat)
    requires DistinctIds(groups) && groups == db.groups && db.vlanType.PortBased?
    ensures var (db', rv) := DestroyIn(db, id);
      Promised(db.maxCount, Abstract(groups), Destroy(id), Abstract(db'.groups), rv) && db'.maxCount == db.maxCount
  {
    hide Abstract, DistinctIds, PortSetIn;
    PortSetKeepsPromise(groups, db, id, {});
    var m := Abstract(groups);
    var db1 := PortSetIn(db, id, {}).0;
    if id in m {
      AbstractHas(db1.groups, id);
      CutIs(db1.groups, Find(db1.groups, id));
      assert m[id := {}] - {id} == m - {id};
    } else {
      assert m - {id} == m;
    }
  }

  /** Every operation does to the groups exactly what is promised, to the one it names and to no other. */
  lemma ApplyKeepsPromise(db: Db, op: Op)
    requires Agrees(db) && db.vlanType.PortBased?
    ensures var (db', rv) := Apply(db, op);
      Promised(db.maxCount, Abstract(db.groups), op, Abstract(db'.groups), rv) && db'.maxCount == db.maxCount
  {
    AtMostMax(db);
    hide Abstract, DistinctIds, CreateIn, DestroyIn, PortSetIn, Promised, Agrees;
    match op
    case Create(id) => CreateKeepsPromise(db.groups, db, id);
    case Destroy(id) => DestroyKeepsPromise(db.groups, db, id);
    case PortSet(id, ports) => PortSetKeepsPromise(db.groups, db, id, ports);
  }

  /** In the other mode no group can be created. */
  lemma CreateNeedsMode(db: Db, id: nat)
    ensures CreateIn(db, id).1 == State <==> !db.vlanType.PortBased?
    ensures CreateIn(db, id).1 != Ok ==> CreateIn(db, id).0 == db
  {
  }

  // ---------- The views ----------

  /** Index and masks, read off the simple database. */
  ghost predicate Shows(m: PortMap, memberOf: map<nat, set<nat>>, egress: map<nat, set<nat>>) {
    && (forall p, id :: p in memberOf ==> (id in memberOf[p] <==> id in m && p in m[id]))
    && (forall p, q :: p in egress ==> (q in egress[p] <==> ShareGroup(m, p, q)))
  }

  ghost predicate ShareGroup(m: PortMap, p: nat, q: nat) {
    exists id :: id in m && p in m[id] && q in m[id]
  }

  lemma AgreeingShows(db: Db)
    requires Agrees(db)
    ensures Shows(Abstract(db.groups), db.memberOf, db.egress)
  {
    var m := Abstract(db.groups);
    forall p, id | p in db.memberOf ensures id in db.memberOf[p] <==> id in m && p in m[id] {
      MembershipShows(db.groups, p, id);
    }
    forall p, q | p in db.egress ensures q in db.egress[p] <==> ShareGroup(m, p, q) {
      EgressShows(db.groups, p, q);
    }
  }

  lemma MembershipShows(groups: seq<Group>, p: nat, id: nat)
    requires DistinctIds(groups)
    ensures id in MembershipOf(groups, p) <==> id in Abstract(groups) && p in Abstract(groups)[id]
  {
    AbstractHas(groups, id);
    var k := Find(groups, id);
    if k < |groups| {
      MemberById(groups, k, p);
    }
  }

  lemma EgressShows(groups: seq<Group>, p: nat, q: nat)
    requires DistinctIds(groups)
    ensures q in EgressOf(groups, p) <==> ShareGroup(Abstract(groups), p, q)
  {
    var m := Abstract(groups);
    if g :| g in groups && p in g.ports && q in g.ports {
      var i :| 0 <= i < |groups| && groups[i] == g;
      AbstractAt(groups, i);
    }
    if id :| id in m && p in m[id] && q in m[id] {
      AbstractHas(groups, id);
      assert groups[Find(groups, id)] in groups;
    }
  }

  /**
   * After the ports of a group were set: a port's other memberships are those it had, it is in the group
   * exactly if it was named, and its packets leave for the named ports, if it is one of them, and for
   * the ports it shares another group with.
   */
  lemma PortSetShows(db: Db, id: nat, ports: set<nat>, p: nat)
    requires Agrees(db) && db.vlanType.PortBased? && Legal(db, PortSet(id, ports)) && p in db.memberOf
    requires Apply(db, PortSet(id, ports)).1 == Ok
    ensures var db' := Apply(db, PortSet(id, ports)).0;
      && p in db'.memberOf && p in db'.egress
      && db'.memberOf[p] == (if p in ports then db.memberOf[p] + {id} else db.memberOf[p] - {id})
      && forall q :: q in db'.egress[p] <==>
           (p in ports && q in ports) || ShareGroup(Abstract(db.groups) - {id}, p, q)
  {
    var op := PortSet(id, ports);
    var db' := Apply(db, op).0;
    var m: PortMap, m': PortMap := Abstract(db.groups), Abstract(db'.groups);
    var others: PortMap := m - {id};
    ApplyAgrees(db, op);
    hide Abstract, Agrees, PortSetIn;
    ApplyKeepsPromise(db, op);
    AgreeingShows(db);
    AgreeingShows(db');
    assert m' == m[id := ports];
    PortSetViews(m, id, ports, p);
    hide Promised, ShareGroup;
    assert p in db'.memberOf && p in db'.egress by { hide Shows; AgreeingKeys(db, db'); }
    forall i ensures i in db'.memberOf[p] <==>
      i in (if p in ports then db.memberOf[p] + {id} else db.memberOf[p] - {id})
    {
    }
  }

  lemma AgreeingKeys(db: Db, db': Db)
    requires Agrees(db) && Agrees(db') && db'.memberOf.Keys == db.memberOf.Keys
    ensures db'.egress.Keys == db'.memberOf.Keys == db.memberOf.Keys
  {
  }

  lemma PortSetViews(m: PortMap, id: nat, ports: set<nat>, p: nat)
    requires id in m
    ensures forall q :: ShareGroup(m[id := ports], p, q) <==> (p in ports && q in ports) || ShareGroup(m - {id}, p, q)
    ensures forall i: nat :: i in m[id := ports] && p in m[id := ports][i] <==>
      if i == id then p in ports else i in m && p in m[i]
  {
    var m': PortMap, others: PortMap := m[id := ports], m - {id};
    forall q ensures ShareGroup(m', p, q) <==> (p in ports && q in ports) || ShareGroup(others, p, q) {
      if ShareGroup(others, p, q) {
        var i :| i in others && p in others[i] && q in others[i];
        assert i in m' && m'[i] == m[i];
      }
      if ShareGroup(m', p, q) {
        var i :| i in m' && p in m'[i] && q in m'[i];
        assert i != id ==> i in others && others[i] == m'[i];
      }
      if p in ports && q in ports {
        assert id in m' && p in m'[id];
      }
    }
  }

  // ---------- Runs ----------

  function PromisedStep(max: nat, m: PortMap, op: Op): PortMap {
    match op
    case Create(id) => if id <= max && |m| < max && id !in m then m[id := {}] else m
    case Destroy(id) => m - {id}
    case PortSet(id, ports) => if id in m then m[id := ports] else m
  }

  function PromisedRun(max: nat, m: PortMap, ops: seq<Op>): PortMap
    decreases |ops|
  {
    if ops == [] then m else PromisedRun(max, PromisedStep(max, m, ops[0]), ops[1..])
  }

  /** After any run of the operations memberships and egress masks show what the simple database holds. */
  lemma {:induction false} RunRefines(db: Db, ops: seq<Op>)
    requires Agrees(db) && db.vlanType.PortBased? && forall op :: op in ops ==> Legal(db, op)
    ensures var db' := Run(db, ops);
      && Abstract(db'.groups) == PromisedRun(db.maxCount, Abstract(db.groups), ops)
      && Shows(PromisedRun(db.maxCount, Abstract(db.groups), ops), db'.memberOf, db'.egress)
    decreases |ops|
  {
    hide Agrees, Apply, Shows, Abstract, Legal;
    if ops == [] {
      AgreeingShows(db);
    } else {
      assert ops[0] in ops;
      ApplyAgrees(db, ops[0]);
      StaysLegal(db, Apply(db, ops[0]).0, ops);
      ApplyKeepsPromise(db, ops[0]);
      RunRefines(Apply(db, ops[0]).0, ops[1..]);
    }
  }

  lemma StaysLegal(db: Db, db': Db, ops: seq<Op>)
    requires db'.memberOf.Keys == db.memberOf.Keys && forall op :: op in ops ==> Legal(db, op)
    ensures forall op :: op in ops ==> Legal(db', op)
  {
  }
}
