/** Attribution of PCI devices to the NUMA nodes of a host. */
module Topology {
  import opened FabricTypes

  datatype Device = Device(name: string, vendorId: Option<string>, deviceId: Option<string>)

  /** A device as it was found, with the index of the node it is local to, if any. */
  datatype Found = Found(device: Device, index: Option<nat>)

  /** A NUMA node as the library enumerates it; it may lack an index. */
  datatype NumaObject = NumaObject(osIndex: Option<nat>, memory: nat, cpus: nat)

  datatype Node = Node(osIndex: nat, localMemoryBytes: nat, logicalCpus: nat, devices: seq<Device>)

  function IndexOf(o: NumaObject): nat {
    if o.osIndex.Some? then o.osIndex.value else 0
  }

  // ------------------------------------------------------------ the functions

  /** The devices listed under each index, in the order they were found. */
  function Group(found: seq<Found>): map<nat, seq<Device>> {
    if found == [] then map[]
    else
      var m, f := Group(found[..|found| - 1]), found[|found| - 1];
      if f.index.None? then m else m[f.index.value := GetOr(m, f.index.value, []) + [f.device]]
  }

  /** The devices that are local to no node. */
  function Unassigned(found: seq<Found>): seq<Device> {
    if found == [] then []
    else
      var f := found[|found| - 1];
      Unassigned(found[..|found| - 1]) + if f.index.None? then [f.device] else []
  }

  /** Each node takes what is listed under its index; what is taken is gone. */
  function Place(objects: seq<NumaObject>, m: map<nat, seq<Device>>): (seq<Node>, map<nat, seq<Device>>) {
    if objects == [] then ([], m)
    else
      var o := objects[|objects| - 1];
      var (nodes, rest) := Place(objects[..|objects| - 1], m);
      (nodes + [Node(IndexOf(o), o.memory, o.cpus, GetOr(rest, IndexOf(o), []))], rest - {IndexOf(o)})
  }

  predicate IsLeast(k: nat, s: set<nat>) {
    k in s && forall j :: j in s ==> k <= j
  }

  lemma LeastKey(s: set<nat>) returns (least: nat)
    requires s != {}
    ensures IsLeast(least, s)
    decreases s
  {
    var k :| k in s;
    least := k;
    if s != {k} {
      var other := LeastKey(s - {k});
      least := if k < other then k else other;
      assert forall j :: j in s && j != k ==> j in s - {k};
    }
  }

  function Least(s: set<nat>): (k: nat)
    requires s != {}
    ensures IsLeast(k, s)
  {
    assert exists k :: IsLeast(k, s) by {
      var least := LeastKey(s);
    }
    var k :| IsLeast(k, s);
    k
  }

  /** What is left in the table, in the order of its keys. */
  function Leftover(m: map<nat, seq<Device>>): seq<Device>
    decreases |m|
  {
    if m == map[] then []
    else
      var k := Least(m.Keys);
      m[k] + Leftover(m - {k})
  }

  function Settled(nodes: seq<Node>, spare: seq<Device>): seq<Node> {
    if spare == [] then nodes
    else if nodes == [] then [Node(0, 0, 0, spare)]
    else nodes[0 := nodes[0].(devices := nodes[0].devices + spare)]
  }

  function Discovered(found: seq<Found>, objects: seq<NumaObject>): seq<Node> {
    var (nodes, rest) := Place(objects, Group(found));
    Settled(nodes, Unassigned(found) + Leftover(rest))
  }

  // --------------------------------------------------------------- the method

  method Discover(found: seq<Found>, objects: seq<NumaObject>) returns (nodes: seq<Node>)
    ensures nodes == Discovered(found, objects)
  {
    var byIndex: map<nat, seq<Device>>, unassigned := map[], [];
    for i := 0 to |found|
      invariant byIndex == Group(found[..i]) && unassigned == Unassigned(found[..i])
    {
      assert found[..i + 1][..i] == found[..i];
      match found[i].index {
        case Some(index) => byIndex := byIndex[index := GetOr(byIndex, index, []) + [found[i].device]];
        case None => unassigned := unassigned + [found[i].device];
      }
    }
    assert found[..|found|] == found;
    nodes := [];
    for i := 0 to |objects|
      invariant (nodes, byIndex) == Place(objects[..i], Group(found))
    {
      assert objects[..i + 1][..i] == objects[..i];
      var o := objects[i];
      nodes := nodes + [Node(IndexOf(o), o.memory, o.cpus, GetOr(byIndex, IndexOf(o), []))];
      byIndex := byIndex - {IndexOf(o)};
    }
    assert objects[..|objects|] == objects;
    ghost var spare := unassigned + Leftover(byIndex);
    while byIndex != map[]
      invariant spare == unassigned + Leftover(byIndex)
      decreases |byIndex|
    {
      var k := Least(byIndex.Keys);
      assert unassigned + (byIndex[k] + Leftover(byIndex - {k})) == (unassigned + byIndex[k]) + Leftover(byIndex - {k});
      unassigned := unassigned + byIndex[k];
      byIndex := byIndex - {k};
    }
    assert spare == unassigned;
    if unassigned != [] {
      if nodes != [] {
        nodes := nodes[0 := nodes[0].(devices := nodes[0].devices + unassigned)];
      } else {
        nodes := [Node(0, 0, 0, unassigned)];
      }
    }
  }

  // ----------------------------------------------------- where devices end up

  /** The devices found local to `index`, or to no node, in order. */
  function LocalTo(found: seq<Found>, index: Option<nat>): seq<Device> {
    if found == [] then []
    else
      var f := found[|found| - 1];
      LocalTo(found[..|found| - 1], index) + if f.index == index then [f.device] else []
  }

  /** No node before the `i`-th has its index. */
  predicate IsFirst(objects: seq<NumaObject>, i: nat)
    requires i < |objects|
  {
    forall k :: 0 <= k < i ==> IndexOf(objects[k]) != IndexOf(objects[i])
  }

  lemma {:induction false} GroupIsLocal(found: seq<Found>, index: nat)
    ensures GetOr(Group(found), index, []) == LocalTo(found, Some(index))
  {
    if found != [] {
      GroupIsLocal(found[..|found| - 1], index);
    }
  }

  lemma {:induction false} PlaceTakes(objects: seq<NumaObject>, m: map<nat, seq<Device>>)
    ensures Place(objects, m).1 == m - set i | 0 <= i < |objects| :: IndexOf(objects[i])
    ensures |Place(objects, m).0| == |objects|
  {
    if objects != [] {
      var n := |objects| - 1;
      PlaceTakes(objects[..n], m);
      assert (set i | 0 <= i < |objects| :: IndexOf(objects[i]))
          == (set i | 0 <= i < n :: IndexOf(objects[..n][i])) + {IndexOf(objects[n])};
    }
  }

  predicate PlacedAt(objects: seq<NumaObject>, m: map<nat, seq<Device>>, i: nat, node: Node)
    requires i < |objects|
  {
    var o := objects[i];
    node == Node(IndexOf(o), o.memory, o.cpus, if IsFirst(objects, i) then GetOr(m, IndexOf(o), []) else [])
  }

  lemma {:induction false} PlaceGivesFirst(objects: seq<NumaObject>, m: map<nat, seq<Device>>, i: nat)
    requires i < |objects|
    ensures |Place(objects, m).0| == |objects| && PlacedAt(objects, m, i, Place(objects, m).0[i])
  {
    var n := |objects| - 1;
    PlaceTakes(objects, m);
    PlaceTakes(objects[..n], m);
    if i < n {
      PlaceGivesFirst(objects[..n], m, i);
      assert IsFirst(objects[..n], i) == IsFirst(objects, i);
    } else {
      var taken := set k | 0 <= k < n :: IndexOf(objects[..n][k]);
      assert IsFirst(objects, n) <==> IndexOf(objects[n]) !in taken by {
        assert forall k :: 0 <= k < n ==> objects[..n][k] == objects[k];
      }
    }
  }

  /** Every node keeps its own facts and lists exactly the devices local to it, on the
      first node with that index; only the very first node may list more, behind those.
      A node is made up only when none was enumerated and a device was found. */
  lemma DevicesLandOnTheFirstNode(found: seq<Found>, objects: seq<NumaObject>, i: nat)
    requires i < |objects|
    ensures |Discovered(found, objects)| == |objects|
    ensures var node, o := Discovered(found, objects)[i], objects[i];
            var own := if IsFirst(objects, i) then LocalTo(found, Some(IndexOf(o))) else [];
            && node.osIndex == (if o.osIndex.Some? then o.osIndex.value else 0)
            && node.localMemoryBytes == o.memory && node.logicalCpus == o.cpus
            && own <= node.devices && (i > 0 ==> node.devices == own)
  {
    PlaceGivesFirst(objects, Group(found), i);
    GroupIsLocal(found, IndexOf(objects[i]));
  }

  // ------------------------------------------------ what the first node takes

  lemma {:induction false} UnassignedIsLocalToNone(found: seq<Found>)
    ensures Unassigned(found) == LocalTo(found, None)
  {
    if found != [] {
      UnassignedIsLocalToNone(found[..|found| - 1]);
    }
  }

  /** What is listed under the keys below `n`, in their order. */
  function Below(m: map<nat, seq<Device>>, n: nat): seq<Device> {
    if n == 0 then [] else Below(m, n - 1) + GetOr(m, n - 1, [])
  }

  lemma {:induction false} BelowFromLeast(m: map<nat, seq<Device>>, k: nat, n: nat)
    requires IsLeast(k, m.Keys)
    ensures Below(m, n) == (if n > k then m[k] else []) + Below(m - {k}, n)
    ensures n <= k + 1 ==> Below(m - {k}, n) == []
  {
    if n > 0 {
      BelowFromLeast(m, k, n - 1);
      if n - 1 > k {
        assert GetOr(m - {k}, n - 1, []) == GetOr(m, n - 1, []);
      }
    }
  }

  lemma {:induction false} LeftoverInOrder(m: map<nat, seq<Device>>, n: nat)
    requires forall k :: k in m ==> k < n
    ensures Leftover(m) == Below(m, n)
    decreases |m|
  {
    if m == map[] {
      NothingBelow(n);
    } else {
      var k := Least(m.Keys);
      BelowFromLeast(m, k, n);
      LeftoverInOrder(m - {k}, n);
    }
  }

  lemma {:induction false} NothingBelow(n: nat)
    ensures Below(map[], n) == []
  {
    if n > 0 {
      NothingBelow(n - 1);
    }
  }

  predicate IsEnumerated(objects: seq<NumaObject>, index: nat) {
    exists i :: 0 <= i < |objects| && IndexOf(objects[i]) == index
  }

  /** The devices local to indices below `n` that no node has, by index. */
  function Homeless(found: seq<Found>, objects: seq<NumaObject>, n: nat): seq<Device> {
    if n == 0 then []
    else Homeless(found, objects, n - 1) + if IsEnumerated(objects, n - 1) then [] else LocalTo(found, Some(n - 1))
  }

  lemma {:induction false} BelowIsHomeless(found: seq<Found>, objects: seq<NumaObject>, n: nat)
    ensures Below(Place(objects, Group(found)).1, n) == Homeless(found, objects, n)
  {
    if n > 0 {
      BelowIsHomeless(found, objects, n - 1);
      PlaceTakes(objects, Group(found));
      GroupIsLocal(found, n - 1);
      assert IsEnumerated(objects, n - 1) <==> n - 1 in set i | 0 <= i < |objects| :: IndexOf(objects[i]);
    }
  }

  lemma {:induction false} GroupKeys(found: seq<Found>, n: nat)
    requires forall f :: f in found && f.index.Some? ==> f.index.value < n
    ensures forall k :: k in Group(found) ==> k < n
  {
    if found != [] {
      var i := |found| - 1;
      assert found[i] in found && forall f :: f in found[..i] ==> f in found;
      GroupKeys(found[..i], n);
    }
  }

  /** The very first node lists its own devices, then those local to no node, then those
      local to an index no node has, by index; without any node these two make up one. */
  lemma FirstNodeTakesTheRest(found: seq<Found>, objects: seq<NumaObject>, n: nat)
    requires forall f :: f in found && f.index.Some? ==> f.index.value < n
    ensures var spare, nodes := LocalTo(found, None) + Homeless(found, objects, n), Discovered(found, objects);
            && (objects == [] ==> nodes == if spare == [] then [] else [Node(0, 0, 0, spare)])
            && (objects != [] ==>
                  nodes != [] && nodes[0].devices == LocalTo(found, Some(IndexOf(objects[0]))) + spare)
  {
    var (nodes, rest) := Place(objects, Group(found));
    PlaceTakes(objects, Group(found));
    GroupKeys(found, n);
    LeftoverInOrder(rest, n);
    BelowIsHomeless(found, objects, n);
    UnassignedIsLocalToNone(found);
    if objects != [] {
      PlaceGivesFirst(objects, Group(found), 0);
      GroupIsLocal(found, IndexOf(objects[0]));
      var own := LocalTo(found, Some(IndexOf(objects[0])));
      assert own + [] == own;
    }
  }

  // -------------------------------------------------------------- conservation

  function DevicesOf(found: seq<Found>): multiset<Device> {
    multiset(seq(|found|, i requires 0 <= i < |found| => found[i].device))
  }

  function Listed(nodes: seq<Node>): multiset<Device> {
    if nodes == [] then multiset{} else Listed(nodes[..|nodes| - 1]) + multiset(nodes[|nodes| - 1].devices)
  }

  lemma {:induction false} LeftoverWithout(m: map<nat, seq<Device>>, k: nat)
    requires k in m
    ensures multiset(Leftover(m)) == multiset(m[k]) + multiset(Leftover(m - {k}))
    decreases |m|
  {
    var least := Least(m.Keys);
    if k != least {
      LeftoverWithout(m - {least}, k);
      assert (m - {k}).Keys == m.Keys - {k};
      assert least in (m - {k}).Keys && Least((m - {k}).Keys) in m.Keys;
      assert (m - {least}) - {k} == (m - {k}) - {least};
    }
  }

  lemma LeftoverOf(m: map<nat, seq<Device>>, k: nat, others: map<nat, seq<Device>>)
    requires others == m - {k}
    ensures multiset(Leftover(m)) == multiset(GetOr(m, k, [])) + multiset(Leftover(others))
  {
    if k in m {
      LeftoverWithout(m, k);
    } else {
      assert m - {k} == m;
    }
  }

  lemma OneMore(listed: seq<Device>, d: Device, others: multiset<Device>)
    ensures multiset(listed + [d]) + others == (multiset(listed) + others) + multiset{d}
  {
    assert multiset(listed + [d]) == multiset(listed) + multiset{d};
  }

  lemma OneMoreLeftOver(m: map<nat, seq<Device>>, m': map<nat, seq<Device>>, k: nat, listed: seq<Device>, d: Device)
    requires listed == GetOr(m, k, []) && m' == m[k := listed + [d]]
    ensures multiset(Leftover(m')) == multiset(Leftover(m)) + multiset{d}
  {
    var others := m - {k};
    assert m' - {k} == others && GetOr(m', k, []) == listed + [d];
    LeftoverOf(m, k, others);
    LeftoverOf(m', k, others);
    OneMore(listed, d, multiset(Leftover(others)));
  }

  lemma OneMoreDevice(found: seq<Found>)
    requires found != []
    ensures DevicesOf(found) == DevicesOf(found[..|found| - 1]) + multiset{found[|found| - 1].device}
  {
    var n := |found| - 1;
    assert seq(|found|, i requires 0 <= i < |found| => found[i].device)
        == seq(n, i requires 0 <= i < n => found[..n][i].device) + [found[n].device];
  }

  lemma {:induction false} GroupKeepsDevices(found: seq<Found>)
    ensures multiset(Unassigned(found)) + multiset(Leftover(Group(found))) == DevicesOf(found)
  {
    if found != [] {
      var n := |found| - 1;
      GroupKeepsDevices(found[..n]);
      OneMoreDevice(found);
      if found[n].index.Some? {
        var m, k := Group(found[..n]), found[n].index.value;
        OneMoreLeftOver(m, Group(found), k, GetOr(m, k, []), found[n].device);
      }
    }
  }

  lemma {:induction false} PlaceKeepsDevices(objects: seq<NumaObject>, m: map<nat, seq<Device>>)
    ensures var (nodes, rest) := Place(objects, m);
            Listed(nodes) + multiset(Leftover(rest)) == multiset(Leftover(m))
  {
    if objects != [] {
      var n := |objects| - 1;
      PlaceKeepsDevices(objects[..n], m);
      var (nodes, rest) := Place(objects[..n], m);
      var k := IndexOf(objects[n]);
      var last := Node(k, objects[n].memory, objects[n].cpus, GetOr(rest, k, []));
      assert (nodes + [last])[..|nodes|] == nodes;
      if k in rest {
        LeftoverWithout(rest, k);
      } else {
        assert rest - {k} == rest;
      }
    }
  }

  lemma {:induction false} ListedFirst(nodes: seq<Node>, more: seq<Device>)
    requires nodes != []
    ensures Listed(nodes[0 := nodes[0].(devices := nodes[0].devices + more)]) == Listed(nodes) + multiset(more)
  {
    var n := |nodes| - 1;
    var nodes' := nodes[0 := nodes[0].(devices := nodes[0].devices + more)];
    if n > 0 {
      ListedFirst(nodes[..n], more);
      assert nodes'[..n] == nodes[..n][0 := nodes[0].(devices := nodes[0].devices + more)];
    } else {
      assert nodes[..n] == nodes'[..n] == [];
    }
  }

  /** No device is lost, duplicated or made up, whatever nodes are enumerated. */
  lemma DevicesAreConserved(found: seq<Found>, objects: seq<NumaObject>)
    ensures Listed(Discovered(found, objects)) == DevicesOf(found)
  {
    GroupKeepsDevices(found);
    PlaceKeepsDevices(objects, Group(found));
    var (nodes, rest) := Place(objects, Group(found));
    var spare := Unassigned(found) + Leftover(rest);
    if spare != [] {
      if nodes == [] {
        assert [Node(0, 0, 0, spare)][..0] == [];
      } else {
        ListedFirst(nodes, spare);
      }
    }
    assert multiset(spare) == multiset(Unassigned(found)) + multiset(Leftover(rest));
  }
}
