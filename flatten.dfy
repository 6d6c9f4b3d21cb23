/**
 * What ExtractJsonElements adds, independent of how a store encodes leaves:
 * the sequence of (dotted path, non-object node) pairs in the order the
 * recursive walk reaches them. Both services encode these nodes, each in its
 * own way (see CosmosDbService and DynamoDbService).
 */
module Flatten {
  import opened JsonValues
  import opened Dictionaries

  /** The path a member of an object at `prefix` is visited with: `$"{prefix}.{name}"`. */
  function Child(prefix: string, name: string): string {
    prefix + "." + name
  }

  /**
   * The nodes reached from `j` at `prefix`: an object contributes the nodes of
   * its members, in enumeration order, each under `prefix.name`; every other
   * node (an array included, which is not entered) is one entry at `prefix`.
   */
  function FlatNodes(j: Json, prefix: string): seq<Entry<Json>>
    decreases j, 1
  {
    match j
    case Object(ms) => MembersNodes(ms, prefix)
    case _ => [Entry(prefix, j)]
  }

  /** The nodes of the members `ms` of an object at `prefix`, member after member. */
  function MembersNodes(ms: seq<Member>, prefix: string): seq<Entry<Json>>
    decreases ms, 0
  {
    if ms == [] then []
    else
      var last := ms[|ms| - 1];
      MembersNodes(ms[..|ms| - 1], prefix) + FlatNodes(last.value, Child(prefix, last.name))
  }

  /** A path under `prefix.name` is a path under `prefix.` */
  lemma UnderChild(prefix: string, name: string, k: string)
    requires k == Child(prefix, name) || Child(prefix, name) + "." <= k
    ensures prefix + "." <= k
  {
  }

  /**
   * Every node reached is a non-object, and its path is the prefix itself
   * (a scalar or array root) or lies under `prefix.`.
   */
  lemma {:induction false} FlatShape(j: Json, prefix: string)
    ensures forall e :: e in FlatNodes(j, prefix) ==>
      !e.value.Object? && (e.key == prefix || prefix + "." <= e.key)
    decreases j, 1
  {
    match j
    case Object(ms) => MembersShape(ms, prefix);
    case _ =>
  }

  /** The nodes of an object's members all lie under `prefix.`. */
  lemma {:induction false} MembersShape(ms: seq<Member>, prefix: string)
    ensures forall e :: e in MembersNodes(ms, prefix) ==> !e.value.Object? && prefix + "." <= e.key
    decreases ms, 0
  {
    if ms != [] {
      var n := |ms| - 1;
      var last := ms[n];
      MembersShape(ms[..n], prefix);
      FlatShape(last.value, Child(prefix, last.name));
      forall e | e in FlatNodes(last.value, Child(prefix, last.name)) ensures prefix + "." <= e.key {
        UnderChild(prefix, last.name, e.key);
      }
    }
  }

  /** Splitting the member list splits the entries: the members are walked in order. */
  lemma {:induction false} MembersSplit(ms: seq<Member>, prefix: string, i: nat)
    requires i <= |ms|
    ensures MembersNodes(ms, prefix) == MembersNodes(ms[..i], prefix) + MembersNodes(ms[i..], prefix)
    decreases |ms|
  {
    if i == |ms| {
      assert ms[..i] == ms && ms[i..] == [];
    } else {
      var n := |ms| - 1;
      var last := ms[n];
      MembersSplit(ms[..n], prefix, i);
      assert ms[..n][..i] == ms[..i];
      var rest := ms[i..];
      assert rest[..|rest| - 1] == ms[..n][i..] && rest[|rest| - 1] == last;
      assert MembersNodes(rest, prefix) ==
        MembersNodes(ms[..n][i..], prefix) + FlatNodes(last.value, Child(prefix, last.name));
    }
  }

  /** Every node of an object's entries comes from one of its members. */
  lemma {:induction false} MemberOf(ms: seq<Member>, prefix: string, e: Entry<Json>) returns (k: nat)
    requires e in MembersNodes(ms, prefix)
    ensures k < |ms| && e in FlatNodes(ms[k].value, Child(prefix, ms[k].name))
    decreases |ms|
  {
    var n := |ms| - 1;
    if e in FlatNodes(ms[n].value, Child(prefix, ms[n].name)) {
      k := n;
    } else {
      k := MemberOf(ms[..n], prefix, e);
    }
  }

  /** ... and every node of each member's entries is among them. */
  lemma {:induction false} MemberIn(ms: seq<Member>, prefix: string, k: nat, e: Entry<Json>)
    requires k < |ms| && e in FlatNodes(ms[k].value, Child(prefix, ms[k].name))
    ensures e in MembersNodes(ms, prefix)
  {
    MembersSplit(ms, prefix, k);
    var rest := ms[k..];
    MembersSplit(rest, prefix, 1);
    assert rest[..1] == [ms[k]];
    assert MembersNodes(rest[..1], prefix) == MembersNodes([], prefix) + FlatNodes(ms[k].value, Child(prefix, ms[k].name));
  }

  // ---------------------------------------------------------------------------
  // Leaf count

  /**
   * The number of non-object nodes reachable from `j` through objects alone:
   * an object counts what its members count, anything else (an array too,
   * whatever it contains) counts one.
   */
  function LeafCount(j: Json): nat
    decreases j, 1
  {
    match j
    case Object(ms) => MembersLeafCount(ms)
    case _ => 1
  }

  function MembersLeafCount(ms: seq<Member>): nat
    decreases ms, 0
  {
    if ms == [] then 0 else LeafCount(ms[0].value) + MembersLeafCount(ms[1..])
  }

  /** The walk adds exactly LeafCount(j) entries, whatever the prefix. */
  lemma {:induction false} FlatCount(j: Json, prefix: string)
    ensures |FlatNodes(j, prefix)| == LeafCount(j)
    decreases j, 1
  {
    match j
    case Object(ms) => MembersCount(ms, prefix);
    case _ =>
  }

  lemma {:induction false} MembersCount(ms: seq<Member>, prefix: string)
    ensures |MembersNodes(ms, prefix)| == MembersLeafCount(ms)
    decreases ms, 0
  {
    if ms != [] {
      MembersSplit(ms, prefix, 1);
      assert ms[..1] == [ms[0]];
      assert MembersNodes(ms[..1], prefix) == MembersNodes([], prefix) + FlatNodes(ms[0].value, Child(prefix, ms[0].name));
      FlatCount(ms[0].value, Child(prefix, ms[0].name));
      MembersCount(ms[1..], prefix);
    }
  }

  // ---------------------------------------------------------------------------
  // Where the paths come from

  /** The node reached from `j` by following the member indexes `route` (objects only). */
  function Descend(j: Json, route: seq<nat>): Option<Json>
    decreases route
  {
    if route == [] then Some(j)
    else match j
      case Object(ms) => if route[0] < |ms| then Descend(ms[route[0]].value, route[1..]) else None
      case _ => None
  }

  /** The dotted path of the node at `route`: the prefix followed by `.name` per member taken. */
  function PathOf(j: Json, prefix: string, route: seq<nat>): string
    requires Descend(j, route).Some?
    decreases route
  {
    if route == [] then prefix
    else
      var m := j.members[route[0]];
      PathOf(m.value, Child(prefix, m.name), route[1..])
  }

  /** Every entry is a non-object node reachable through objects, keyed by its path. */
  lemma {:induction false} RouteOf(j: Json, prefix: string, e: Entry<Json>) returns (route: seq<nat>)
    requires e in FlatNodes(j, prefix)
    ensures Descend(j, route) == Some(e.value) && !e.value.Object?
    ensures PathOf(j, prefix, route) == e.key
    decreases j
  {
    match j
    case Object(ms) =>
      var k := MemberOf(ms, prefix, e);
      var rest := RouteOf(ms[k].value, Child(prefix, ms[k].name), e);
      route := [k] + rest;
      assert route[0] == k && route[1..] == rest;
    case _ =>
      route := [];
  }

  /** Every non-object node reachable through objects has its entry, keyed by its path. */
  lemma {:induction false} EntryAt(j: Json, prefix: string, route: seq<nat>)
    requires Descend(j, route).Some? && !Descend(j, route).value.Object?
    ensures Entry(PathOf(j, prefix, route), Descend(j, route).value) in FlatNodes(j, prefix)
    decreases route
  {
    if route != [] {
      var ms := j.members;
      var k := route[0];
      EntryAt(ms[k].value, Child(prefix, ms[k].name), route[1..]);
      MemberIn(ms, prefix, k, Entry(PathOf(j, prefix, route), Descend(j, route).value));
    }
  }

  // ---------------------------------------------------------------------------
  // When the paths are distinct

  /**
   * Every object in `j` has distinct member names, none containing a dot.
   * Neither holds of JSON in general: names may repeat, and a name such as
   * "a.b" spells the same path as member "b" of member "a".
   */
  predicate WellKeyed(j: Json)
    decreases j
  {
    match j
    case Object(ms) =>
      && (forall i, k :: 0 <= i < k < |ms| ==> ms[i].name != ms[k].name)
      && (forall i :: 0 <= i < |ms| ==> '.' !in ms[i].name && WellKeyed(ms[i].value))
    case _ => true
  }

  /** Paths under two different dot-free member names of one object never meet. */
  lemma SeparateNames(prefix: string, n1: string, n2: string, k1: string, k2: string)
    requires '.' !in n1 && '.' !in n2 && n1 != n2
    requires k1 == Child(prefix, n1) || Child(prefix, n1) + "." <= k1
    requires k2 == Child(prefix, n2) || Child(prefix, n2) + "." <= k2
    ensures k1 != k2
  {
    var q := prefix + ".";
    assert Child(prefix, n1) == q + n1 && Child(prefix, n2) == q + n2;
    assert q + n1 <= k1 && q + n2 <= k2;
    if |n1| == |n2| {
      var i :| 0 <= i < |n1| && n1[i] != n2[i];
      assert k1[|q| + i] == n1[i] && k2[|q| + i] == n2[i];
    } else if |n1| < |n2| {
      if k1 != q + n1 {
        assert k1[|q| + |n1|] == '.' && k2[|q| + |n1|] == n2[|n1|];
      }
    } else {
      if k2 != q + n2 {
        assert k2[|q| + |n2|] == '.' && k1[|q| + |n2|] == n1[|n2|];
      }
    }
  }

  /** In a well-keyed tree no two entries share a path, so the walk never adds a key twice. */
  lemma {:induction false} PathsDistinct(j: Json, prefix: string)
    requires WellKeyed(j)
    ensures Distinct(KeysOf(FlatNodes(j, prefix)))
    decreases j, 1
  {
    match j
    case Object(ms) => MembersDistinct(ms, prefix);
    case _ =>
  }

  lemma {:induction false} MembersDistinct(ms: seq<Member>, prefix: string)
    requires forall i, k :: 0 <= i < k < |ms| ==> ms[i].name != ms[k].name
    requires forall i :: 0 <= i < |ms| ==> '.' !in ms[i].name && WellKeyed(ms[i].value)
    ensures Distinct(KeysOf(MembersNodes(ms, prefix)))
    decreases ms, 0
  {
    if ms != [] {
      var n := |ms| - 1;
      var last := ms[n];
      var front := MembersNodes(ms[..n], prefix);
      var back := FlatNodes(last.value, Child(prefix, last.name));
      MembersDistinct(ms[..n], prefix);
      PathsDistinct(last.value, Child(prefix, last.name));
      forall x | x in KeysOf(front) ensures x !in KeysOf(back) {
        var i :| 0 <= i < |front| && front[i].key == x;
        var k := MemberOf(ms[..n], prefix, front[i]);
        if x in KeysOf(back) {
          var l :| 0 <= l < |back| && back[l].key == x;
          assert back[l] in back;
          FlatShape(ms[k].value, Child(prefix, ms[k].name));
          FlatShape(last.value, Child(prefix, last.name));
          SeparateNames(prefix, ms[k].name, last.name, x, x);
        }
      }
      DistinctConcat(KeysOf(front), KeysOf(back));
      KeysOfConcat(front, back);
    }
  }

  /** A dotted member name and a nested member spell the same path: {"a.b":1,"a":{"b":2}}. */
  lemma DottedNameCollides()
    ensures var j := Object([Member("a.b", Number("1")), Member("a", Object([Member("b", Number("2"))]))]);
      KeysOf(FlatNodes(j, "BodyJson")) == ["BodyJson.a.b", "BodyJson.a.b"]
  {
    var inner := [Member("b", Number("2"))];
    assert inner[..0] == [];
    assert Child("BodyJson", "a") == "BodyJson.a";
    assert Child("BodyJson.a", "b") == "BodyJson.a.b";
    assert Child("BodyJson", "a.b") == "BodyJson.a.b";
    assert FlatNodes(Object(inner), "BodyJson.a") == [Entry("BodyJson.a.b", Number("2"))];
    var ms := [Member("a.b", Number("1")), Member("a", Object(inner))];
    assert ms[..1][..0] == [] && ms[..1] == [ms[0]];
    assert MembersNodes(ms[..1], "BodyJson") == [Entry("BodyJson.a.b", Number("1"))];
    assert MembersNodes(ms, "BodyJson") == [Entry("BodyJson.a.b", Number("1")), Entry("BodyJson.a.b", Number("2"))];
  }

  /**
   * {"order":{"id":42,"items":["x","y"],"paid":true,"note":null}} under
   * BodyJson reaches four nodes: the array is one of them, its elements none.
   */
  lemma MixedDocumentNodes()
    ensures var items := Array([String("x"), String("y")]);
      var order := [Member("id", Number("42")), Member("items", items), Member("paid", Bool(true)), Member("note", Null)];
      FlatNodes(Object([Member("order", Object(order))]), "BodyJson") ==
        [ Entry("BodyJson.order.id", Number("42")),
          Entry("BodyJson.order.items", items),
          Entry("BodyJson.order.paid", Bool(true)),
          Entry("BodyJson.order.note", Null) ]
  {
    var items := Array([String("x"), String("y")]);
    var order := [Member("id", Number("42")), Member("items", items), Member("paid", Bool(true)), Member("note", Null)];
    var p := "BodyJson.order";
    assert Child("BodyJson", "order") == p;
    assert Child(p, "id") == "BodyJson.order.id";
    assert Child(p, "items") == "BodyJson.order.items";
    assert Child(p, "paid") == "BodyJson.order.paid";
    assert Child(p, "note") == "BodyJson.order.note";
    assert order[..4] == order && order[..4][..3] == order[..3] && order[..3][..2] == order[..2];
    assert order[..2][..1] == order[..1] && order[..1][..0] == [];
    var nodes := [
      Entry("BodyJson.order.id", Number("42")),
      Entry("BodyJson.order.items", items),
      Entry("BodyJson.order.paid", Bool(true)),
      Entry("BodyJson.order.note", Null)];
    assert MembersNodes(order[..1], p) == nodes[..1];
    assert MembersNodes(order[..2], p) == nodes[..2];
    assert MembersNodes(order[..3], p) == nodes[..3];
    assert MembersNodes(order, p) == nodes;
    var outer := [Member("order", Object(order))];
    assert outer[..0] == [];
    assert MembersNodes(outer, "BodyJson") == MembersNodes([], "BodyJson") + FlatNodes(Object(order), p);
  }
}
