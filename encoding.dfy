/**
 * What ExtractJsonElements adds to its dictionary, for any store: every node
 * FlatNodes reaches, under its path, turned into the store's value by the
 * store's own leaf encoding (DynamoDbService.Leaf, CosmosDbService.Leaf).
 */
module Encoding {
  import opened JsonValues
  import opened Dictionaries
  import opened Flatten

  /** `leaf` turns every non-object node into a store value. */
  ghost predicate EncodesLeaves<V>(leaf: Json --> V) {
    forall j: Json :: !j.Object? ==> leaf.requires(j)
  }

  predicate Leaves(ns: seq<Entry<Json>>) {
    forall i :: 0 <= i < |ns| ==> !ns[i].value.Object?
  }

  /** Each node's value under the node's own path. */
  function Encode<V>(ns: seq<Entry<Json>>, leaf: Json --> V): (es: seq<Entry<V>>)
    requires Leaves(ns) && EncodesLeaves(leaf)
    ensures |es| == |ns| && KeysOf(es) == KeysOf(ns)
  {
    seq(|ns|, i requires 0 <= i < |ns| => Entry(ns[i].key, leaf(ns[i].value)))
  }

  lemma EncodeConcat<V>(a: seq<Entry<Json>>, b: seq<Entry<Json>>, leaf: Json --> V)
    requires Leaves(a) && Leaves(b) && EncodesLeaves(leaf)
    ensures Leaves(a + b) && Encode(a + b, leaf) == Encode(a, leaf) + Encode(b, leaf)
  {
  }

  lemma FlatLeaves(j: Json, prefix: string)
    ensures Leaves(FlatNodes(j, prefix))
  {
    var ns := FlatNodes(j, prefix);
    FlatShape(j, prefix);
    forall i | 0 <= i < |ns| ensures !ns[i].value.Object? {
      assert ns[i] in ns;
    }
  }

  lemma MembersLeaves(ms: seq<Member>, prefix: string)
    ensures Leaves(MembersNodes(ms, prefix))
  {
    var ns := MembersNodes(ms, prefix);
    MembersShape(ms, prefix);
    forall i | 0 <= i < |ns| ensures !ns[i].value.Object? {
      assert ns[i] in ns;
    }
  }

  /** The entries the walk adds for `j` at `prefix`, in the order it adds them. */
  function Attributes<V>(j: Json, prefix: string, leaf: Json --> V): seq<Entry<V>>
    requires EncodesLeaves(leaf)
  {
    FlatLeaves(j, prefix);
    Encode(FlatNodes(j, prefix), leaf)
  }

  /** A non-object node is one entry, at the prefix itself. */
  lemma ScalarAttributes<V>(j: Json, prefix: string, leaf: Json --> V)
    requires !j.Object? && EncodesLeaves(leaf)
    ensures Attributes(j, prefix, leaf) == [Entry(prefix, leaf(j))]
  {
  }

  /** The entries the walk adds for the members `ms` of an object at `prefix`. */
  function MembersAttributes<V>(ms: seq<Member>, prefix: string, leaf: Json --> V): seq<Entry<V>>
    requires EncodesLeaves(leaf)
  {
    MembersLeaves(ms, prefix);
    Encode(MembersNodes(ms, prefix), leaf)
  }

  /** An object adds nothing of its own: only its members' entries. */
  lemma ObjectAttributes<V>(ms: seq<Member>, prefix: string, leaf: Json --> V)
    requires EncodesLeaves(leaf)
    ensures Attributes(Object(ms), prefix, leaf) == MembersAttributes(ms, prefix, leaf)
    ensures ms == [] ==> Attributes(Object(ms), prefix, leaf) == []
  {
  }

  /** Visiting one more member appends that member's entries. */
  lemma MembersAttributesStep<V>(ms: seq<Member>, prefix: string, i: nat, leaf: Json --> V)
    requires i < |ms| && EncodesLeaves(leaf)
    ensures MembersAttributes(ms[..i + 1], prefix, leaf) ==
      MembersAttributes(ms[..i], prefix, leaf) + Attributes(ms[i].value, Child(prefix, ms[i].name), leaf)
  {
    assert ms[..i + 1][..i] == ms[..i];
    MembersLeaves(ms[..i], prefix);
    FlatLeaves(ms[i].value, Child(prefix, ms[i].name));
    EncodeConcat(MembersNodes(ms[..i], prefix), FlatNodes(ms[i].value, Child(prefix, ms[i].name)), leaf);
  }

  lemma MembersAttributesSplit<V>(ms: seq<Member>, prefix: string, i: nat, leaf: Json --> V)
    requires i <= |ms| && EncodesLeaves(leaf)
    ensures MembersAttributes(ms, prefix, leaf) ==
      MembersAttributes(ms[..i], prefix, leaf) + MembersAttributes(ms[i..], prefix, leaf)
  {
    MembersSplit(ms, prefix, i);
    MembersLeaves(ms[..i], prefix);
    MembersLeaves(ms[i..], prefix);
    EncodeConcat(MembersNodes(ms[..i], prefix), MembersNodes(ms[i..], prefix), leaf);
  }

  /**
   * One pass of the loop over an object's members: the member's walk either
   * adds all its entries, so the loop goes on, or throws, which ends the
   * object's walk at the same Add.
   */
  lemma MemberVisited<V>(start: seq<Entry<V>>, ms: seq<Member>, prefix: string, i: nat, leaf: Json --> V,
                         items: seq<Entry<V>>, n: nat)
    requires i < |ms| && EncodesLeaves(leaf)
    requires var done := MembersAttributes(ms[..i], prefix, leaf);
      var added := Attributes(ms[i].value, Child(prefix, ms[i].name), leaf);
      && Admitted(KeysOf(start), KeysOf(done)) == |done|
      && n == Admitted(KeysOf(start + done), KeysOf(added))
      && items == start + done + added[..n]
    ensures var added := Attributes(ms[i].value, Child(prefix, ms[i].name), leaf);
      var next := MembersAttributes(ms[..i + 1], prefix, leaf);
      n == |added| ==> Admitted(KeysOf(start), KeysOf(next)) == |next| && items == start + next
    ensures var added := Attributes(ms[i].value, Child(prefix, ms[i].name), leaf);
      var es := MembersAttributes(ms, prefix, leaf);
      var total := Admitted(KeysOf(start), KeysOf(es));
      n < |added| ==> total < |es| && items == start + es[..total] && es[total] == added[n]
  {
    var done := MembersAttributes(ms[..i], prefix, leaf);
    var added := Attributes(ms[i].value, Child(prefix, ms[i].name), leaf);
    var rest := MembersAttributes(ms[i + 1..], prefix, leaf);
    MembersAttributesStep(ms, prefix, i, leaf);
    MembersAttributesSplit(ms, prefix, i + 1, leaf);
    RunStep(start, done, added, rest, items, n);
  }

  /** The entries are the reached nodes' paths, each under the prefix, each with its node's value. */
  lemma AttributesOfNodes<V>(j: Json, prefix: string, leaf: Json --> V)
    requires EncodesLeaves(leaf)
    ensures var ns := FlatNodes(j, prefix);
      var es := Attributes(j, prefix, leaf);
      && |es| == |ns|
      && (forall i :: 0 <= i < |ns| ==> es[i].key == ns[i].key && es[i].key == KeysOf(es)[i])
      && (forall i :: 0 <= i < |ns| ==> es[i].key == prefix || prefix + "." <= es[i].key)
      && (forall i :: 0 <= i < |ns| ==> es[i].value == leaf(ns[i].value))
  {
    var ns := FlatNodes(j, prefix);
    FlatShape(j, prefix);
    forall i | 0 <= i < |ns| ensures ns[i].key == prefix || prefix + "." <= ns[i].key {
      assert ns[i] in ns;
    }
  }

  /** Every non-object node reachable through objects has its entry: nothing is dropped. */
  lemma AttributesHoldEveryLeaf<V>(j: Json, prefix: string, leaf: Json --> V, route: seq<nat>)
    requires EncodesLeaves(leaf)
    requires Descend(j, route).Some? && !Descend(j, route).value.Object?
    ensures Entry(PathOf(j, prefix, route), leaf(Descend(j, route).value)) in Attributes(j, prefix, leaf)
  {
    var ns := FlatNodes(j, prefix);
    EntryAt(j, prefix, route);
    AttributesOfNodes(j, prefix, leaf);
    var i :| 0 <= i < |ns| && ns[i] == Entry(PathOf(j, prefix, route), Descend(j, route).value);
    assert Attributes(j, prefix, leaf)[i] == Entry(PathOf(j, prefix, route), leaf(Descend(j, route).value));
  }

  /** Every entry is such a node's: nothing is invented. */
  lemma AttributeOrigin<V>(j: Json, prefix: string, leaf: Json --> V, i: nat) returns (route: seq<nat>)
    requires EncodesLeaves(leaf) && i < |Attributes(j, prefix, leaf)|
    ensures Descend(j, route).Some? && !Descend(j, route).value.Object?
    ensures Attributes(j, prefix, leaf)[i] == Entry(PathOf(j, prefix, route), leaf(Descend(j, route).value))
  {
    var ns := FlatNodes(j, prefix);
    AttributesOfNodes(j, prefix, leaf);
    assert ns[i] in ns;
    route := RouteOf(j, prefix, ns[i]);
  }

  /** One entry per non-object node reached through objects: an array counts one, an empty object none. */
  lemma AttributesCount<V>(j: Json, prefix: string, leaf: Json --> V)
    requires EncodesLeaves(leaf)
    ensures |Attributes(j, prefix, leaf)| == LeafCount(j)
  {
    FlatCount(j, prefix);
  }
}
