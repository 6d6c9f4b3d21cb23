/**
 * How both services assemble the record they write: the metadata entries,
 * then, when the body parses, the flattened body entries merged in one Add at
 * a time. Any exception other than a JsonException is logged and rethrown,
 * so nothing is written.
 */
module Records {
  import opened JsonValues
  import opened Dictionaries
  import opened Flatten
  import opened Encoding

  /** The root prefix both services flatten the body under. */
  const BodyJson: string := "BodyJson"

  datatype WriteOutcome<V> =
    | Ignored                      // a null message: the service returns before doing anything
    | Put(item: seq<Entry<V>>)      // the record handed to the store, in insertion order
    | Rethrown(duplicate: string)  // Dictionary.Add threw on this key; the exception escapes

  /**
   * The outcome for metadata `meta` and, when the body parsed, the body's
   * entries `body` in the order the walk produces them: first added to an
   * empty dictionary (throwing at the first repeated path), then merged into
   * the metadata (throwing at the first path the record already has).
   */
  function Assemble<V>(meta: seq<Entry<V>>, body: Option<seq<Entry<V>>>): WriteOutcome<V>
  {
    match body
    case None => Put(meta)
    case Some(es) =>
      var n := Admitted([], KeysOf(es));
      if n < |es| then Rethrown(es[n].key)
      else
        var m := Admitted(KeysOf(meta), KeysOf(es));
        if m < |es| then Rethrown(es[m].key)
        else Put(meta + es)
  }

  /**
   * A record that is written starts with the metadata, unchanged, and holds
   * no key twice; an exception is only ever raised on a key of the body.
   */
  lemma AssembledRecord<V>(meta: seq<Entry<V>>, body: Option<seq<Entry<V>>>)
    requires Distinct(KeysOf(meta))
    ensures var r := Assemble(meta, body);
      && !r.Ignored?
      && (r.Put? ==> |meta| <= |r.item| && r.item[..|meta|] == meta && Distinct(KeysOf(r.item)))
      && (r.Rethrown? ==> body.Some? && r.duplicate in KeysOf(body.value))
  {
    if body.Some? {
      var es := body.value;
      var r := Assemble(meta, body);
      if r.Put? {
        AdmittedAll(KeysOf(meta), KeysOf(es));
        KeysOfConcat(meta, es);
        DistinctConcat(KeysOf(meta), KeysOf(es));
        assert (meta + es)[..|meta|] == meta;
      } else {
        var n := Admitted([], KeysOf(es));
        var m := Admitted(KeysOf(meta), KeysOf(es));
        assert KeysOf(es)[if n < |es| then n else m] in KeysOf(es);
      }
    }
  }

  /** No metadata key is `prefix` itself or lies under `prefix.`. */
  predicate OutsidePrefix<V>(meta: seq<Entry<V>>, prefix: string) {
    forall i :: 0 <= i < |meta| ==> meta[i].key != prefix && !(prefix + "." <= meta[i].key)
  }

  /**
   * A key shorter than BodyJson, or one that differs from `BodyJson.` at
   * position `j` before either ends, is neither BodyJson nor a path under it.
   */
  lemma OutsideBodyJson(k: string, j: nat)
    requires |k| < |BodyJson| || (j < |k| && j < |BodyJson| && k[j] != BodyJson[j])
    ensures k != BodyJson && !(BodyJson + "." <= k)
  {
    if |k| >= |BodyJson| {
      assert (BodyJson + ".")[j] == BodyJson[j];
    }
  }

  /** Every body key is `prefix` itself or lies under `prefix.`. */
  predicate UnderPrefix<V>(es: seq<Entry<V>>, prefix: string) {
    forall i :: 0 <= i < |es| ==> es[i].key == prefix || prefix + "." <= es[i].key
  }

  lemma PrefixesSeparate<V>(meta: seq<Entry<V>>, es: seq<Entry<V>>, prefix: string)
    requires OutsidePrefix(meta, prefix) && UnderPrefix(es, prefix)
    ensures forall i, l :: 0 <= i < |es| && 0 <= l < |meta| ==> es[i].key != meta[l].key
  {
  }

  /**
   * When the body's keys all lie under a prefix that no metadata key does,
   * the merge loop never throws: a body without repeated paths is merged
   * whole, and otherwise the exception is the one the walk itself raised.
   */
  lemma MergeNeverThrows<V>(meta: seq<Entry<V>>, es: seq<Entry<V>>, prefix: string)
    requires Distinct(KeysOf(meta))
    requires OutsidePrefix(meta, prefix) && UnderPrefix(es, prefix)
    ensures Distinct(KeysOf(es)) ==> Assemble(meta, Some(es)) == Put(meta + es)
    ensures !Distinct(KeysOf(es)) ==> Assemble(meta, Some(es)) == Assemble([], Some(es)) && Assemble([], Some(es)).Rethrown?
  {
    var ks := KeysOf(es);
    PrefixesSeparate(meta, es, prefix);
    AdmittedIgnores([], KeysOf(meta), ks);
    assert KeysOf(meta) + [] == KeysOf(meta);
    AdmittedAll([], ks);
  }

  /**
   * A parsed body, for any store: the record is the metadata followed by the
   * body's entries exactly when the body's paths are distinct; otherwise the
   * Add of a repeated path throws and the exception is rethrown.
   */
  lemma BodyOutcome<V>(meta: seq<Entry<V>>, j: Json, leaf: Json --> V)
    requires Distinct(KeysOf(meta)) && OutsidePrefix(meta, BodyJson) && EncodesLeaves(leaf)
    ensures var ks := KeysOf(FlatNodes(j, BodyJson));
      var r := Assemble(meta, Some(Attributes(j, BodyJson, leaf)));
      && !r.Ignored?
      && (r.Put? <==> Distinct(ks))
      && (r.Put? ==> r.item == meta + Attributes(j, BodyJson, leaf))
      && (r.Rethrown? ==> exists a, b :: 0 <= a < b < |ks| && ks[a] == r.duplicate && ks[b] == r.duplicate)
  {
    var es := Attributes(j, BodyJson, leaf);
    var ks := KeysOf(es);
    AttributesOfNodes(j, BodyJson, leaf);
    assert ks == KeysOf(FlatNodes(j, BodyJson));
    MergeNeverThrows(meta, es, BodyJson);
    AdmittedAll([], ks);
    AdmittedStops([], ks);
    if !Distinct(ks) {
      var n := Admitted([], ks);
      var a :| 0 <= a < n && ks[..n][a] == ks[n];
      assert ks[a] == ks[n];
    }
  }

  /**
   * The foreach that copies the body's entries into the record, one Add at a
   * time: the first key the record already has makes Add throw, and the
   * entries copied before it stay.
   */
  method MergeInto<V>(target: Dictionary<V>, es: seq<Entry<V>>) returns (thrown: Option<string>)
    requires target.Valid()
    modifies target
    ensures target.Valid()
    ensures var n := Admitted(KeysOf(old(target.Items())), KeysOf(es));
      && target.Items() == old(target.Items()) + es[..n]
      && thrown == if n == |es| then None else Some(es[n].key)
  {
    ghost var start := target.Items();
    var i := 0;
    while i < |es|
      invariant 0 <= i <= |es|
      invariant target.Valid()
      invariant Admitted(KeysOf(start), KeysOf(es[..i])) == i
      invariant target.Items() == start + es[..i]
    {
      var e := es[i];
      var ok := target.Add(e.key, e.value);
      AddStep(start, es, i, target.Items(), ok);
      if !ok {
        return Some(e.key);
      }
      i := i + 1;
    }
    assert es[..i] == es;
    thrown := None;
  }
}
