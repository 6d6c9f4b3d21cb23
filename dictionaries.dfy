/**
 * The string-keyed Dictionary the services fill with Add, in the order its
 * entries enumerate (insertion order, since nothing is ever removed).
 */
module Dictionaries {

  datatype Entry<V> = Entry(key: string, value: V)

  function KeysOf<V>(es: seq<Entry<V>>): (ks: seq<string>)
    ensures |ks| == |es|
    ensures forall i :: 0 <= i < |es| ==> ks[i] == es[i].key
  {
    seq(|es|, i requires 0 <= i < |es| => es[i].key)
  }

  predicate Distinct(ks: seq<string>) {
    forall i, j :: 0 <= i < j < |ks| ==> ks[i] != ks[j]
  }

  /**
   * How many of the keys `ks`, added one after another with Add to a
   * dictionary that already holds `present`, go in before the first Add that
   * throws because its key is already there. All of them go in exactly when
   * the result is |ks|.
   */
  function Admitted(present: seq<string>, ks: seq<string>): (n: nat)
    ensures n <= |ks|
    decreases ks
  {
    if ks == [] || ks[0] in present then 0 else 1 + Admitted(present + [ks[0]], ks[1..])
  }

  /** Adding a run of keys succeeds exactly when they are distinct and none is present yet. */
  lemma {:induction false} AdmittedAll(present: seq<string>, ks: seq<string>)
    ensures Admitted(present, ks) == |ks| <==>
      Distinct(ks) && forall i :: 0 <= i < |ks| ==> ks[i] !in present
    decreases ks
  {
    if ks != [] {
      AdmittedAll(present + [ks[0]], ks[1..]);
      if Admitted(present, ks) == |ks| {
        forall i, j | 0 <= i < j < |ks| ensures ks[i] != ks[j] {
          if i > 0 {
            assert ks[i] == ks[1..][i - 1] && ks[j] == ks[1..][j - 1];
          } else {
            assert ks[j] == ks[1..][j - 1];
          }
        }
      }
      if Distinct(ks) && forall i :: 0 <= i < |ks| ==> ks[i] !in present {
        forall i | 0 <= i < |ks[1..]| ensures ks[1..][i] !in present + [ks[0]] {
          assert ks[1..][i] == ks[i + 1];
        }
      }
    }
  }

  /** Where the first failing Add of a concatenation falls, in terms of its two parts. */
  lemma {:induction false} AdmittedAppend(present: seq<string>, a: seq<string>, b: seq<string>)
    ensures Admitted(present, a + b) ==
      if Admitted(present, a) < |a| then Admitted(present, a) else |a| + Admitted(present + a, b)
    decreases a
  {
    if a != [] {
      assert (a + b)[0] == a[0] && (a + b)[1..] == a[1..] + b;
      if a[0] !in present {
        AdmittedAppend(present + [a[0]], a[1..], b);
        assert present + [a[0]] + a[1..] == present + a;
      }
    } else {
      assert a + b == b && present + a == present;
    }
  }

  /** The Add that throws has a key that is present already or was added earlier in the run. */
  lemma {:induction false} AdmittedStops(present: seq<string>, ks: seq<string>)
    ensures var n := Admitted(present, ks);
      n < |ks| ==> ks[n] in present + ks[..n]
    decreases ks
  {
    if ks != [] && ks[0] !in present {
      AdmittedStops(present + [ks[0]], ks[1..]);
      var n := Admitted(present, ks);
      if n < |ks| {
        assert ks[1..][n - 1] == ks[n];
        assert present + [ks[0]] + ks[1..][..n - 1] == present + ks[..n];
      }
    }
  }

  lemma DistinctConcat(a: seq<string>, b: seq<string>)
    requires Distinct(a) && Distinct(b)
    requires forall x :: x in a ==> x !in b
    ensures Distinct(a + b)
  {
    forall i, j | 0 <= i < j < |a + b| ensures (a + b)[i] != (a + b)[j] {
      if j >= |a| && i < |a| {
        assert (a + b)[i] in a && (a + b)[j] == b[j - |a|];
      } else if i >= |a| {
        assert (a + b)[i] == b[i - |a|] && (a + b)[j] == b[j - |a|];
      }
    }
  }

  lemma KeysOfConcat<V>(a: seq<Entry<V>>, b: seq<Entry<V>>)
    ensures KeysOf(a + b) == KeysOf(a) + KeysOf(b)
  {
  }

  /** Keys already present that the run never mentions do not change where it fails. */
  lemma {:induction false} AdmittedIgnores(present: seq<string>, other: seq<string>, ks: seq<string>)
    requires forall i, l :: 0 <= i < |ks| && 0 <= l < |other| ==> ks[i] != other[l]
    ensures Admitted(other + present, ks) == Admitted(present, ks)
    decreases ks
  {
    if ks != [] {
      if ks[0] !in present {
        AdmittedIgnores(present + [ks[0]], other, ks[1..]);
        assert other + present + [ks[0]] == other + (present + [ks[0]]);
      }
    }
  }

  /**
   * Adding `done`, then `added`, then `rest` after `present`, when all of
   * `done` goes in: where the run stops is decided by `added` alone, unless
   * all of `added` goes in too.
   */
  lemma AdmittedStep<V>(present: seq<string>, done: seq<Entry<V>>, added: seq<Entry<V>>, rest: seq<Entry<V>>)
    requires Admitted(present, KeysOf(done)) == |done|
    ensures var n := Admitted(present + KeysOf(done), KeysOf(added));
      && Admitted(present, KeysOf(done + added)) == |done| + n
      && (n < |added| ==>
            var total := done + added + rest;
            && Admitted(present, KeysOf(total)) == |done| + n
            && total[..|done| + n] == done + added[..n]
            && total[|done| + n] == added[n])
  {
    var n := Admitted(present + KeysOf(done), KeysOf(added));
    KeysOfConcat(done, added);
    AdmittedAppend(present, KeysOf(done), KeysOf(added));
    if n < |added| {
      KeysOfConcat(done + added, rest);
      AdmittedAppend(present, KeysOf(done + added), KeysOf(rest));
      var total := done + added + rest;
      assert total[..|done| + n] == done + added[..n];
    }
  }

  /**
   * One run of Adds inside a longer one: `start` is there, `done` went in
   * whole, and `added` went in up to `n`. Either all of `added` went in, or the
   * whole run `done + added + rest` stops at the same key.
   */
  lemma RunStep<V>(start: seq<Entry<V>>, done: seq<Entry<V>>, added: seq<Entry<V>>, rest: seq<Entry<V>>,
                   items: seq<Entry<V>>, n: nat)
    requires Admitted(KeysOf(start), KeysOf(done)) == |done|
    requires n == Admitted(KeysOf(start + done), KeysOf(added))
    requires items == start + done + added[..n]
    ensures n == |added| ==>
      Admitted(KeysOf(start), KeysOf(done + added)) == |done + added| && items == start + (done + added)
    ensures n < |added| ==>
      var all := done + added + rest;
      var total := Admitted(KeysOf(start), KeysOf(all));
      total < |all| && items == start + all[..total] && all[total] == added[n]
  {
    KeysOfConcat(start, done);
    AdmittedStep(KeysOf(start), done, added, rest);
    if n == |added| {
      assert added[..n] == added;
    }
  }

  /** One Add of the run `es` after `start`, when the first `i` went in. */
  lemma AddStep<V>(start: seq<Entry<V>>, es: seq<Entry<V>>, i: nat, items: seq<Entry<V>>, ok: bool)
    requires i < |es|
    requires Admitted(KeysOf(start), KeysOf(es[..i])) == i
    requires ok == (es[i].key !in KeysOf(start + es[..i]))
    requires items == if ok then start + es[..i] + [es[i]] else start + es[..i]
    ensures ok ==> Admitted(KeysOf(start), KeysOf(es[..i + 1])) == i + 1 && items == start + es[..i + 1]
    ensures !ok ==> Admitted(KeysOf(start), KeysOf(es)) == i && items == start + es[..i]
  {
    var e := es[i];
    AdmittedOne(KeysOf(start + es[..i]), e);
    RunStep(start, es[..i], [e], es[i + 1..], items, if ok then 1 else 0);
    assert es[..i] + [e] == es[..i + 1];
    assert es[..i] + [e] + es[i + 1..] == es;
  }

  /** In a run of distinct keys, each key is new when its turn comes. */
  lemma FreshKey<V>(es: seq<Entry<V>>, i: nat)
    requires Distinct(KeysOf(es)) && i < |es|
    ensures es[i].key !in KeysOf(es[..i])
    ensures es[..i] + [es[i]] == es[..i + 1]
  {
  }

  /** A single Add goes in exactly when its key is not present yet. */
  lemma AdmittedOne<V>(present: seq<string>, e: Entry<V>)
    ensures KeysOf([e]) == [e.key]
    ensures Admitted(present, KeysOf([e])) == if e.key in present then 0 else 1
  {
    assert KeysOf([e]) == [e.key];
  }

  /** A .NET Dictionary<string, V>: its keys in insertion order and the value under each. */
  class Dictionary<V> {
    var keys: seq<string>
    var values: map<string, V>

    ghost predicate Valid()
      reads this
    {
      Distinct(keys) && values.Keys == set k | k in keys
    }

    /** The entries in the order foreach enumerates them. */
    function Items(): (es: seq<Entry<V>>)
      requires Valid()
      reads this
      ensures KeysOf(es) == keys
    {
      seq(|keys|, i requires 0 <= i < |keys| && keys[i] in values reads this => Entry(keys[i], values[keys[i]]))
    }

    constructor ()
      ensures Valid() && Items() == []
    {
      keys, values := [], map[];
    }

    /** Dictionary.Add: a key already present makes it throw (ok == false) and change nothing. */
    method Add(key: string, value: V) returns (ok: bool)
      requires Valid()
      modifies this
      ensures Valid()
      ensures ok == (key !in KeysOf(old(Items())))
      ensures Items() == if ok then old(Items()) + [Entry(key, value)] else old(Items())
    {
      ok := key !in values;
      if ok {
        keys, values := keys + [key], values[key := value];
        assert Items() == old(Items()) + [Entry(key, value)];
      }
    }
  }
}
