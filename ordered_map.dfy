/** A JavaScript `Map` as the list of its entries in insertion order.
    `set` on a present key replaces the value where the key already stands;
    on a new key it appends. */
module OrderedMap {
  import opened Wrappers
  import opened Seqs

  function Keys<K, V>(m: seq<(K, V)>): (ks: seq<K>)
    ensures |ks| == |m|
    ensures forall i :: 0 <= i < |m| ==> ks[i] == m[i].0
  {
    seq(|m|, i requires 0 <= i < |m| => m[i].0)
  }

  /** `Array.from(m.values())`. */
  function Values<K, V>(m: seq<(K, V)>): (vs: seq<V>)
    ensures |vs| == |m|
    ensures forall i :: 0 <= i < |m| ==> vs[i] == m[i].1
  {
    seq(|m|, i requires 0 <= i < |m| => m[i].1)
  }

  /** `m.set(k, v)`: a present key keeps its position and takes the new
      value; a new key goes last. */
  function Set<K(==), V>(m: seq<(K, V)>, k: K, v: V): (r: seq<(K, V)>)
    requires Distinct(Keys(m))
    ensures Keys(r) == if k in Keys(m) then Keys(m) else Keys(m) + [k]
    ensures Distinct(Keys(r))
    ensures k !in Keys(m) ==> |r| == |m| + 1 && r[|m|] == (k, v)
    ensures forall i :: 0 <= i < |m| ==> r[i] == (if m[i].0 == k then (k, v) else m[i])
  {
    if k in Keys(m) then
      var r := seq(|m|, i requires 0 <= i < |m| => if m[i].0 == k then (k, v) else m[i]);
      assert Keys(r) == Keys(m);
      r
    else
      var r := m + [(k, v)];
      assert Keys(r) == Keys(m) + [k];
      assert Distinct(Keys(r)) by {
        forall i, j | 0 <= i < j < |r| ensures Keys(r)[i] != Keys(r)[j] {
          if j == |m| {
            assert Keys(r)[i] == Keys(m)[i];
          }
        }
      }
      r
  }

  /** `new Map(entries)`: the entries inserted one after another. */
  function FromEntries<K(==), V>(es: seq<(K, V)>): (m: seq<(K, V)>)
    ensures Distinct(Keys(m))
  {
    if es == [] then [] else Set(FromEntries(es[..|es| - 1]), es[|es| - 1].0, es[|es| - 1].1)
  }

  /** Reference: the value of the last entry carrying key `k`. */
  function LastValue<K(==), V>(es: seq<(K, V)>, k: K): Option<V> {
    if es == [] then None
    else if es[|es| - 1].0 == k then Some(es[|es| - 1].1)
    else LastValue(es[..|es| - 1], k)
  }

  /** A `Map` built from `es` has exactly the keys of `es`. */
  lemma {:induction false} FromEntriesKeys<K, V>(es: seq<(K, V)>)
    ensures forall k :: k in Keys(FromEntries(es)) <==> k in Keys(es)
  {
    if es != [] {
      var init := es[..|es| - 1];
      var e := es[|es| - 1];
      FromEntriesKeys(init);
      assert Keys(es) == Keys(init) + [e.0];
    }
  }

  /** Each key of a `Map` built from `es` holds the value of the key's last entry. */
  lemma {:induction false} FromEntriesLast<K, V>(es: seq<(K, V)>)
    ensures forall i :: 0 <= i < |FromEntries(es)| ==>
              LastValue(es, FromEntries(es)[i].0) == Some(FromEntries(es)[i].1)
  {
    if es != [] {
      var init := es[..|es| - 1];
      var e := es[|es| - 1];
      FromEntriesLast(init);
      var m := FromEntries(init);
      var m' := FromEntries(es);
      forall i | 0 <= i < |m'| ensures LastValue(es, m'[i].0) == Some(m'[i].1) {
        if m'[i].0 != e.0 {
          assert i < |m| && m'[i] == m[i];
        }
      }
    }
  }

  /** `FromEntriesKeys` read position by position, as the order proof
      needs it: every key of the map is a key of some entry. */
  lemma KeysFromEntries<K, V>(es: seq<(K, V)>)
    ensures forall i :: 0 <= i < |FromEntries(es)| ==> FromEntries(es)[i].0 in Keys(es)
  {
    FromEntriesKeys(es);
    var m := FromEntries(es);
    forall i | 0 <= i < |m| ensures m[i].0 in Keys(es) {
      assert Keys(m)[i] == m[i].0;
    }
  }

  /** The keys of a `Map` built from `es` stand in the order in which they
      first appear in `es`. */
  lemma {:induction false} FromEntriesOrder<K, V>(es: seq<(K, V)>)
    ensures forall i :: 0 <= i < |FromEntries(es)| ==> FromEntries(es)[i].0 in Keys(es)
    ensures forall i, j :: 0 <= i < j < |FromEntries(es)| ==>
              IndexOf(Keys(es), FromEntries(es)[i].0) < IndexOf(Keys(es), FromEntries(es)[j].0)
  {
    KeysFromEntries(es);
    if es != [] {
      var init, e := es[..|es| - 1], es[|es| - 1];
      assert es == init + [e];
      FromEntriesOrder(init);
      forall i, j | 0 <= i < j < |FromEntries(init + [e])|
        ensures IndexOf(Keys(init + [e]), FromEntries(init + [e])[i].0)
              < IndexOf(Keys(init + [e]), FromEntries(init + [e])[j].0)
      {
        OrderStep(init, e, i, j);
      }
    }
  }

  /** One insertion keeps the first-appearance order of two keys. */
  lemma OrderStep<K, V>(init: seq<(K, V)>, e: (K, V), i: nat, j: nat)
    requires forall i :: 0 <= i < |FromEntries(init)| ==> FromEntries(init)[i].0 in Keys(init)
    requires forall i, j :: 0 <= i < j < |FromEntries(init)| ==>
               IndexOf(Keys(init), FromEntries(init)[i].0) < IndexOf(Keys(init), FromEntries(init)[j].0)
    requires i < j < |FromEntries(init + [e])|
    ensures FromEntries(init + [e])[i].0 in Keys(init + [e])
    ensures FromEntries(init + [e])[j].0 in Keys(init + [e])
    ensures IndexOf(Keys(init + [e]), FromEntries(init + [e])[i].0)
          < IndexOf(Keys(init + [e]), FromEntries(init + [e])[j].0)
  {
    var es := init + [e];
    assert es[..|es| - 1] == init && es[|es| - 1] == e;
    var m := FromEntries(init);
    var m' := FromEntries(es);
    assert m' == Set(m, e.0, e.1);
    var ks := Keys(es);
    assert ks == Keys(init) + [e.0];
    assert i < |m|;
    assert m'[i].0 == m[i].0 by {
      assert Keys(m')[i] == Keys(m)[i];
    }
    IndexOfAppend(Keys(init), [e.0], m[i].0);
    if j < |m| {
      assert m'[j].0 == m[j].0 by {
        assert Keys(m')[j] == Keys(m)[j];
      }
      IndexOfAppend(Keys(init), [e.0], m[j].0);
    } else {
      FromEntriesKeys(init);
      assert e.0 !in Keys(m) && m'[j].0 == e.0 by {
        assert Keys(m')[j] == e.0;
      }
      assert e.0 !in Keys(init);
      assert ks[|init|] == e.0 && ks[..|init|] == Keys(init);
      assert IndexOf(ks, e.0) == |init|;
    }
  }
}
