/** Dictionary updates in order, `dict[key] = value` one pair after another,
    as the loaders do when they fill their translation tables. */
module Upserts {
  /** `m` after setting each pair of `ps`, first to last. */
  function Upsert<K, V>(m: map<K, V>, ps: seq<(K, V)>): (r: map<K, V>)
    decreases |ps|
  {
    if ps == [] then m else Upsert(m, ps[..|ps| - 1])[ps[|ps| - 1].0 := ps[|ps| - 1].1]
  }

  /** Setting one more pair. */
  lemma UpsertSnoc<K, V>(m: map<K, V>, ps: seq<(K, V)>, p: (K, V))
    ensures Upsert(m, ps + [p]) == Upsert(m, ps)[p.0 := p.1]
  {
    assert (ps + [p])[..|ps|] == ps;
  }

  /** Setting two runs of pairs is setting their concatenation. */
  lemma {:induction false} UpsertAppend<K, V>(m: map<K, V>, ps: seq<(K, V)>, qs: seq<(K, V)>)
    ensures Upsert(m, ps + qs) == Upsert(Upsert(m, ps), qs)
    decreases |qs|
  {
    if qs == [] {
      assert ps + qs == ps;
    } else {
      var init := qs[..|qs| - 1];
      assert (ps + qs)[..|ps + qs| - 1] == ps + init;
      UpsertAppend(m, ps, init);
    }
  }

  /** The keys afterwards are the old keys and the keys of the pairs. */
  lemma {:induction false} UpsertKeys<K, V>(m: map<K, V>, ps: seq<(K, V)>, k: K)
    ensures k in Upsert(m, ps) <==> k in m || exists j :: 0 <= j < |ps| && ps[j].0 == k
    decreases |ps|
  {
    if ps != [] {
      var init := ps[..|ps| - 1];
      UpsertKeys(m, init, k);
      if exists j :: 0 <= j < |init| && init[j].0 == k {
        var j :| 0 <= j < |init| && init[j].0 == k;
        assert ps[j].0 == k;
      }
      if exists j :: 0 <= j < |ps| && ps[j].0 == k {
        var j :| 0 <= j < |ps| && ps[j].0 == k;
        if j < |init| {
          assert init[j].0 == k;
        }
      }
    }
  }

  /** A key that no pair names keeps its presence and its value. */
  lemma {:induction false} UpsertUntouched<K, V>(m: map<K, V>, ps: seq<(K, V)>, k: K)
    requires forall j :: 0 <= j < |ps| ==> ps[j].0 != k
    ensures k in Upsert(m, ps) <==> k in m
    ensures k in m ==> Upsert(m, ps)[k] == m[k]
    decreases |ps|
  {
    if ps != [] {
      UpsertUntouched(m, ps[..|ps| - 1], k);
    }
  }

  /** The last pair naming a key decides its value. */
  lemma {:induction false} UpsertLastWins<K, V>(m: map<K, V>, ps: seq<(K, V)>, i: int)
    requires 0 <= i < |ps|
    requires forall j :: i < j < |ps| ==> ps[j].0 != ps[i].0
    ensures ps[i].0 in Upsert(m, ps) && Upsert(m, ps)[ps[i].0] == ps[i].1
    decreases |ps|
  {
    if i < |ps| - 1 {
      var init := ps[..|ps| - 1];
      assert init[i] == ps[i];
      UpsertLastWins(m, init, i);
    }
  }

  /** A property of all old values and all new values holds of every value
      afterwards. */
  lemma {:induction false} UpsertValues<K, V>(m: map<K, V>, ps: seq<(K, V)>, P: V -> bool)
    requires forall k :: k in m ==> P(m[k])
    requires forall j :: 0 <= j < |ps| ==> P(ps[j].1)
    ensures forall k :: k in Upsert(m, ps) ==> P(Upsert(m, ps)[k])
    decreases |ps|
  {
    if ps != [] {
      UpsertValues(m, ps[..|ps| - 1], P);
    }
  }

  /** Each item paired with its key, in order: what a loop doing
      `cache[key(item)] = item` over the items sets. */
  function KeyedBy<K, V>(items: seq<V>, key: V -> K): (r: seq<(K, V)>)
    ensures |r| == |items|
    ensures forall i :: 0 <= i < |items| ==> r[i] == (key(items[i]), items[i])
  {
    seq(|items|, i requires 0 <= i < |items| => (key(items[i]), items[i]))
  }

  /** One more item. */
  lemma KeyedBySnoc<K, V>(items: seq<V>, i: int, key: V -> K)
    requires 0 <= i < |items|
    ensures KeyedBy(items[..i + 1], key) == KeyedBy(items[..i], key) + [(key(items[i]), items[i])]
  {
  }

  /** A table `m` filled from `items` by `key` afterwards has its old keys
      and the keys of the items, and each key of an item holds the last item
      that has it. */
  lemma KeyedLookup<K, V>(m: map<K, V>, items: seq<V>, key: V -> K, k: K)
    ensures k in Upsert(m, KeyedBy(items, key)) <==> k in m || exists i :: 0 <= i < |items| && key(items[i]) == k
    ensures forall i :: (0 <= i < |items| && key(items[i]) == k
                         && (forall j :: i < j < |items| ==> key(items[j]) != k))
                         ==> Upsert(m, KeyedBy(items, key))[k] == items[i]
  {
    var ps := KeyedBy(items, key);
    UpsertKeys(m, ps, k);
    assert (exists j :: 0 <= j < |ps| && ps[j].0 == k) <==> exists i :: 0 <= i < |items| && key(items[i]) == k by {
      if exists j :: 0 <= j < |ps| && ps[j].0 == k {
        var j :| 0 <= j < |ps| && ps[j].0 == k;
        assert key(items[j]) == k;
      }
      if exists i :: 0 <= i < |items| && key(items[i]) == k {
        var i :| 0 <= i < |items| && key(items[i]) == k;
        assert ps[i].0 == k;
      }
    }
    forall i | 0 <= i < |items| && key(items[i]) == k && (forall j :: i < j < |items| ==> key(items[j]) != k)
      ensures Upsert(m, ps)[k] == items[i]
    {
      forall j | i < j < |ps| ensures ps[j].0 != ps[i].0 {
        assert key(items[j]) != k;
      }
      UpsertLastWins(m, ps, i);
    }
  }
}
