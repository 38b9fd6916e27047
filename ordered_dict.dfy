/**
* A Python `dict` with string keys as the language defines it: a finite map whose iteration
 * order is insertion order. It is modelled as a sequence of key/value pairs
 * with pairwise different keys; `Set` is `d[k] = v` (overwrite in place, or
 * append a new key at the end) and `FromPairs` is `dict(pairs)`.
 */
module OrderedDict {
  import opened Wrappers

  predicate Distinct(ks: seq<string>) {
    forall i, j :: 0 <= i < j < |ks| ==> ks[i] != ks[j]
  }

  predicate UniqueKeys<V>(d: seq<(string, V)>) {
    Distinct(Keys(d))
  }

  /** The keys in iteration order. */
  function Keys<V>(d: seq<(string, V)>): (ks: seq<string>)
    ensures |ks| == |d|
    ensures forall i :: 0 <= i < |d| ==> ks[i] == d[i].0
  {
    seq(|d|, i requires 0 <= i < |d| => d[i].0)
  }

  /** `d.get(k)`: the value of the first pair with key `k`. */
  function Get<V>(d: seq<(string, V)>, k: string): (r: Option<V>)
    ensures r.None? <==> k !in Keys(d)
    ensures r.Some? ==> (k, r.value) in d
  {
    if d == [] then None
    else if d[0].0 == k then Some(d[0].1)
    else Get(d[1..], k)
  }

  /** With unique keys, `d.get(k)` is the value paired with `k`. */
  lemma GetUnique<V>(d: seq<(string, V)>, i: nat)
    requires UniqueKeys(d) && i < |d|
    ensures Get(d, d[i].0) == Some(d[i].1)
  {
    if i > 0 {
      assert Keys(d)[0] != Keys(d)[i];
      assert UniqueKeys(d[1..]) by {
        forall a, b | 0 <= a < b < |d| - 1 ensures Keys(d[1..])[a] != Keys(d[1..])[b] {
          assert Keys(d)[a + 1] != Keys(d)[b + 1];
        }
      }
      GetUnique(d[1..], i - 1);
    }
  }

  /** The pairs after `d[k] = v`, before anything is proved about them. */
  function Put<V>(d: seq<(string, V)>, k: string, v: V): seq<(string, V)> {
    if d == [] then [(k, v)]
    else if d[0].0 == k then [(k, v)] + d[1..]
    else [d[0]] + Put(d[1..], k, v)
  }

  lemma {:induction false} PutGet<V>(d: seq<(string, V)>, k: string, v: V)
    ensures Get(Put(d, k, v), k) == Some(v)
    ensures forall k' :: k' != k ==> Get(Put(d, k, v), k') == Get(d, k')
  {
    if d != [] && d[0].0 != k {
      PutGet(d[1..], k, v);
      assert Put(d, k, v)[1..] == Put(d[1..], k, v);
    } else if d != [] {
      assert Put(d, k, v)[1..] == d[1..];
    }
  }

  lemma {:induction false} PutExisting<V>(d: seq<(string, V)>, k: string, v: V)
    requires k in Keys(d)
    ensures |Put(d, k, v)| == |d|
    ensures forall i :: 0 <= i < |d| ==> Put(d, k, v)[i].0 == d[i].0
  {
    if d[0].0 != k {
      assert k in Keys(d[1..]) by {
        var j :| 0 <= j < |d| && Keys(d)[j] == k;
        assert Keys(d[1..])[j - 1] == k;
      }
      PutExisting(d[1..], k, v);
    }
  }

  lemma {:induction false} PutNew<V>(d: seq<(string, V)>, k: string, v: V)
    requires k !in Keys(d)
    ensures Put(d, k, v) == d + [(k, v)]
  {
    if d != [] {
      assert k != Keys(d)[0];
      assert k !in Keys(d[1..]) by {
        forall j | 0 <= j < |d| - 1 ensures Keys(d[1..])[j] != k {
          assert Keys(d)[j + 1] != k;
        }
      }
      PutNew(d[1..], k, v);
      assert [d[0]] + (d[1..] + [(k, v)]) == d + [(k, v)];
    }
  }

  /** `d[k] = v`: an existing key keeps its position, a new key goes last. */
  function Set<V>(d: seq<(string, V)>, k: string, v: V): (r: seq<(string, V)>)
    ensures k in Keys(d) ==> Keys(r) == Keys(d)
    ensures k !in Keys(d) ==> Keys(r) == Keys(d) + [k]
    ensures Get(r, k) == Some(v)
    ensures forall k' :: k' != k ==> Get(r, k') == Get(d, k')
  {
    PutGet(d, k, v);
    if k in Keys(d) then
      PutExisting(d, k, v);
      Put(d, k, v)
    else
      PutNew(d, k, v);
      assert Keys(d + [(k, v)]) == Keys(d) + [k];
      Put(d, k, v)
  }

  /** Assigning to a key never creates a duplicate key. */
  lemma SetKeepsUnique<V>(d: seq<(string, V)>, k: string, v: V)
    requires UniqueKeys(d)
    ensures UniqueKeys(Set(d, k, v))
  {
    var ks, ks' := Keys(d), Keys(Set(d, k, v));
    if k !in ks {
      forall i, j | 0 <= i < j < |ks'| ensures ks'[i] != ks'[j] {
        if j == |ks| { assert ks'[i] == ks[i]; }
      }
    }
  }

  /** `dict(pairs)`: later pairs overwrite earlier values, keys stay where first seen. */
  function FromPairs<V>(ps: seq<(string, V)>): (r: seq<(string, V)>)
    ensures UniqueKeys(r)
    decreases |ps|
  {
    if ps == [] then []
    else
      var last := ps[|ps| - 1];
      SetKeepsUnique(FromPairs(ps[..|ps| - 1]), last.0, last.1);
      Set(FromPairs(ps[..|ps| - 1]), last.0, last.1)
  }

  /** With keys all different, `dict(pairs)` keeps them in the order given. */
  lemma {:induction false} FromPairsKeysDistinct<V>(ps: seq<(string, V)>)
    requires Distinct(Keys(ps))
    ensures Keys(FromPairs(ps)) == Keys(ps)
    decreases |ps|
  {
    if ps != [] {
      var init, last := ps[..|ps| - 1], ps[|ps| - 1];
      assert Keys(ps) == Keys(init) + [last.0];
      assert Distinct(Keys(init)) by {
        forall i, j | 0 <= i < j < |init| ensures Keys(init)[i] != Keys(init)[j] {
          assert Keys(ps)[i] != Keys(ps)[j];
        }
      }
      FromPairsKeysDistinct(init);
      assert last.0 !in Keys(init) by {
        forall i | 0 <= i < |init| ensures Keys(init)[i] != last.0 {
          assert Keys(ps)[i] != Keys(ps)[|ps| - 1];
        }
      }
    }
  }

  /** The value of the last pair in `ps` whose key is `k`. */
  function LastValue<V>(ps: seq<(string, V)>, k: string): Option<V>
    decreases |ps|
  {
    if ps == [] then None
    else if ps[|ps| - 1].0 == k then Some(ps[|ps| - 1].1)
    else LastValue(ps[..|ps| - 1], k)
  }

  /** Looking a key up in `dict(pairs)` finds the last value given for it, or nothing. */
  lemma {:induction false} FromPairsGet<V>(ps: seq<(string, V)>, k: string)
    ensures Get(FromPairs(ps), k) == LastValue(ps, k)
    decreases |ps|
  {
    if ps != [] {
      FromPairsGet(ps[..|ps| - 1], k);
    }
  }

  /** Every pair after an assignment is the assigned one or was there before. */
  lemma {:induction false} SetPairs<V>(d: seq<(string, V)>, k: string, v: V)
    ensures forall x :: x in Set(d, k, v) ==> x == (k, v) || x in d
  {
    if d != [] && d[0].0 != k {
      SetPairs(d[1..], k, v);
      assert Set(d, k, v) == [d[0]] + Set(d[1..], k, v);
    }
  }

  /** `dict(pairs)` holds only pairs that were given. */
  lemma {:induction false} FromPairsSubset<V>(ps: seq<(string, V)>)
    ensures forall x :: x in FromPairs(ps) ==> x in ps
    decreases |ps|
  {
    if ps != [] {
      var init := ps[..|ps| - 1];
      FromPairsSubset(init);
      SetPairs(FromPairs(init), ps[|ps| - 1].0, ps[|ps| - 1].1);
      assert forall x :: x in init ==> x in ps;
    }
  }

  /** The first key given to `dict(pairs)` is the first key of the result. */
  lemma {:induction false} FromPairsFirst<V>(ps: seq<(string, V)>)
    requires ps != []
    ensures FromPairs(ps) != [] && FromPairs(ps)[0].0 == ps[0].0
    decreases |ps|
  {
    var init := ps[..|ps| - 1];
    if init != [] {
      FromPairsFirst(init);
      assert Keys(FromPairs(init))[0] == ps[0].0;
    }
  }

  /** A key has a last value exactly when some pair carries it. */
  lemma {:induction false} LastValueSome<V>(ps: seq<(string, V)>, k: string)
    ensures LastValue(ps, k).Some? <==> k in Keys(ps)
    decreases |ps|
  {
    if ps != [] {
      var init := ps[..|ps| - 1];
      LastValueSome(init, k);
      assert Keys(ps) == Keys(init) + [ps[|ps| - 1].0];
    }
  }

  /** `dict(pairs)` has exactly the keys that some pair carries. */
  lemma FromPairsKeys<V>(ps: seq<(string, V)>)
    ensures forall k :: k in Keys(FromPairs(ps)) <==> k in Keys(ps)
  {
    forall k ensures k in Keys(FromPairs(ps)) <==> k in Keys(ps) {
      FromPairsGet(ps, k);
      LastValueSome(ps, k);
    }
  }

  /** The dictionary as a mathematical map (what Python's `==` on dicts compares). */
  function AsMap<V>(d: seq<(string, V)>): (m: map<string, V>)
    ensures forall k :: k in m <==> k in Keys(d)
    ensures forall k :: k in m ==> Get(d, k) == Some(m[k])
  {
    if d == [] then map[]
    else
      assert Keys(d) == [d[0].0] + Keys(d[1..]);
      AsMap(d[1..])[d[0].0 := d[0].1]
  }

  /** With unique keys, a pair is in the dictionary exactly when the map agrees with it. */
  lemma AsMapMembers<V>(d: seq<(string, V)>, x: (string, V))
    requires UniqueKeys(d)
    ensures x in d <==> x.0 in AsMap(d) && AsMap(d)[x.0] == x.1
  {
    if x.0 in AsMap(d) && AsMap(d)[x.0] == x.1 {
      var i :| 0 <= i < |d| && d[i] == (x.0, Get(d, x.0).value);
      assert d[i] == x;
    }
    if x in d {
      var i :| 0 <= i < |d| && d[i] == x;
      assert Keys(d)[i] == x.0;
    }
  }
}
