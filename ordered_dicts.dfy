/** Python's `OrderedDict` as the sequence of its items in insertion order,
    together with the builtin `zip` that feeds it. */
module OrderedDicts {
  import opened Wrappers

  /** The keys of an ordered dictionary, in order. */
  function Keys<V>(d: seq<(string, V)>): (ks: seq<string>)
    ensures |ks| == |d|
    ensures forall i :: 0 <= i < |d| ==> ks[i] == d[i].0
  {
    if d == [] then [] else [d[0].0] + Keys(d[1..])
  }

  predicate DistinctKeys<V>(d: seq<(string, V)>)
  {
    forall i, j :: 0 <= i < j < |d| ==> d[i].0 != d[j].0
  }

  /** `d.get(k)`: the value stored under `k`, if any. */
  function Get<V>(d: seq<(string, V)>, k: string): Option<V>
  {
    if d == [] then None
    else if d[0].0 == k then Some(d[0].1)
    else Get(d[1..], k)
  }

  /** `d[k] = v`: an existing key keeps its position and takes the new value;
      a new key is appended. */
  function Put<V>(d: seq<(string, V)>, k: string, v: V): seq<(string, V)>
  {
    if d == [] then [(k, v)]
    else if d[0].0 == k then [(k, v)] + d[1..]
    else [d[0]] + Put(d[1..], k, v)
  }

  /** Assignment keeps the key order, appending a key that is new. */
  lemma {:induction false} PutKeys<V>(d: seq<(string, V)>, k: string, v: V)
    ensures Keys(Put(d, k, v)) == if k in Keys(d) then Keys(d) else Keys(d) + [k]
  {
    if d != [] {
      assert Keys(d[1..]) == Keys(d)[1..];
      if d[0].0 == k {
        assert Keys(Put(d, k, v)) == [k] + Keys(d[1..]);
      } else {
        PutKeys(d[1..], k, v);
        assert Keys(Put(d, k, v)) == [d[0].0] + Keys(Put(d[1..], k, v));
      }
    }
  }

  /** After assignment the key holds the new value and every other key keeps
      its value. */
  lemma {:induction false} PutGet<V>(d: seq<(string, V)>, k: string, v: V, k': string)
    ensures Get(Put(d, k, v), k') == if k' == k then Some(v) else Get(d, k')
  {
    if d != [] && d[0].0 != k {
      PutGet(d[1..], k, v, k');
    }
  }

  /** Assignment keeps the keys distinct. */
  lemma PutDistinct<V>(d: seq<(string, V)>, k: string, v: V)
    requires DistinctKeys(d)
    ensures DistinctKeys(Put(d, k, v))
  {
    var d' := Put(d, k, v);
    PutKeys(d, k, v);
    forall i, j | 0 <= i < j < |d'| ensures d'[i].0 != d'[j].0 {
      assert Keys(d')[i] == d'[i].0 && Keys(d')[j] == d'[j].0;
      if j < |d| { assert Keys(d)[i] != Keys(d)[j]; }
    }
  }

  /** The value carried by the last pair whose key is `k`, if any. */
  function LastValue<V>(ps: seq<(string, V)>, k: string): Option<V>
  {
    if ps == [] then None
    else if ps[|ps| - 1].0 == k then Some(ps[|ps| - 1].1)
    else LastValue(ps[..|ps| - 1], k)
  }

  /** `OrderedDict(pairs)`: the pairs inserted one after the other. */
  function FromPairs<V>(ps: seq<(string, V)>): seq<(string, V)>
  {
    if ps == [] then []
    else
      var n := |ps| - 1;
      Put(FromPairs(ps[..n]), ps[n].0, ps[n].1)
  }

  /** A dictionary built from pairs has distinct keys, no more entries than
      pairs, and holds under each key the value of the last pair carrying it. */
  lemma {:induction false} FromPairsSpec<V>(ps: seq<(string, V)>)
    ensures DistinctKeys(FromPairs(ps))
    ensures |FromPairs(ps)| <= |ps|
    ensures forall k :: Get(FromPairs(ps), k) == LastValue(ps, k)
  {
    if ps != [] {
      var n := |ps| - 1;
      var prefix := FromPairs(ps[..n]);
      FromPairsSpec(ps[..n]);
      PutDistinct(prefix, ps[n].0, ps[n].1);
      PutKeys(prefix, ps[n].0, ps[n].1);
      forall k ensures Get(FromPairs(ps), k) == LastValue(ps, k) {
        PutGet(prefix, ps[n].0, ps[n].1, k);
      }
    }
  }

  /** Inserting a key that is not yet present appends it. */
  lemma {:induction false} PutNew<V>(d: seq<(string, V)>, k: string, v: V)
    requires k !in Keys(d)
    ensures Put(d, k, v) == d + [(k, v)]
  {
    if d != [] {
      assert Keys(d[1..]) == Keys(d)[1..];
      PutNew(d[1..], k, v);
      assert d == [d[0]] + d[1..];
    }
  }

  /** With distinct keys nothing is overwritten: the dictionary holds exactly
      the given pairs, in the given order. */
  lemma {:induction false} FromPairsOfDistinct<V>(ps: seq<(string, V)>)
    requires DistinctKeys(ps)
    ensures FromPairs(ps) == ps
  {
    if ps != [] {
      var n := |ps| - 1;
      DistinctSplit(ps);
      FromPairsOfDistinct(ps[..n]);
      PutNew(ps[..n], ps[n].0, ps[n].1);
      assert ps[..n] + [(ps[n].0, ps[n].1)] == ps;
    }
  }

  /** Removing the last pair keeps the keys distinct, and that pair's key
      is not among the others. */
  lemma DistinctSplit<V>(ps: seq<(string, V)>)
    requires DistinctKeys(ps) && ps != []
    ensures DistinctKeys(ps[..|ps| - 1])
    ensures ps[|ps| - 1].0 !in Keys(ps[..|ps| - 1])
  {
    var n := |ps| - 1;
    forall i | 0 <= i < n ensures Keys(ps[..n])[i] != ps[n].0 {
      assert ps[i].0 != ps[n].0;
    }
  }

  /** Builtin `zip(a, b)`: pairs up positions, stopping at the shorter input. */
  function Zip<A, B>(a: seq<A>, b: seq<B>): seq<(A, B)>
  {
    if a == [] || b == [] then [] else [(a[0], b[0])] + Zip(a[1..], b[1..])
  }

  /** `zip` has the length of its shorter input and pairs equal positions. */
  lemma {:induction false} ZipPairs<A, B>(a: seq<A>, b: seq<B>)
    ensures |Zip(a, b)| == if |a| <= |b| then |a| else |b|
    ensures forall i :: 0 <= i < |Zip(a, b)| ==> Zip(a, b)[i] == (a[i], b[i])
  {
    if a != [] && b != [] {
      ZipPairs(a[1..], b[1..]);
    }
  }
}
