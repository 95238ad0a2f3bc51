/** Python dictionaries with string keys, as the target descriptor code
    uses them: the entries in insertion order. Assigning to a key already
    present replaces its value in place; assigning to a new key appends. */
module Dicts {
  import opened Wrappers

  type Dict<V> = seq<(string, V)>

  /** The keys in insertion order (`list(d.keys())`). */
  function Keys<V>(d: Dict<V>): (ks: seq<string>)
    ensures |ks| == |d|
    ensures forall i :: 0 <= i < |d| ==> ks[i] == d[i].0
  {
    seq(|d|, i requires 0 <= i < |d| => d[i].0)
  }

  /** The values in insertion order (`list(d.values())`). */
  function ValuesOf<V>(d: Dict<V>): (vs: seq<V>)
    ensures |vs| == |d|
    ensures forall i :: 0 <= i < |d| ==> vs[i] == d[i].1
  {
    seq(|d|, i requires 0 <= i < |d| => d[i].1)
  }

  /** No key occurs twice: what every dictionary satisfies. */
  ghost predicate Distinct(ks: seq<string>) {
    forall i, j :: 0 <= i < j < |ks| ==> ks[i] != ks[j]
  }

  /** The keys of a dictionary with one more entry at the end. */
  lemma KeysSnoc<V>(d: Dict<V>)
    requires |d| > 0
    ensures d == d[..|d| - 1] + [d[|d| - 1]]
    ensures Keys(d) == Keys(d[..|d| - 1]) + [d[|d| - 1].0]
  {
    assert d == d[..|d| - 1] + [d[|d| - 1]];
  }

  lemma KeysAppend<V>(a: Dict<V>, b: Dict<V>)
    ensures Keys(a + b) == Keys(a) + Keys(b)
  {
  }

  /** Keys are distinct exactly when those before the last are, and the
      last is new. */
  lemma DistinctSnoc(ks: seq<string>)
    requires |ks| > 0
    ensures Distinct(ks) <==> Distinct(ks[..|ks| - 1]) && ks[|ks| - 1] !in ks[..|ks| - 1]
  {
    var pre := ks[..|ks| - 1];
    if Distinct(pre) && ks[|ks| - 1] !in pre {
      forall i, j | 0 <= i < j < |ks|
        ensures ks[i] != ks[j]
      {
        assert ks[i] == pre[i];
        if j < |pre| {
          assert ks[j] == pre[j];
        }
      }
    }
    if Distinct(ks) {
      assert forall i :: 0 <= i < |pre| ==> pre[i] == ks[i];
    }
  }

  /** A dictionary without its last entry is still one, and does not hold
      that entry's key. */
  lemma DistinctInit<V>(d: Dict<V>)
    requires Distinct(Keys(d)) && |d| > 0
    ensures Distinct(Keys(d[..|d| - 1])) && d[|d| - 1].0 !in Keys(d[..|d| - 1])
  {
    KeysSnoc(d);
    DistinctSnoc(Keys(d));
    assert Keys(d)[..|d| - 1] == Keys(d[..|d| - 1]);
  }

  /** Position of the entry for `k`. */
  function Find<V>(d: Dict<V>, k: string): (r: Option<nat>)
    ensures r.Some? ==> r.value < |d| && d[r.value].0 == k
    ensures r.Some? ==> forall j :: 0 <= j < r.value ==> d[j].0 != k
    ensures r.None? <==> k !in Keys(d)
  {
    if |d| == 0 then None
    else if d[0].0 == k then Some(0)
    else match Find(d[1..], k)
      case None => None
      case Some(i) => Some(i + 1)
  }

  /** `k in d`. */
  predicate HasKey<V>(d: Dict<V>, k: string) {
    Find(d, k).Some?
  }

  /** `d.get(k)`. */
  function Get<V>(d: Dict<V>, k: string): (r: Option<V>)
    ensures r.Some? <==> HasKey(d, k)
  {
    match Find(d, k)
    case None => None
    case Some(i) => Some(d[i].1)
  }

  /** The entry found for a key is its first occurrence. */
  lemma {:induction false} FindFirstOccurrence<V>(d: Dict<V>, i: nat)
    requires i < |d| && forall a :: 0 <= a < i ==> d[a].0 != d[i].0
    ensures Find(d, d[i].0) == Some(i)
  {
    if i > 0 {
      assert d[0].0 != d[i].0;
      assert d[1..][i - 1] == d[i];
      assert forall a :: 0 <= a < i - 1 ==> d[1..][a] == d[a + 1];
      FindFirstOccurrence(d[1..], i - 1);
    }
  }

  /** With distinct keys, no entry before position `i` shares its key. */
  lemma DistinctBefore<V>(d: Dict<V>, i: nat)
    requires Distinct(Keys(d)) && i < |d|
    ensures forall a :: 0 <= a < i ==> d[a].0 != d[i].0
  {
    forall a | 0 <= a < i
      ensures d[a].0 != d[i].0
    {
      assert Keys(d)[a] != Keys(d)[i];
    }
  }

  /** In a dictionary, the entry at position `i` is the one found for its key. */
  lemma FindAt<V>(d: Dict<V>, i: nat)
    requires Distinct(Keys(d)) && i < |d|
    ensures Find(d, d[i].0) == Some(i) && Get(d, d[i].0) == Some(d[i].1)
  {
    DistinctBefore(d, i);
    FindFirstOccurrence(d, i);
  }

  /** `d[k] = v`. */
  function Put<V>(d: Dict<V>, k: string, v: V): (r: Dict<V>)
    ensures HasKey(d, k) ==> Keys(r) == Keys(d)
    ensures !HasKey(d, k) ==> Keys(r) == Keys(d) + [k]
  {
    match Find(d, k)
    case Some(i) => d[i := (k, v)]
    case None => d + [(k, v)]
  }

  /** An assignment keeps the keys distinct, gives `k` the new value and
      leaves every other key as it was. */
  lemma PutSpec<V>(d: Dict<V>, k: string, v: V)
    requires Distinct(Keys(d))
    ensures Distinct(Keys(Put(d, k, v)))
    ensures Get(Put(d, k, v), k) == Some(v)
    ensures forall k' :: k' != k ==> Get(Put(d, k, v), k') == Get(d, k')
  {
    var r := Put(d, k, v);
    assert Distinct(Keys(r)) by {
      if !HasKey(d, k) {
        assert k !in Keys(d);
      }
    }
    assert r[Find(d, k).GetOr(|d|)] == (k, v);
    FindAt(r, Find(d, k).GetOr(|d|));
    forall k' | k' != k
      ensures Get(r, k') == Get(d, k')
    {
      if HasKey(d, k') {
        var i := Find(d, k').value;
        FindAt(d, i);
        assert r[i] == d[i];
        FindAt(r, i);
      } else {
        assert k' !in Keys(r);
      }
    }
  }

  // ---------------------------------------------------------------------
  // A dictionary built by a sequence of assignments

  /** The dictionary that the assignments `d[k] = v`, in order, build from
      `{}`: also `dict(pairs)` and a dict comprehension. */
  function FromPairs<V>(ps: seq<(string, V)>): Dict<V>
  {
    if |ps| == 0 then []
    else Put(FromPairs(ps[..|ps| - 1]), ps[|ps| - 1].0, ps[|ps| - 1].1)
  }

  /** The value last assigned to `k`. */
  function LastValue<V>(ps: seq<(string, V)>, k: string): (r: Option<V>)
    ensures r.Some? ==> exists i :: 0 <= i < |ps| && ps[i] == (k, r.value)
    ensures r.None? <==> k !in Keys(ps)
  {
    if |ps| == 0 then None
    else if ps[|ps| - 1].0 == k then
      assert ps[|ps| - 1] == (k, ps[|ps| - 1].1);
      Some(ps[|ps| - 1].1)
    else
      var r := LastValue(ps[..|ps| - 1], k);
      assert Keys(ps) == Keys(ps[..|ps| - 1]) + [ps[|ps| - 1].0];
      assert forall i :: 0 <= i < |ps| - 1 ==> ps[..|ps| - 1][i] == ps[i];
      r
  }

  /** Where `k` is first assigned; `|ks|` when it never is. */
  function FirstAt(ks: seq<string>, k: string): (r: nat)
    ensures r <= |ks|
    ensures r < |ks| <==> k in ks
    ensures r < |ks| ==> ks[r] == k
    ensures forall j :: 0 <= j < r ==> ks[j] != k
  {
    if |ks| == 0 then 0
    else if ks[0] == k then 0
    else 1 + FirstAt(ks[1..], k)
  }

  lemma FirstAtAppend(ks: seq<string>, x: string, k: string)
    requires k in ks + [x]
    ensures FirstAt(ks + [x], k) == if k in ks then FirstAt(ks, k) else |ks|
  {
    var a := FirstAt(ks + [x], k);
    var b := FirstAt(ks, k);
    if k in ks {
      assert (ks + [x])[b] == k;
      assert a <= b;
      assert ks[a] == k;
    } else {
      assert (ks + [x])[|ks|] == k;
    }
  }

  /** Building a dictionary from assignments yields distinct keys: every
      assigned key and no other. */
  lemma {:induction false} FromPairsKeys<V>(ps: seq<(string, V)>)
    ensures Distinct(Keys(FromPairs(ps)))
    ensures forall k :: k in Keys(FromPairs(ps)) <==> k in Keys(ps)
  {
    if |ps| > 0 {
      var pre := ps[..|ps| - 1];
      var (k, v) := ps[|ps| - 1];
      FromPairsKeys(pre);
      PutSpec(FromPairs(pre), k, v);
      KeysSnoc(ps);
    }
  }

  /** Each key of the built dictionary holds the value assigned to it last. */
  lemma {:induction false} FromPairsValues<V>(ps: seq<(string, V)>)
    ensures forall k :: Get(FromPairs(ps), k) == LastValue(ps, k)
  {
    if |ps| > 0 {
      var pre := ps[..|ps| - 1];
      var (k, v) := ps[|ps| - 1];
      FromPairsKeys(pre);
      FromPairsValues(pre);
      PutSpec(FromPairs(pre), k, v);
      forall k' | k' != k
        ensures Get(FromPairs(ps), k') == LastValue(ps, k')
      {
        assert LastValue(ps, k') == LastValue(pre, k');
      }
    }
  }

  /** The keys of the built dictionary come in the order of their first
      assignments. */
  lemma {:induction false} FromPairsOrder<V>(ps: seq<(string, V)>)
    ensures forall i, j :: 0 <= i < j < |FromPairs(ps)| ==>
      FirstAt(Keys(ps), FromPairs(ps)[i].0) < FirstAt(Keys(ps), FromPairs(ps)[j].0)
  {
    if |ps| > 0 {
      var pre := ps[..|ps| - 1];
      var (k, v) := ps[|ps| - 1];
      var d := FromPairs(pre);
      var r := FromPairs(ps);
      FromPairsKeys(pre);
      FromPairsOrder(pre);
      KeysSnoc(ps);
      forall i, j | 0 <= i < j < |r|
        ensures FirstAt(Keys(ps), r[i].0) < FirstAt(Keys(ps), r[j].0)
      {
        assert Keys(r)[i] == r[i].0 && Keys(r)[j] == r[j].0;
        FirstAtAppend(Keys(pre), k, r[i].0);
        FirstAtAppend(Keys(pre), k, r[j].0);
        if HasKey(d, k) {
          assert Keys(r)[i] == Keys(d)[i] && Keys(r)[j] == Keys(d)[j];
        } else if j == |d| {
          assert r[j].0 == k;
          assert r[i].0 == d[i].0 && Keys(d)[i] == d[i].0;
        } else {
          assert Keys(r)[i] == Keys(d)[i] && Keys(r)[j] == Keys(d)[j];
        }
      }
    }
  }

  /** Assignments to pairwise distinct keys build exactly their own list. */
  lemma {:induction false} FromDistinctPairs<V>(ps: seq<(string, V)>)
    requires Distinct(Keys(ps))
    ensures FromPairs(ps) == ps
  {
    if |ps| > 0 {
      var pre := ps[..|ps| - 1];
      KeysSnoc(ps);
      DistinctSnoc(Keys(ps));
      assert Keys(ps)[..|ps| - 1] == Keys(pre);
      FromDistinctPairs(pre);
      PutNew(pre, ps[|ps| - 1].0, ps[|ps| - 1].1);
    }
  }

  /** The last assignment of `k` in `a + b` is in `b` when `b` assigns it. */
  lemma {:induction false} LastValueAppend<V>(a: seq<(string, V)>, b: seq<(string, V)>, k: string)
    ensures LastValue(a + b, k) == if LastValue(b, k).Some? then LastValue(b, k) else LastValue(a, k)
  {
    if |b| > 0 {
      assert (a + b)[..|a + b| - 1] == a + b[..|b| - 1];
      LastValueAppend(a, b[..|b| - 1], k);
    } else {
      assert a + b == a;
    }
  }

  /** A key found in a dictionary is found at the same place after more
      entries are appended. */
  lemma FindExtend<V>(d: Dict<V>, more: Dict<V>, k: string)
    requires Find(d, k).Some?
    ensures Find(d + more, k) == Find(d, k)
  {
    var i := Find(d, k).value;
    var e := d + more;
    assert forall a :: 0 <= a <= i ==> e[a] == d[a];
    FindFirstOccurrence(e, i);
  }

  /** Looking up in a dictionary extended by a new key. */
  lemma GetSnoc<V>(d: Dict<V>, k: string, v: V, k': string)
    requires k !in Keys(d)
    ensures Get(d + [(k, v)], k') == if k' == k then Some(v) else Get(d, k')
  {
    var e := d + [(k, v)];
    if k' == k {
      assert forall a :: 0 <= a < |d| ==> e[a].0 == Keys(d)[a];
      FindFirstOccurrence(e, |d|);
    } else if HasKey(d, k') {
      FindExtend(d, [(k, v)], k');
    } else {
      assert k' !in Keys(e);
    }
  }

  /** Putting a key not yet present appends it. */
  lemma PutNew<V>(d: Dict<V>, k: string, v: V)
    requires k !in Keys(d)
    ensures Put(d, k, v) == d + [(k, v)]
  {}
}
