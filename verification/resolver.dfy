/** The resource resolver (wa/framework/resource.py: SourcePriority,
    ResourceResolver.register and ResourceResolver.get). Registered sources
    are kept in a priority list: higher priorities first, sources of equal
    priority in the order they were registered. What a source returns for a
    resource is the parameter `lookup`. */
module Resolver {
  import opened Wrappers
  import opened Resources

  /** The source priorities, 10 apart starting from 0. */
  datatype SourcePriority = Package | Remote | Lan | Local | Perferred

  function PriorityValue(p: SourcePriority): (v: int)
    ensures v % 10 == 0 && 0 <= v <= 40
  {
    match p
    case Package => 0
    case Remote => 10
    case Lan => 20
    case Local => 30
    case Perferred => 40
  }

  /** The priority `register` uses when none is given. */
  const DefaultPriority: SourcePriority := Local

  /** A registered source, its priority and how many registrations preceded
      it. */
  datatype Entry<S> = Entry(source: S, priority: int, registered: nat)

  /** The order in which the priority list yields its entries. */
  predicate Before<S>(a: Entry<S>, b: Entry<S>) {
    a.priority > b.priority || (a.priority == b.priority && a.registered < b.registered)
  }

  predicate StrictlySorted<S>(l: seq<Entry<S>>) {
    forall i, j :: 0 <= i < j < |l| ==> Before(l[i], l[j])
  }

  // ---------------------------------------------------------------------
  // The priority list

  /** How many leading entries have a priority of at least `p`: where an
      entry of priority `p` joins the list. */
  function InsertionPoint<S>(l: seq<Entry<S>>, p: int): (k: nat)
    ensures k <= |l|
    ensures forall i :: 0 <= i < k ==> l[i].priority >= p
    ensures k < |l| ==> l[k].priority < p
  {
    if |l| == 0 || l[0].priority < p then 0
    else 1 + InsertionPoint(l[1..], p)
  }

  /** `prioritylist.add`: the new entry goes after every entry of at least
      its priority. */
  function Add<S>(l: seq<Entry<S>>, e: Entry<S>): (r: seq<Entry<S>>)
    ensures |r| == |l| + 1
    ensures multiset(r) == multiset(l) + multiset{e}
  {
    var k := InsertionPoint(l, e.priority);
    assert l == l[..k] + l[k..];
    l[..k] + [e] + l[k..]
  }

  /** The resolver's sources after registering `regs` in order, each with
      its priority. */
  function Registered<S>(regs: seq<(S, int)>): (l: seq<Entry<S>>)
    ensures |l| == |regs|
  {
    if |regs| == 0 then []
    else
      var last := |regs| - 1;
      Add(Registered(regs[..last]), Entry(regs[last].0, regs[last].1, last))
  }

  /** `register(source, priority)`. */
  function Register<S>(l: seq<Entry<S>>, source: S, priority: SourcePriority): (r: seq<Entry<S>>)
    ensures |r| == |l| + 1
    ensures Entry(source, PriorityValue(priority), |l|) in r
  {
    var r := Add(l, Entry(source, PriorityValue(priority), |l|));
    assert Entry(source, PriorityValue(priority), |l|) in multiset(r);
    r
  }

  /** Where each entry sits after `Add`: the new one at the insertion
      point, those before it unmoved, those after it one place on. */
  lemma AddShape<S>(l: seq<Entry<S>>, e: Entry<S>)
    ensures var k := InsertionPoint(l, e.priority);
      var r := Add(l, e);
      && r[k] == e
      && (forall i :: 0 <= i < k ==> r[i] == l[i])
      && (forall i :: k < i < |r| ==> r[i] == l[i - 1])
  {
    var k := InsertionPoint(l, e.priority);
    var front := l[..k] + [e];
    assert Add(l, e) == front + l[k..];
    assert forall i :: k < i < |l| + 1 ==> (front + l[k..])[i] == l[k..][i - k - 1];
  }

  /** Adding an entry registered after all others keeps the list sorted. */
  lemma AddKeepsSorted<S>(l: seq<Entry<S>>, e: Entry<S>)
    requires StrictlySorted(l)
    requires forall i :: 0 <= i < |l| ==> l[i].registered < e.registered
    ensures StrictlySorted(Add(l, e))
  {
    var k := InsertionPoint(l, e.priority);
    var r := Add(l, e);
    AddShape(l, e);
    forall i, j | 0 <= i < j < |r|
      ensures Before(r[i], r[j])
    {
      if j < k {
        assert Before(l[i], l[j]);
      } else if j == k {
        assert l[i].priority >= e.priority;
      } else if i == k {
        assert l[j - 1].priority < e.priority || j - 1 >= k;
      } else if i < k {
        assert Before(l[i], l[j - 1]);
      } else {
        assert Before(l[i - 1], l[j - 1]);
      }
    }
  }

  /** `Add` keeps every entry and adds the new one. */
  lemma AddMembers<S>(l: seq<Entry<S>>, e: Entry<S>)
    ensures forall x :: x in Add(l, e) <==> x in l || x == e
  {
    var r := Add(l, e);
    forall x
      ensures x in r <==> x in l || x == e
    {
      assert x in multiset(r) <==> x in multiset(l) || x == e;
    }
  }

  /** Every registration is among the entries. */
  ghost predicate HoldsEvery<S>(l: seq<Entry<S>>, regs: seq<(S, int)>) {
    forall i :: 0 <= i < |regs| ==> Entry(regs[i].0, regs[i].1, i) in l
  }

  /** Every entry is a registration, numbered by its position. */
  ghost predicate HoldsOnly<S>(l: seq<Entry<S>>, regs: seq<(S, int)>) {
    forall e :: e in l ==> e.registered < |regs| && regs[e.registered] == (e.source, e.priority)
  }

  /** Every registration is among the registered sources. */
  lemma {:induction false} RegisteredHoldsEvery<S>(regs: seq<(S, int)>)
    ensures HoldsEvery(Registered(regs), regs)
  {
    if |regs| > 0 {
      var last := |regs| - 1;
      var prev := Registered(regs[..last]);
      var e := Entry(regs[last].0, regs[last].1, last);
      RegisteredHoldsEvery(regs[..last]);
      var l := Registered(regs);
      AddMembers(prev, e);
      forall i | 0 <= i < |regs|
        ensures Entry(regs[i].0, regs[i].1, i) in l
      {
        if i < last {
          assert regs[..last][i] == regs[i];
        }
      }
    }
  }

  /** Nothing but the registrations is among the registered sources. */
  lemma {:induction false} RegisteredHoldsOnly<S>(regs: seq<(S, int)>)
    ensures HoldsOnly(Registered(regs), regs)
  {
    if |regs| > 0 {
      var last := |regs| - 1;
      var prev := Registered(regs[..last]);
      var e := Entry(regs[last].0, regs[last].1, last);
      RegisteredHoldsOnly(regs[..last]);
      var l := Registered(regs);
      assert multiset(l) == multiset(prev) + multiset{e};
      forall x | x in l
        ensures x.registered < |regs| && regs[x.registered] == (x.source, x.priority)
      {
        assert x in multiset(l);
        if x != e {
          assert x in multiset(prev);
          assert regs[..last][x.registered] == regs[x.registered];
        }
      }
    }
  }

  /** The registered sources are yielded in descending priority,
      registration order breaking ties. */
  lemma {:induction false} RegisteredIsSorted<S>(regs: seq<(S, int)>)
    ensures StrictlySorted(Registered(regs))
  {
    if |regs| > 0 {
      var last := |regs| - 1;
      var prev := Registered(regs[..last]);
      var e := Entry(regs[last].0, regs[last].1, last);
      RegisteredIsSorted(regs[..last]);
      RegisteredHoldsOnly(regs[..last]);
      forall i | 0 <= i < |prev|
        ensures prev[i].registered < e.registered
      {
        assert prev[i] in prev;
      }
      AddKeepsSorted(prev, e);
    }
  }

  /** Two strictly sorted non-empty lists with the same entries start with
      the same entry. */
  lemma SortedHeadsAgree<S>(a: seq<Entry<S>>, b: seq<Entry<S>>)
    requires StrictlySorted(a) && StrictlySorted(b)
    requires forall e :: e in a <==> e in b
    requires |a| > 0 && |b| > 0
    ensures a[0] == b[0]
  {
    assert a[0] in a;
    var ia :| 0 <= ia < |b| && b[ia] == a[0];
    assert b[0] in b;
    var ib :| 0 <= ib < |a| && a[ib] == b[0];
    if ia == 0 || ib == 0 {
    } else {
      assert false;
    }
  }

  /** Two strictly sorted lists with the same entries are equal: the order
      of the priority list is determined by the registrations alone. */
  lemma {:induction false} SortedIsUnique<S>(a: seq<Entry<S>>, b: seq<Entry<S>>)
    requires StrictlySorted(a) && StrictlySorted(b)
    requires forall e :: e in a <==> e in b
    ensures a == b
  {
    if |a| > 0 {
      assert a[0] in a;
    }
    if |b| > 0 {
      assert b[0] in b;
    }
    if |a| > 0 && |b| > 0 {
      SortedHeadsAgree(a, b);
      forall e
        ensures e in a[1..] <==> e in b[1..]
      {
        if e in a[1..] {
          var i :| 1 <= i < |a| && a[i] == e;
          assert Before(a[0], e);
          assert e in b && e != b[0];
          var j :| 0 <= j < |b| && b[j] == e;
          assert j > 0;
          assert b[1..][j - 1] == e;
        }
        if e in b[1..] {
          var j :| 1 <= j < |b| && b[j] == e;
          assert Before(b[0], e);
          assert e in a && e != a[0];
          var i :| 0 <= i < |a| && a[i] == e;
          assert i > 0;
          assert a[1..][i - 1] == e;
        }
      }
      SortedIsUnique(a[1..], b[1..]);
      assert a == [a[0]] + a[1..] && b == [b[0]] + b[1..];
    }
  }

  /** The source list after registrations is the one strictly sorted
      arrangement of exactly those registrations. */
  lemma RegisteredIsDetermined<S>(regs: seq<(S, int)>, l: seq<Entry<S>>)
    requires StrictlySorted(l) && HoldsEvery(l, regs) && HoldsOnly(l, regs)
    ensures l == Registered(regs)
  {
    var r := Registered(regs);
    RegisteredIsSorted(regs);
    RegisteredHoldsEvery(regs);
    RegisteredHoldsOnly(regs);
    forall e
      ensures e in l <==> e in r
    {
      if e in l {
        assert Entry(regs[e.registered].0, regs[e.registered].1, e.registered) in r;
      }
      if e in r {
        assert Entry(regs[e.registered].0, regs[e.registered].1, e.registered) in l;
      }
    }
    SortedIsUnique(l, r);
  }

  /** `register` extends the registrations by one. */
  lemma RegisterExtends<S>(regs: seq<(S, int)>, source: S, priority: SourcePriority)
    ensures Register(Registered(regs), source, priority) == Registered(regs + [(source, PriorityValue(priority))])
  {
    assert (regs + [(source, PriorityValue(priority))])[..|regs|] == regs;
  }

  // ---------------------------------------------------------------------
  // Resolution

  /** The error `get` raises in strict mode. */
  datatype ResourceError = NotFound(resource: Resource)

  /** Reference definition: the position of the first source that finds
      the resource. */
  function FirstHit<S>(sources: seq<Entry<S>>, lookup: (S, Resource) -> Option<string>, res: Resource): (k: Option<nat>)
    ensures k.Some? ==> k.value < |sources| && lookup(sources[k.value].source, res).Some?
    ensures k.Some? ==> forall i :: 0 <= i < k.value ==> lookup(sources[i].source, res).None?
    ensures k.None? ==> forall i :: 0 <= i < |sources| ==> lookup(sources[i].source, res).None?
  {
    if |sources| == 0 then None
    else if lookup(sources[0].source, res).Some? then Some(0)
    else
      var k := FirstHit(sources[1..], lookup, res);
      assert forall i :: 1 <= i < |sources| ==> sources[i] == sources[1..][i - 1];
      if k.Some? then Some(k.value + 1) else None
  }

  /** `get(resource, strict)`: asks the sources in priority order and
      returns the first answer; when none answers, raises in strict mode
      and returns `None` otherwise. */
  method Get<S>(sources: seq<Entry<S>>, lookup: (S, Resource) -> Option<string>, res: Resource, strict: bool)
    returns (r: Result<Option<string>, ResourceError>)
    ensures FirstHit(sources, lookup, res).Some? ==>
      r == Ok(lookup(sources[FirstHit(sources, lookup, res).value].source, res))
    ensures FirstHit(sources, lookup, res).None? ==>
      r == (if strict then Err(NotFound(res)) else Ok(None))
  {
    var i := 0;
    while i < |sources|
      invariant 0 <= i <= |sources|
      invariant forall j :: 0 <= j < i ==> lookup(sources[j].source, res).None?
    {
      var result := lookup(sources[i].source, res);
      if result.Some? {
        FirstHitIs(sources, lookup, res, i);
        return Ok(result);
      }
      i := i + 1;
    }
    FirstHitIs(sources, lookup, res, |sources|);
    if strict {
      return Err(NotFound(res));
    }
    return Ok(None);
  }

  /** `FirstHit` is the first position whose source answers. */
  lemma FirstHitIs<S>(sources: seq<Entry<S>>, lookup: (S, Resource) -> Option<string>, res: Resource, k: nat)
    requires k <= |sources|
    requires forall j :: 0 <= j < k ==> lookup(sources[j].source, res).None?
    requires k < |sources| ==> lookup(sources[k].source, res).Some?
    ensures k < |sources| ==> FirstHit(sources, lookup, res) == Some(k)
    ensures k == |sources| ==> FirstHit(sources, lookup, res).None?
  {
    var h := FirstHit(sources, lookup, res);
    if h.Some? {
      assert h.value >= k;
      assert !(h.value > k);
    }
  }

  /** The sources after the one that answers are never consulted: replacing
      them by any others changes neither the answering position nor the
      answer. */
  lemma LaterSourcesIgnored<S>(sources: seq<Entry<S>>, later: seq<Entry<S>>, lookup: (S, Resource) -> Option<string>, res: Resource)
    requires FirstHit(sources, lookup, res).Some?
    ensures var k := FirstHit(sources, lookup, res).value;
      FirstHit(sources[..k + 1] + later, lookup, res) == Some(k)
  {
    var k := FirstHit(sources, lookup, res).value;
    var s := sources[..k + 1] + later;
    assert forall j :: 0 <= j <= k ==> s[j] == sources[j];
    FirstHitIs(s, lookup, res, k);
  }

  /** Among the sources that find the resource, the one that answers comes
      first in the priority order: a higher priority, or an earlier
      registration at equal priority. */
  lemma HighestPriorityAnswers<S>(regs: seq<(S, int)>, lookup: (S, Resource) -> Option<string>, res: Resource, other: nat)
    requires other < |regs| && lookup(regs[other].0, res).Some?
    ensures var sources := Registered(regs);
      var k := FirstHit(sources, lookup, res);
      k.Some? && (sources[k.value] == Entry(regs[other].0, regs[other].1, other)
                  || Before(sources[k.value], Entry(regs[other].0, regs[other].1, other)))
  {
    var sources := Registered(regs);
    RegisteredIsSorted(regs);
    RegisteredHoldsEvery(regs);
    var e := Entry(regs[other].0, regs[other].1, other);
    assert e in sources;
    var j :| 0 <= j < |sources| && sources[j] == e;
    var k := FirstHit(sources, lookup, res);
    assert lookup(sources[j].source, res).Some?;
    assert k.Some? && k.value <= j;
    if k.value < j {
      assert Before(sources[k.value], sources[j]);
    }
  }

  /** The priority list yields its sources in the order the resolver tries
      them: a source registered at `perferred` after two at `local` is tried
      first, and the two `local` ones keep their registration order. */
  lemma RegistrationOrderExample()
    ensures Registered([("a", 30), ("b", 30), ("c", 40)]) ==
      [Entry("c", 40, 2), Entry("a", 30, 0), Entry("b", 30, 1)]
  {
    var regs: seq<(string, int)> := [("a", 30), ("b", 30), ("c", 40)];
    assert regs[..2] == [("a", 30), ("b", 30)];
    assert regs[..2][..1] == [("a", 30)];
    assert regs[..2][..1][..0] == [];
  }
}
