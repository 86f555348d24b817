/** ConcurrentErrors.Unwrap (the common-ancestor search) and the package's
    `unwrap` helper. */
module Ancestry {
  import opened ErrorValues
  import opened Merging

  /** How many times `timesFound` has seen `e`. */
  function Count(found: map<Err, nat>, e: Err): nat
  {
    if e in found then found[e] else 0
  }

  /** The worklist search from position `i` of `chain`, with `n` the number of
      members of the aggregate and `found` the counts so far. A
      non-comparable aggregate is spliced in; any other non-comparable entry
      stops the search with nil; a comparable entry is counted, returned when
      its count reaches `n`, and otherwise unwrapped onto the worklist. */
  function Scan(n: nat, chain: seq<Err>, i: nat, found: map<Err, nat>): (r: Option<Err>)
    requires i <= |chain|
    decreases SizeSeq(chain[i..])
    ensures r.Some? ==> r.value.Comparable() && n > 0
  {
    if i == |chain| then None
    else
      var e := chain[i];
      if !e.Comparable() then
        if e.Concurrent? then
          PendingShrinks(chain, i, e.errors);
          Scan(n, chain + e.errors, i + 1, found)
        else None
      else
        var count := Count(found, e) + 1;
        if count == n then Some(e)
        else
          var next := if e.Wrap? then [e.inner] else [];
          PendingShrinks(chain, i, next);
          Scan(n, chain + next, i + 1, found[e := count])
  }

  /** The result of ConcurrentErrors{errs}.Unwrap(). */
  function Ancestor(errs: seq<Err>): (r: Option<Err>)
    ensures r.Some? ==> r.value.Comparable() && |errs| > 0
  {
    Scan(|errs|, errs, 0, map[])
  }

  /** `unwrap`: an error's Unwrap() result, or nil when it has no Unwrap method.
      Whatever it returns is a strictly smaller value of the datatype, which
      therefore holds no cyclic chain. */
  function Unwrap(e: Err): (r: Option<Err>)
    ensures r.Some? ==> Size(r.value) < Size(e)
    ensures e.Comparable() ==> (r.Some? <==> e.Wrap?) && (e.Wrap? ==> r == Some(e.inner))
  {
    match e
    case Leaf(_, _, _) => None
    case Wrap(_, _, _, inner) => Some(inner)
    case Concurrent(es) => AncestorSmaller(es); Ancestor(es)
    case CapturedPanic(v, _) => PanicCause(v)
  }

  /** ConcurrentErrors.Unwrap, with the worklist `chain` that grows while it is
      walked and the map `timesFound`. */
  method ConcurrentErrorsUnwrap(errs: seq<Err>) returns (r: Option<Err>)
    ensures r == Ancestor(errs)
  {
    var timesFound: map<Err, nat> := map[];
    var chain := errs;
    var i := 0;
    while i < |chain|
      invariant i <= |chain|
      invariant Scan(|errs|, chain, i, timesFound) == Ancestor(errs)
      decreases SizeSeq(chain[i..])
    {
      var e := chain[i];
      if !e.Comparable() {
        if e.Concurrent? {
          PendingShrinks(chain, i, e.errors);
          chain := chain + e.errors;
          i := i + 1;
          continue;
        } else {
          return None;
        }
      }
      var count := Count(timesFound, e) + 1;
      timesFound := timesFound[e := count];
      if count == |errs| {
        return Some(e);
      }
      var next := Unwrap(e);
      var extra := if next.Some? then [next.value] else [];
      PendingShrinks(chain, i, extra);
      chain := chain + extra;
      i := i + 1;
    }
    return None;
  }

  // ---------------------------------------------------------------------------
  // Sizes: the pending part of the worklist shrinks at every step.

  lemma PendingShrinks(chain: seq<Err>, i: nat, extra: seq<Err>)
    requires i < |chain|
    ensures SizeSeq((chain + extra)[i + 1..]) == SizeSeq(chain[i..]) - Size(chain[i]) + SizeSeq(extra)
  {
    assert (chain + extra)[i + 1..] == chain[i + 1..] + extra;
    assert chain[i..][1..] == chain[i + 1..];
    SizeSeqAppend(chain[i + 1..], extra);
  }

  // ---------------------------------------------------------------------------
  // Occurrences: how often a value enters the worklist.

  /** How many worklist entries equal to `v` the search would generate from `e`
      if it never stopped early: only comparable entries are counted, and
      only comparable wrappers are unwrapped. */
  function Occ(e: Err, v: Err): nat
    decreases e
  {
    match e
    case Leaf(_, _, c) => if c && e == v then 1 else 0
    case Wrap(_, _, c, inner) => if c then (if e == v then 1 else 0) + Occ(inner, v) else 0
    case Concurrent(es) => OccSeq(es, v)
    case CapturedPanic(_, _) => 0
  }

  function OccSeq(es: seq<Err>, v: Err): nat
    decreases es
  {
    if es == [] then 0 else Occ(es[0], v) + OccSeq(es[1..], v)
  }

  lemma {:induction false} OccSeqAppend(a: seq<Err>, b: seq<Err>, v: Err)
    ensures OccSeq(a + b, v) == OccSeq(a, v) + OccSeq(b, v)
  {
    if a == [] {
      assert a + b == b;
    } else {
      assert (a + b)[1..] == a[1..] + b;
      OccSeqAppend(a[1..], b, v);
    }
  }

  lemma OccSplit(chain: seq<Err>, i: nat, extra: seq<Err>, v: Err)
    requires i < |chain|
    ensures OccSeq((chain + extra)[i + 1..], v) == OccSeq(chain[i..], v) - Occ(chain[i], v) + OccSeq(extra, v)
    ensures OccSeq(chain[i..], v) >= Occ(chain[i], v)
  {
    assert (chain + extra)[i + 1..] == chain[i + 1..] + extra;
    assert chain[i..][1..] == chain[i + 1..];
    OccSeqAppend(chain[i + 1..], extra, v);
  }

  /** Whether `v` can be reached from `e` by splicing aggregates and
      unwrapping comparable wrappers. */
  predicate Reaches(e: Err, v: Err)
    decreases e
  {
    e == v
    || (match e
        case Concurrent(es) => exists x :: x in es && Reaches(x, v)
        case Wrap(_, _, c, inner) => c && Reaches(inner, v)
        case _ => false)
  }

  lemma {:induction false} OccReaches(e: Err, v: Err)
    requires Occ(e, v) > 0
    ensures Reaches(e, v) && Size(v) <= Size(e)
    decreases e, 0
  {
    match e
    case Leaf(_, _, _) =>
    case Wrap(_, _, _, inner) =>
      if e != v {
        OccReaches(inner, v);
      }
    case Concurrent(es) =>
      var k := OccSeqReaches(es, v);
      SizeOfMember(es, k);
    case CapturedPanic(_, _) =>
  }

  lemma {:induction false} OccSeqReaches(es: seq<Err>, v: Err) returns (k: nat)
    requires OccSeq(es, v) > 0
    ensures k < |es| && Reaches(es[k], v) && Size(v) <= Size(es[k])
    decreases es, 1
  {
    if Occ(es[0], v) > 0 {
      OccReaches(es[0], v);
      k := 0;
    } else {
      var j := OccSeqReaches(es[1..], v);
      k := j + 1;
    }
  }

  // ---------------------------------------------------------------------------
  // What a result means.

  /** Soundness of one search: a value is returned only if it is comparable
      and the counts so far plus its pending occurrences reach `n`. */
  lemma {:induction false} ScanSound(n: nat, chain: seq<Err>, i: nat, found: map<Err, nat>, v: Err)
    requires i <= |chain|
    requires Scan(n, chain, i, found) == Some(v)
    ensures v.Comparable() && n > 0
    ensures Count(found, v) + OccSeq(chain[i..], v) >= n
    decreases SizeSeq(chain[i..])
  {
    var e := chain[i];
    if !e.Comparable() {
      PendingShrinks(chain, i, e.errors);
      OccSplit(chain, i, e.errors, v);
      ScanSound(n, chain + e.errors, i + 1, found, v);
    } else {
      var count := Count(found, e) + 1;
      OccSplit(chain, i, if e.Wrap? then [e.inner] else [], v);
      if count != n {
        var next := if e.Wrap? then [e.inner] else [];
        PendingShrinks(chain, i, next);
        assert OccSeq(next, v) == if e.Wrap? then Occ(e.inner, v) else 0 by {
          if e.Wrap? { assert next[1..] == []; }
        }
        ScanSound(n, chain + next, i + 1, found[e := count], v);
      }
    }
  }

  /** Any non-nil result of Unwrap is a comparable error that occurs at least
      once per member (counting every worklist entry) and is reachable from
      one of the members. */
  lemma AncestorSound(errs: seq<Err>, v: Err) returns (k: nat)
    requires Ancestor(errs) == Some(v)
    ensures v.Comparable() && |errs| > 0
    ensures OccSeq(errs, v) >= |errs|
    ensures k < |errs| && Reaches(errs[k], v) && Size(v) <= Size(errs[k])
  {
    ScanSound(|errs|, errs, 0, map[], v);
    assert errs[0..] == errs;
    k := OccSeqReaches(errs, v);
  }

  lemma AncestorSmaller(errs: seq<Err>)
    ensures Ancestor(errs).Some? ==> Size(Ancestor(errs).value) < Size(Concurrent(errs))
  {
    if Ancestor(errs).Some? {
      var k := AncestorSound(errs, Ancestor(errs).value);
      SizeOfMember(errs, k);
    }
  }

  /** Whether every entry the search could generate from `e` is comparable or
      an aggregate, so that the search never gives up on it. */
  predicate Expandable(e: Err)
    decreases e
  {
    match e
    case Leaf(_, _, c) => c
    case Wrap(_, _, c, inner) => c && Expandable(inner)
    case Concurrent(es) => forall x :: x in es ==> Expandable(x)
    case CapturedPanic(_, _) => false
  }

  /** Completeness of one search: when the search can never give up and some
      value still has enough occurrences to reach `n`, something is returned. */
  lemma {:induction false} ScanComplete(n: nat, chain: seq<Err>, i: nat, found: map<Err, nat>, v: Err)
    requires i <= |chain| && n > 0
    requires forall j :: i <= j < |chain| ==> Expandable(chain[j])
    requires forall u :: u in found ==> found[u] < n
    requires Count(found, v) + OccSeq(chain[i..], v) >= n
    ensures Scan(n, chain, i, found).Some?
    decreases SizeSeq(chain[i..])
  {
    if i == |chain| {
      assert false;
    }
    var e := chain[i];
    assert Expandable(e);
    if !e.Comparable() {
      PendingShrinks(chain, i, e.errors);
      OccSplit(chain, i, e.errors, v);
      var chain' := chain + e.errors;
      forall j | i + 1 <= j < |chain'| ensures Expandable(chain'[j]) {
        if j >= |chain| {
          assert chain'[j] in e.errors;
        }
      }
      ScanComplete(n, chain', i + 1, found, v);
    } else {
      var count := Count(found, e) + 1;
      if count != n {
        var next := if e.Wrap? then [e.inner] else [];
        PendingShrinks(chain, i, next);
        OccSplit(chain, i, next, v);
        assert OccSeq(next, v) == if e.Wrap? then Occ(e.inner, v) else 0 by {
          if e.Wrap? { assert next[1..] == []; }
        }
        var chain' := chain + next;
        forall j | i + 1 <= j < |chain'| ensures Expandable(chain'[j]) {
          if j >= |chain| {
            assert chain'[j] == e.inner;
          }
        }
        ScanComplete(n, chain', i + 1, found[e := count], v);
      }
    }
  }

  /** Unwrap finds something whenever the search cannot give up and some value
      occurs at least once per member. */
  lemma AncestorComplete(errs: seq<Err>, v: Err)
    requires |errs| > 0
    requires forall m :: m in errs ==> Expandable(m)
    requires OccSeq(errs, v) >= |errs|
    ensures Ancestor(errs).Some?
  {
    assert errs[0..] == errs;
    ScanComplete(|errs|, errs, 0, map[], v);
  }

  /** The search gives up with nil once it reaches a member that is neither
      comparable nor an aggregate: nothing before it can have been counted
      |errs| times. */
  lemma {:induction false} ScanGivesUp(n: nat, chain: seq<Err>, i: nat, found: map<Err, nat>, k: nat)
    requires i <= k < |chain| && k < n
    requires forall u :: u in found ==> found[u] <= i
    requires !chain[k].Comparable() && !chain[k].Concurrent?
    ensures Scan(n, chain, i, found) == None
    decreases k - i
  {
    if i < k {
      var e := chain[i];
      if !e.Comparable() {
        if e.Concurrent? {
          PendingShrinks(chain, i, e.errors);
          ScanGivesUp(n, chain + e.errors, i + 1, found, k);
        }
      } else {
        var count := Count(found, e) + 1;
        var next := if e.Wrap? then [e.inner] else [];
        PendingShrinks(chain, i, next);
        ScanGivesUp(n, chain + next, i + 1, found[e := count], k);
      }
    }
  }

  /** A member that is neither comparable nor an aggregate (a captured panic,
      an uncomparable error type) makes Unwrap return nil. */
  lemma AncestorGivesUp(errs: seq<Err>, k: nat)
    requires k < |errs|
    requires !errs[k].Comparable() && !errs[k].Concurrent?
    ensures Ancestor(errs) == None
  {
    ScanGivesUp(|errs|, errs, 0, map[], k);
  }

  // ---------------------------------------------------------------------------
  // Plain chains: the "common ancestor" reading.

  /** The unwrap chain of a non-aggregate error: the error, then what it wraps. */
  function ChainOf(e: Err): (c: seq<Err>)
    decreases e
    ensures |c| > 0 && c[0] == e
  {
    if e.Wrap? then [e] + ChainOf(e.inner) else [e]
  }

  /** Every link after the first is strictly smaller than the error itself, so
      a chain never repeats a value. */
  lemma {:induction false} ChainShrinks(e: Err)
    ensures forall j :: 0 < j < |ChainOf(e)| ==> Size(ChainOf(e)[j]) < Size(e)
    decreases e
  {
    if e.Wrap? {
      ChainShrinks(e.inner);
      var c, c' := ChainOf(e), ChainOf(e.inner);
      assert c == [e] + c';
      forall j | 0 < j < |c| ensures Size(c[j]) < Size(e) {
        assert c[j] == c'[j - 1];
      }
    }
  }

  /** A chain every link of which is comparable: no aggregate, captured panic
      or uncomparable error anywhere on it. */
  predicate PlainChain(e: Err)
  {
    var c := ChainOf(e);
    forall j :: 0 <= j < |c| ==> c[j].Comparable()
  }

  lemma {:induction false} PlainChainOcc(e: Err, v: Err)
    requires PlainChain(e)
    ensures Expandable(e)
    ensures Occ(e, v) == if v in ChainOf(e) then 1 else 0
    decreases e
  {
    var c := ChainOf(e);
    assert c[0].Comparable();
    if e.Wrap? {
      var c' := ChainOf(e.inner);
      assert c == [e] + c';
      assert PlainChain(e.inner) by {
        forall j | 0 <= j < |c'| ensures c'[j].Comparable() { assert c'[j] == c[j + 1]; }
      }
      PlainChainOcc(e.inner, v);
      if e == v {
        ChainShrinks(e);
        forall j | 0 <= j < |c'| ensures c'[j] != v { assert c'[j] == c[j + 1]; }
      }
    }
  }

  lemma {:induction false} PlainChainsOcc(errs: seq<Err>, v: Err)
    requires forall m :: m in errs ==> PlainChain(m)
    ensures OccSeq(errs, v) <= |errs|
    ensures OccSeq(errs, v) == |errs| <==> forall m :: m in errs ==> v in ChainOf(m)
  {
    if errs != [] {
      PlainChainOcc(errs[0], v);
      PlainChainsOcc(errs[1..], v);
      if forall m :: m in errs[1..] ==> v in ChainOf(m) {
        if v in ChainOf(errs[0]) {
          forall m | m in errs ensures v in ChainOf(m) {
            if m != errs[0] { assert m in errs[1..]; }
          }
        }
      }
      if forall m :: m in errs ==> v in ChainOf(m) {
        assert errs[0] in errs;
        forall m | m in errs[1..] ensures v in ChainOf(m) { assert m in errs; }
      }
    }
  }

  /** When every member's chain is plain, a non-nil result lies on the chain of
      every member: it is a common ancestor. */
  lemma CommonAncestorSound(errs: seq<Err>, v: Err)
    requires forall m :: m in errs ==> PlainChain(m)
    requires Ancestor(errs) == Some(v)
    ensures forall m :: m in errs ==> v in ChainOf(m)
  {
    var _ := AncestorSound(errs, v);
    PlainChainsOcc(errs, v);
  }

  /** When every member's chain is plain and all of them pass through `v`,
      Unwrap returns a common ancestor. */
  lemma CommonAncestorFound(errs: seq<Err>, v: Err)
    requires |errs| > 0
    requires forall m :: m in errs ==> PlainChain(m)
    requires forall m :: m in errs ==> v in ChainOf(m)
    ensures Ancestor(errs).Some?
    ensures forall m :: m in errs ==> Ancestor(errs).value in ChainOf(m)
  {
    PlainChainsOcc(errs, v);
    forall m | m in errs ensures Expandable(m) {
      PlainChainOcc(m, v);
    }
    AncestorComplete(errs, v);
    CommonAncestorSound(errs, Ancestor(errs).value);
  }

  /** Two chains that end in different errors have no common ancestor. */
  lemma NoCommonAncestorExample(ancestor: Err, another: Err)
    requires ancestor.Leaf? && another.Leaf? && ancestor.comparable && another.comparable
    requires ancestor != another
    ensures Ancestor([Wrap(0, "foo: ancestor", true, ancestor),
                      Wrap(1, "baz: another ancestor", true, another)]) == None
  {
    var w0 := Wrap(0, "foo: ancestor", true, ancestor);
    var w1 := Wrap(1, "baz: another ancestor", true, another);
    var errs := [w0, w1];
    assert ChainOf(w0) == [w0, ancestor] && ChainOf(w1) == [w1, another];
    if Ancestor(errs).Some? {
      var v := Ancestor(errs).value;
      CommonAncestorSound(errs, v);
    }
  }

  /** Why the common-ancestor reading needs plain chains: an aggregate among
      the members has every one of its members' chains counted, so a value
      can reach the count while lying on the chain of one member only. */
  lemma NestedAggregateExample(v: Err, y: Err)
    requires v.Leaf? && y.Leaf? && v.comparable && y.comparable && v != y
    ensures Ancestor([Concurrent([v, v]), y]) == Some(v)
    ensures v !in ChainOf(Concurrent([v, v])) && v !in ChainOf(y)
  {
    var c := Concurrent([v, v]);
    var chain := [c, y] + [v, v];
    assert Scan(2, [c, y], 0, map[]) == Scan(2, chain, 1, map[]);
    assert Scan(2, chain, 1, map[]) == Scan(2, chain, 2, map[y := 1]) by {
      assert chain + [] == chain;
    }
    assert Scan(2, chain, 2, map[y := 1]) == Scan(2, chain, 3, map[y := 1][v := 1]) by {
      assert chain + [] == chain;
    }
  }

  /** The usual way a false common ancestor arises: AddConcurrentError builds
      the aggregate {v, x, v}, a pointer wrapper (fmt.Errorf with %w) wraps it,
      and the search counts the wrapper, unwraps it to the aggregate, splices
      that in and counts `v` twice, although `v` is not on `y`'s chain. */
  lemma WrappedAggregateExample(v: Err, x: Err, y: Err)
    requires v.Leaf? && x.Leaf? && y.Leaf? && v.comparable && x.comparable && y.comparable
    requires v != x && v != y && x != y
    ensures Merge(Merge(Some(v), Some(x)), Some(v)) == Some(Concurrent([v, x, v]))
    ensures Ancestor([Wrap(9, "stage 1", true, Concurrent([v, x, v])), y]) == Some(v)
    ensures v !in ChainOf(y)
  {
    assert Merge(Some(v), Some(x)) == Some(Concurrent([v, x])) by {
      assert !SameError(Some(v), Some(x));
      assert Members(Some(v)) + Members(Some(x)) == [v] + [x] == [v, x];
    }
    assert [v, x] + [v] == [v, x, v];
    var c := Concurrent([v, x, v]);
    var w := Wrap(9, "stage 1", true, c);
    var chain := [w, y, c] + [v, x, v];
    assert Scan(2, [w, y], 0, map[]) == Scan(2, [w, y, c], 1, map[w := 1]) by {
      assert Count(map[], w) == 0;
      assert [w, y] + [w.inner] == [w, y, c];
    }
    assert Scan(2, [w, y, c], 1, map[w := 1]) == Scan(2, [w, y, c], 2, map[w := 1][y := 1]) by {
      assert [w, y, c] + [] == [w, y, c];
    }
    var found := map[w := 1][y := 1];
    assert Scan(2, [w, y, c], 2, found) == Scan(2, chain, 3, found);
    assert Scan(2, chain, 3, found) == Scan(2, chain, 4, found[v := 1]) by {
      assert chain + [] == chain;
    }
    assert Scan(2, chain, 4, found[v := 1]) == Scan(2, chain, 5, found[v := 1][x := 1]) by {
      assert chain + [] == chain;
    }
  }

  /** Two chains of wrapped errors that both end in the same error find it as
      their common ancestor. */
  lemma CommonAncestorExample(eldest: Err)
    requires eldest.Leaf? && eldest.comparable
    ensures Ancestor([Wrap(1, "first in first chain", true, Wrap(2, "second in first chain", true, eldest)),
                      Wrap(3, "first in second chain", true, eldest)]) == Some(eldest)
  {
    var w2 := Wrap(2, "second in first chain", true, eldest);
    var w1 := Wrap(1, "first in first chain", true, w2);
    var w3 := Wrap(3, "first in second chain", true, eldest);
    var errs := [w1, w3];
    assert ChainOf(eldest) == [eldest];
    assert ChainOf(w3) == [w3] + ChainOf(eldest) == [w3, eldest];
    assert ChainOf(w2) == [w2] + ChainOf(eldest) == [w2, eldest];
    assert ChainOf(w1) == [w1] + ChainOf(w2) == [w1, w2, eldest];
    assert forall m :: m in errs ==> PlainChain(m);
    CommonAncestorFound(errs, eldest);
  }
}
