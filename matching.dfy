/** AnyIs, AnyAs and ConcurrentErrors.Is. The chain tests of the standard
    library (errors.Is(·, target), errors.As(·, target)) are supplied as
    functions: `isTarget(e)` is errors.Is(e, target) for a fixed non-nil
    target, and `asTarget(e)` is the value errors.As(e, &target) would store,
    or None when it reports false. */
module Matching {
  import opened ErrorValues
  import opened Merging

  /** The loop of AnyIs over an aggregate's members, returning at the first match. */
  function AnyMember(es: seq<Err>, isTarget: Err -> bool): (b: bool)
    ensures b <==> exists k :: 0 <= k < |es| && isTarget(es[k])
  {
    if es == [] then false
    else if isTarget(es[0]) then true
    else
      assert forall k :: 1 <= k < |es| ==> es[k] == es[1..][k - 1];
      AnyMember(es[1..], isTarget)
  }

  /** AnyIs(err, target): some member of the aggregate, or the error itself
      when it is not an aggregate, is the target. A nil error is not. */
  function AnyIs(err: Option<Err>, isTarget: Err -> bool): (b: bool)
    ensures b <==> exists m :: m in Members(err) && isTarget(m)
  {
    match err
    case None => false
    case Some(e) => if e.Concurrent? then AnyMember(e.errors, isTarget) else isTarget(e)
  }

  /** The loop of AnyAs: the value stored by the first member that matches. */
  function FirstAs<V>(es: seq<Err>, asTarget: Err -> Option<V>): (r: Option<V>)
    ensures r.Some? <==> exists k :: 0 <= k < |es| && asTarget(es[k]).Some?
    ensures r.Some? ==> exists k :: 0 <= k < |es| && r == asTarget(es[k])
                                    && forall j :: 0 <= j < k ==> asTarget(es[j]).None?
  {
    if es == [] then None
    else if asTarget(es[0]).Some? then asTarget(es[0])
    else
      var r := FirstAs(es[1..], asTarget);
      assert forall k :: 1 <= k < |es| ==> es[k] == es[1..][k - 1];
      assert r.Some? ==> exists k :: 1 <= k < |es| && r == asTarget(es[k])
                                     && forall j :: 0 <= j < k ==> asTarget(es[j]).None? by {
        if r.Some? {
          var k :| 0 <= k < |es[1..]| && r == asTarget(es[1..][k])
                   && forall j :: 0 <= j < k ==> asTarget(es[1..][j]).None?;
          assert forall j :: 0 <= j < k + 1 ==> asTarget(es[j]).None? by {
            forall j | 0 <= j < k + 1 ensures asTarget(es[j]).None? {
              if j > 0 { assert es[j] == es[1..][j - 1]; }
            }
          }
        }
      }
      r
  }

  /** AnyAs(err, &target): Some(x) when it returns true having stored x in
      target, None when it returns false and leaves target alone. */
  function AnyAs<V>(err: Option<Err>, asTarget: Err -> Option<V>): (r: Option<V>)
    ensures r.Some? <==> exists m :: m in Members(err) && asTarget(m).Some?
    ensures r.Some? ==> exists k :: 0 <= k < |Members(err)| && r == asTarget(Members(err)[k])
                                    && forall j :: 0 <= j < k ==> asTarget(Members(err)[j]).None?
  {
    match err
    case None => None
    case Some(e) => if e.Concurrent? then FirstAs(e.errors, asTarget) else asTarget(e)
  }

  /** ConcurrentErrors.Is(target): every member is the target; an empty
      aggregate trivially is. */
  function AllMembers(es: seq<Err>, isTarget: Err -> bool): (b: bool)
    ensures b <==> forall k :: 0 <= k < |es| ==> isTarget(es[k])
  {
    if es == [] then true
    else if !isTarget(es[0]) then false
    else
      assert forall k :: 1 <= k < |es| ==> es[k] == es[1..][k - 1];
      AllMembers(es[1..], isTarget)
  }

  /** Merging never loses a match: AnyIs holds of the merge exactly when it
      holds of one of the two inputs. */
  lemma AnyIsMerge(a: Option<Err>, b: Option<Err>, isTarget: Err -> bool)
    ensures AnyIs(Merge(a, b), isTarget) <==> AnyIs(a, isTarget) || AnyIs(b, isTarget)
  {
  }

  /** The merged aggregate's Is holds exactly when every part of both inputs is
      the target. */
  lemma AllMembersMerge(a: Option<Err>, b: Option<Err>, isTarget: Err -> bool)
    requires a.Some? && b.Some? && !SameError(a, b)
    ensures Merge(a, b).value.Concurrent?
    ensures AllMembers(Merge(a, b).value.errors, isTarget) <==>
              AllMembers(Members(a), isTarget) && AllMembers(Members(b), isTarget)
  {
    var ma, mb := Members(a), Members(b);
    assert Merge(a, b).value.errors == ma + mb;
    if AllMembers(ma, isTarget) && AllMembers(mb, isTarget) {
      forall k | 0 <= k < |ma + mb| ensures isTarget((ma + mb)[k]) {
        if k >= |ma| { assert (ma + mb)[k] == mb[k - |ma|]; }
      }
    }
    if AllMembers(ma + mb, isTarget) {
      forall k | 0 <= k < |ma| ensures isTarget(ma[k]) { assert (ma + mb)[k] == ma[k]; }
      forall k | 0 <= k < |mb| ensures isTarget(mb[k]) { assert (ma + mb)[k + |ma|] == mb[k]; }
    }
  }

  /** With two distinct errors, AnyIs finds each of them in the result. */
  lemma TwoDistinctErrors(a: Err, b: Err, isA: Err -> bool, isB: Err -> bool)
    requires !a.Concurrent? && !b.Concurrent? && a != b
    requires isA(a) && isB(b)
    ensures AnyIs(Merge(Some(a), Some(b)), isA)
    ensures AnyIs(Merge(Some(a), Some(b)), isB)
  {
    assert Members(Merge(Some(a), Some(b))) == [a, b];
    assert a in [a, b] && b in [a, b];
  }
}
