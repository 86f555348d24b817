/** AddConcurrentError: merging two possibly nil errors into one. */
module Merging {
  import opened ErrorValues

  /** Whether merging `to` with `err` collapses onto `to`: both non-nil,
      `to` of a comparable type and `to == err`. */
  predicate SameError(to: Option<Err>, err: Option<Err>)
    ensures SameError(to, err) ==> to.Some? && !to.value.Concurrent? && Members(to) == Members(err) == [to.value]
  {
    to.Some? && err.Some? && to.value.Comparable() && to == err
  }

  /** The result of AddConcurrentError(to, err). */
  function Merge(to: Option<Err>, err: Option<Err>): (r: Option<Err>)
    ensures r.None? <==> to.None? && err.None?
    ensures forall x :: x in Members(r) <==> x in Members(to) || x in Members(err)
  {
    if err.None? then to
    else if to.None? then err
    else if SameError(to, err) then to
    else Some(Concurrent(Members(to) + Members(err)))
  }

  /** The members of a list of errors, each aggregate spliced in. */
  function Spliced(es: seq<Err>): seq<Err>
  {
    if es == [] then [] else Spliced(es[..|es| - 1]) + Parts(es[|es| - 1])
  }

  /** AddConcurrentError, with the loop over {to, err} that appends either the
      error itself or the members of an aggregate. */
  method AddConcurrentError(to: Option<Err>, err: Option<Err>) returns (r: Option<Err>)
    ensures r == Merge(to, err)
  {
    if err.None? {
      return to;
    } else if to.None? {
      return err;
    } else if to.value.Comparable() && to == err {
      return to;
    }
    var pair := [to.value, err.value];
    var merged: seq<Err> := [];
    for k := 0 to 2
      invariant merged == Spliced(pair[..k])
    {
      assert pair[..k + 1][..k] == pair[..k];
      merged := merged + Parts(pair[k]);
    }
    assert pair[..2] == pair && pair[..1] == [to.value];
    assert Spliced([to.value]) == Parts(to.value) by {
      assert [to.value][..0] == [];
    }
    assert Spliced(pair) == Spliced([to.value]) + Parts(err.value);
    r := Some(Concurrent(merged));
  }

  /** nil is the identity on both sides, and a comparable error merged with
      itself is returned as it is, with no aggregate built. */
  lemma MergeIdentities(e: Option<Err>)
    ensures Merge(e, None) == e
    ensures Merge(None, e) == e
    ensures e.Some? && e.value.Comparable() ==> Merge(e, e) == e
  {
  }

  /** Two non-nil errors that do not collapse give a ConcurrentErrors whose
      members are those of `to` followed by those of `err`. */
  lemma MergeSplices(to: Option<Err>, err: Option<Err>)
    requires to.Some? && err.Some? && !SameError(to, err)
    ensures Merge(to, err) == Some(Concurrent(Members(to) + Members(err)))
    ensures |Members(Merge(to, err))| == |Members(to)| + |Members(err)|
  {
  }

  /** Merging keeps the aggregate flat. */
  lemma MergeKeepsFlat(to: Option<Err>, err: Option<Err>)
    requires FlatMembers(to) && FlatMembers(err)
    ensures FlatMembers(Merge(to, err))
  {
  }

  /** The result is an aggregate only when an aggregate went in or two errors
      that do not collapse were merged. */
  lemma MergeAggregates(to: Option<Err>, err: Option<Err>)
    ensures Merge(to, err).Some? && Merge(to, err).value.Concurrent? <==>
              (to.Some? && err.Some? && !SameError(to, err))
              || (err.None? && to.Some? && to.value.Concurrent?)
              || (to.None? && err.Some? && err.value.Concurrent?)
  {
  }

  /** Merging is commutative on the set of members it produces. */
  lemma MergeMembersCommute(a: Option<Err>, b: Option<Err>)
    ensures forall x :: x in Members(Merge(a, b)) <==> x in Members(Merge(b, a))
  {
  }

  /** Three distinct errors merged in a nested way give one flat aggregate of
      three. */
  lemma FlattenNested(e0: Err, e1: Err, e2: Err)
    requires e0.Leaf? && e1.Leaf? && e2.Leaf?
    requires e0 != e1 && e1 != e2 && e0 != e2
    ensures Merge(Some(e0), Merge(Merge(None, Some(e1)), Some(e2))) == Some(Concurrent([e0, e1, e2]))
  {
    var inner := Merge(Merge(None, Some(e1)), Some(e2));
    assert inner == Some(Concurrent([e1] + [e2]));
    assert [e1] + [e2] == [e1, e2] && [e0] + [e1, e2] == [e0, e1, e2];
  }

  /** Merging two aggregates never compares them with `==` (which would panic
      on a slice-holding type) and concatenates their members. */
  lemma MergeTwoAggregates(e0: Err, e1: Err, e2: Err, e3: Err)
    requires e0.Leaf? && e1.Leaf? && e2.Leaf? && e3.Leaf?
    requires e0 != e1 && e2 != e3
    ensures Merge(Merge(Some(e0), Some(e1)), Merge(Some(e2), Some(e3)))
              == Some(Concurrent([e0, e1, e2, e3]))
  {
    assert Merge(Some(e0), Some(e1)) == Some(Concurrent([e0] + [e1]));
    assert Merge(Some(e2), Some(e3)) == Some(Concurrent([e2] + [e3]));
    assert [e0] + [e1] == [e0, e1] && [e2] + [e3] == [e2, e3];
    assert [e0, e1] + [e2, e3] == [e0, e1, e2, e3];
  }
}
