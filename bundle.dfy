/** Bundle and Wait: registering functions, then waiting for all of them and
    folding their errors with AddConcurrentError. The goroutines and the
    `errs`/`panics` channels are replaced by the completions `wait` receives,
    in the order it receives them. */
module Bundles {
  import opened ErrorValues
  import opened Merging
  import opened Matching
  import opened Ancestry

  /** What one registered function delivers: the error it returned, or the
      value it panicked with and the stack captured by the recover handler. */
  datatype Outcome = Returned(err: Option<Err>) | Panicked(value: PanicValue, stack: string)

  /** What a call to wait does: return an error, or panic again, in the
      waiting goroutine, with the capturedPanic. */
  datatype WaitResult = Finished(err: Option<Err>) | Repanic(fault: Err)

  /** What g does: start the function, or panic because wait has returned. */
  datatype Registration = Started | AlreadyFinished(message: string)

  const FinishedMessage := "gock: bundle already finished"

  /** The error an outcome carries into the fold (a panic carries none). */
  function ErrorOf(o: Outcome): Option<Err>
  {
    if o.Returned? then o.err else None
  }

  /** The left fold of AddConcurrentError over the outcomes, starting at `acc`.
      It is nil exactly when `acc` and every outcome's error are nil. */
  function Fold(acc: Option<Err>, outs: seq<Outcome>): (r: Option<Err>)
    ensures r.None? <==> acc.None? && forall j :: 0 <= j < |outs| ==> ErrorOf(outs[j]).None?
  {
    if outs == [] then acc
    else Merge(Fold(acc, outs[..|outs| - 1]), ErrorOf(outs[|outs| - 1]))
  }

  /** The position of the first panic among the outcomes, |outs| if none. */
  function FirstPanic(outs: seq<Outcome>): (k: nat)
    ensures k <= |outs|
    ensures forall j :: 0 <= j < k ==> outs[j].Returned?
    ensures k < |outs| ==> outs[k].Panicked?
  {
    if outs == [] then 0
    else if outs[0].Panicked? then 0
    else
      assert forall j :: 1 <= j < |outs| ==> outs[j] == outs[1..][j - 1];
      1 + FirstPanic(outs[1..])
  }

  /** The capturedPanic that wait panics with for a panicked outcome. */
  function Captured(o: Outcome): Err
    requires o.Panicked?
  {
    CapturedPanic(o.value, o.stack)
  }

  /** The state shared by the g and wait closures that Bundle returns. */
  class Bundle {
    var callCount: nat
    var waited: bool
    var waitErr: Option<Err>

    /** Once wait has finished, nothing is outstanding any more. */
    predicate Valid()
      reads this
    {
      waited ==> callCount == 0
    }

    constructor ()
      ensures Valid()
      ensures callCount == 0 && !waited && waitErr == None
    {
      callCount, waited, waitErr := 0, false, None;
    }

    /** g(f): counts one more function to wait for, unless wait has finished. */
    method Go() returns (r: Registration)
      requires Valid()
      modifies this
      ensures Valid()
      ensures old(waited) ==> r == AlreadyFinished(FinishedMessage) && callCount == old(callCount)
      ensures !old(waited) ==> r == Started && callCount == old(callCount) + 1
      ensures waited == old(waited) && waitErr == old(waitErr)
    {
      if waited {
        return AlreadyFinished(FinishedMessage);
      }
      callCount := callCount + 1;
      r := Started;
    }

    /** wait(), given the completions it will receive in order. A first call
        takes one completion per outstanding function and folds its error
        into waitErr, or stops at a panic and panics again with it; once it
        has run out of outstanding functions it marks the bundle as waited.
        A call after that returns the cached error and receives nothing. */
    method Wait(arrivals: seq<Outcome>) returns (r: WaitResult, consumed: nat)
      requires Valid()
      requires waited || callCount <= |arrivals|
      modifies this
      ensures Valid()
      ensures old(waited) ==>
                r == Finished(old(waitErr)) && consumed == 0
                && waited && callCount == old(callCount) && waitErr == old(waitErr)
      ensures !old(waited) ==>
                var outs := arrivals[..old(callCount)];
                var k := FirstPanic(outs);
                && waitErr == Fold(old(waitErr), outs[..k])
                && (k == |outs| ==>
                      r == Finished(waitErr) && consumed == |outs| && waited && callCount == 0)
                && (k < |outs| ==>
                      r == Repanic(Captured(outs[k])) && consumed == k + 1
                      && !waited && callCount == old(callCount) - consumed)
    {
      if waited {
        return Finished(waitErr), 0;
      }
      ghost var outs := arrivals[..callCount];
      consumed := 0;
      while callCount > 0
        invariant !waited
        invariant consumed + callCount == |outs|
        invariant forall j :: 0 <= j < consumed ==> outs[j].Returned?
        invariant waitErr == Fold(old(waitErr), outs[..consumed])
      {
        callCount := callCount - 1;
        var o := arrivals[consumed];
        assert o == outs[consumed];
        consumed := consumed + 1;
        if o.Panicked? {
          assert FirstPanic(outs) == consumed - 1;
          return Repanic(CapturedPanic(o.value, o.stack)), consumed;
        }
        assert outs[..consumed][..consumed - 1] == outs[..consumed - 1];
        waitErr := AddConcurrentError(waitErr, o.err);
      }
      assert outs[..consumed] == outs;
      waited := true;
      r := Finished(waitErr);
    }
  }

  /** Wait(fs...): a new bundle, every function registered, then wait. */
  method WaitAll(outcomes: seq<Outcome>) returns (r: WaitResult)
    ensures FirstPanic(outcomes) == |outcomes| ==> r == Finished(Fold(None, outcomes))
    ensures FirstPanic(outcomes) < |outcomes| ==>
              r == Repanic(Captured(outcomes[FirstPanic(outcomes)]))
  {
    var b := new Bundle();
    for k := 0 to |outcomes|
      invariant b.Valid() && !b.waited && b.callCount == k && b.waitErr == None
    {
      var _ := b.Go();
    }
    assert outcomes[..|outcomes|] == outcomes;
    var consumed;
    r, consumed := b.Wait(outcomes);
  }

  // ---------------------------------------------------------------------------
  // What the fold computes.

  /** Outcomes that carry no error leave the accumulated error alone. */
  lemma {:induction false} FoldOfNils(acc: Option<Err>, outs: seq<Outcome>)
    requires forall j :: 0 <= j < |outs| ==> ErrorOf(outs[j]).None?
    ensures Fold(acc, outs) == acc
  {
    if outs != [] {
      FoldOfNils(acc, outs[..|outs| - 1]);
    }
  }

  /** If exactly one outcome carries an error, the fold is that very error,
      not wrapped in an aggregate. */
  lemma {:induction false} FoldOfOne(outs: seq<Outcome>, i: nat)
    requires i < |outs| && ErrorOf(outs[i]).Some?
    requires forall j :: 0 <= j < |outs| && j != i ==> ErrorOf(outs[j]).None?
    ensures Fold(None, outs) == ErrorOf(outs[i])
  {
    var last := |outs| - 1;
    if i == last {
      FoldOfNils(None, outs[..last]);
    } else {
      FoldOfOne(outs[..last], i);
    }
  }

  /** If every outcome carries nil or one same comparable error, and at least
      one carries it, the fold is that error. */
  lemma {:induction false} FoldOfSame(outs: seq<Outcome>, e: Err)
    requires e.Comparable()
    requires forall j :: 0 <= j < |outs| ==> ErrorOf(outs[j]) in {None, Some(e)}
    requires exists j :: 0 <= j < |outs| && ErrorOf(outs[j]) == Some(e)
    ensures Fold(None, outs) == Some(e)
  {
    var last := |outs| - 1;
    var prefix := outs[..last];
    if exists j :: 0 <= j < |prefix| && ErrorOf(prefix[j]) == Some(e) {
      FoldOfSame(prefix, e);
    } else {
      FoldOfNils(None, prefix);
    }
  }

  /** Every member of the fold is a member of the starting error or of some
      outcome's error, and every such member is kept. */
  lemma {:induction false} FoldMembers(acc: Option<Err>, outs: seq<Outcome>, x: Err)
    ensures x in Members(Fold(acc, outs)) <==>
              x in Members(acc) || exists j :: 0 <= j < |outs| && x in Members(ErrorOf(outs[j]))
  {
    if outs != [] {
      var last := |outs| - 1;
      var prefix := outs[..last];
      FoldMembers(acc, prefix, x);
      var before := Fold(acc, prefix);
      assert Fold(acc, outs) == Merge(before, ErrorOf(outs[last]));
      assert x in Members(Fold(acc, outs)) <==> x in Members(before) || x in Members(ErrorOf(outs[last]));
      if j :| 0 <= j < |outs| && x in Members(ErrorOf(outs[j])) {
        if j < last {
          assert prefix[j] == outs[j];
        }
      }
      if j :| 0 <= j < |prefix| && x in Members(ErrorOf(prefix[j])) {
        assert outs[j] == prefix[j];
      }
    }
  }

  /** The order in which completions arrive does not change which errors
      end up in the result. */
  lemma FoldOrderIrrelevant(outs: seq<Outcome>, outs': seq<Outcome>, x: Err)
    requires multiset(outs) == multiset(outs')
    ensures x in Members(Fold(None, outs)) <==> x in Members(Fold(None, outs'))
  {
    FoldMembers(None, outs, x);
    FoldMembers(None, outs', x);
    if exists j :: 0 <= j < |outs| && x in Members(ErrorOf(outs[j])) {
      var j :| 0 <= j < |outs| && x in Members(ErrorOf(outs[j]));
      assert outs[j] in multiset(outs');
      var j' :| 0 <= j' < |outs'| && outs'[j'] == outs[j];
    }
    if exists j :: 0 <= j < |outs'| && x in Members(ErrorOf(outs'[j])) {
      var j :| 0 <= j < |outs'| && x in Members(ErrorOf(outs'[j]));
      assert outs'[j] in multiset(outs);
      var j' :| 0 <= j' < |outs| && outs[j'] == outs'[j];
    }
  }

  /** AnyIs on the result of waiting finds exactly the targets some function
      returned. */
  lemma FoldAnyIs(outs: seq<Outcome>, isTarget: Err -> bool)
    ensures AnyIs(Fold(None, outs), isTarget) <==>
              exists j :: 0 <= j < |outs| && AnyIs(ErrorOf(outs[j]), isTarget)
  {
    var r := Fold(None, outs);
    if AnyIs(r, isTarget) {
      var m :| m in Members(r) && isTarget(m);
      FoldMembers(None, outs, m);
    }
    if exists j :: 0 <= j < |outs| && AnyIs(ErrorOf(outs[j]), isTarget) {
      var j :| 0 <= j < |outs| && AnyIs(ErrorOf(outs[j]), isTarget);
      var m :| m in Members(ErrorOf(outs[j])) && isTarget(m);
      FoldMembers(None, outs, m);
    }
  }

  /** When no function returns an aggregate that contains an aggregate, the
      result of waiting is flat. */
  lemma {:induction false} FoldFlat(acc: Option<Err>, outs: seq<Outcome>)
    requires FlatMembers(acc)
    requires forall j :: 0 <= j < |outs| ==> FlatMembers(ErrorOf(outs[j]))
    ensures FlatMembers(Fold(acc, outs))
  {
    if outs != [] {
      FoldFlat(acc, outs[..|outs| - 1]);
      MergeKeepsFlat(Fold(acc, outs[..|outs| - 1]), ErrorOf(outs[|outs| - 1]));
    }
  }

  /** The capturedPanic that wait panics with unwraps to the panicked value
      when it was an error, and to nil otherwise. */
  lemma RepanicUnwraps(o: Outcome)
    requires o.Panicked?
    ensures o.value.ErrorValue? ==> Unwrap(Captured(o)) == Some(o.value.err)
    ensures o.value.OtherValue? ==> Unwrap(Captured(o)) == None
  {
  }

  // ---------------------------------------------------------------------------
  // The scenarios of the package's tests, stated over the class.

  /** Registering after wait has returned panics and changes nothing; waiting
      again returns the cached error and receives nothing. */
  method WaitIsIdempotent(outcomes: seq<Outcome>) returns (first: WaitResult, second: WaitResult, late: Registration)
    requires FirstPanic(outcomes) == |outcomes|
    ensures first == second == Finished(Fold(None, outcomes))
    ensures late == AlreadyFinished(FinishedMessage)
  {
    var b := new Bundle();
    for k := 0 to |outcomes|
      invariant b.Valid() && !b.waited && b.callCount == k && b.waitErr == None
    {
      var _ := b.Go();
    }
    assert outcomes[..|outcomes|] == outcomes;
    var consumed;
    first, consumed := b.Wait(outcomes);
    late := b.Go();
    second, consumed := b.Wait([]);
  }
}
