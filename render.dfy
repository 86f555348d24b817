/** The Error() strings: ConcurrentErrors.Error and capturedPanic.Error. */
module Rendering {
  import opened ErrorValues
  import opened Merging

  const AggregatePrefix := "concurrent errors: "
  const Separator := "; "
  const PanicPrefix := "gock: managed goroutine panicked: "

  /** strings.Join */
  function Join(ss: seq<string>, sep: string): string
  {
    if ss == [] then ""
    else if |ss| == 1 then ss[0]
    else ss[0] + sep + Join(ss[1..], sep)
  }

  /** err.Error() for every kind of error in the model: an aggregate's message
      starts with the aggregate prefix, and a captured panic's starts with the
      panic prefix and ends with the captured stack. */
  function Message(e: Err): (s: string)
    decreases e
    ensures e.Concurrent? ==> AggregatePrefix <= s
    ensures e.CapturedPanic? ==> PanicPrefix <= s && |e.stack| <= |s| && s[|s| - |e.stack|..] == e.stack
  {
    match e
    case Leaf(_, msg, _) => msg
    case Wrap(_, msg, _, _) => msg
    case Concurrent(es) => AggregatePrefix + Join(Messages(es), Separator)
    case CapturedPanic(v, stack) =>
      var shown := match v
        case ErrorValue(x) => Message(x)
        case OtherValue(text) => text;
      PanicPrefix + shown + "\n\noriginal stack:\n\n" + stack
  }

  /** The messages of a list of errors, in order. */
  function Messages(es: seq<Err>): (ss: seq<string>)
    decreases es
    ensures |ss| == |es|
    ensures forall k :: 0 <= k < |es| ==> ss[k] == Message(es[k])
  {
    if es == [] then [] else [Message(es[0])] + Messages(es[1..])
  }

  /** ConcurrentErrors.Error, with the loop that collects each member's message. */
  method ConcurrentErrorsString(errs: seq<Err>) returns (s: string)
    ensures s == Message(Concurrent(errs))
  {
    var ss: seq<string> := [];
    for k := 0 to |errs|
      invariant |ss| == k
      invariant forall j :: 0 <= j < k ==> ss[j] == Message(errs[j])
    {
      ss := ss + [Message(errs[k])];
    }
    assert ss == Messages(errs);
    s := AggregatePrefix + Join(ss, Separator);
  }

  /** Joining two non-empty lists puts one separator between their joins. */
  lemma {:induction false} JoinAppend(x: seq<string>, y: seq<string>, sep: string)
    requires |x| > 0 && |y| > 0
    ensures Join(x + y, sep) == Join(x, sep) + sep + Join(y, sep)
  {
    if |x| == 1 {
      assert (x + y)[1..] == y;
    } else {
      assert (x + y)[1..] == x[1..] + y;
      JoinAppend(x[1..], y, sep);
    }
  }

  /** The length of a join: every string plus one separator between each pair. */
  lemma {:induction false} JoinLength(ss: seq<string>, sep: string)
    requires |ss| > 0
    ensures |Join(ss, sep)| == TotalLength(ss) + (|ss| - 1) * |sep|
  {
    if |ss| > 1 {
      JoinLength(ss[1..], sep);
    }
  }

  function TotalLength(ss: seq<string>): nat
  {
    if ss == [] then 0 else |ss[0]| + TotalLength(ss[1..])
  }

  lemma {:induction false} MessagesAppend(a: seq<Err>, b: seq<Err>)
    ensures Messages(a + b) == Messages(a) + Messages(b)
  {
    var l, r := Messages(a + b), Messages(a) + Messages(b);
    forall k | 0 <= k < |l| ensures l[k] == r[k] {
      if k < |a| {
        assert (a + b)[k] == a[k];
      } else {
        assert (a + b)[k] == b[k - |a|];
      }
    }
  }

  /** The text an error contributes to an aggregate's message: the members'
      messages of an aggregate, joined, or the error's own message. */
  function Body(e: Err): string
  {
    Join(Messages(Parts(e)), Separator)
  }

  /** The message of a merge that builds an aggregate lists the parts of `to`,
      then those of `err`, in order, after the fixed prefix. */
  lemma MergedMessage(to: Err, err: Err)
    requires !SameError(Some(to), Some(err))
    requires |Parts(to)| > 0 && |Parts(err)| > 0
    ensures Merge(Some(to), Some(err)).Some?
    ensures Message(Merge(Some(to), Some(err)).value)
              == AggregatePrefix + Body(to) + Separator + Body(err)
  {
    MessagesAppend(Parts(to), Parts(err));
    JoinAppend(Messages(Parts(to)), Messages(Parts(err)), Separator);
  }

  /** AddConcurrentError(errors.New("foo"), errors.New("bar")).Error() is
      "concurrent errors: foo; bar". */
  lemma FooBarMessage()
    ensures Message(Merge(Some(Leaf(0, "foo", true)), Some(Leaf(1, "bar", true))).value)
              == "concurrent errors: foo; bar"
  {
  }
}
