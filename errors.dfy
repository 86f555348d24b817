/** Go error values as they flow through gock: plain errors, wrappers with an
    Unwrap method, the ConcurrentErrors aggregate and a captured panic.

    Two Err values are equal exactly when Go's `==` on the two interface
    values would say so; that comparison is only made when the dynamic type
    is comparable, which Comparable() reports in place of reflection. */
module ErrorValues {

  datatype Option<+T> = None | Some(value: T)

  datatype Err =
      /** An error without an Unwrap method (errors.New, a string-based error type).
          `id` distinguishes two values with the same message (two pointers). */
    | Leaf(id: nat, msg: string, comparable: bool)
      /** An error whose Unwrap method returns `inner` (fmt.Errorf with %w, a chain struct). */
    | Wrap(id: nat, msg: string, comparable: bool, inner: Err)
      /** ConcurrentErrors{Errors}: it holds a slice, so it is never comparable. */
    | Concurrent(errors: seq<Err>)
      /** capturedPanic{p, stack}: it holds a byte slice, so it is never comparable. */
    | CapturedPanic(value: PanicValue, stack: string)
  {
    /** reflect.TypeOf(e).Comparable() */
    predicate Comparable() {
      match this
      case Leaf(_, _, c) => c
      case Wrap(_, _, c, _) => c
      case Concurrent(_) => false
      case CapturedPanic(_, _) => false
    }
  }

  /** The value a goroutine panicked with: an error, or any other value
      (kept only as the text `%v` would print for it). */
  datatype PanicValue = ErrorValue(err: Err) | OtherValue(text: string)

  /** The parts an error contributes when it is merged: the members of an
      aggregate, or the error itself. */
  function Parts(e: Err): (r: seq<Err>)
    ensures |r| >= 1 || e.Concurrent?
  {
    if e.Concurrent? then e.errors else [e]
  }

  /** The parts of a possibly nil error; nil contributes nothing. */
  function Members(o: Option<Err>): seq<Err>
  {
    match o
    case None => []
    case Some(e) => Parts(e)
  }

  /** The invariant AddConcurrentError keeps: no ConcurrentErrors directly
      contains another ConcurrentErrors. */
  predicate FlatMembers(o: Option<Err>)
  {
    forall m :: m in Members(o) ==> !m.Concurrent?
  }

  /** capturedPanic.Unwrap: the panicked value if it is an error, nil otherwise. */
  function PanicCause(v: PanicValue): (r: Option<Err>)
    ensures r.Some? <==> v.ErrorValue?
    ensures r.Some? ==> r.value == v.err
  {
    match v
    case ErrorValue(e) => Some(e)
    case OtherValue(_) => None
  }

  /** The number of constructors in an error tree; every unwrap step and every
      splice of an aggregate strictly lowers the total size of pending work. */
  function Size(e: Err): nat
    decreases e
  {
    match e
    case Leaf(_, _, _) => 1
    case Wrap(_, _, _, inner) => 1 + Size(inner)
    case Concurrent(es) => 1 + SizeSeq(es)
    case CapturedPanic(v, _) =>
      match v
      case ErrorValue(x) => 1 + Size(x)
      case OtherValue(_) => 1
  }

  function SizeSeq(es: seq<Err>): nat
    decreases es
  {
    if es == [] then 0 else Size(es[0]) + SizeSeq(es[1..])
  }

  lemma {:induction false} SizeSeqAppend(a: seq<Err>, b: seq<Err>)
    ensures SizeSeq(a + b) == SizeSeq(a) + SizeSeq(b)
  {
    if a == [] {
      assert a + b == b;
    } else {
      assert (a + b)[1..] == a[1..] + b;
      SizeSeqAppend(a[1..], b);
    }
  }

  /** An element of a sequence weighs no more than the whole sequence. */
  lemma {:induction false} SizeOfMember(es: seq<Err>, k: nat)
    requires k < |es|
    ensures Size(es[k]) <= SizeSeq(es)
  {
    if k > 0 {
      SizeOfMember(es[1..], k - 1);
    }
  }
}
