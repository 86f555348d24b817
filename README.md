# gock, modelled in Dafny

gock is a small Go package for structured concurrency. `Bundle` returns two
closures. `g` starts a function in a new goroutine. `wait` blocks until every
function given to `g` has returned, then gives back their errors merged into
one. `AddConcurrentError` does the merging. Two errors that are the same
comparable value collapse into one. Distinct errors become a flat
`ConcurrentErrors`. The aggregate renders as
`concurrent errors: a; b`. `AnyIs`, `AnyAs` and `ConcurrentErrors.Is` test its
members. `ConcurrentErrors.Unwrap` looks for a common ancestor of the
members' error chains. A panic in a managed goroutine is recovered into a
`capturedPanic` and raised again in the goroutine that calls `wait`.

The model has one module per concern of `gock.go`:

- `errors.dfy` (`ErrorValues`): Go error values as a datatype. There is a
  plain error, a wrapper with an `Unwrap` method, the `ConcurrentErrors`
  aggregate and `capturedPanic`. A `comparable` flag stands in for
  `reflect.TypeOf(e).Comparable()`. Datatype equality stands in for Go's `==`
  on interfaces. The aggregate and the captured panic both hold a slice, so
  neither is ever comparable. A nil error is `None`.
- `merge.dfy` (`Merging`): `AddConcurrentError`. The function `Merge`
  specifies it. The method `AddConcurrentError` has the source's loop over
  `{to, err}`.
- `render.dfy` (`Rendering`): `Error()` for every kind of error.
  `ConcurrentErrorsString` has the source's loop that collects messages.
- `ancestor.dfy` (`Ancestry`): `ConcurrentErrors.Unwrap` and `unwrap`. The
  function `Scan` gives the worklist search as tail recursion. The method
  `ConcurrentErrorsUnwrap` has the source's growing `chain` and its
  `timesFound` map, and is proved equal to `Scan`.
- `matching.dfy` (`Matching`): `AnyIs`, `AnyAs` and `ConcurrentErrors.Is`.
  Each takes the standard library's chain test as a function parameter.
- `bundle.dfy` (`Bundles`): the state shared by `g` and `wait`, as a class
  `Bundle`. Its fields are `callCount`, `waited` and `waitErr`. Registration
  is `Go` and waiting is `Wait`. `WaitAll` is the `Wait(fs...)` shortcut.
  The goroutines and channels are replaced by the completions that `wait`
  receives, in the order it receives them. A completion is either
  `Returned(err)` or `Panicked(value, stack)`. `Wait(fs...)` at
  gock.go:131-137 registers every function and only then waits; it never runs
  one of them in the calling goroutine. After a `wait` that panicked,
  `callCount` has already been lowered and `waited` is still unset
  (gock.go:85-91), so a later `wait` goes on receiving the remaining
  completions. `Bundle.Wait` states exactly that state.

## Model

| member | source | states |
|---|---|---|
| `ErrorValues.Parts` | gock.go:162-165 | an aggregate contributes its members and any other error contributes itself, so only an aggregate can contribute nothing |
| `ErrorValues.PanicCause` | gock.go:110-117 | capturedPanic.Unwrap is non-nil exactly when the panicked value is an error, and then it is that error |
| `Merging.SameError` | gock.go:157 | the collapse test holds only of two equal non-nil errors of a comparable type; such an error is never an aggregate, so both inputs contribute the same single member |
| `Merging.Merge` | gock.go:152-170 | the merge is nil only when both inputs are nil; its members are exactly the members of the two inputs |
| `Merging.AddConcurrentError` | gock.go:152-170 | the method, with its append loop over `{to, err}`, computes `Merge` |
| `Merging.MergeIdentities` | gock.go:153-158 | nil is an identity on both sides; a comparable error merged with itself comes back unchanged, with no aggregate built |
| `Merging.MergeSplices` | gock.go:159-168 | two non-nil errors that do not collapse give an aggregate of the members of `to` followed by those of `err`; its length is the sum of theirs |
| `Merging.MergeKeepsFlat` | gock.go:160-168 | if neither input has an aggregate among its members, the merge has none either (the invariant named in the doc comment at gock.go:178-179) |
| `Merging.MergeAggregates` | gock.go:152-170 | the result is an aggregate exactly when two non-collapsing errors are merged or one side is nil and the other is already an aggregate |
| `Merging.MergeMembersCommute` | gock.go:160-168 | swapping the two inputs does not change the set of members |
| `Merging.FlattenNested` | gock_test.go:120-140 | three distinct errors merged in a nested way give one flat aggregate of three, in order |
| `Merging.MergeTwoAggregates` | gock_test.go:260-279 | merging two aggregates does not compare them and concatenates their members in order |
| `Rendering.Message` | gock.go:106-108 | the definition of `Error()` that `ConcurrentErrorsString` and `MergedMessage` are proved against; a capturedPanic's message starts with `gock: managed goroutine panicked: ` and ends with the captured stack, and an aggregate's message (`ConcurrentErrors.Error`, gock.go:185-191) starts with `concurrent errors: ` |
| `Rendering.Messages` | gock.go:186-189 | the list of messages has one entry per member: the message of that member, at the same position |
| `Rendering.ConcurrentErrorsString` | gock.go:185-191 | the method, with its message-collecting loop, produces `Message` of the aggregate: the prefix `concurrent errors: ` and then the members' messages joined with `; ` |
| `Rendering.JoinAppend` | gock.go:190 | joining two non-empty lists puts exactly one separator between their two joins |
| `Rendering.JoinLength` | gock.go:190 | a join's length is the sum of the strings' lengths plus one separator per gap |
| `Rendering.MergedMessage` | gock.go:185-191 | the message of a merged aggregate is the prefix, then the parts of `to`, a separator, and the parts of `err`, in that order |
| `Rendering.FooBarMessage` | gock_test.go:113-118 | merging errors "foo" and "bar" renders as `concurrent errors: foo; bar` |
| `Ancestry.Scan` | gock.go:198-220 | the worklist search as tail recursion, which `ConcurrentErrorsUnwrap` is proved equal to; a returned value is comparable and the member count is positive |
| `Ancestry.Ancestor` | gock.go:195-222 | the result of `ConcurrentErrors.Unwrap`: non-nil only for a non-empty aggregate and then a comparable error, so an empty aggregate unwraps to nil |
| `Ancestry.Unwrap` | gock.go:267-276 | on a comparable error, `unwrap` yields the wrapped error of a wrapper and nil otherwise; whatever it returns is a strictly smaller value of the datatype, which has no cyclic chains |
| `Ancestry.ConcurrentErrorsUnwrap` | gock.go:195-222 | the worklist loop, which appends to `chain` while walking it and counts in `timesFound`, computes `Ancestor` |
| `Ancestry.ScanSound` | gock.go:198-220 | from any point of the search, a returned value is comparable, and the counts so far plus its pending occurrences reach the member count |
| `Ancestry.AncestorSound` | gock.go:212-215 | a non-nil result is comparable; it occurs at least once per member among all worklist entries; it is reachable from some member by splicing and unwrapping |
| `Ancestry.AncestorSmaller` | gock.go:195-222 | a non-nil result is smaller than the aggregate it came from |
| `Ancestry.ScanComplete` | gock.go:198-220 | if the search can never give up and some value still has enough occurrences to reach the member count, the search returns a value |
| `Ancestry.AncestorComplete` | gock.go:212-221 | if no chain holds an uncomparable non-aggregate entry and some value occurs once per member, Unwrap is non-nil |
| `Ancestry.ScanGivesUp` | gock.go:201-209 | once the search reaches an entry among the first n that is neither comparable nor an aggregate, it returns nil |
| `Ancestry.AncestorGivesUp` | gock.go:201-209 | a member that is neither comparable nor an aggregate makes Unwrap nil |
| `Ancestry.CommonAncestorSound` | gock.go:193-194 | when every link of every member's chain is comparable, a non-nil result lies on every member's chain |
| `Ancestry.CommonAncestorFound` | gock.go:212-221 | when every link of every member's chain is comparable and every chain passes through some value, Unwrap is non-nil and returns a value on every chain |
| `Ancestry.NestedAggregateExample` | gock.go:201-215 | an aggregate `{v, v}` among the members is spliced in and counted twice, so `v` is returned although it is not on the other member's chain |
| `Ancestry.WrappedAggregateExample` | gock.go:198-218 | AddConcurrentError builds the aggregate `{v, x, v}`; a comparable wrapper around it is counted, unwrapped to the aggregate, which is spliced in, and `v` is returned at its second count although it is not on the other member's chain |
| `Ancestry.NoCommonAncestorExample` | gock_test.go:237-247 | two chains that end in different errors have no common ancestor |
| `Ancestry.CommonAncestorExample` | gock_go1.13_test.go:12-35 | two wrapped chains ending in the same error find it |
| `Matching.AnyMember` | gock.go:232-237 | the early-return loop is true exactly when some member matches |
| `Matching.AnyIs` | gock.go:226-238 | AnyIs holds exactly when some member of the aggregate matches; a non-aggregate error is its own single member; nil never matches |
| `Matching.FirstAs` | gock.go:248-253 | the loop succeeds exactly when some member matches, and it stores the value of the first member that matches |
| `Matching.AnyAs` | gock.go:242-254 | AnyAs succeeds exactly when some member matches, and it stores the value of the first member that matches; a non-aggregate error is its own single member |
| `Matching.AllMembers` | gock.go:258-265 | ConcurrentErrors.Is holds exactly when every member matches, so it holds vacuously when there are no members |
| `Matching.AnyIsMerge` | gock.go:226-238 | AnyIs holds of a merge exactly when it holds of one of the inputs |
| `Matching.AllMembersMerge` | gock.go:258-265 | the Is of a merged aggregate holds exactly when every part of both inputs matches |
| `Matching.TwoDistinctErrors` | gock_test.go:26-41 | after merging two distinct errors, AnyIs finds each of them |
| `Bundles.Fold` | gock.go:93 | the left fold of AddConcurrentError that `wait` performs and `Bundle.Wait` is proved against; it is nil exactly when the starting error and every returned error are nil |
| `Bundles.FirstPanic` | gock.go:89-91 | gives the position of the first panicked completion: all before it returned, and it is a panic unless it is the end |
| `Bundles.Bundle.constructor` | gock.go:42-50 | a new bundle has nothing outstanding, has not been waited and holds a nil error |
| `Bundles.Bundle.Go` | gock.go:52-70 | once waited, registering fails with "gock: bundle already finished" and changes nothing; otherwise it adds exactly one to `callCount` and changes nothing else |
| `Bundles.Bundle.Wait` | gock.go:73-96 | after waiting, it returns the cached error and takes no completion; otherwise it takes exactly `callCount` completions and folds their errors into `waitErr`, then marks the bundle waited; at the first panic it stops, leaving the count reduced and the bundle not waited, and panics with the capturedPanic |
| `Bundles.WaitAll` | gock.go:131-137 | the result is the left fold of AddConcurrentError from nil over all returned errors, or a panic with the first panicked completion |
| `Bundles.FoldOfNils` | gock_test.go:98-111 | when every function returns nil, waiting returns nil |
| `Bundles.FoldOfOne` | gock_test.go:12-24 | when exactly one function returns an error, waiting returns that very error, not wrapped |
| `Bundles.FoldOfSame` | gock_test.go:43-57 | when functions return only nil or one same comparable error, waiting returns that error |
| `Bundles.FoldMembers` | gock.go:28-29 | the members of the result are exactly the members of the returned errors |
| `Bundles.FoldOrderIrrelevant` | gock.go:28-29 | the order in which completions arrive does not change the set of members of the result |
| `Bundles.FoldAnyIs` | gock_test.go:26-41 | AnyIs on the result of waiting holds exactly when it holds of one of the returned errors |
| `Bundles.FoldFlat` | gock.go:178-179 | if no returned error has a nested aggregate, the result has none |
| `Bundles.RepanicUnwraps` | gock.go:36-39 | the capturedPanic that `wait` panics with unwraps to the panicked error, or to nil when the value was not an error |
| `Bundles.WaitIsIdempotent` | gock_test.go:67-96 | with no panics, registering after the first wait fails with "gock: bundle already finished", and a second wait returns the same result as the first |

## Left out

- Goroutines, the `errs` and `panics` channels, `select` and the mutex (gock.go:43-69, gock.go:89-94) are not modelled. `Wait` receives the completions as a sequence, in arrival order. Registration and waiting are sequential calls on one object.
- Bundles.Bundle.Wait: requires one completion per outstanding function. In Go, a function that never returns blocks `wait` forever, and the model does not capture that.
- The early `return waitErr` at gock.go:76-77 leaves the mutex locked, so a later `g` or `wait` would block instead of panicking or returning. This is a locking defect, and the sequential model has no lock.
- `debug.Stack()` is a string parameter of a panicked completion. The `%v` text of a panicked non-error value is a string carried with the value.
- Go's `==` on a comparable struct whose interface field holds an uncomparable value panics at run time. So does hashing such a value as a map key, which `ConcurrentErrors.Unwrap` does at `timesFound[err]++` (gock.go:212). For example, a wrapper that is a plain struct value holding a `ConcurrentErrors` in an interface field (like the tests' `chain` type) panics there. The model does not tell value wrappers from pointer wrappers, and uses datatype equality and map keys, which never panic. `Scan` counts such a value wrapper and carries on, where Go would panic inside `Unwrap`. A pointer wrapper, such as the one `fmt.Errorf` with `%w` returns, hashes without trouble, and on it Go does what `Scan` does.
- Cyclic error chains, where an `Unwrap` returns an error met earlier in the chain, cannot be built as values of the datatype. In Go, `ConcurrentErrors.Unwrap` would count the repeated value on every pass and return it once the count reaches `len(Errors)`.
- A wrapper whose `Unwrap` returns nil is not modelled. Nor is a `ConcurrentErrors` built by hand with nil members.
- The internals of `errors.Is`, `errors.As` and `xerrors` are not modelled. They are function parameters, and the target is taken to be non-nil. `errors.As` panicking on an invalid target is not modelled.
- gock_go1.12.go and gock_go1.13.go repeat the member loops of `AnyMember` and `FirstAs` as methods of ConcurrentErrors, and they are not modelled separately.
- `GoFunc.NoErr` (gock.go:16-21) is not modelled. It wraps a function so that it returns nil.
- Ancestry.CommonAncestorSound: the common-ancestor reading is proved only when every link of every member's chain is comparable. `timesFound` counts every worklist entry, and an aggregate found anywhere in the search is spliced in with all its members. So a value can reach the count while lying on one member's chain only. The usual case is an aggregate built by AddConcurrentError and then wrapped by a pointer wrapper such as `fmt.Errorf` with `%w` (`WrappedAggregateExample`). An aggregate placed directly among the members does the same (`NestedAggregateExample`). The model never repeats a value within a single chain, because each link is smaller than the one before.
