# jest-zest fixture helpers, modelled in Dafny

jest-zest gives Jest test authors three helpers whose values are bound to the
test lifecycle:

- `lazy(creator, cleanup?)` creates a value on first use in a test and caches
  it for the rest of that test. Its handle can be called directly. A member
  read returns a forwarder that fills the cache and then calls that member on
  the cached value. After every test an `afterEach` hook runs `cleanup` on the
  cached value and empties the cache.
- `vary(initialValue)` is a value that `new handle(v)` overrides for the tests
  of the current `describe` group. A `beforeEach` hook registered by the
  innermost group wins.
- `fresh(creator, refresher)` gives a new object on every call or index read
  (`handle[0]`, `handle[1]`, …). For each object it registers an `afterEach`
  that refreshes it.

The model has one state value, `Zest.World`:

- the runner's stack of `describe` scopes, each with a before list and an
  after list of hooks;
- the closure variables of every helper made so far, in tables indexed by the
  helper's handle;
- a log of every call into code outside the model: creators, cleanups,
  refreshers and member functions;
- the status of the running test body: running, or thrown with a
  `TypeError`, `RangeError` or `ReferenceError`.

Each proxy trap and each runner operation is a transition function on that
value (module `Zest`). The class `Runner.Suite` holds the same state in
mutable fields. Its methods change those fields in place, and each method is
proved to make exactly the transition its `Zest` function describes. The
modules `LazyFacts`, `VaryFacts` and `FreshFacts` prove what each helper
promises across calls and tests. `IndexKey` models the test the fresh get
trap uses to decide whether a key is an index. `Steps` splits a test body and
a test into their phases.

Other parts of the system become parameters, in `Zest.Env`:

- what an external creator returns, `produce(id, t)`, where `t` is the number
  of events logged so far;
- what a member function returns for a receiver and arguments, `natives`.

A lazy whose creator calls another lazy has the creator `Wrapping(key, inner)`,
which stands for `() => ({ [key]: inner() })`. The inner lazy may be defined
before or after the outer one, since the closure reads it only when it runs.
If it is not defined yet when the creator runs, the creator throws a
`ReferenceError`. Lazies whose creators call each other, with their slots
empty, recurse until the stack overflows. The model tracks the creators that
are running and stops such a call with the `RangeError` the engine raises.

The traps throw in three places, and the model records each as a status:

- a forwarded call whose cached value is null or undefined reads a member of
  it, which is a `TypeError`;
- `handle.calls(...)` calls the undefined the get trap returns for `calls`,
  which is a `TypeError`;
- a creator that calls an undefined or cyclic lazy, as above.

A throw ends the test body: the remaining steps run no code and observe
undefined. The after hooks still run, as Jest runs them for a failed test.

A test runs as follows:

1. It gets a scope of its own.
2. The before hooks run, outermost scope first.
3. The body runs, as a sequence of `Action`s.
4. The after hooks run, innermost scope first. The hooks the body registered
   come first of all.
5. The test's own scope is dropped.

Step 1 is how a `fresh` refresher registered during a test runs after that
test only.

## Model

| member | source | states |
|---|---|---|
| IndexKey.TrimStart | src/index.ts:80 | `parseInt` skips leading white space: the result is a suffix of the key, everything dropped is white space, and the result does not start with white space |
| IndexKey.DigitPrefix | src/index.ts:80 | `parseInt` reads the longest run of decimal digits: it is a prefix, all digits, and the next character is not a digit |
| IndexKey.ParseInt | src/index.ts:80 | `parseInt(prop, 10)` gives an integer only when the key holds a digit; a non-zero result is negative exactly when the key, after its white space, starts with a minus sign |
| IndexKey.NatToString | src/index.ts:81 | `toString` of a natural number is a non-empty digit string that starts with 0 only for 0 |
| IndexKey.IntToString | src/index.ts:81 | `toString` of an integer starts with a minus sign exactly for a negative integer, and the digits after it are non-empty and start with 0 only for 0 |
| IndexKey.IsIndexKey | src/index.ts:79-81 | a key that passes `parseInt(prop, 10).toString() === prop` is non-empty and starts with a minus sign or a digit |
| IndexKey.ParseIntToString | src/index.ts:80-81 | `parseInt` of the decimal rendering of any integer gives that integer back |
| IndexKey.IntToStringIsCanonical | src/index.ts:81 | the rendering of an integer has no leading zero and no plus sign, and its magnitude is the integer's absolute value |
| IndexKey.CanonicalIsIndexKey | src/index.ts:79-81 | every canonical integer string of magnitude at most 2^53 passes the index test |
| IndexKey.NonCanonicalRejected | src/index.ts:79-81 | a key that is not written the way JavaScript prints an integer fails the index test |
| IndexKey.IndexKeyIsCanonical | src/index.ts:79-81 | a key whose `parseInt(prop, 10)` is an integer passes `parseInt(prop, 10).toString() === prop` exactly when it is a canonical integer string of magnitude at most 2^53; the key "NaN", whose parse is not an integer, is left out |
| IndexKey.NaNKeyRejected | src/index.ts:80-81 | `parseInt("NaN")` is NaN, and the model's index test rejects the key "NaN" |
| IndexKey.LeadingZeroRejected | src/index.ts:79-81 | a key of two or more characters with a leading zero, after an optional minus sign, fails the index test |
| IndexKey.TrailingTextRejected | src/index.ts:79-81 | a key that starts with a digit and holds a non-digit later fails the index test |
| IndexKey.IndexKeysAccepted | src/index.ts:79-81 | "0" and "12" are index keys |
| IndexKey.SignedIndexKeysAccepted | src/index.ts:79-81 | "3" and "-3" are index keys: the code accepts negative integers |
| IndexKey.MalformedIndexKeysRejected | src/index.ts:79-81 | "03", "+3" and "3a" are not index keys |
| IndexKey.OtherKeysRejected | src/index.ts:75-81 | "-0", "", " 3" and "length" are not index keys |
| JsValues.GetProperty | src/index.ts:33 | `current[prop]` of a value that is not null or undefined is the object's own property when it has one, and undefined in every other case |
| Zest.BeforeEach | src/index.ts:50-52 | a `beforeEach` joins the end of the innermost scope's before list; no other scope changes |
| Zest.AfterEach | src/index.ts:7-12 | an `afterEach` joins the end of the innermost scope's after list; no other scope changes |
| Zest.Initial | src/index.ts:1-102 | before any helper is created there is only the runner's root scope, with no hooks, and no lazy, vary or fresh definitions |
| Zest.Describe | src/index.ts:7-12 | entering a `describe` block pushes an empty scope for the hooks registered in it and changes nothing else |
| Zest.EndDescribe | src/index.ts:7-12 | leaving a `describe` block drops its scope and the hooks registered in it, and changes nothing else |
| Zest.RunHook | src/index.ts:7-12 | running one hook keeps the definitions, the scope stack and the status, and only extends the log |
| Zest.RunHooks | src/index.ts:7-12 | running a list of hooks keeps the definitions, the scope stack and the status, and only extends the log |
| Zest.DefineLazy | src/index.ts:1-12 | `lazy(creator, cleanup?)` adds a new handle with an empty slot and appends its reset to the innermost after list; nothing else changes |
| Zest.Create | src/index.ts:17 | a creator call that completes logs itself last; before that only lazies whose creators are not running and whose slots were falsy are created; truthy slots and the slots of running creators keep their values; a wrapping creator returns a newly allocated object; a creator that throws returns undefined |
| Zest.LazyApplyIn | src/index.ts:15-21 | a truthy slot is returned and nothing changes; a falsy slot whose creator is already running throws a RangeError; otherwise the creator runs once and its value fills the slot and is returned, or the call throws and the slot keeps its value |
| Zest.FillSlot | src/index.ts:16-18 | the creator of a falsy slot runs once; when it completes, its value fills the slot and is logged last, and when it throws the slot keeps its value |
| Zest.LazyApply | src/index.ts:15-21 | a truthy slot is returned and nothing changes; otherwise the creator runs once, its value fills the slot and is returned; a throw leaves the slot as it was; no truthy slot changes |
| Zest.LazyGet | src/index.ts:22-27 | the get trap returns nothing exactly for `calls`, and otherwise a forwarder for the same slot and key; it reads no state, so a lookup never runs the creator |
| Zest.ForwardedCall | src/index.ts:28-37 | a forwarded call keeps the definitions and the vary cells |
| Zest.MemberCall | src/index.ts:22-37 | `handle[key](...args)` throws a TypeError and changes nothing else when `key` is `calls`, and is the forwarder's call for every other key |
| Zest.DefineVary | src/index.ts:43-52 | `vary(initialValue)` adds a cell holding `initialValue` and appends its reset to the innermost before list; nothing else changes |
| Zest.VaryConstruct | src/index.ts:58-63 | `new handle(v)` changes only the innermost scope, and the vary cells, definitions and status stay as they are |
| Zest.DefineFresh | src/index.ts:69-73 | `fresh(creator, refresher)` only records the creator: no hook is registered and the scope stack is unchanged |
| Zest.FreshCreate | src/index.ts:92-98 | a fresh access changes only the innermost scope, and an innermost after list that holds only refreshers still does; the definitions and the vary cells stay as they are (FreshFacts.FreshCreateOnce and FreshFacts.PerformRefresher give the exact change) |
| Zest.FreshGet | src/index.ts:74-91 | a fresh property read changes only the innermost scope, and an innermost after list that holds only refreshers still does; the definitions and the vary cells stay as they are |
| Zest.Perform | src/index.ts:14-98 | no step of a test body changes a definition, a vary cell or an outer scope; once the body has thrown, a step changes nothing and observes undefined |
| Zest.PerformAll | src/index.ts:14-98 | a whole body changes no definition, no vary cell and no outer scope, and observes one value per step |
| Zest.TestStart | src/index.ts:50-52 | a test starts running, in a scope of its own on top of the enclosing ones |
| Zest.FinishTest | src/index.ts:7-12 | the end of a test, thrown or not, drops the test's own scope and keeps every definition and the status |
| Zest.RunTest | src/index.ts:7-12 | after a test the scope stack is exactly as before, so hooks its body registered do not outlive it |
| Steps.PerformAllPrefix | src/index.ts:14-98 | the values the first k steps of a body observe are the first k values the whole body observes |
| Steps.PerformAllStep | src/index.ts:14-98 | step k of a body starts in the state the first k steps leave |
| Steps.SkippedStep | src/index.ts:14-98 | a step that starts after the body has thrown changes nothing and observes undefined |
| Steps.ThrownBodyStops | src/index.ts:14-98 | once a step has thrown, every later state of the body is the one the throw left |
| Steps.ThrownBodyObservesUndefined | src/index.ts:14-98 | once a step has thrown, every later step observes undefined |
| Steps.RunHooksAppend | src/index.ts:7-12 | a hook list split in two runs as its halves, in order |
| Steps.RunTestPhases | src/index.ts:7-12 | a test is its before hooks, its body, the refreshers the body registered, then the enclosing after hooks innermost first |
| LazyFacts.LazyApplyInCreations | src/index.ts:15-21 | a call, also one made by another lazy's creator, runs its own creator once when the slot is falsy and the call completes, and not at all otherwise |
| LazyFacts.LazyApplyCreations | src/index.ts:15-21 | a direct call runs its own creator exactly once when the slot is falsy and the call completes, and not at all otherwise |
| LazyFacts.LazyMemoizes | src/index.ts:15-21 | of two direct calls, the second returns the first's value and changes nothing if that value is truthy; a falsy value is created again, so the creator runs twice |
| LazyFacts.LazyMemoizedInTest | src/index.ts:15-21 | within one test, once a direct call returned a truthy value, every later direct call returns the same value unless the body threw before it, and the creator does not run in between |
| LazyFacts.PerformKeepsCache | src/index.ts:15-37 | no step of a test body replaces a truthy cached value or runs the creator of a filled slot |
| LazyFacts.KeepsCacheBetween | src/index.ts:15-37 | the same holds across any stretch of a body |
| LazyFacts.ForwardedCallSharesSlot | src/index.ts:28-37 | a forwarded call fills the slot exactly as a direct call does; a throw there ends it; a null or undefined value throws a TypeError; otherwise `current[key]` is applied with `current` as receiver if it is a function, and else undefined is returned and nothing more changes |
| LazyFacts.DirectThenForwarded | src/index.ts:15-37 | after a direct call that returned a truthy value, a forwarded call uses that same value as receiver and does not run the creator again |
| LazyFacts.ForwardedThenDirect | src/index.ts:15-37 | after a forwarded call whose receiver is truthy, a direct call returns that receiver, without running the creator |
| LazyFacts.ForwardedAfterDirectInTest | src/index.ts:15-37 | within one test, a forwarded call anywhere after a direct call that returned a truthy value looks the member up on that value and calls it with that value as receiver, unless the body threw before it; the creator does not run in between |
| LazyFacts.DirectAfterForwardedInTest | src/index.ts:15-37 | within one test, a forwarded call that left a truthy value cached, then a direct call later: the direct call returns that value unless the body threw before it, and the creator does not run in between |
| LazyFacts.CyclicLaziesThrow | src/index.ts:15-21 | two empty lazies whose creators call each other, or one that calls itself, throw a RangeError and create and cache nothing |
| LazyFacts.RunHookOtherSlot | src/index.ts:7-12 | a hook other than a lazy's own reset leaves its slot and its cleanups alone |
| LazyFacts.OtherHooksKeepSlot | src/index.ts:7-12 | hooks other than a lazy's own reset leave its slot and its cleanups alone |
| LazyFacts.ResetOnce | src/index.ts:7-12 | hooks that hold a lazy's reset once run its cleanup once, with the cached value, only if cleanup was given and the value is not null or undefined; the slot is empty afterwards in every case |
| LazyFacts.ResetEmpties | src/index.ts:7-12 | a lazy whose reset is among the hooks has an empty slot after them |
| LazyFacts.NoLeakAfterTest | src/index.ts:7-12 | after any test, a lazy made in an enclosing scope has an empty slot, so nothing cached leaks into the next test |
| LazyFacts.CleanupOncePerTest | src/index.ts:7-12 | after a test, the cleanup of a lazy made once in the enclosing scopes has run exactly once, with the value the body left cached, when there is one and a cleanup was given |
| LazyFacts.DefinedLazyIsReset | src/index.ts:5-12 | `lazy(...)` starts with an empty slot and registers its reset exactly once |
| LazyFacts.ChainedLazyComposes | src/index.ts:15-21 | an outer lazy whose creator wraps an inner lazy, defined before or after it, throws a ReferenceError when the inner one is not defined, and throws when the inner call throws; otherwise it resolves to a new object holding the inner value, the inner slot then holds that value, its creator ran at most once, and the next inner call returns the value unchanged |
| VaryFacts.LastAssignAppend | src/index.ts:50-61 | the last assignment in two hook lists, one after the other, is that of the second list if it has one, and else that of the first |
| VaryFacts.BeforeHooksInnermost | src/index.ts:50-61 | running the before hooks outer scope first leaves the assignment of the innermost scope that makes one |
| VaryFacts.RunHooksAssigns | src/index.ts:50-61 | after a list of hooks the cell holds the last value they assign to it, or its old value if they assign none |
| VaryFacts.TestStartAssigns | src/index.ts:50-61 | a test starts with every cell holding the innermost enclosing scope's assignment |
| VaryFacts.VarySeenInTest | src/index.ts:50-61 | every read of a vary handle in a test body, also one after `new handle(v)` in that body, returns the innermost enclosing scope's assignment, unless the body threw before it |
| VaryFacts.DefineVaryAssigns | src/index.ts:48-52 | `vary(initialValue)` assigns `initialValue` in the current scope and changes no other cell's assignment |
| VaryFacts.VaryConstructOverrides | src/index.ts:58-63 | `new handle(...args)` appends exactly one before hook, which assigns the first argument; no after hook or other cell changes; the result is a new empty object |
| VaryFacts.ReadOnce | src/index.ts:55-57 | a test that reads the handle sees the innermost assignment |
| VaryFacts.ReadThenOverride | src/index.ts:55-61 | a read, then a nested group that overrides the handle, which makes the new value innermost |
| VaryFacts.ReadThenEnd | src/index.ts:55-57 | a read, then the end of the group; the scope stack is back to the outer one |
| VaryFacts.OverrideGroupReads | src/index.ts:50-61 | in a group that overrides with 9, the tests read 9, then 12 inside an inner override of 12, then 9 again |
| VaryFacts.NestedOverrides | src/index.ts:48-62 | `vary(5)` with nested overrides of 9 and then 12: five tests read 5, 9, 12, 9, 5 |
| FreshFacts.FreshLength | src/index.ts:75-77 | `handle.length` is Infinity and changes nothing |
| FreshFacts.FreshGetCreatesIff | src/index.ts:74-91 | a property read creates an object only when its key passes the index test, and then exactly as a call does; every other key, symbols included, returns undefined (Infinity for `length`) and leaves the state unchanged |
| FreshFacts.FreshCreateOnce | src/index.ts:82-86 | an access that completes logs exactly one call of the creator, last, returning the object, and adds exactly one after hook, which refreshes that object; the before hooks are unchanged; a creator that throws registers nothing |
| FreshFacts.FreshObjectsDistinct | src/index.ts:92-98 | two accesses give two different objects, when the creator returns a new value on each call |
| FreshFacts.PerformRefresher | src/index.ts:82-97 | one step adds to the test's own after list exactly the refresher of the object it created, if it created one without throwing |
| FreshFacts.OwnAfterList | src/index.ts:82-97 | after any number of steps, the test's own after list has gained exactly the refreshers of the creating steps, in step order |
| FreshFacts.RunRefreshers | src/index.ts:94-96 | running refreshers logs one refresh per refresher, each of its own object, in order |
| FreshFacts.FreshRefreshedAfterTest | src/index.ts:82-97 | for any body, the after hooks it registered are exactly the refreshers of the objects its steps created, by call or index read, in order; after the body, thrown or not, they refresh their objects first, before the enclosing after hooks; the scope stack after the test is the old one, so they do not run again |
| Runner.Suite.constructor | src/index.ts:1-102 | a new suite has only the runner's root scope and no helpers |
| Runner.Suite.BeforeEach | src/index.ts:50-52 | makes the `Zest.BeforeEach` transition in place |
| Runner.Suite.AfterEach | src/index.ts:7-12 | makes the `Zest.AfterEach` transition in place |
| Runner.Suite.RunHook | src/index.ts:7-12 | runs one hook in place: a lazy's cleanup and reset, a vary assignment, or a fresh refresher |
| Runner.Suite.Describe | src/index.ts:7-12 | enters a `describe` block in place, as `Zest.Describe` |
| Runner.Suite.EndDescribe | src/index.ts:7-12 | leaves a `describe` block in place, as `Zest.EndDescribe` |
| Runner.Suite.StartTest | src/index.ts:50-52 | starts a test in place, as `Zest.TestStart` |
| Runner.Suite.FinishTest | src/index.ts:7-12 | ends a test in place, running its after hooks, as `Zest.FinishTest` |
| Runner.Suite.RunHooks | src/index.ts:7-12 | runs a hook list in place with a loop, proved equal to `Zest.RunHooks` |
| Runner.Suite.Lazy | src/index.ts:1-12 | `lazy(...)` with any creator: adds the slot and registers its reset, as `Zest.DefineLazy` |
| Runner.Suite.Create | src/index.ts:17 | runs a creator in place, as `Zest.Create` |
| Runner.Suite.LazyApplyIn | src/index.ts:15-21 | the apply trap in place while other creators run, as `Zest.LazyApplyIn` |
| Runner.Suite.FillSlot | src/index.ts:16-18 | the creating branch of the apply trap in place, as `Zest.FillSlot` |
| Runner.Suite.LazyApply | src/index.ts:15-21 | the apply trap in place, as `Zest.LazyApply` |
| Runner.Suite.ForwardedCall | src/index.ts:28-37 | the forwarder's apply trap in place, including the TypeError for a null or undefined value, as `Zest.ForwardedCall` |
| Runner.Suite.MemberCall | src/index.ts:22-37 | the get trap and the call of what it returned, in place, as `Zest.MemberCall` |
| Runner.Suite.Vary | src/index.ts:43-52 | `vary(...)`: adds the cell and registers the reset to `initialValue` |
| Runner.Suite.VaryApply | src/index.ts:55-57 | the apply trap returns the cell's current value and changes nothing |
| Runner.Suite.VaryConstruct | src/index.ts:58-63 | the construct trap in place, as `Zest.VaryConstruct` |
| Runner.Suite.Fresh | src/index.ts:69-73 | `fresh(...)` with any creator: records the creator and registers nothing |
| Runner.Suite.FreshCreate | src/index.ts:92-98 | the apply trap in place, as `Zest.FreshCreate` |
| Runner.Suite.FreshGet | src/index.ts:74-91 | the get trap in place, as `Zest.FreshGet` |
| Runner.Suite.Perform | src/index.ts:14-98 | one step of a test body in place |
| Runner.Suite.RunBody | src/index.ts:14-98 | a test body with a loop, proved equal to `Zest.PerformAll` |
| Runner.Suite.RunTest | src/index.ts:7-12 | a whole test in place, proved equal to `Zest.RunTest` |

## Left out

- The `Proxy` objects themselves. Each trap is an operation on the suite: a
  call of the handle, a call of the forwarder a member read returns, a
  construct, or a fresh property read.
- Jest's collection phase. The model runs each test against the hooks its
  enclosing scopes have registered when the test is run. Jest also applies
  hooks that are registered later in the same `describe` body.
- The order of after hooks within one scope. The model runs them in the
  order they were registered, as jest-circus does. jest-jasmine2 runs the
  afterEach hooks of one block last-registered first. So under jest-jasmine2
  the refreshers of one test run in the reverse of the order that
  `FreshFacts.FreshRefreshedAfterTest` states.
- Which scope a hook registered during a test ends up in. Jest's own
  behaviour is not modelled. Here such a hook joins a scope of the test's own
  and runs once, after that test.
- `freshFn` (src/index.ts:102) and everything about `jest.fn`. It is one use
  of `fresh` with external callbacks.
- Exceptions thrown by code outside the model: creators, cleanups,
  refreshers and member functions always return. Only the traps' own
  throws are modelled: the TypeError, RangeError and ReferenceError above.
  Asynchronous test bodies are left out too.
- Values are a small JavaScript subset: integers, strings, booleans, null,
  undefined, Infinity, objects with own string-keyed properties, and
  function values. NaN and fractions are left out, and so are getters,
  prototypes and members of primitive values. Reading a member of null or
  undefined throws a TypeError. For any other value, `current[prop]` is
  undefined unless it is an own property of an object.
- Aliasing and mutation of cached values. An `Obj` is a value, not a
  reference. Creators, cleanups, refreshers and member functions cannot
  change a cached object or call back into a handle. So a member function
  that changes `this` is not seen by later `current[prop]` reads.
- Runner.Suite.VaryConstruct: the model assumes that `new handle(v)` reaches
  the construct trap, as it does when the code is compiled to ES5 functions.
  The proxy target at src/index.ts:54 is an arrow function. Under an ES2015
  or later target an arrow function has no [[Construct]], so `new` throws a
  TypeError before the trap runs. That outcome is not modelled.
- IndexKey.IsIndexKey: rejects the key "NaN". JavaScript accepts it, because
  `parseInt("NaN", 10)` is NaN and `NaN.toString()` is "NaN". So
  `handle.NaN` on a fresh handle creates an object in JavaScript but gives
  undefined here (`IndexKey.NaNKeyRejected`).
- IndexKey.IsIndexKey: rejects integer keys of magnitude above 2^53. JavaScript
  accepts some of them, when the double holds the integer exactly (for
  example "18014398509481984"). The model also leaves out exponent
  renderings such as "1e+21".
- What external code returns is a parameter (`Env`): creator results,
  member functions, and the effects of cleanup and refresher calls. Only
  the fact of a cleanup or refresher call and its argument are recorded, in
  the log.
- FreshFacts.FreshObjectsDistinct: assumes that an external creator returns
  a new value on every call (`NewEachCall`). The source does not promise
  this for arbitrary creators.

### Where the code and its description differ

- Index keys: the code accepts negative integer keys such as "-3", because
  `parseInt("-3").toString()` is "-3". The model follows the code.
- The code does not make the fresh handle iterable: symbol keys, including
  `Symbol.iterator`, give undefined. It does not check the arity of `new
  handle(...)` either; only the first argument is used. The model follows the
  code.
- The property tests in src/index.test.ts:24-35 expect `subject.three` to read
  3 and to run the creator. In the code a member read returns a forwarder
  and runs nothing (src/index.ts:22-38). The model follows the code.
