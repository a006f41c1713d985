/** The three fixture helpers of src/index.ts — `lazy`, `vary` and `fresh` —
    together with the part of the test runner they are written against, as
    transitions of one state value, `World`.

    Each helper call in the source creates closure variables and registers
    closures with `beforeEach`/`afterEach`. Here a helper's closure variables
    are an entry of a table in the world (its handle is the index of that
    entry), a registered closure is a `Hook` naming the entry it acts on, and
    the runner is a stack of scopes, each with a `before` and an `after` list
    of hooks. Code outside the model (creators given by test authors, cleanup
    and refresher functions, methods of created objects) is an `Env` of pure
    functions, and each call into it is recorded in the event log. An
    exception a trap throws ends the test body: the world records it, and
    the remaining steps of the body do not run. */
module Zest {
  import opened JsValues
  import IndexKey

  /** Which helper called a creator. */
  datatype Source = FromLazy(slot: nat) | FromFresh(factory: nat)

  /** A creator callback. `Factory(id)` is code outside the model: the value
      it returns is `env.produce(id, t)`, where `t` is the number of events
      logged so far, so it may return a new value on every call.
      `Wrapping(key, inner)` is the creator `() => ({ [key]: inner() })` of a
      helper that depends on the lazy handle `inner`, which may be defined
      before or after that helper. */
  datatype Creator = Factory(id: nat) | Wrapping(key: string, inner: nat)

  /** A completed call into code outside the model. */
  datatype Event =
    | Created(source: Source, value: Value)
    | CleanedUp(slot: nat, value: Value)
    | Refreshed(factory: nat, value: Value)
    | Invoked(callee: nat, receiver: Value, args: seq<Value>)

  /** The exceptions the helpers' traps raise themselves. */
  datatype ErrorKind =
    | TypeError        // a member of null or undefined read, or undefined called
    | RangeError       // lazies whose creators call each other: the call stack overflows
    | ReferenceError   // a creator calls a lazy handle that is not defined yet

  /** Whether the running test body has thrown. */
  datatype Status = Running | Threw(error: ErrorKind)

  /** The closures the helpers register with the runner. */
  datatype Hook =
    | ResetLazy(slot: nat)                   // the afterEach of `lazy`
    | AssignVary(cell: nat, value: Value)    // the beforeEach hooks of `vary`
    | Refresh(factory: nat, target: Value)   // the afterEach `fresh` adds per object

  /** One `describe` scope of the runner. */
  datatype Scope = Scope(before: seq<Hook>, after: seq<Hook>)

  /** What a `lazy` call captures and never changes. */
  datatype LazyDef = LazyDef(creator: Creator, hasCleanup: bool)

  /** The runner's scope stack (outermost first), the closure variables of
      every helper created so far, and the status of the running test. */
  datatype World = World(
    scopes: seq<Scope>,
    lazyDefs: seq<LazyDef>,
    current: seq<Value>,        // each lazy's `current`
    currentValue: seq<Value>,   // each vary's `currentValue`
    freshDefs: seq<Creator>,    // each fresh's creator
    log: seq<Event>,
    objects: nat,               // objects allocated so far by object literals
    status: Status)

  /** Code outside the model: what each external creator returns at a given
      time, and what each function value returns for a receiver and arguments. */
  datatype Env = Env(produce: (nat, nat) -> Value, natives: (nat, Value, seq<Value>) -> Value)

  /** What the get trap of a lazy handle returns: undefined, or a callable
      that forwards to member `key` of the slot's value. */
  datatype Forwarding = NoForwarder | Forwarder(slot: nat, key: PropKey)

  /** Something a test body does with a handle. */
  datatype Action =
    | CallLazy(slot: nat)                                    // handle()
    | CallMember(slot: nat, key: PropKey, args: seq<Value>)  // handle[key](...args)
    | CallVary(cell: nat)                                    // handle()
    | ConstructVary(cell: nat, args: seq<Value>)             // new handle(...args)
    | CallFresh(factory: nat)                                // handle()
    | GetFresh(factory: nat, key: PropKey)                   // handle[key]

  /* ---------------------------------------------------------------------- */
  /* Well-formedness                                                         */

  /** How many handles of each kind exist. */
  datatype Bounds = Bounds(lazies: nat, cells: nat, factories: nat)

  function BoundsOf(w: World): Bounds {
    Bounds(|w.lazyDefs|, |w.currentValue|, |w.freshDefs|)
  }

  predicate HookOk(k: Hook, b: Bounds) {
    match k
    case ResetLazy(i) => i < b.lazies
    case AssignVary(i, _) => i < b.cells
    case Refresh(i, _) => i < b.factories
  }

  predicate HooksOk(hs: seq<Hook>, b: Bounds) {
    forall k :: k in hs ==> HookOk(k, b)
  }

  predicate ScopesOk(scopes: seq<Scope>, b: Bounds) {
    forall s :: s in scopes ==> HooksOk(s.before, b) && HooksOk(s.after, b)
  }

  predicate ActionOk(a: Action, b: Bounds) {
    match a
    case CallLazy(i) => i < b.lazies
    case CallMember(i, _, _) => i < b.lazies
    case CallVary(i) => i < b.cells
    case ConstructVary(i, _) => i < b.cells
    case CallFresh(i) => i < b.factories
    case GetFresh(i, _) => i < b.factories
  }

  predicate ActionsOk(body: seq<Action>, b: Bounds) {
    forall a :: a in body ==> ActionOk(a, b)
  }

  predicate Valid(w: World) {
    |w.scopes| > 0 &&
    |w.current| == |w.lazyDefs| &&
    ScopesOk(w.scopes, BoundsOf(w))
  }

  /** The definitions, the scope stack and the table sizes are the same. */
  predicate SameDefinitions(w: World, w': World) {
    w'.scopes == w.scopes && w'.lazyDefs == w.lazyDefs && w'.freshDefs == w.freshDefs &&
    |w'.current| == |w.current| && |w'.currentValue| == |w.currentValue|
  }

  /** A creator call on behalf of a lazy that is not in `active`. */
  predicate CreatedOutside(e: Event, active: set<nat>) {
    e.Created? && e.source.FromLazy? && e.source.slot !in active
  }

  /** A creator call on behalf of a lazy runs only when that lazy's slot was
      falsy in `w`. */
  predicate FillsEmptySlot(e: Event, w: World) {
    e.Created? && e.source.FromLazy? ==> e.source.slot < |w.current| && !Truthy(w.current[e.source.slot])
  }

  /** The lazies whose creators are not on the call stack: the measure that
      shrinks with every nested creator call. */
  function Idle(n: nat, active: set<nat>): set<nat> {
    set i | 0 <= i < n && i !in active
  }

  function LastScope(scopes: seq<Scope>): Scope
    requires |scopes| > 0
  {
    scopes[|scopes| - 1]
  }

  /** Every afterEach hook of the innermost scope is a fresh object's refresher. */
  predicate InnermostAfterRefreshOnly(scopes: seq<Scope>)
    requires |scopes| > 0
  {
    forall k :: k in LastScope(scopes).after ==> k.Refresh?
  }

  /** Only the innermost scope has changed, and its afterEach list has only
      gained refreshers. */
  predicate InnermostGrown(scopes: seq<Scope>, scopes': seq<Scope>) {
    |scopes'| == |scopes| > 0 &&
    scopes'[..|scopes| - 1] == scopes[..|scopes| - 1] &&
    (InnermostAfterRefreshOnly(scopes) ==> InnermostAfterRefreshOnly(scopes'))
  }

  /* ---------------------------------------------------------------------- */
  /* The runner                                                              */

  /** The state before any helper is created: the runner's root scope only. */
  function Initial(): (w: World)
    ensures Valid(w) && w.lazyDefs == [] && w.currentValue == [] && w.freshDefs == []
    ensures w.scopes == [Scope([], [])]
  {
    World([Scope([], [])], [], [], [], [], [], 0, Running)
  }

  /** `beforeEach(k)`: `k` joins the innermost scope's before list. */
  function BeforeEach(w: World, k: Hook): (r: World)
    requires |w.scopes| > 0
    ensures |r.scopes| == |w.scopes|
    ensures r.scopes[..|w.scopes| - 1] == w.scopes[..|w.scopes| - 1]
    ensures LastScope(r.scopes) == LastScope(w.scopes).(before := LastScope(w.scopes).before + [k])
    ensures r == w.(scopes := r.scopes)
  {
    var last := |w.scopes| - 1;
    w.(scopes := w.scopes[last := w.scopes[last].(before := w.scopes[last].before + [k])])
  }

  /** `afterEach(k)`: `k` joins the innermost scope's after list. */
  function AfterEach(w: World, k: Hook): (r: World)
    requires |w.scopes| > 0
    ensures |r.scopes| == |w.scopes|
    ensures r.scopes[..|w.scopes| - 1] == w.scopes[..|w.scopes| - 1]
    ensures LastScope(r.scopes) == LastScope(w.scopes).(after := LastScope(w.scopes).after + [k])
    ensures r == w.(scopes := r.scopes)
  {
    var last := |w.scopes| - 1;
    w.(scopes := w.scopes[last := w.scopes[last].(after := w.scopes[last].after + [k])])
  }

  /** Entering a `describe` body opens a new innermost scope. */
  function Describe(w: World): (r: World)
    ensures r.scopes == w.scopes + [Scope([], [])]
    ensures r == w.(scopes := r.scopes)
    ensures Valid(w) ==> Valid(r)
  {
    w.(scopes := w.scopes + [Scope([], [])])
  }

  /** Leaving a `describe` body closes its scope; its hooks no longer run. */
  function EndDescribe(w: World): (r: World)
    requires |w.scopes| > 1
    ensures r.scopes == w.scopes[..|w.scopes| - 1]
    ensures r == w.(scopes := r.scopes)
    ensures Valid(w) ==> Valid(r)
  {
    w.(scopes := w.scopes[..|w.scopes| - 1])
  }

  /** A test's beforeEach hooks: outer scopes first, each scope in the order
      its hooks were registered. */
  function BeforeHooks(scopes: seq<Scope>): seq<Hook> {
    if scopes == [] then [] else BeforeHooks(scopes[..|scopes| - 1]) + LastScope(scopes).before
  }

  /** A test's afterEach hooks: inner scopes first, each scope in the order its
      hooks were registered. */
  function AfterHooks(scopes: seq<Scope>): seq<Hook> {
    if scopes == [] then [] else LastScope(scopes).after + AfterHooks(scopes[..|scopes| - 1])
  }

  /** Running one hook, i.e. the body of the closure it stands for. */
  function RunHook(w: World, k: Hook): (r: World)
    requires Valid(w) && HookOk(k, BoundsOf(w))
    ensures Valid(r) && SameDefinitions(w, r) && w.log <= r.log && r.objects == w.objects
    ensures r.status == w.status
  {
    match k
    case ResetLazy(i) =>
      // The reset of `lazy`: the cleanup, when one was given, sees the cached
      // value unless it is null or undefined; the slot is emptied either way.
      var log := if w.lazyDefs[i].hasCleanup && !IsNullish(w.current[i])
                 then w.log + [CleanedUp(i, w.current[i])] else w.log;
      w.(log := log, current := w.current[i := Undefined])
    case AssignVary(i, v) =>
      w.(currentValue := w.currentValue[i := v])
    case Refresh(i, t) =>
      w.(log := w.log + [Refreshed(i, t)])
  }

  /** Running hooks one after the other. */
  function RunHooks(w: World, hs: seq<Hook>): (r: World)
    requires Valid(w) && HooksOk(hs, BoundsOf(w))
    ensures Valid(r) && SameDefinitions(w, r) && w.log <= r.log && r.objects == w.objects
    ensures r.status == w.status
    decreases |hs|
  {
    if hs == [] then w
    else RunHook(RunHooks(w, hs[..|hs| - 1]), hs[|hs| - 1])
  }

  /* ---------------------------------------------------------------------- */
  /* lazy                                                                   */

  /** `lazy(creator, cleanup?)`: an empty slot, and one afterEach hook that
      cleans it up and empties it after every test of the current scope. */
  function DefineLazy(w: World, creator: Creator, hasCleanup: bool): (r: (World, nat))
    requires Valid(w)
    ensures Valid(r.0) && r.1 == |w.lazyDefs|
    ensures r.0.lazyDefs == w.lazyDefs + [LazyDef(creator, hasCleanup)]
    ensures r.0.current == w.current + [Undefined]
    ensures |r.0.scopes| == |w.scopes| && r.0.scopes[..|w.scopes| - 1] == w.scopes[..|w.scopes| - 1]
    ensures LastScope(r.0.scopes) == LastScope(w.scopes).(after := LastScope(w.scopes).after + [ResetLazy(r.1)])
    ensures r.0.currentValue == w.currentValue && r.0.freshDefs == w.freshDefs && r.0.log == w.log
    ensures r.0.status == w.status && r.0.objects == w.objects
  {
    var slot := |w.lazyDefs|;
    var w1 := w.(lazyDefs := w.lazyDefs + [LazyDef(creator, hasCleanup)], current := w.current + [Undefined]);
    BoundsGrowKeepsScopesOk(w.scopes, BoundsOf(w), BoundsOf(w1));
    (AfterEach(w1, ResetLazy(slot)), slot)
  }

  /** Calls creator `c` for `source` while the creators of the lazies in
      `active` are still running. A wrapping creator first calls its inner
      lazy and then allocates the object literal around that value; if the
      inner lazy is not defined, or the inner call throws, so does the
      creator. */
  function Create(env: Env, w: World, c: Creator, source: Source, active: set<nat>): (r: (World, Value))
    requires Valid(w) && w.status == Running
    ensures Valid(r.0) && SameDefinitions(w, r.0) && r.0.currentValue == w.currentValue
    ensures forall i :: 0 <= i < |w.current| && Truthy(w.current[i]) ==> r.0.current[i] == w.current[i]
    ensures forall i :: 0 <= i < |w.current| && i in active ==> r.0.current[i] == w.current[i]
    ensures w.log <= r.0.log && w.objects <= r.0.objects
    ensures r.0.status == Running ==> |w.log| < |r.0.log| && r.0.log[|r.0.log| - 1] == Created(source, r.1)
    ensures r.0.status != Running ==> r.0.status.Threw? && r.1 == Undefined
    ensures forall e :: e in r.0.log[|w.log|..if r.0.status == Running then |r.0.log| - 1 else |r.0.log|] ==>
              CreatedOutside(e, active) && FillsEmptySlot(e, w)
    ensures c.Wrapping? && r.0.status == Running ==> r.1.Obj? && w.objects <= r.1.id < r.0.objects
    decreases Idle(|w.lazyDefs|, active), 2
  {
    match c
    case Factory(id) =>
      var v := env.produce(id, |w.log|);
      (w.(log := w.log + [Created(source, v)]), v)
    case Wrapping(key, inner) =>
      if inner >= |w.lazyDefs| then (w.(status := Threw(ReferenceError)), Undefined)
      else
        var (w1, innerValue) := LazyApplyIn(env, w, inner, active);
        if w1.status != Running then (w1, Undefined)
        else
          var v := Obj(w1.objects, map[key := innerValue]);
          var w2 := w1.(log := w1.log + [Created(source, v)], objects := w1.objects + 1);
          assert w2.log[|w.log|..|w2.log| - 1] == w1.log[|w.log|..];
          (w2, v)
  }

  /** The apply trap of a lazy handle, called while the creators of the
      lazies in `active` are running: a truthy `current` is returned as it
      is; otherwise the creator runs and its result fills the slot and is
      returned. Calling a lazy whose own creator is still running recurses
      without end in JavaScript; the model stops there with the RangeError
      the engine raises. A creator that throws leaves the slot as it was. */
  function LazyApplyIn(env: Env, w: World, slot: nat, active: set<nat>): (r: (World, Value))
    requires Valid(w) && w.status == Running && slot < |w.lazyDefs|
    ensures Valid(r.0) && SameDefinitions(w, r.0) && r.0.currentValue == w.currentValue
    ensures w.log <= r.0.log && w.objects <= r.0.objects
    ensures r.0.status == Running ==> r.0.current[slot] == r.1
    ensures r.0.status != Running ==> r.0.status.Threw? && r.1 == Undefined && r.0.current[slot] == w.current[slot]
    ensures forall i :: 0 <= i < |w.current| && Truthy(w.current[i]) ==> r.0.current[i] == w.current[i]
    ensures forall i :: 0 <= i < |w.current| && i in active ==> r.0.current[i] == w.current[i]
    ensures Truthy(w.current[slot]) ==> r == (w, w.current[slot])
    ensures !Truthy(w.current[slot]) && slot in active ==> r == (w.(status := Threw(RangeError)), Undefined)
    ensures !Truthy(w.current[slot]) && r.0.status == Running ==>
      |w.log| < |r.0.log| && r.0.log[|r.0.log| - 1] == Created(FromLazy(slot), r.1) &&
      forall e :: e in r.0.log[|w.log|..|r.0.log| - 1] ==> CreatedOutside(e, active + {slot})
    ensures r.0.status != Running ==> forall e :: e in r.0.log[|w.log|..] ==> CreatedOutside(e, active + {slot})
    ensures forall e :: e in r.0.log[|w.log|..] ==> CreatedOutside(e, active) && FillsEmptySlot(e, w)
    decreases Idle(|w.lazyDefs|, active), 1
  {
    if Truthy(w.current[slot]) then (w, w.current[slot])
    else if slot in active then (w.(status := Threw(RangeError)), Undefined)
    else FillSlot(env, w, slot, active)
  }

  /** The creating branch of `LazyApplyIn`: the slot is falsy and its creator
      is not running yet. */
  function FillSlot(env: Env, w: World, slot: nat, active: set<nat>): (r: (World, Value))
    requires Valid(w) && w.status == Running && slot < |w.lazyDefs|
    requires !Truthy(w.current[slot]) && slot !in active
    ensures Valid(r.0) && SameDefinitions(w, r.0) && r.0.currentValue == w.currentValue
    ensures w.log <= r.0.log && w.objects <= r.0.objects
    ensures r.0.status == Running ==>
      r.0.current[slot] == r.1 && |w.log| < |r.0.log| && r.0.log[|r.0.log| - 1] == Created(FromLazy(slot), r.1) &&
      forall e :: e in r.0.log[|w.log|..|r.0.log| - 1] ==> CreatedOutside(e, active + {slot})
    ensures r.0.status != Running ==>
      r.0.status.Threw? && r.1 == Undefined && r.0.current[slot] == w.current[slot] &&
      forall e :: e in r.0.log[|w.log|..] ==> CreatedOutside(e, active + {slot})
    ensures forall i :: 0 <= i < |w.current| && Truthy(w.current[i]) ==> r.0.current[i] == w.current[i]
    ensures forall i :: 0 <= i < |w.current| && i in active ==> r.0.current[i] == w.current[i]
    ensures forall e :: e in r.0.log[|w.log|..] ==> CreatedOutside(e, active) && FillsEmptySlot(e, w)
    decreases Idle(|w.lazyDefs|, active), 0
  {
    assert slot in Idle(|w.lazyDefs|, active) - Idle(|w.lazyDefs|, active + {slot});
    var (w1, v) := Create(env, w, w.lazyDefs[slot].creator, FromLazy(slot), active + {slot});
    if w1.status != Running then (w1, Undefined)
    else
      FilledLog(w, w1, slot, v, active);
      (w1.(current := w1.current[slot := v]), v)
  }

  /** The apply trap of a lazy handle, `handle()`, from a test body. */
  function LazyApply(env: Env, w: World, slot: nat): (r: (World, Value))
    requires Valid(w) && w.status == Running && slot < |w.lazyDefs|
    ensures Valid(r.0) && SameDefinitions(w, r.0) && r.0.currentValue == w.currentValue
    ensures w.log <= r.0.log && w.objects <= r.0.objects
    ensures r.0.status == Running ==> r.0.current[slot] == r.1
    ensures r.0.status != Running ==> r.0.status.Threw? && r.1 == Undefined && r.0.current[slot] == w.current[slot]
    ensures forall i :: 0 <= i < |w.current| && Truthy(w.current[i]) ==> r.0.current[i] == w.current[i]
    ensures Truthy(w.current[slot]) ==> r == (w, w.current[slot])
    ensures !Truthy(w.current[slot]) && r.0.status == Running ==>
      |w.log| < |r.0.log| && r.0.log[|r.0.log| - 1] == Created(FromLazy(slot), r.1) &&
      forall e :: e in r.0.log[|w.log|..|r.0.log| - 1] ==> CreatedOutside(e, {slot})
    ensures r.0.status != Running ==> forall e :: e in r.0.log[|w.log|..] ==> CreatedOutside(e, {slot})
    ensures forall e :: e in r.0.log[|w.log|..] ==> FillsEmptySlot(e, w)
  {
    assert {} + {slot} == {slot};
    LazyApplyIn(env, w, slot, {})
  }

  /** The get trap of a lazy handle. It reads no state: looking a member up
      never runs the creator. */
  function LazyGet(slot: nat, key: PropKey): (r: Forwarding)
    ensures r == NoForwarder <==> key == Key("calls")
    ensures r != NoForwarder ==> r.slot == slot && r.key == key
  {
    if key == Key("calls") then NoForwarder else Forwarder(slot, key)
  }

  /** The apply trap of the forwarder for member `key`: fill the slot as a
      direct call does, then read `current[key]`, which throws a TypeError
      when `current` is null or undefined; apply it to `current` if it is a
      function, and return undefined if it is not. */
  function ForwardedCall(env: Env, w: World, slot: nat, key: PropKey, args: seq<Value>): (r: (World, Value))
    requires Valid(w) && w.status == Running && slot < |w.lazyDefs|
    ensures Valid(r.0) && SameDefinitions(w, r.0) && r.0.currentValue == w.currentValue
  {
    var (w1, receiver) := LazyApply(env, w, slot);
    if w1.status != Running then (w1, Undefined)
    else if IsNullish(receiver) then (w1.(status := Threw(TypeError)), Undefined)
    else
      var member := GetProperty(receiver, key);
      if IsFunction(member) then
        (w1.(log := w1.log + [Invoked(member.id, receiver, args)]), env.natives(member.id, receiver, args))
      else
        (w1, Undefined)
  }

  /** `handle[key](...args)` in a test body: the get trap, then a call of
      what it returned; calling the undefined that `calls` gives throws. */
  function MemberCall(env: Env, w: World, slot: nat, key: PropKey, args: seq<Value>): (r: (World, Value))
    requires Valid(w) && w.status == Running && slot < |w.lazyDefs|
    ensures Valid(r.0) && SameDefinitions(w, r.0) && r.0.currentValue == w.currentValue
    ensures key == Key("calls") ==> r == (w.(status := Threw(TypeError)), Undefined)
    ensures key != Key("calls") ==> r == ForwardedCall(env, w, slot, key, args)
  {
    match LazyGet(slot, key)
    case NoForwarder => (w.(status := Threw(TypeError)), Undefined)
    case Forwarder(_, _) => ForwardedCall(env, w, slot, key, args)
  }

  /* ---------------------------------------------------------------------- */
  /* vary                                                                   */

  /** `vary(initialValue)`: a cell holding `initialValue`, and one beforeEach
      hook that puts `initialValue` back before every test of the current scope. */
  function DefineVary(w: World, initial: Value): (r: (World, nat))
    requires Valid(w)
    ensures Valid(r.0) && r.1 == |w.currentValue|
    ensures r.0.currentValue == w.currentValue + [initial]
    ensures |r.0.scopes| == |w.scopes| && r.0.scopes[..|w.scopes| - 1] == w.scopes[..|w.scopes| - 1]
    ensures LastScope(r.0.scopes) == LastScope(w.scopes).(before := LastScope(w.scopes).before + [AssignVary(r.1, initial)])
    ensures r.0.lazyDefs == w.lazyDefs && r.0.current == w.current && r.0.freshDefs == w.freshDefs && r.0.log == w.log
    ensures r.0.status == w.status && r.0.objects == w.objects
  {
    var cell := |w.currentValue|;
    var w1 := w.(currentValue := w.currentValue + [initial]);
    BoundsGrowKeepsScopesOk(w.scopes, BoundsOf(w), BoundsOf(w1));
    (BeforeEach(w1, AssignVary(cell, initial)), cell)
  }

  /** The argument `[newValue]` destructures from the construct trap's list. */
  function FirstArgument(args: seq<Value>): Value {
    if |args| > 0 then args[0] else Undefined
  }

  /** The construct trap of a vary handle, `new handle(v)`: a beforeEach hook
      that assigns `v` in the current scope; the result is a new empty object. */
  function VaryConstruct(w: World, cell: nat, args: seq<Value>): (r: (World, Value))
    requires Valid(w) && cell < |w.currentValue|
    ensures Valid(r.0) && BoundsOf(r.0) == BoundsOf(w) && InnermostGrown(w.scopes, r.0.scopes)
    ensures r.0.lazyDefs == w.lazyDefs && r.0.freshDefs == w.freshDefs
    ensures r.0.currentValue == w.currentValue && r.0.status == w.status
  {
    var w1 := BeforeEach(w, AssignVary(cell, FirstArgument(args)));
    (w1.(objects := w1.objects + 1), Obj(w.objects, map[]))
  }

  /* ---------------------------------------------------------------------- */
  /* fresh                                                                  */

  /** `fresh(creator, refresher)`: nothing is registered until an access. */
  function DefineFresh(w: World, creator: Creator): (r: (World, nat))
    requires Valid(w)
    ensures Valid(r.0) && r.1 == |w.freshDefs| && r.0.freshDefs == w.freshDefs + [creator]
    ensures r.0.scopes == w.scopes
    ensures r == (w.(freshDefs := r.0.freshDefs), r.1)
  {
    var factory := |w.freshDefs|;
    var w1 := w.(freshDefs := w.freshDefs + [creator]);
    BoundsGrowKeepsScopesOk(w.scopes, BoundsOf(w), BoundsOf(w1));
    (w1, factory)
  }

  /** What the apply trap does, and the get trap for a position: run the
      creator once, and register one afterEach that refreshes that object.
      A creator that throws registers nothing. */
  function FreshCreate(env: Env, w: World, factory: nat): (r: (World, Value))
    requires Valid(w) && w.status == Running && factory < |w.freshDefs|
    ensures Valid(r.0) && BoundsOf(r.0) == BoundsOf(w) && InnermostGrown(w.scopes, r.0.scopes)
    ensures r.0.lazyDefs == w.lazyDefs && r.0.freshDefs == w.freshDefs
    ensures r.0.currentValue == w.currentValue
  {
    var (w1, created) := Create(env, w, w.freshDefs[factory], FromFresh(factory), {});
    if w1.status != Running then (w1, Undefined)
    else (AfterEach(w1, Refresh(factory, created)), created)
  }

  /** The get trap of a fresh handle: `length` is Infinity, a key that passes
      the index test yields a new object, every other key undefined. */
  function FreshGet(env: Env, w: World, factory: nat, key: PropKey): (r: (World, Value))
    requires Valid(w) && w.status == Running && factory < |w.freshDefs|
    ensures Valid(r.0) && BoundsOf(r.0) == BoundsOf(w) && InnermostGrown(w.scopes, r.0.scopes)
    ensures r.0.lazyDefs == w.lazyDefs && r.0.freshDefs == w.freshDefs
    ensures r.0.currentValue == w.currentValue
  {
    if key == Key("length") then (w, Infinity)
    else if key.Key? && IndexKey.IsIndexKey(key.name) then FreshCreate(env, w, factory)
    else (w, Undefined)
  }

  /* ---------------------------------------------------------------------- */
  /* Tests                                                                  */

  /** One step of a test body. Once the body has thrown, no further step
      runs: the state stays as it is and the step observes undefined. */
  function Perform(env: Env, w: World, a: Action): (r: (World, Value))
    requires Valid(w) && ActionOk(a, BoundsOf(w))
    ensures Valid(r.0) && BoundsOf(r.0) == BoundsOf(w) && InnermostGrown(w.scopes, r.0.scopes)
    ensures r.0.lazyDefs == w.lazyDefs && r.0.freshDefs == w.freshDefs
    ensures r.0.currentValue == w.currentValue
    ensures w.status != Running ==> r == (w, Undefined)
  {
    if w.status != Running then (w, Undefined)
    else
      match a
      case CallLazy(i) => LazyApply(env, w, i)
      case CallMember(i, key, args) => MemberCall(env, w, i, key, args)
      case CallVary(i) => (w, w.currentValue[i])
      case ConstructVary(i, args) => VaryConstruct(w, i, args)
      case CallFresh(i) => FreshCreate(env, w, i)
      case GetFresh(i, key) => FreshGet(env, w, i, key)
  }

  /** A test body, step by step; the values it observes, in order. */
  function PerformAll(env: Env, w: World, body: seq<Action>): (r: (World, seq<Value>))
    requires Valid(w) && ActionsOk(body, BoundsOf(w))
    ensures Valid(r.0) && BoundsOf(r.0) == BoundsOf(w) && InnermostGrown(w.scopes, r.0.scopes)
    ensures r.0.lazyDefs == w.lazyDefs && r.0.freshDefs == w.freshDefs
    ensures r.0.currentValue == w.currentValue
    ensures |r.1| == |body|
    decreases |body|
  {
    if body == [] then (w, [])
    else
      var (w1, seen) := PerformAll(env, w, body[..|body| - 1]);
      var (w2, v) := Perform(env, w1, body[|body| - 1]);
      (w2, seen + [v])
  }

  /** The state in which a test body starts: a scope of its own is opened for
      hooks the body registers, nothing has thrown yet, then the beforeEach
      hooks of the enclosing scopes run, outermost first. */
  function TestStart(w: World): (r: World)
    requires Valid(w)
    ensures Valid(r) && BoundsOf(r) == BoundsOf(w) && r.scopes == w.scopes + [Scope([], [])]
    ensures r.lazyDefs == w.lazyDefs && r.freshDefs == w.freshDefs && r.status == Running
  {
    var own := Describe(w).(status := Running);
    BeforeHooksOk(own.scopes, BoundsOf(own));
    RunHooks(own, BeforeHooks(own.scopes))
  }

  /** The end of a test, whether its body threw or not: the afterEach hooks,
      innermost scope first (those the body registered come first of all),
      then the test's own scope is dropped. The status tells whether the
      test failed with an exception. */
  function FinishTest(w: World): (r: World)
    requires Valid(w) && |w.scopes| > 1
    ensures Valid(r) && BoundsOf(r) == BoundsOf(w) && r.scopes == w.scopes[..|w.scopes| - 1]
    ensures r.lazyDefs == w.lazyDefs && r.freshDefs == w.freshDefs && r.status == w.status
  {
    AfterHooksOk(w.scopes, BoundsOf(w));
    var finished := RunHooks(w, AfterHooks(w.scopes));
    finished.(scopes := finished.scopes[..|finished.scopes| - 1])
  }

  /** One test: its beforeEach hooks, its body, then its afterEach hooks; the
      values the body observes. */
  function RunTest(env: Env, w: World, body: seq<Action>): (r: (World, seq<Value>))
    requires Valid(w) && ActionsOk(body, BoundsOf(w))
    ensures Valid(r.0) && BoundsOf(r.0) == BoundsOf(w)
    ensures r.0.scopes == w.scopes
    ensures r.0.lazyDefs == w.lazyDefs && r.0.freshDefs == w.freshDefs
    ensures |r.1| == |body|
  {
    var started := TestStart(w);
    var (ran, seen) := PerformAll(env, started, body);
    assert ran.scopes[..|w.scopes|] == w.scopes by {
      assert started.scopes[..|w.scopes|] == w.scopes;
    }
    (FinishTest(ran), seen)
  }

  /* ---------------------------------------------------------------------- */
  /* Lemmas the definitions above rely on                                    */

  /** The log of a slot filled by a creator call that returned `v`: the
      nested creator calls, then that call. */
  lemma FilledLog(w: World, w1: World, slot: nat, v: Value, active: set<nat>)
    requires slot < |w.current| && !Truthy(w.current[slot]) && slot !in active
    requires w.log <= w1.log && |w.log| < |w1.log| && w1.log[|w1.log| - 1] == Created(FromLazy(slot), v)
    requires forall e :: e in w1.log[|w.log|..|w1.log| - 1] ==> CreatedOutside(e, active + {slot}) && FillsEmptySlot(e, w)
    ensures forall e :: e in w1.log[|w.log|..] ==> CreatedOutside(e, active) && FillsEmptySlot(e, w)
  {
    var nested, last := w1.log[|w.log|..|w1.log| - 1], w1.log[|w1.log| - 1];
    assert w1.log[|w.log|..] == nested + [last];
    forall e | e in nested + [last]
      ensures CreatedOutside(e, active) && FillsEmptySlot(e, w)
    {
      if e in nested {
        assert CreatedOutside(e, active + {slot});
      }
    }
  }

  lemma BoundsGrowKeepsScopesOk(scopes: seq<Scope>, b: Bounds, b': Bounds)
    requires ScopesOk(scopes, b)
    requires b.lazies <= b'.lazies && b.cells <= b'.cells && b.factories <= b'.factories
    ensures ScopesOk(scopes, b')
  {
    forall s | s in scopes
      ensures HooksOk(s.before, b') && HooksOk(s.after, b')
    {
      assert HooksOk(s.before, b) && HooksOk(s.after, b);
    }
  }

  lemma {:induction false} BeforeHooksOk(scopes: seq<Scope>, b: Bounds)
    requires ScopesOk(scopes, b)
    ensures HooksOk(BeforeHooks(scopes), b)
    decreases |scopes|
  {
    if scopes != [] {
      BeforeHooksOk(scopes[..|scopes| - 1], b);
      assert LastScope(scopes) in scopes;
    }
  }

  lemma {:induction false} AfterHooksOk(scopes: seq<Scope>, b: Bounds)
    requires ScopesOk(scopes, b)
    ensures HooksOk(AfterHooks(scopes), b)
    decreases |scopes|
  {
    if scopes != [] {
      AfterHooksOk(scopes[..|scopes| - 1], b);
      assert LastScope(scopes) in scopes;
    }
  }
}
