/** The helpers in their imperative form. One `Suite` object holds the test
    runner's scope stack and, in tables indexed by handle, the closure
    variables the helpers mutate: each lazy's `current` and each vary's
    `currentValue`. Its methods are the proxy traps and the runner's
    operations; each is proved to make exactly the transition that the
    function of the same name in `Zest` describes, so every property proved
    of those functions holds of these methods. */
module Runner {
  import opened JsValues
  import IndexKey
  import opened Zest

  class Suite {
    /** Code outside the model: creators' results and member functions. */
    const env: Env

    var scopes: seq<Scope>
    var lazyDefs: seq<LazyDef>
    var current: seq<Value>
    var currentValue: seq<Value>
    var freshDefs: seq<Creator>
    var log: seq<Event>
    var objects: nat
    var status: Status

    /** The object's fields as one `Zest.World`. */
    function State(): World
      reads this
    {
      World(scopes, lazyDefs, current, currentValue, freshDefs, log, objects, status)
    }

    predicate Valid()
      reads this
    {
      Zest.Valid(State())
    }

    constructor (env: Env)
      ensures Valid() && this.env == env && State() == Initial()
    {
      this.env := env;
      scopes := [Scope([], [])];
      lazyDefs, current, currentValue, freshDefs := [], [], [], [];
      log, objects, status := [], 0, Running;
    }

    /* ------------------------------------------------------------------ */
    /* The runner                                                          */

    method BeforeEach(k: Hook)
      requires Valid() && HookOk(k, BoundsOf(State()))
      modifies this
      ensures Valid() && State() == Zest.BeforeEach(old(State()), k)
    {
      var last := |scopes| - 1;
      scopes := scopes[last := scopes[last].(before := scopes[last].before + [k])];
    }

    method AfterEach(k: Hook)
      requires Valid() && HookOk(k, BoundsOf(State()))
      modifies this
      ensures Valid() && State() == Zest.AfterEach(old(State()), k)
    {
      var last := |scopes| - 1;
      scopes := scopes[last := scopes[last].(after := scopes[last].after + [k])];
    }

    method Describe()
      requires Valid()
      modifies this
      ensures Valid() && State() == Zest.Describe(old(State()))
    {
      scopes := scopes + [Scope([], [])];
    }

    method EndDescribe()
      requires Valid() && |scopes| > 1
      modifies this
      ensures Valid() && State() == Zest.EndDescribe(old(State()))
    {
      scopes := scopes[..|scopes| - 1];
    }

    method RunHook(k: Hook)
      requires Valid() && HookOk(k, BoundsOf(State()))
      modifies this
      ensures State() == Zest.RunHook(old(State()), k)
    {
      match k
      case ResetLazy(i) =>
        if lazyDefs[i].hasCleanup && !IsNullish(current[i]) {
          log := log + [CleanedUp(i, current[i])];
        }
        current := current[i := Undefined];
      case AssignVary(i, v) =>
        currentValue := currentValue[i := v];
      case Refresh(i, t) =>
        log := log + [Refreshed(i, t)];
    }

    method RunHooks(hs: seq<Hook>)
      requires Valid() && HooksOk(hs, BoundsOf(State()))
      modifies this
      ensures State() == Zest.RunHooks(old(State()), hs)
    {
      var i := 0;
      while i < |hs|
        invariant 0 <= i <= |hs|
        invariant HooksOk(hs[..i], BoundsOf(old(State())))
        invariant State() == Zest.RunHooks(old(State()), hs[..i])
      {
        assert hs[..i + 1][..i] == hs[..i];
        RunHook(hs[i]);
        i := i + 1;
      }
      assert hs[..|hs|] == hs;
    }

    /* ------------------------------------------------------------------ */
    /* lazy                                                               */

    method Lazy(creator: Creator, hasCleanup: bool) returns (slot: nat)
      requires Valid()
      modifies this
      ensures Valid() && (State(), slot) == DefineLazy(old(State()), creator, hasCleanup)
    {
      slot := |lazyDefs|;
      lazyDefs := lazyDefs + [LazyDef(creator, hasCleanup)];
      current := current + [Undefined];
      BoundsGrowKeepsScopesOk(scopes, BoundsOf(old(State())), BoundsOf(State()));
      AfterEach(ResetLazy(slot));
    }

    /** A creator call while the creators of the lazies in `active` run. */
    method Create(c: Creator, source: Source, active: set<nat>) returns (v: Value)
      requires Valid() && status == Running
      modifies this
      ensures (State(), v) == Zest.Create(env, old(State()), c, source, active)
      decreases Idle(|lazyDefs|, active), 2
    {
      match c
      case Factory(id) =>
        v := env.produce(id, |log|);
        log := log + [Created(source, v)];
      case Wrapping(key, inner) =>
        if inner >= |lazyDefs| {
          status := Threw(ReferenceError);
          v := Undefined;
        } else {
          var innerValue := LazyApplyIn(inner, active);
          if status != Running {
            v := Undefined;
          } else {
            v := Obj(objects, map[key := innerValue]);
            log := log + [Created(source, v)];
            objects := objects + 1;
          }
        }
    }

    /** The apply trap of a lazy handle, while the creators of the lazies in
        `active` run. */
    method LazyApplyIn(slot: nat, active: set<nat>) returns (v: Value)
      requires Valid() && status == Running && slot < |lazyDefs|
      modifies this
      ensures (State(), v) == Zest.LazyApplyIn(env, old(State()), slot, active)
      decreases Idle(|lazyDefs|, active), 1
    {
      if Truthy(current[slot]) {
        v := current[slot];
      } else if slot in active {
        status := Threw(RangeError);
        v := Undefined;
      } else {
        v := FillSlot(slot, active);
      }
    }

    method FillSlot(slot: nat, active: set<nat>) returns (v: Value)
      requires Valid() && status == Running && slot < |lazyDefs|
      requires !Truthy(current[slot]) && slot !in active
      modifies this
      ensures (State(), v) == Zest.FillSlot(env, old(State()), slot, active)
      decreases Idle(|lazyDefs|, active), 0
    {
      assert slot in Idle(|lazyDefs|, active) - Idle(|lazyDefs|, active + {slot});
      var created := Create(lazyDefs[slot].creator, FromLazy(slot), active + {slot});
      if status != Running {
        v := Undefined;
      } else {
        current := current[slot := created];
        v := created;
      }
    }

    /** The apply trap of a lazy handle, from a test body. */
    method LazyApply(slot: nat) returns (v: Value)
      requires Valid() && status == Running && slot < |lazyDefs|
      modifies this
      ensures (State(), v) == Zest.LazyApply(env, old(State()), slot)
    {
      v := LazyApplyIn(slot, {});
    }

    /** The apply trap of the forwarder the get trap returned for `key`. */
    method ForwardedCall(slot: nat, key: PropKey, args: seq<Value>) returns (result: Value)
      requires Valid() && status == Running && slot < |lazyDefs|
      modifies this
      ensures (State(), result) == Zest.ForwardedCall(env, old(State()), slot, key, args)
    {
      var receiver := LazyApply(slot);
      if status != Running {
        result := Undefined;
      } else if IsNullish(receiver) {
        status := Threw(TypeError);
        result := Undefined;
      } else {
        var member := GetProperty(receiver, key);
        if IsFunction(member) {
          log := log + [Invoked(member.id, receiver, args)];
          result := env.natives(member.id, receiver, args);
        } else {
          result := Undefined;
        }
      }
    }

    /** `handle[key](...args)`: the get trap, then a call of what it gave. */
    method MemberCall(slot: nat, key: PropKey, args: seq<Value>) returns (result: Value)
      requires Valid() && status == Running && slot < |lazyDefs|
      modifies this
      ensures (State(), result) == Zest.MemberCall(env, old(State()), slot, key, args)
    {
      var forwarding := LazyGet(slot, key);
      if forwarding == NoForwarder {
        status := Threw(TypeError);
        result := Undefined;
      } else {
        result := ForwardedCall(slot, key, args);
      }
    }

    /* ------------------------------------------------------------------ */
    /* vary                                                               */

    method Vary(initial: Value) returns (cell: nat)
      requires Valid()
      modifies this
      ensures Valid() && (State(), cell) == DefineVary(old(State()), initial)
    {
      cell := |currentValue|;
      currentValue := currentValue + [initial];
      BoundsGrowKeepsScopesOk(scopes, BoundsOf(old(State())), BoundsOf(State()));
      BeforeEach(AssignVary(cell, initial));
    }

    /** The apply trap of a vary handle. */
    method VaryApply(cell: nat) returns (v: Value)
      requires Valid() && cell < |currentValue|
      ensures v == currentValue[cell]
    {
      v := currentValue[cell];
    }

    /** The construct trap of a vary handle. */
    method VaryConstruct(cell: nat, args: seq<Value>) returns (result: Value)
      requires Valid() && cell < |currentValue|
      modifies this
      ensures Valid() && (State(), result) == Zest.VaryConstruct(old(State()), cell, args)
    {
      BeforeEach(AssignVary(cell, FirstArgument(args)));
      result := Obj(objects, map[]);
      objects := objects + 1;
    }

    /* ------------------------------------------------------------------ */
    /* fresh                                                              */

    method Fresh(creator: Creator) returns (factory: nat)
      requires Valid()
      modifies this
      ensures Valid() && (State(), factory) == DefineFresh(old(State()), creator)
    {
      factory := |freshDefs|;
      freshDefs := freshDefs + [creator];
      BoundsGrowKeepsScopesOk(scopes, BoundsOf(old(State())), BoundsOf(State()));
    }

    /** The apply trap of a fresh handle. */
    method FreshCreate(factory: nat) returns (created: Value)
      requires Valid() && status == Running && factory < |freshDefs|
      modifies this
      ensures (State(), created) == Zest.FreshCreate(env, old(State()), factory)
    {
      created := Create(freshDefs[factory], FromFresh(factory), {});
      if status != Running {
        created := Undefined;
      } else {
        AfterEach(Refresh(factory, created));
      }
    }

    /** The get trap of a fresh handle. */
    method FreshGet(factory: nat, key: PropKey) returns (result: Value)
      requires Valid() && status == Running && factory < |freshDefs|
      modifies this
      ensures (State(), result) == Zest.FreshGet(env, old(State()), factory, key)
    {
      if key == Key("length") {
        result := Infinity;
      } else if key.Key? && IndexKey.IsIndexKey(key.name) {
        result := FreshCreate(factory);
      } else {
        result := Undefined;
      }
    }

    /* ------------------------------------------------------------------ */
    /* Tests                                                              */

    method Perform(a: Action) returns (v: Value)
      requires Valid() && ActionOk(a, BoundsOf(State()))
      modifies this
      ensures (State(), v) == Zest.Perform(env, old(State()), a)
    {
      if status != Running {
        v := Undefined;
      } else {
        match a
        case CallLazy(i) => v := LazyApply(i);
        case CallMember(i, key, args) => v := MemberCall(i, key, args);
        case CallVary(i) => v := VaryApply(i);
        case ConstructVary(i, args) => v := VaryConstruct(i, args);
        case CallFresh(i) => v := FreshCreate(i);
        case GetFresh(i, key) => v := FreshGet(i, key);
      }
    }

    /** The start of a test: a scope of its own, then the beforeEach hooks,
        outermost first. */
    method StartTest()
      requires Valid()
      modifies this
      ensures Valid() && State() == Zest.TestStart(old(State()))
    {
      Describe();
      status := Running;
      BeforeHooksOk(scopes, BoundsOf(State()));
      RunHooks(BeforeHooks(scopes));
    }

    /** The end of a test: the afterEach hooks, innermost first, and the
        test's scope is dropped again. */
    method FinishTest()
      requires Valid() && |scopes| > 1
      modifies this
      ensures Valid() && State() == Zest.FinishTest(old(State()))
    {
      AfterHooksOk(scopes, BoundsOf(State()));
      RunHooks(AfterHooks(scopes));
      scopes := scopes[..|scopes| - 1];
    }

    /** Runs a test body step by step and returns the values it observes. */
    method RunBody(body: seq<Action>) returns (seen: seq<Value>)
      requires Valid() && ActionsOk(body, BoundsOf(State()))
      modifies this
      ensures Valid() && (State(), seen) == PerformAll(env, old(State()), body)
    {
      ghost var start := State();
      seen := [];
      var i := 0;
      while i < |body|
        invariant 0 <= i <= |body|
        invariant ActionsOk(body[..i], BoundsOf(start))
        invariant (State(), seen) == PerformAll(env, start, body[..i])
        invariant Valid() && BoundsOf(State()) == BoundsOf(start)
      {
        assert body[..i + 1][..i] == body[..i];
        assert body[i] in body;
        var v := Perform(body[i]);
        seen := seen + [v];
        i := i + 1;
      }
      assert body[..|body|] == body;
    }

    /** Runs one test and returns the values its body observes. */
    method RunTest(body: seq<Action>) returns (seen: seq<Value>)
      requires Valid() && ActionsOk(body, BoundsOf(State()))
      modifies this
      ensures Valid() && (State(), seen) == Zest.RunTest(env, old(State()), body)
    {
      ghost var w0 := State();
      StartTest();
      ghost var started := State();
      seen := RunBody(body);
      assert scopes[..|w0.scopes|] == w0.scopes by {
        assert started.scopes[..|w0.scopes|] == w0.scopes;
      }
      FinishTest();
    }
  }
}
