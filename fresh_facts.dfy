/** What `fresh` promises: `length` is Infinity; a key that reads as an index,
    and a direct call, each run the creator once and register one afterEach
    that refreshes exactly that object; any other key yields undefined and
    does nothing. The refreshers a test body registers, one per object it
    got, run when the test ends and are gone for the next test. */
module FreshFacts {
  import opened JsValues
  import IndexKey
  import opened Zest
  import opened Steps


  /** `handle.length` is Infinity and changes nothing. */
  lemma FreshLength(env: Env, w: World, factory: nat)
    requires Valid(w) && w.status == Running && factory < |w.freshDefs|
    ensures FreshGet(env, w, factory, Key("length")) == (w, Infinity)
  {
  }

  /** A property read runs the creator only when its key passes the index
      test, and then exactly as a direct call does; every other key, a
      symbol included, leaves the state as it was. */
  lemma FreshGetCreatesIff(env: Env, w: World, factory: nat, key: PropKey)
    requires Valid(w) && w.status == Running && factory < |w.freshDefs|
    ensures var r := FreshGet(env, w, factory, key);
            (key.Key? && IndexKey.IsIndexKey(key.name) ==> r == FreshCreate(env, w, factory)) &&
            (!(key.Key? && IndexKey.IsIndexKey(key.name)) ==>
               r == (w, if key == Key("length") then Infinity else Undefined)) &&
            (|r.0.log| > |w.log| ==> key.Key? && IndexKey.IsIndexKey(key.name)) &&
            (key.Key? && IndexKey.IsIndexKey(key.name) && r.0.status == Running ==> |r.0.log| > |w.log|)
  {
    IndexKey.OtherKeysRejected();
  }

  /** One access that completes: the log gains exactly one call of this
      handle's creator, last, returning the object (before it only the
      lazies the creator reads are created), and the afterEach hooks gain
      exactly one refresher, for that object; the beforeEach hooks are
      untouched. A creator that throws registers nothing. */
  lemma FreshCreateOnce(env: Env, w: World, factory: nat)
    requires Valid(w) && w.status == Running && factory < |w.freshDefs|
    ensures var (w1, created) := FreshCreate(env, w, factory);
            w.log <= w1.log &&
            (w1.status != Running ==>
               created == Undefined && w1.scopes == w.scopes &&
               forall e :: e in w1.log[|w.log|..] ==> e.Created? && e.source.FromLazy?) &&
            (w1.status == Running ==>
               |w.log| < |w1.log| && w1.log[|w1.log| - 1] == Created(FromFresh(factory), created) &&
               (forall e :: e in w1.log[|w.log|..|w1.log| - 1] ==> e.Created? && e.source.FromLazy?) &&
               AfterHooks(w1.scopes) ==
                 LastScope(w.scopes).after + [Refresh(factory, created)] + AfterHooks(w.scopes[..|w.scopes| - 1]) &&
               multiset(AfterHooks(w1.scopes)) == multiset(AfterHooks(w.scopes)) + multiset{Refresh(factory, created)} &&
               BeforeHooks(w1.scopes) == BeforeHooks(w.scopes))
  {
    hide Create;
    var (w1, created) := FreshCreate(env, w, factory);
    var c := Create(env, w, w.freshDefs[factory], FromFresh(factory), {});
    if w1.status == Running {
      var n := |w.scopes| - 1;
      assert w1.scopes[..n] == w.scopes[..n];
      assert AfterHooks(w.scopes) == LastScope(w.scopes).after + AfterHooks(w.scopes[..n]);
      assert BeforeHooks(w.scopes) == BeforeHooks(w.scopes[..n]) + LastScope(w.scopes).before;
      forall e | e in w1.log[|w.log|..|w1.log| - 1]
        ensures e.Created? && e.source.FromLazy?
      {
        assert CreatedOutside(e, {});
      }
    } else {
      assert forall e :: e in w1.log[|w.log|..] ==> CreatedOutside(e, {});
    }
  }

  /** An external creator that returns a new value on every call. */
  ghost predicate NewEachCall(env: Env, id: nat) {
    forall t, t' :: t != t' ==> env.produce(id, t) != env.produce(id, t')
  }

  /** Two accesses that complete give two different objects: a wrapping
      creator allocates a new object literal each time, and an external
      creator is called at two different times. */
  lemma FreshObjectsDistinct(env: Env, w: World, factory: nat)
    requires Valid(w) && w.status == Running && factory < |w.freshDefs|
    requires w.freshDefs[factory].Factory? ==> NewEachCall(env, w.freshDefs[factory].id)
    ensures var (w1, first) := FreshCreate(env, w, factory);
            w1.status == Running ==>
              var (w2, second) := FreshCreate(env, w1, factory);
              w2.status == Running ==> first != second
  {
    var (w1, first) := FreshCreate(env, w, factory);
    if w1.status == Running {
      var (w2, second) := FreshCreate(env, w1, factory);
      match w.freshDefs[factory]
      case Factory(id) =>
        assert first == env.produce(id, |w.log|);
        assert second == env.produce(id, |w1.log|);
      case Wrapping(_, _) =>
    }
  }

  /* ---------------------------------------------------------------------- */
  /* The refreshers of a test                                                */

  /** Whether a step, when it runs, makes a fresh handle create an object. */
  predicate CreatesObject(a: Action) {
    a.CallFresh? || (a.GetFresh? && a.key.Key? && IndexKey.IsIndexKey(a.key.name))
  }

  /** The refreshers the first `n` steps of a body should register: in step
      order, one for the object each creating step got, when that step ran
      without throwing. */
  function RefreshersUpTo(env: Env, start: World, body: seq<Action>, n: nat): seq<Hook>
    requires Valid(start) && ActionsOk(body, BoundsOf(start)) && n <= |body|
  {
    if n == 0 then []
    else
      RefreshersUpTo(env, start, body, n - 1) +
      if CreatesObject(body[n - 1]) && StateAt(env, start, body, n).status == Running
      then [Refresh(body[n - 1].factory, PerformAll(env, start, body).1[n - 1])]
      else []
  }

  /** The events running refreshers logs: one per refresher, in order. */
  function RefreshEvents(hs: seq<Hook>): seq<Event> {
    if hs == [] then []
    else
      var k := hs[|hs| - 1];
      RefreshEvents(hs[..|hs| - 1]) + if k.Refresh? then [Refreshed(k.factory, k.target)] else []
  }

  /** One step adds to the innermost afterEach list exactly the refresher of
      the object it created, if it created one without throwing. */
  lemma PerformRefresher(env: Env, w: World, a: Action)
    requires Valid(w) && ActionOk(a, BoundsOf(w))
    ensures var r := Perform(env, w, a);
            LastScope(r.0.scopes).after ==
              LastScope(w.scopes).after +
              if CreatesObject(a) && r.0.status == Running then [Refresh(a.factory, r.1)] else []
  {
    hide LazyApply, MemberCall, Create, IndexKey.IsIndexKey;
    if w.status == Running && a.GetFresh? {
      IndexKey.OtherKeysRejected();
    }
  }

  /** After `n` steps, the body's own afterEach list has gained exactly the
      refreshers of its creating steps, in order. */
  lemma {:induction false} OwnAfterList(env: Env, start: World, body: seq<Action>, n: nat)
    requires Valid(start) && ActionsOk(body, BoundsOf(start)) && n <= |body|
    ensures LastScope(StateAt(env, start, body, n).scopes).after ==
            LastScope(start.scopes).after + RefreshersUpTo(env, start, body, n)
    decreases n
  {
    hide Perform;
    if n == 0 {
      assert body[..0] == [];
    } else {
      OwnAfterList(env, start, body, n - 1);
      PerformAllStep(env, start, body, n - 1);
      PerformRefresher(env, StateAt(env, start, body, n - 1), body[n - 1]);
    }
  }

  /** Running refreshers logs one refresh per refresher, in order. */
  lemma {:induction false} RunRefreshers(w: World, hs: seq<Hook>)
    requires Valid(w) && HooksOk(hs, BoundsOf(w)) && forall k :: k in hs ==> k.Refresh?
    ensures RunHooks(w, hs).log == w.log + RefreshEvents(hs)
    decreases |hs|
  {
    if hs != [] {
      var pre := hs[..|hs| - 1];
      assert forall k :: k in pre ==> k in hs;
      assert hs[|hs| - 1] in hs;
      RunRefreshers(w, pre);
    }
  }

  /** A test, whatever its body: the afterEach hooks the body registered
      are exactly the refreshers of its creating steps, in order, one per
      object created. When the body is over, whether it threw or not, they
      run first, each refreshing its own object, before any hook of the
      enclosing scopes; the scope stack after the test is the one before it,
      so no refresher runs again in a later test. */
  lemma FreshRefreshedAfterTest(env: Env, w: World, body: seq<Action>)
    requires Valid(w) && ActionsOk(body, BoundsOf(w))
    ensures var start := TestStart(w);
            var ran := PerformAll(env, start, body).0;
            var refreshers := RefreshersUpTo(env, start, body, |body|);
            var t := RunTest(env, w, body).0;
            LastScope(ran.scopes).after == refreshers &&
            ran.log + RefreshEvents(refreshers) <= t.log &&
            t.scopes == w.scopes
  {
    var start := TestStart(w);
    OwnAfterList(env, start, body, |body|);
    assert body[..|body|] == body;
    RunTestPhases(env, w, body);
    var ran := PerformAll(env, start, body).0;
    RunRefreshers(ran, LastScope(ran.scopes).after);
  }
}
