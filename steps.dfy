/** How a test decomposes: a body split in two runs as its halves one after
    the other, a hook list likewise, and a test is its beforeEach phase, its
    body, the hooks the body registered, and the enclosing afterEach hooks. */
module Steps {
  import opened JsValues
  import opened Zest

  lemma ActionsOkSlice(body: seq<Action>, i: nat, j: nat, b: Bounds)
    requires i <= j <= |body| && ActionsOk(body, b)
    ensures ActionsOk(body[i..j], b)
  {
    forall a | a in body[i..j]
      ensures ActionOk(a, b)
    {
      var k :| i <= k < j && body[k] == a;
      assert a in body;
    }
  }

  /** The values a body observes begin with those its first `k` steps
      observe. */
  lemma {:induction false} PerformAllPrefix(env: Env, w: World, body: seq<Action>, k: nat)
    requires Valid(w) && ActionsOk(body, BoundsOf(w)) && k <= |body|
    ensures ActionsOk(body[..k], BoundsOf(w))
    ensures PerformAll(env, w, body[..k]).1 == PerformAll(env, w, body).1[..k]
    decreases |body|
  {
    hide Perform;
    ActionsOkSlice(body, 0, k, BoundsOf(w));
    if k < |body| {
      var n := |body| - 1;
      ActionsOkSlice(body, 0, n, BoundsOf(w));
      PerformAllPrefix(env, w, body[..n], k);
      assert body[..n][..k] == body[..k];
    } else {
      assert body[..k] == body;
    }
  }

  /** The state the first `k` steps of a body leave. */
  function StateAt(env: Env, w: World, body: seq<Action>, k: nat): (r: World)
    requires Valid(w) && ActionsOk(body, BoundsOf(w)) && k <= |body|
    ensures Valid(r) && BoundsOf(r) == BoundsOf(w) && r.lazyDefs == w.lazyDefs
    ensures r.currentValue == w.currentValue
  {
    ActionsOkSlice(body, 0, k, BoundsOf(w));
    PerformAll(env, w, body[..k]).0
  }

  /** Step `k` of a body starts from `StateAt(k)`; its value is the `k`-th
      value the body observes, and it leaves `StateAt(k + 1)`. */
  lemma PerformAllStep(env: Env, w: World, body: seq<Action>, k: nat)
    requires Valid(w) && ActionsOk(body, BoundsOf(w)) && k < |body|
    ensures ActionOk(body[k], BoundsOf(StateAt(env, w, body, k)))
    ensures Perform(env, StateAt(env, w, body, k), body[k]).0 == StateAt(env, w, body, k + 1)
    ensures PerformAll(env, w, body).1[k] == Perform(env, StateAt(env, w, body, k), body[k]).1
  {
    hide Perform;
    assert body[k] in body;
    ActionsOkSlice(body, 0, k, BoundsOf(w));
    ActionsOkSlice(body, 0, k + 1, BoundsOf(w));
    assert body[..k + 1][..k] == body[..k];
    PerformAllPrefix(env, w, body, k + 1);
  }

  /** A step that starts after the body has thrown runs no code. */
  lemma SkippedStep(env: Env, w: World, body: seq<Action>, k: nat)
    requires Valid(w) && ActionsOk(body, BoundsOf(w)) && k < |body|
    requires StateAt(env, w, body, k).status != Running
    ensures StateAt(env, w, body, k + 1) == StateAt(env, w, body, k)
    ensures PerformAll(env, w, body).1[k] == Undefined
  {
    PerformAllStep(env, w, body, k);
  }

  /** Once a step has thrown, the rest of the body runs no code: the state
      stays as the throw left it. */
  lemma {:induction false} ThrownBodyStops(env: Env, w: World, body: seq<Action>, k: nat, m: nat)
    requires Valid(w) && ActionsOk(body, BoundsOf(w)) && k <= m <= |body|
    requires StateAt(env, w, body, k).status != Running
    ensures StateAt(env, w, body, m) == StateAt(env, w, body, k)
    decreases m
  {
    if k < m {
      ThrownBodyStops(env, w, body, k, m - 1);
      SkippedStep(env, w, body, m - 1);
    }
  }

  /** Once a step has thrown, every later step observes undefined. */
  lemma ThrownBodyObservesUndefined(env: Env, w: World, body: seq<Action>, k: nat, n: nat)
    requires Valid(w) && ActionsOk(body, BoundsOf(w)) && k <= n < |body|
    requires StateAt(env, w, body, k).status != Running
    ensures PerformAll(env, w, body).1[n] == Undefined
  {
    ThrownBodyStops(env, w, body, k, n);
    SkippedStep(env, w, body, n);
  }

  /** A hook list split in two runs as its halves, one after the other. */
  lemma {:induction false} RunHooksAppend(w: World, a: seq<Hook>, b: seq<Hook>)
    requires Valid(w) && HooksOk(a, BoundsOf(w)) && HooksOk(b, BoundsOf(w))
    ensures HooksOk(a + b, BoundsOf(w))
    ensures RunHooks(w, a + b) == RunHooks(RunHooks(w, a), b)
    decreases |b|
  {
    if b == [] {
      assert a + b == a;
    } else {
      var b' := b[..|b| - 1];
      assert forall k :: k in b' ==> k in b;
      assert b[|b| - 1] in b;
      RunHooksAppend(w, a, b');
      assert (a + b)[..|a + b| - 1] == a + b';
    }
  }

  /** A test, phase by phase: the enclosing scopes' beforeEach hooks, the
      body, the afterEach hooks the body registered, then the enclosing
      scopes' afterEach hooks innermost first; the scope stack is as before. */
  lemma RunTestPhases(env: Env, w: World, body: seq<Action>)
    requires Valid(w) && ActionsOk(body, BoundsOf(w))
    ensures var started := TestStart(w);
            var ran := PerformAll(env, started, body).0;
            |ran.scopes| == |w.scopes| + 1 &&
            ran.scopes[..|w.scopes|] == w.scopes &&
            (forall k :: k in LastScope(ran.scopes).after ==> k.Refresh?) &&
            AfterHooks(ran.scopes) == LastScope(ran.scopes).after + AfterHooks(w.scopes)
    ensures var ran := PerformAll(env, TestStart(w), body).0;
            HooksOk(LastScope(ran.scopes).after, BoundsOf(ran)) &&
            HooksOk(AfterHooks(w.scopes), BoundsOf(ran)) &&
            RunTest(env, w, body) ==
              (RunHooks(RunHooks(ran, LastScope(ran.scopes).after), AfterHooks(w.scopes)).(scopes := w.scopes),
               PerformAll(env, TestStart(w), body).1)
  {
    var started := TestStart(w);
    var ran := PerformAll(env, started, body).0;
    assert ran.scopes[..|w.scopes|] == w.scopes by {
      assert started.scopes[..|w.scopes|] == w.scopes;
    }
    assert InnermostAfterRefreshOnly(started.scopes);
    AfterHooksOk(ran.scopes, BoundsOf(ran));
    assert LastScope(ran.scopes) in ran.scopes;
    AfterHooksOk(w.scopes, BoundsOf(ran)) by {
      forall s | s in w.scopes
        ensures HooksOk(s.before, BoundsOf(ran)) && HooksOk(s.after, BoundsOf(ran))
      {
        assert s in ran.scopes[..|w.scopes|];
        assert s in ran.scopes;
      }
    }
    RunHooksAppend(ran, LastScope(ran.scopes).after, AfterHooks(w.scopes));
    assert FinishTest(ran) ==
      RunHooks(ran, AfterHooks(ran.scopes)).(scopes := RunHooks(ran, AfterHooks(ran.scopes)).scopes[..|ran.scopes| - 1]);
  }
}
