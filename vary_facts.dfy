/** What `vary` promises: a test reads the value assigned by the innermost
    enclosing scope that assigned one, `initialValue` in the scope where the
    handle was made, so nested overrides shadow outer ones and are undone
    when their scope ends. */
module VaryFacts {
  import opened JsValues
  import opened Zest
  import opened Steps

  /** The value a list of hooks assigns to a cell last, if it assigns one. */
  datatype Assignment = Unassigned | Assigned(value: Value)

  function ValueOr(a: Assignment, otherwise: Value): Value {
    if a.Assigned? then a.value else otherwise
  }

  function LastAssign(hs: seq<Hook>, cell: nat): Assignment {
    if hs == [] then Unassigned
    else
      var k := hs[|hs| - 1];
      if k.AssignVary? && k.cell == cell then Assigned(k.value) else LastAssign(hs[..|hs| - 1], cell)
  }

  /** The reference meaning of shadowing: the assignment of the innermost
      scope that assigns the cell at all. */
  function Innermost(scopes: seq<Scope>, cell: nat): Assignment {
    if scopes == [] then Unassigned
    else
      var here := LastAssign(LastScope(scopes).before, cell);
      if here.Assigned? then here else Innermost(scopes[..|scopes| - 1], cell)
  }

  lemma {:induction false} LastAssignAppend(a: seq<Hook>, b: seq<Hook>, cell: nat)
    ensures LastAssign(a + b, cell) == if LastAssign(b, cell).Assigned? then LastAssign(b, cell) else LastAssign(a, cell)
    decreases |b|
  {
    if b == [] {
      assert a + b == a;
    } else {
      assert (a + b)[..|a + b| - 1] == a + b[..|b| - 1];
      LastAssignAppend(a, b[..|b| - 1], cell);
    }
  }

  /** Running the beforeEach hooks outer scope first makes the innermost
      assignment the one that sticks. */
  lemma {:induction false} BeforeHooksInnermost(scopes: seq<Scope>, cell: nat)
    ensures LastAssign(BeforeHooks(scopes), cell) == Innermost(scopes, cell)
    decreases |scopes|
  {
    if scopes != [] {
      BeforeHooksInnermost(scopes[..|scopes| - 1], cell);
      LastAssignAppend(BeforeHooks(scopes[..|scopes| - 1]), LastScope(scopes).before, cell);
    }
  }

  /** After a list of hooks a cell holds the last value they assign to it, or
      what it held before when they assign none. */
  lemma {:induction false} RunHooksAssigns(w: World, hs: seq<Hook>, cell: nat)
    requires Valid(w) && HooksOk(hs, BoundsOf(w)) && cell < |w.currentValue|
    ensures RunHooks(w, hs).currentValue[cell] == ValueOr(LastAssign(hs, cell), w.currentValue[cell])
    decreases |hs|
  {
    if hs != [] {
      assert forall k :: k in hs[..|hs| - 1] ==> k in hs;
      assert hs[|hs| - 1] in hs;
      RunHooksAssigns(w, hs[..|hs| - 1], cell);
    }
  }

  /** Every read of a vary handle in a test body, also after `new handle(v)`
      in that body, returns the innermost enclosing scope's assignment,
      unless the body threw before it. */
  lemma VarySeenInTest(env: Env, w: World, body: seq<Action>, cell: nat, k: nat)
    requires Valid(w) && ActionsOk(body, BoundsOf(w)) && cell < |w.currentValue|
    requires k < |body| && body[k] == CallVary(cell)
    ensures RunTest(env, w, body).1[k] ==
            if StateAt(env, TestStart(w), body, k).status == Running
            then ValueOr(Innermost(w.scopes, cell), w.currentValue[cell]) else Undefined
  {
    var start := TestStart(w);
    TestStartAssigns(w, cell);
    PerformAllStep(env, start, body, k);
    assert body[k] in body;
  }

  /** A test starts with every cell holding the innermost enclosing scope's
      assignment. */
  lemma TestStartAssigns(w: World, cell: nat)
    requires Valid(w) && cell < |w.currentValue|
    ensures TestStart(w).currentValue[cell] == ValueOr(Innermost(w.scopes, cell), w.currentValue[cell])
  {
    var own := Describe(w).(status := Running);
    assert own.scopes[..|w.scopes|] == w.scopes;
    assert BeforeHooks(own.scopes) == BeforeHooks(w.scopes) + [];
    assert Innermost(own.scopes, cell) == Innermost(w.scopes, cell);
    BeforeHooksOk(own.scopes, BoundsOf(own));
    RunHooksAssigns(own, BeforeHooks(own.scopes), cell);
    BeforeHooksInnermost(own.scopes, cell);
  }

  /** `vary(initialValue)` assigns `initialValue` in the current scope and
      changes no other cell's assignment. */
  lemma DefineVaryAssigns(w: World, initial: Value)
    requires Valid(w)
    ensures var (w1, cell) := DefineVary(w, initial);
            cell == |w.currentValue| && Innermost(w1.scopes, cell) == Assigned(initial) &&
            forall c :: c != cell ==> Innermost(w1.scopes, c) == Innermost(w.scopes, c)
  {
    var (w1, cell) := DefineVary(w, initial);
    assert w1.scopes[..|w.scopes| - 1] == w.scopes[..|w.scopes| - 1];
    forall c | c != cell
      ensures Innermost(w1.scopes, c) == Innermost(w.scopes, c)
    {
      assert (LastScope(w.scopes).before + [AssignVary(cell, initial)])[..|LastScope(w.scopes).before|]
          == LastScope(w.scopes).before;
    }
  }

  /** `new handle(...args)` adds exactly one beforeEach hook, at the end of
      the list, assigning the first argument; it touches no afterEach hook and
      no other cell, and returns a new empty object. */
  lemma VaryConstructOverrides(w: World, cell: nat, args: seq<Value>)
    requires Valid(w) && cell < |w.currentValue|
    ensures var (w1, result) := VaryConstruct(w, cell, args);
            result == Obj(w.objects, map[]) && w1.objects == w.objects + 1 &&
            BeforeHooks(w1.scopes) == BeforeHooks(w.scopes) + [AssignVary(cell, FirstArgument(args))] &&
            AfterHooks(w1.scopes) == AfterHooks(w.scopes) &&
            Innermost(w1.scopes, cell) == Assigned(FirstArgument(args)) &&
            forall c :: c != cell ==> Innermost(w1.scopes, c) == Innermost(w.scopes, c)
  {
    var (w1, _) := VaryConstruct(w, cell, args);
    var n := |w.scopes| - 1;
    var k := AssignVary(cell, FirstArgument(args));
    var here := LastScope(w.scopes).before;
    assert w1.scopes[..n] == w.scopes[..n];
    assert BeforeHooks(w1.scopes) == BeforeHooks(w.scopes[..n]) + (here + [k]);
    assert BeforeHooks(w.scopes) == BeforeHooks(w.scopes[..n]) + here;
    forall c | c != cell
      ensures Innermost(w1.scopes, c) == Innermost(w.scopes, c)
    {
      assert (here + [k])[..|here|] == here;
    }
  }

  /** A test that only reads the handle sees `expected` when the innermost
      assignment is `expected`. */
  lemma ReadOnce(env: Env, w: World, cell: nat, expected: Value)
    requires Valid(w) && cell < |w.currentValue| && Innermost(w.scopes, cell) == Assigned(expected)
    ensures ActionsOk([CallVary(cell)], BoundsOf(w))
    ensures RunTest(env, w, [CallVary(cell)]).1 == [expected]
  {
    assert [CallVary(cell)][..0] == [];
    VarySeenInTest(env, w, [CallVary(cell)], cell, 0);
  }

  /** A test that reads the handle in a state whose innermost assignment is
      `x`, followed by a new group that overrides it with `y`. */
  lemma ReadThenOverride(env: Env, w: World, v: nat, x: Value, y: Value)
    requires Valid(w) && v < |w.currentValue| && Innermost(w.scopes, v) == Assigned(x)
    ensures ActionsOk([CallVary(v)], BoundsOf(w))
    ensures var (t, s) := RunTest(env, w, [CallVary(v)]);
            var w' := VaryConstruct(Describe(t), v, [y]).0;
            s == [x] && Valid(w') && v < |w'.currentValue| && Innermost(w'.scopes, v) == Assigned(y) &&
            w'.scopes[..|w.scopes|] == w.scopes && |w'.scopes| == |w.scopes| + 1
  {
    ReadOnce(env, w, v, x);
    var t := RunTest(env, w, [CallVary(v)]).0;
    VaryConstructOverrides(Describe(t), v, [y]);
  }

  /** A test that reads the handle in a group whose innermost assignment is
      `x`, at the end of that group. */
  lemma ReadThenEnd(env: Env, w: World, v: nat, x: Value)
    requires Valid(w) && v < |w.currentValue| && Innermost(w.scopes, v) == Assigned(x) && |w.scopes| > 1
    ensures ActionsOk([CallVary(v)], BoundsOf(w))
    ensures var (t, s) := RunTest(env, w, [CallVary(v)]);
            var w' := EndDescribe(t);
            s == [x] && Valid(w') && v < |w'.currentValue| && w'.scopes == w.scopes[..|w.scopes| - 1]
  {
    ReadOnce(env, w, v, x);
  }

  /** The group that overrides with 9: a test in it reads 9, a test in its
      inner group that overrides with 12 reads 12, and a test after the inner
      group reads 9 again. */
  lemma OverrideGroupReads(env: Env, w2: World, v: nat)
    requires Valid(w2) && v < |w2.currentValue| && Innermost(w2.scopes, v) == Assigned(Num(9)) && |w2.scopes| > 1
    ensures ActionsOk([CallVary(v)], BoundsOf(w2))
    ensures var (t2, s2) := RunTest(env, w2, [CallVary(v)]);
            var w3 := VaryConstruct(Describe(t2), v, [Num(12)]).0;
            var (t3, s3) := RunTest(env, w3, [CallVary(v)]);
            var (t4, s4) := RunTest(env, EndDescribe(t3), [CallVary(v)]);
            var w5 := EndDescribe(t4);
            s2 == [Num(9)] && s3 == [Num(12)] && s4 == [Num(9)] &&
            Valid(w5) && v < |w5.currentValue| && w5.scopes == w2.scopes[..|w2.scopes| - 1]
  {
    ReadThenOverride(env, w2, v, Num(9), Num(12));
    var w3 := VaryConstruct(Describe(RunTest(env, w2, [CallVary(v)]).0), v, [Num(12)]).0;
    ReadThenEnd(env, w3, v, Num(12));
    var w4 := EndDescribe(RunTest(env, w3, [CallVary(v)]).0);
    assert w4.scopes == w2.scopes;
    ReadThenEnd(env, w4, v, Num(9));
  }

  /** `vary(5)`, then a test; a group with `new handle(9)` holding a test, an
      inner group with `new handle(12)` holding a test, and a test after the
      inner group; then a test after the outer group. The five tests read 5,
      9, 12, 9 and 5, whatever the suite held already. */
  lemma NestedOverrides(env: Env, w: World)
    requires Valid(w)
    ensures var (w1, v) := DefineVary(w, Num(5));
            var (t1, s1) := RunTest(env, w1, [CallVary(v)]);
            var w2 := VaryConstruct(Describe(t1), v, [Num(9)]).0;
            var (t2, s2) := RunTest(env, w2, [CallVary(v)]);
            var w3 := VaryConstruct(Describe(t2), v, [Num(12)]).0;
            var (t3, s3) := RunTest(env, w3, [CallVary(v)]);
            var (t4, s4) := RunTest(env, EndDescribe(t3), [CallVary(v)]);
            var (t5, s5) := RunTest(env, EndDescribe(t4), [CallVary(v)]);
            s1 == [Num(5)] && s2 == [Num(9)] && s3 == [Num(12)] && s4 == [Num(9)] && s5 == [Num(5)]
  {
    var (w1, v) := DefineVary(w, Num(5));
    DefineVaryAssigns(w, Num(5));
    ReadThenOverride(env, w1, v, Num(5), Num(9));
    var w2 := VaryConstruct(Describe(RunTest(env, w1, [CallVary(v)]).0), v, [Num(9)]).0;
    OverrideGroupReads(env, w2, v);
    var w5 := EndDescribe(RunTest(env, EndDescribe(RunTest(env,
      VaryConstruct(Describe(RunTest(env, w2, [CallVary(v)]).0), v, [Num(12)]).0, [CallVary(v)]).0), [CallVary(v)]).0);
    assert w5.scopes == w1.scopes;
    ReadOnce(env, w5, v, Num(5));
  }
}
