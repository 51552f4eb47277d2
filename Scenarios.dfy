/** Concrete callback sequences: nested functions, and a function mixing
    string and integer duplicates. */
module ReturnScenarios {
  import opened Returns
  import opened ReturnProperties

  /** One callback off the front of a sequence that has not failed yet (a
      rewrite step for the scenarios below). */
  lemma RunFirst<V>(ignoreInts: bool, s: State<V>, t: seq<Callback<V>>, s1: State<V>)
    requires t != [] && Step(ignoreInts, s, t[0]) == Ok(s1)
    ensures Run(ignoreInts, s, t) == Run(ignoreInts, s1, t[1..])
  {
  }

  /** The states of the nested-function scenarios below, for a value `v`. */
  function NestedStates<V>(v: V): seq<State<V>> {
    var o1, o2, o3 := Obs(v, Other, 1), Obs(v, Other, 2), Obs(v, Other, 3);
    [ State([], []),                        // 0: nothing open
      State([[]], []),                      // 1: outer function open
      State([[o1]], []),                    // 2: outer returned v
      State([[o1], []], []),                // 3: inner function open
      State([[o1], [o2]], []),              // 4: inner returned v
      State([[o1], [o2, o3]], [3]),         // 5: inner returned v again
      State([[o1]], [3]) ]                  // 6: inner closed after 5
  }

  /** The entries and exits the scenarios are made of. */
  lemma NestedScopeSteps<V>(v: V)
    ensures var st := NestedStates(v);
      Step(false, st[0], EnterFunction) == Ok(st[1]) &&
      Step(false, st[2], EnterFunction) == Ok(st[3]) &&
      Step(false, st[4], LeaveFunction) == Ok(st[2]) &&
      Step(false, st[5], LeaveFunction) == Ok(st[6]) &&
      Step(false, st[2], LeaveFunction) == Ok(st[0]) &&
      Step(false, st[6], LeaveFunction) == Ok(State([], [3]))
  {
  }

  /** The first return of `v` in each function finds nothing equal. */
  lemma NestedFirstReturns<V>(v: V)
    ensures var st := NestedStates(v);
      Step(false, st[1], Return(1, Const(v, Other))) == Ok(st[2]) &&
      Step(false, st[3], Return(2, Const(v, Other))) == Ok(st[4])
  {
    var none: seq<Frame<V>> := [];
    var quiet: seq<NodeId> := [];
    var e: Frame<V> := [];
    var o1, o2 := Obs(v, Other, 1), Obs(v, Other, 2);
    ConstReturnOnTop(false, none, e, quiet, 1, v, Other);
    ConstReturnOnTop(false, [[o1]], e, quiet, 2, v, Other);
    assert none + [e] == [e] && [[o1]] + [e] == [[o1], e];
    assert e + [o1] == [o1] && none + [[o1]] == [[o1]];
    assert e + [o2] == [o2] && [[o1]] + [[o2]] == [[o1], [o2]];
    assert quiet + Repeat(1, 0) == quiet && quiet + Repeat(2, 0) == quiet;
  }

  /** The second return of `v` in the inner function finds the first one. */
  lemma NestedSecondReturn<V>(v: V)
    ensures var st := NestedStates(v);
      Step(false, st[4], Return(3, Const(v, Other))) == Ok(st[5])
  {
    var quiet: seq<NodeId> := [];
    var o1, o2, o3 := Obs(v, Other, 1), Obs(v, Other, 2), Obs(v, Other, 3);
    ConstReturnOnTop(false, [[o1]], [o2], quiet, 3, v, Other);
    assert [o2][..0] == [];
    assert EqualCount([o2], v) == 1;
    assert Repeat(3, 1) == [3];
    assert [[o1]] + [[o2]] == [[o1], [o2]] && [o2] + [o3] == [o2, o3];
    assert [[o1]] + [[o2, o3]] == [[o1], [o2, o3]];
    assert quiet + [3] == [3];
  }

  /** Nested functions are independent: a constant returned once by an outer
      function and once by a function nested in it draws no finding. */
  lemma NestedReturnsDoNotClash<V>(v: V)
    ensures Run(false, State([], []),
                [EnterFunction, Return(1, Const(v, Other)),
                   EnterFunction, Return(2, Const(v, Other)), LeaveFunction,
                 LeaveFunction]) == Ok(State([], []))
  {
    var st := NestedStates(v);
    NestedScopeSteps(v);
    NestedFirstReturns(v);
    var t := [EnterFunction, Return(1, Const(v, Other)),
              EnterFunction, Return(2, Const(v, Other)), LeaveFunction, LeaveFunction];
    RunFirst(false, st[0], t, st[1]);
    RunFirst(false, st[1], t[1..], st[2]);
    RunFirst(false, st[2], t[2..], st[3]);
    RunFirst(false, st[3], t[3..], st[4]);
    RunFirst(false, st[4], t[4..], st[2]);
    RunFirst(false, st[2], t[5..], st[0]);
    assert t[5..][1..] == [];
  }

  /** A second return of the constant inside the inner function draws exactly
      one finding, attributed to that second return. */
  lemma InnerDuplicateIsReported<V>(v: V)
    ensures Run(false, State([], []),
                [EnterFunction, Return(1, Const(v, Other)),
                   EnterFunction, Return(2, Const(v, Other)), Return(3, Const(v, Other)), LeaveFunction,
                 LeaveFunction]) == Ok(State([], [3]))
  {
    var st := NestedStates(v);
    NestedScopeSteps(v);
    NestedFirstReturns(v);
    var t := [EnterFunction, Return(1, Const(v, Other)),
              EnterFunction, Return(2, Const(v, Other)), Return(3, Const(v, Other)), LeaveFunction,
              LeaveFunction];
    RunFirst(false, st[0], t, st[1]);
    RunFirst(false, st[1], t[1..], st[2]);
    RunFirst(false, st[2], t[2..], st[3]);
    RunFirst(false, st[3], t[3..], st[4]);
    NestedSecondReturn(v);
    RunFirst(false, st[4], t[4..], st[5]);
    RunFirst(false, st[5], t[5..], st[6]);
    RunFirst(false, st[6], t[6..], State([], [3]));
    assert t[6..][1..] == [];
  }

  /** The literal values of the scenario. */
  datatype Literal = Str(text: string) | Num(number: int)

  /** A function body that returns "ok" three times and the integer 1 twice,
      in any order and among any non-constant returns: without the exemption
      the three "ok" give 3 findings and the two 1 give one more; with it only
      the 3 string findings remain. */
  lemma OkThriceOneTwice(ignoreInts: bool, lower: seq<Frame<Literal>>, log: seq<NodeId>,
                         t: seq<Callback<Literal>>)
    requires ReturnsOnly(t)
    requires forall i :: 0 <= i < |t| && t[i].Return? && t[i].expr.Const? ==>
      t[i].expr == Const(Str("ok"), Other) || t[i].expr == Const(Num(1), Int)
    requires |ConstPositions(t, Str("ok"))| == 3 && |ConstPositions(t, Num(1))| == 2
    ensures var r := Run(ignoreInts, State(lower + [[]], log), t);
      r.Ok? && |r.state.findings| == |log| + (if ignoreInts then 3 else 4)
  {
    FlatBody(ignoreInts, lower, log, t);
    FindingsSplitByValue(ignoreInts, t, Str("ok"), Num(1));
    EqualConstantsPairUp(ignoreInts, t, Str("ok"));
    if ignoreInts {
      ExemptConstantsAreSilent(ignoreInts, t, Num(1));
    } else {
      EqualConstantsPairUp(ignoreInts, t, Num(1));
    }
  }
}
