/** What the duplicate-constant-return rule guarantees, proved about the
    callback semantics of module Returns. */
module ReturnProperties {
  import opened Returns

  // ---------------------------------------------------------------------
  // Counting equal observations

  /** EqualCount counts exactly the positions of the frame holding `v`. */
  lemma {:induction false} EqualCountIsMatchCount<V>(frame: Frame<V>, v: V)
    ensures EqualCount(frame, v) == |MatchIndices(frame, v)|
  {
    if frame != [] {
      var last := |frame| - 1;
      var prefix := frame[..last];
      EqualCountIsMatchCount(prefix, v);
      assert MatchIndices(frame, v)
        == MatchIndices(prefix, v) + (if frame[last].value == v then {last} else {});
      assert last !in MatchIndices(prefix, v);
    }
  }

  /** No equal value means a count of zero, and every value equal means a
      count of the whole frame; and conversely. */
  lemma {:induction false} EqualCountExtremes<V>(frame: Frame<V>, v: V)
    ensures EqualCount(frame, v) == 0 <==> forall j :: 0 <= j < |frame| ==> frame[j].value != v
    ensures EqualCount(frame, v) == |frame| <==> forall j :: 0 <= j < |frame| ==> frame[j].value == v
  {
    if frame != [] {
      var last := |frame| - 1;
      var prefix := frame[..last];
      EqualCountExtremes(prefix, v);
      assert forall j :: 0 <= j < last ==> prefix[j] == frame[j];
    }
  }

  /** Counting over a frame split in two adds up. */
  lemma {:induction false} EqualCountConcat<V>(a: Frame<V>, b: Frame<V>, v: V)
    ensures EqualCount(a + b, v) == EqualCount(a, v) + EqualCount(b, v)
  {
    if b != [] {
      var last := |b| - 1;
      EqualCountConcat(a, b[..last], v);
      assert (a + b)[..|a + b| - 1] == a + b[..last];
      assert (a + b)[|a + b| - 1] == b[last];
    } else {
      assert a + b == a;
    }
  }

  // ---------------------------------------------------------------------
  // One callback at a time

  /** Entering a function pushes exactly one empty frame and changes nothing else. */
  lemma EnterPushesEmptyFrame<V>(ignoreInts: bool, s: State<V>)
    ensures Step(ignoreInts, s, EnterFunction).Ok?
    ensures var s' := Step(ignoreInts, s, EnterFunction).state;
      |s'.stack| == |s.stack| + 1 && s'.stack[|s.stack|] == [] &&
      s'.stack[..|s.stack|] == s.stack && s'.findings == s.findings
  {
  }

  /** Leaving a function fails exactly on an empty stack, and otherwise drops
      only the top frame. */
  lemma LeaveDropsTopFrame<V>(ignoreInts: bool, s: State<V>)
    ensures Step(ignoreInts, s, LeaveFunction).IndexError? <==> s.stack == []
    ensures s.stack != [] ==>
      Step(ignoreInts, s, LeaveFunction) == Ok(State(s.stack[..|s.stack| - 1], s.findings))
  {
  }

  /** A leave that matches an enter restores the state exactly. */
  lemma LeaveUndoesEnter<V>(ignoreInts: bool, s: State<V>)
    ensures Step(ignoreInts, Step(ignoreInts, s, EnterFunction).state, LeaveFunction) == Ok(s)
  {
  }

  /** A non-constant return neither records anything nor reports anything. */
  lemma NonConstReturnIsIgnored<V>(ignoreInts: bool, s: State<V>, node: NodeId)
    ensures Step(ignoreInts, s, Return(node, NonConst)) == Ok(s)
  {
  }

  /** A constant return outside any function raises. */
  lemma ConstReturnNeedsAFrame<V>(ignoreInts: bool, s: State<V>, node: NodeId, v: V, k: Kind)
    ensures Step(ignoreInts, s, Return(node, Const(v, k))).IndexError? <==> s.stack == []
  {
  }

  /** A constant return reports the return node once per earlier observation
      of the top frame with an equal value (none when exempt), appends the new
      observation at the end of the top frame in every case, and leaves the
      lower frames alone. */
  lemma ConstReturnStep<V>(ignoreInts: bool, s: State<V>, node: NodeId, v: V, k: Kind)
    requires s.stack != []
    ensures var n := |s.stack| - 1;
      var top := s.stack[n];
      var r := Step(ignoreInts, s, Return(node, Const(v, k)));
      r.Ok? &&
      |r.state.stack| == |s.stack| &&
      r.state.stack[..n] == s.stack[..n] &&
      r.state.stack[n] == top + [Obs(v, k, node)] &&
      r.state.findings[..|s.findings|] == s.findings &&
      |r.state.findings| == |s.findings| + (if Exempt(ignoreInts, k) then 0 else |MatchIndices(top, v)|) &&
      forall j :: |s.findings| <= j < |r.state.findings| ==> r.state.findings[j] == node
  {
    var n := |s.stack| - 1;
    EqualCountIsMatchCount(s.stack[n], v);
    var r := Step(ignoreInts, s, Return(node, Const(v, k)));
    assert r.state.stack[..n] == s.stack[..n];
  }

  /** A constant return seen in the frame `top`, whatever lies below it: the
      `Const` case of Step written for a stack `lower + [top]` (a rewrite
      step for the proofs below; ConstReturnStep states what it means). */
  lemma ConstReturnOnTop<V>(ignoreInts: bool, lower: seq<Frame<V>>, top: Frame<V>, log: seq<NodeId>,
                            node: NodeId, v: V, k: Kind)
    ensures Step(ignoreInts, State(lower + [top], log), Return(node, Const(v, k)))
      == Ok(State(lower + [top + [Obs(v, k, node)]],
                  log + Repeat(node, if Exempt(ignoreInts, k) then 0 else EqualCount(top, v))))
  {
  }

  /** Only the new literal's kind decides the exemption: the kinds stored in
      the frame play no part. With `ignore-ints` on, an integer stored before
      still draws a finding against an equal non-integer literal, while an
      integer literal equal to a stored non-integer draws none. This is an
      example; the general fact is ConstReturnStep, whose count
      `if Exempt(ignoreInts, k) then 0 else |MatchIndices(top, v)|` reads
      only the new kind `k`, since MatchIndices ignores stored kinds. */
  lemma ExemptionLooksAtNewKindOnly<V>(v: V, a: NodeId, b: NodeId)
    ensures Step(true, State([[Obs(v, Int, a)]], []), Return(b, Const(v, Other))).state.findings == [b]
    ensures Step(true, State([[Obs(v, Other, a)]], []), Return(b, Const(v, Int))).state.findings == []
  {
  }

  // ---------------------------------------------------------------------
  // Sequences of callbacks

  /** Running two callback sequences one after the other is running their
      concatenation. */
  lemma {:induction false} RunConcat<V>(ignoreInts: bool, s: State<V>, t1: seq<Callback<V>>, t2: seq<Callback<V>>)
    decreases |t1|
    ensures Run(ignoreInts, s, t1 + t2)
      == match Run(ignoreInts, s, t1)
         case IndexError => IndexError
         case Ok(s1) => Run(ignoreInts, s1, t2)
  {
    if t1 != [] {
      assert (t1 + t2)[0] == t1[0];
      assert (t1 + t2)[1..] == t1[1..] + t2;
      match Step(ignoreInts, s, t1[0])
      case IndexError =>
        assert Run(ignoreInts, s, t1) == IndexError;
      case Ok(s1) =>
        RunConcat(ignoreInts, s1, t1[1..], t2);
        assert Run(ignoreInts, s, t1) == Run(ignoreInts, s1, t1[1..]);
    } else {
      assert t1 + t2 == t2;
    }
  }

  /** One callback behaves the same whatever frames lie below the ones it
      touches and whatever was reported before it. */
  lemma StepIgnoresEnclosing<V>(ignoreInts: bool, lower: seq<Frame<V>>, stack: seq<Frame<V>>,
                                    before: seq<NodeId>, log: seq<NodeId>, cb: Callback<V>)
    requires Step(ignoreInts, State(stack, log), cb).Ok?
    ensures var r := Step(ignoreInts, State(stack, log), cb).state;
      Step(ignoreInts, State(lower + stack, before + log), cb)
        == Ok(State(lower + r.stack, before + r.findings))
  {
  }

  /** Scope isolation: a callback sequence that runs without error on some
      stack runs the same way, and reports the same findings, with any
      enclosing frames underneath and any earlier findings in the log. So the
      observations of enclosing functions never produce findings. */
  lemma {:induction false} RunIgnoresEnclosing<V>(ignoreInts: bool, lower: seq<Frame<V>>, stack: seq<Frame<V>>,
                                                      before: seq<NodeId>, log: seq<NodeId>, t: seq<Callback<V>>)
    requires Run(ignoreInts, State(stack, log), t).Ok?
    ensures var r := Run(ignoreInts, State(stack, log), t).state;
      Run(ignoreInts, State(lower + stack, before + log), t)
        == Ok(State(lower + r.stack, before + r.findings))
    decreases |t|
  {
    if t != [] {
      var s1 := Step(ignoreInts, State(stack, log), t[0]).state;
      StepIgnoresEnclosing(ignoreInts, lower, stack, before, log, t[0]);
      RunIgnoresEnclosing(ignoreInts, lower, s1.stack, before, s1.findings, t[1..]);
    }
  }

  /** A function definition is a closed scope: if its body, run on a single
      fresh frame, closes cleanly with `delta` reported, then entering the
      function, running the body and leaving it from any state restores the
      stack and adds exactly `delta` to the findings. Sibling functions thus
      start from an empty frame and never see each other's returns. */
  lemma FunctionScopeIsClosed<V>(ignoreInts: bool, s: State<V>, body: seq<Callback<V>>,
                                     frame: Frame<V>, delta: seq<NodeId>)
    requires Run(ignoreInts, State([[]], []), body) == Ok(State([frame], delta))
    ensures Run(ignoreInts, s, [EnterFunction] + body + [LeaveFunction])
      == Ok(State(s.stack, s.findings + delta))
  {
    RunConcat(ignoreInts, s, [EnterFunction] + body, [LeaveFunction]);
    RunConcat(ignoreInts, s, [EnterFunction], body);
    var entered := State(s.stack + [[]], s.findings);
    assert Run(ignoreInts, s, [EnterFunction]) == Ok(entered);
    RunIgnoresEnclosing(ignoreInts, s.stack, [[]], s.findings, [], body);
    assert s.findings + [] == s.findings;
    assert Run(ignoreInts, s, [EnterFunction] + body) == Ok(State(s.stack + [frame], s.findings + delta));
    assert (s.stack + [frame])[..|s.stack|] == s.stack;
  }

  /** The stack depth tracks function nesting, and findings are only ever
      appended. */
  lemma {:induction false} RunDepth<V>(ignoreInts: bool, s: State<V>, t: seq<Callback<V>>)
    requires Run(ignoreInts, s, t).Ok?
    ensures var r := Run(ignoreInts, s, t).state;
      |r.stack| + Leaves(t) == |s.stack| + Enters(t) &&
      |s.findings| <= |r.findings| && r.findings[..|s.findings|] == s.findings
    decreases |t|
  {
    if t != [] {
      var s1 := Step(ignoreInts, s, t[0]).state;
      RunDepth(ignoreInts, s1, t[1..]);
      assert s1.findings[..|s.findings|] == s.findings;
    }
  }

  /** A well-formed pass (balanced entries and exits) from a fresh checker
      ends with an empty stack again. */
  lemma BalancedPassEmptiesStack<V>(ignoreInts: bool, t: seq<Callback<V>>)
    requires Enters(t) == Leaves(t)
    requires Run(ignoreInts, State([], []), t).Ok?
    ensures Run(ignoreInts, State([], []), t).state.stack == []
  {
    RunDepth(ignoreInts, State([], []), t);
  }

  // ---------------------------------------------------------------------
  // The returns of one function body

  /** `c` is a return of the literal value `v`. */
  ghost predicate ReturnsConst<V>(c: Callback<V>, v: V) {
    c.Return? && c.expr.Const? && c.expr.value == v
  }

  /** A flat function body: return statements only, constant or not, in any
      order. (Nested definitions are handled by NestedDefinitionIsTransparent.) */
  ghost predicate ReturnsOnly<V>(t: seq<Callback<V>>) {
    forall i :: 0 <= i < |t| ==> t[i].Return?
  }

  /** The positions of `t` that return the constant `v`. */
  ghost function ConstPositions<V>(t: seq<Callback<V>>, v: V): set<nat> {
    set j: nat | j < |t| && ReturnsConst(t[j], v)
  }

  /** How often the return at position `i` is to be reported: once per
      earlier return of an equal constant; never for a non-constant return or
      an exempt literal. */
  ghost function ReportsAt<V>(ignoreInts: bool, t: seq<Callback<V>>, i: nat): nat
    requires i < |t|
  {
    if t[i].Return? && t[i].expr.Const? && !Exempt(ignoreInts, t[i].expr.kind)
    then |ConstPositions(t[..i], t[i].expr.value)|
    else 0
  }

  /** The findings promised for a flat body, in traversal order: each
      return's node, as many times as ReportsAt says. */
  ghost function PromisedFindings<V>(ignoreInts: bool, t: seq<Callback<V>>): seq<NodeId>
    requires ReturnsOnly(t)
  {
    if t == [] then []
    else PromisedFindings(ignoreInts, t[..|t| - 1]) + Repeat(t[|t| - 1].node, ReportsAt(ignoreInts, t, |t| - 1))
  }

  /** The observations a flat body leaves in its frame: its constant
      returns, in order. */
  ghost function ConstObs<V>(t: seq<Callback<V>>): Frame<V>
    requires ReturnsOnly(t)
  {
    if t == [] then []
    else
      var c := t[|t| - 1];
      ConstObs(t[..|t| - 1]) + if c.expr.Const? then [Obs(c.expr.value, c.expr.kind, c.node)] else []
  }

  /** The frame of a flat body holds one observation of `v` per constant
      return of `v`. */
  lemma {:induction false} ConstObsCount<V>(t: seq<Callback<V>>, v: V)
    requires ReturnsOnly(t)
    ensures EqualCount(ConstObs(t), v) == |ConstPositions(t, v)|
  {
    if t != [] {
      var m := |t| - 1;
      var pre := t[..m];
      var c := t[m];
      ConstObsCount(pre, v);
      var added: Frame<V> := if c.expr.Const? then [Obs(c.expr.value, c.expr.kind, c.node)] else [];
      EqualCountConcat(ConstObs(pre), added, v);
      assert added != [] ==> added[..0] == [];
      assert ConstPositions(t, v) == ConstPositions(pre, v) + (if ReturnsConst(c, v) then {m} else {});
      assert m !in ConstPositions(pre, v);
    }
  }

  /** Concatenation is associative (a rewrite step for the proofs here). */
  lemma AppendAssoc<T>(a: seq<T>, b: seq<T>, c: seq<T>)
    ensures (a + b) + c == a + (b + c)
  {
  }

  /** A flat function body, with its constant and non-constant returns in any
      order, run in a fresh frame: every constant return is recorded in order,
      and the findings are exactly the promised ones, each return reported
      once per earlier equal constant unless exempt. */
  lemma {:induction false} FlatBody<V>(ignoreInts: bool, lower: seq<Frame<V>>, log: seq<NodeId>, t: seq<Callback<V>>)
    requires ReturnsOnly(t)
    ensures Run(ignoreInts, State(lower + [[]], log), t)
      == Ok(State(lower + [ConstObs(t)], log + PromisedFindings(ignoreInts, t)))
  {
    var s0 := State(lower + [[]], log);
    if t == [] {
      assert log + [] == log;
    } else {
      var m := |t| - 1;
      var pre := t[..m];
      var c := t[m];
      var mid := State(lower + [ConstObs(pre)], log + PromisedFindings(ignoreInts, pre));
      var extra := Repeat(c.node, ReportsAt(ignoreInts, t, m));
      var added: Frame<V> := if c.expr.Const? then [Obs(c.expr.value, c.expr.kind, c.node)] else [];
      assert Run(ignoreInts, s0, t) == Step(ignoreInts, mid, c) by {
        FlatBody(ignoreInts, lower, log, pre);
        assert t == pre + [c];
        RunConcat(ignoreInts, s0, pre, [c]);
        assert [c][1..] == [];
      }
      assert Step(ignoreInts, mid, c)
          == Ok(State(lower + [ConstObs(pre) + added], (log + PromisedFindings(ignoreInts, pre)) + extra)) by {
        match c.expr
        case NonConst =>
          assert ConstObs(pre) + added == ConstObs(pre);
          assert extra == [];
        case Const(v, k) =>
          ConstObsCount(pre, v);
          ConstReturnOnTop(ignoreInts, lower, ConstObs(pre), log + PromisedFindings(ignoreInts, pre), c.node, v, k);
      }
      AppendAssoc(log, PromisedFindings(ignoreInts, pre), extra);
    }
  }

  /** A nested function definition inside a body is transparent to the
      enclosing frame: if its own body closes cleanly in a fresh frame with
      `delta` reported, the enclosing callbacks after it behave as if it were
      not there, with `delta` added to the findings at that point. */
  lemma NestedDefinitionIsTransparent<V>(ignoreInts: bool, s: State<V>, pre: seq<Callback<V>>,
                                         body: seq<Callback<V>>, frame: Frame<V>, delta: seq<NodeId>,
                                         post: seq<Callback<V>>)
    requires Run(ignoreInts, State([[]], []), body) == Ok(State([frame], delta))
    ensures Run(ignoreInts, s, pre + ([EnterFunction] + body + [LeaveFunction]) + post)
      == match Run(ignoreInts, s, pre)
         case IndexError => IndexError
         case Ok(s1) => Run(ignoreInts, State(s1.stack, s1.findings + delta), post)
  {
    var def := [EnterFunction] + body + [LeaveFunction];
    RunConcat(ignoreInts, s, pre + def, post);
    RunConcat(ignoreInts, s, pre, def);
    match Run(ignoreInts, s, pre)
    case IndexError =>
    case Ok(s1) => FunctionScopeIsClosed(ignoreInts, s1, body, frame, delta);
  }

  /** The return at position `i` that is the k-th return of its constant is
      reported k-1 times, unless exempt. */
  lemma KthReturnReportedKMinusOne<V>(ignoreInts: bool, t: seq<Callback<V>>, i: nat, v: V, k: nat)
    requires i < |t| && ReturnsConst(t[i], v)
    requires |ConstPositions(t[..i + 1], v)| == k
    ensures ReportsAt(ignoreInts, t, i) == if Exempt(ignoreInts, t[i].expr.kind) then 0 else k - 1
  {
    assert t[..i + 1][..i] == t[..i];
    assert ConstPositions(t[..i + 1], v) == ConstPositions(t[..i], v) + {i};
    assert i !in ConstPositions(t[..i], v);
  }

  /** The findings attributed to the returns of the constant `v` in `t`. */
  ghost function ReportsFor<V>(ignoreInts: bool, t: seq<Callback<V>>, v: V): nat {
    if t == [] then 0
    else ReportsFor(ignoreInts, t[..|t| - 1], v)
         + (if ReturnsConst(t[|t| - 1], v) then ReportsAt(ignoreInts, t, |t| - 1) else 0)
  }

  /** N returns of one constant, wherever they stand among other returns,
      give N(N-1)/2 findings when none of them is exempt. */
  lemma {:induction false} EqualConstantsPairUp<V>(ignoreInts: bool, t: seq<Callback<V>>, v: V)
    requires forall i :: 0 <= i < |t| && ReturnsConst(t[i], v) ==> !Exempt(ignoreInts, t[i].expr.kind)
    ensures 2 * ReportsFor(ignoreInts, t, v) == |ConstPositions(t, v)| * (|ConstPositions(t, v)| - 1)
  {
    if t != [] {
      var m := |t| - 1;
      var pre := t[..m];
      EqualConstantsPairUp(ignoreInts, pre, v);
      var n := |ConstPositions(pre, v)|;
      if ReturnsConst(t[m], v) {
        assert ReportsAt(ignoreInts, t, m) == n;
        assert |ConstPositions(t, v)| == n + 1 by {
          assert ConstPositions(t, v) == ConstPositions(pre, v) + {m};
          assert m !in ConstPositions(pre, v);
        }
        assert (n + 1) * n == n * (n - 1) + 2 * n;
      } else {
        assert ConstPositions(t, v) == ConstPositions(pre, v);
      }
    }
  }

  /** Returns of a constant that are all exempt draw no finding at all. */
  lemma {:induction false} ExemptConstantsAreSilent<V>(ignoreInts: bool, t: seq<Callback<V>>, v: V)
    requires forall i :: 0 <= i < |t| && ReturnsConst(t[i], v) ==> Exempt(ignoreInts, t[i].expr.kind)
    ensures ReportsFor(ignoreInts, t, v) == 0
  {
    if t != [] {
      ExemptConstantsAreSilent(ignoreInts, t[..|t| - 1], v);
    }
  }

  /** When every constant return of a flat body returns `v` or `w`, the
      findings are those attributed to `v` plus those attributed to `w`. */
  lemma {:induction false} FindingsSplitByValue<V>(ignoreInts: bool, t: seq<Callback<V>>, v: V, w: V)
    requires ReturnsOnly(t) && v != w
    requires forall i :: 0 <= i < |t| && t[i].expr.Const? ==> t[i].expr.value == v || t[i].expr.value == w
    ensures |PromisedFindings(ignoreInts, t)| == ReportsFor(ignoreInts, t, v) + ReportsFor(ignoreInts, t, w)
  {
    if t != [] {
      var m := |t| - 1;
      FindingsSplitByValue(ignoreInts, t[..m], v, w);
    }
  }
}
