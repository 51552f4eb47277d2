/** The checker object the host linter drives: its scope stack is a field
    that the three callbacks update in place. */
module Checker {
  import opened Returns

  class UniqueReturnChecker<V(==)> {
    /** The `ignore-ints` option, read-only for the checker. */
    const ignoreInts: bool
    /** One frame per open function definition, innermost last. */
    var stack: seq<Frame<V>>
    /** The findings reported to the host, in order: the offending return nodes. */
    var findings: seq<NodeId>

    /** The checker's state as a value. */
    function Snapshot(): State<V>
      reads this
    {
      State(stack, findings)
    }

    /** A fresh checker has no open function and has reported nothing. */
    constructor (ignoreInts: bool)
      ensures this.ignoreInts == ignoreInts
      ensures stack == [] && findings == []
    {
      this.ignoreInts := ignoreInts;
      stack := [];
      findings := [];
    }

    /** Entering a function definition opens an empty frame on top. */
    method VisitFunctionDef()
      modifies this
      ensures stack == old(stack) + [[]] && findings == old(findings)
      ensures Step(ignoreInts, old(Snapshot()), EnterFunction) == Ok(Snapshot())
    {
      stack := stack + [[]];
    }

    /** Leaving a function definition discards the top frame; on an empty
        stack the pop raises and nothing changes. */
    method LeaveFunctionDef() returns (raised: bool)
      modifies this
      ensures raised <==> old(stack) == []
      ensures raised ==> stack == old(stack) && findings == old(findings)
      ensures !raised ==> stack == old(stack)[..|old(stack)| - 1] && findings == old(findings)
      ensures Step(ignoreInts, old(Snapshot()), LeaveFunction)
              == if raised then IndexError else Ok(Snapshot())
    {
      if |stack| == 0 {
        return true;
      }
      stack := stack[..|stack| - 1];
      raised := false;
    }

    /** A return statement: a non-constant one is ignored; a constant one is
        compared with every observation of the top frame, one finding per
        equal value unless exempt, and then recorded in the top frame. */
    method VisitReturn(node: NodeId, expr: Expr<V>) returns (raised: bool)
      modifies this
      ensures raised <==> expr.Const? && old(stack) == []
      ensures raised || expr.NonConst? ==> stack == old(stack) && findings == old(findings)
      ensures Step(ignoreInts, old(Snapshot()), Return(node, expr))
              == if raised then IndexError else Ok(Snapshot())
    {
      raised := false;
      if expr.NonConst? {
        return;
      }
      if |stack| == 0 {
        return true;
      }
      var top := stack[|stack| - 1];
      var i := 0;
      while i < |top|
        invariant 0 <= i <= |top|
        invariant stack == old(stack)
        invariant findings == old(findings)
          + Repeat(node, if Exempt(ignoreInts, expr.kind) then 0 else EqualCount(top[..i], expr.value))
      {
        if top[i].value == expr.value && !(ignoreInts && expr.kind == Int) {
          findings := findings + [node];
        }
        assert top[..i + 1][..i] == top[..i];
        i := i + 1;
      }
      assert top[..i] == top;
      stack := stack[..|stack| - 1] + [top + [Obs(expr.value, expr.kind, node)]];
    }
  }
}
