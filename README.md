# Unique constant returns

A Dafny model of `UniqueReturnChecker`, a pylint plugin rule (`W0001`,
`non-unique-returns`) that reports a `return` statement whose constant value
was already returned earlier in the same function.

The host linter walks the syntax tree and calls three hooks. Entering a
function definition pushes an empty scope frame. Leaving one pops the top
frame. A `return` of a literal constant is compared with every constant
return already recorded in the top frame. It is reported once per equal
value, unless `ignore-ints` is on and the new literal is an integer. It is
then recorded in the top frame in every case.

- `Returns.dfy` (module `Returns`) has the values. A return expression is
  `NonConst` or `Const(value, kind)`. An observation is `Obs(value, kind,
  node)`. The checker state is a stack of frames plus the findings log. `Step`
  gives the effect of one callback and `Run` the effect of a sequence of
  them. Popping or indexing an empty stack is the `IndexError` outcome.
- `Checker.dfy` (module `Checker`) has the class `UniqueReturnChecker`. Its
  `stack` and `findings` fields are updated in place by `VisitFunctionDef`,
  `LeaveFunctionDef` and `VisitReturn`. `VisitReturn` loops over the top
  frame and counts matches. Each method is proved equal to `Step` on the
  checker's state.
- `Properties.dfy` (module `ReturnProperties`) proves what the rule promises
  about `Step` and `Run`: one callback at a time, scope isolation, stack depth,
  the exact findings of a function body whose returns come in any order, and
  the N·(N−1)/2 count for N returns of one constant.
- `Scenarios.dfy` (module `ReturnScenarios`) runs concrete callback
  sequences: nested functions, and a function that returns `"ok"` three times
  and `1` twice in any order.

Values are a type parameter compared only with `==`. The literal's kind is
an input (`Int` or `Other`). The findings log holds the node of each
reported return. `add_message` is modelled as appending to that log.

`list.pop()` and `[-1]` on an empty list raise `IndexError`. The model
returns that outcome and leaves the state unchanged: `LeaveFunctionDef` and
`VisitReturn` return `raised == true`. A non-constant return with an empty
stack raises nothing, because line 57 returns before the stack is touched.

## Model

| member | source | states |
|---|---|---|
| `Checker.UniqueReturnChecker.constructor` | custom_checker_non_unique_returns.py:45-48 | a new checker has an empty scope stack and has reported nothing; `ignore-ints` is the given flag |
| `Checker.UniqueReturnChecker.VisitFunctionDef` | custom_checker_non_unique_returns.py:50-51 | the stack gains exactly one empty frame on top; the findings do not change; the result agrees with `Step` |
| `Checker.UniqueReturnChecker.LeaveFunctionDef` | custom_checker_non_unique_returns.py:53-54 | raises exactly when the stack is empty, and then nothing changes; otherwise only the top frame is removed; the result agrees with `Step` |
| `Checker.UniqueReturnChecker.VisitReturn` | custom_checker_non_unique_returns.py:56-67 | raises exactly for a constant return on an empty stack; a non-constant return changes nothing; otherwise the new state is the one `Step` gives, so the facts proved about `Step` hold of the loop |
| `Returns.EqualCount` | custom_checker_non_unique_returns.py:60-61 | the number of earlier observations in a frame that equal a value is at most the size of the frame |
| `Returns.Repeat` | custom_checker_non_unique_returns.py:63-65 | the reports emitted for one return are `n` entries, each naming that return node |
| `ReturnProperties.EqualCountIsMatchCount` | custom_checker_non_unique_returns.py:60-61 | the count used for findings equals the number of positions in the frame whose value equals the new one |
| `ReturnProperties.EqualCountExtremes` | custom_checker_non_unique_returns.py:60-61 | the count is zero if and only if no stored value is equal, and is the whole frame if and only if every stored value is equal |
| `ReturnProperties.EqualCountConcat` | custom_checker_non_unique_returns.py:60-61 | counting over a frame split in two parts gives the sum of the two counts |
| `ReturnProperties.EnterPushesEmptyFrame` | custom_checker_non_unique_returns.py:50-51 | entering never fails, adds exactly one empty frame on top, keeps every existing frame and the findings |
| `ReturnProperties.LeaveDropsTopFrame` | custom_checker_non_unique_returns.py:53-54 | leaving fails if and only if the stack is empty; otherwise it removes only the top frame and keeps the findings |
| `ReturnProperties.LeaveUndoesEnter` | custom_checker_non_unique_returns.py:50-54 | an enter followed by its matching leave restores the state exactly |
| `ReturnProperties.NonConstReturnIsIgnored` | custom_checker_non_unique_returns.py:57-58 | a non-constant return changes neither the stack nor the findings |
| `ReturnProperties.ConstReturnNeedsAFrame` | custom_checker_non_unique_returns.py:57-60 | a constant return fails if and only if no function is open |
| `ReturnProperties.ConstReturnStep` | custom_checker_non_unique_returns.py:60-67 | a constant return keeps the earlier findings and adds one finding per top-frame position with an equal value, or none when exempt, each naming the return node; the top frame grows by the new observation at its end; lower frames are unchanged |
| `ReturnProperties.ExemptionLooksAtNewKindOnly` | custom_checker_non_unique_returns.py:61-62 | with `ignore-ints` on, a non-integer literal equal to a stored integer is still reported, and an integer literal equal to a stored non-integer is not |
| `ReturnProperties.StepIgnoresEnclosing` | custom_checker_non_unique_returns.py:50-67 | a callback that succeeds on some stack does the same thing with any frames beneath it and any earlier findings, and adds the same findings |
| `ReturnProperties.RunIgnoresEnclosing` | custom_checker_non_unique_returns.py:50-67 | the same holds for a whole callback sequence, so observations in enclosing functions never produce findings |
| `ReturnProperties.FunctionScopeIsClosed` | custom_checker_non_unique_returns.py:50-67 | if a function's body, run in a fresh frame, closes without error and reports `delta`, then enter, body and leave, run from any state, restore the stack and add exactly `delta`; sibling functions therefore never see each other's returns |
| `ReturnProperties.RunDepth` | custom_checker_non_unique_returns.py:50-54 | after a sequence of callbacks that does not fail, the stack depth is the old depth plus entries minus exits, and the old findings are a prefix of the new ones |
| `ReturnProperties.BalancedPassEmptiesStack` | custom_checker_non_unique_returns.py:48-54 | a pass from a fresh checker with as many exits as entries, if it does not fail, ends with an empty stack |
| `ReturnProperties.ConstObsCount` | custom_checker_non_unique_returns.py:60-67 | the frame left by a function body holds exactly one observation of a value per constant return of that value |
| `ReturnProperties.FlatBody` | custom_checker_non_unique_returns.py:56-67 | a function body of constant and non-constant returns in any order, run in a fresh frame, records its constant returns in order and reports exactly the promised findings: each return's node once per earlier return of an equal constant, none for non-constant or exempt returns, in traversal order |
| `ReturnProperties.NestedDefinitionIsTransparent` | custom_checker_non_unique_returns.py:50-67 | a nested function definition whose body closes cleanly leaves the enclosing frame as it was: the callbacks after it behave as if it were absent, with only its own findings added at that point |
| `ReturnProperties.KthReturnReportedKMinusOne` | custom_checker_non_unique_returns.py:60-65 | the k-th return of a constant is reported k−1 times, or never when exempt |
| `ReturnProperties.EqualConstantsPairUp` | custom_checker_non_unique_returns.py:60-67 | N returns of one constant, wherever they stand among other returns of a body, are reported N·(N−1)/2 times in all when none is exempt |
| `ReturnProperties.ExemptConstantsAreSilent` | custom_checker_non_unique_returns.py:61-62 | returns of a constant that are all exempt are never reported |
| `ReturnProperties.FindingsSplitByValue` | custom_checker_non_unique_returns.py:60-65 | when every constant return of a body returns one of two distinct values, the findings are those attributed to the first value plus those attributed to the second |
| `ReturnScenarios.OkThriceOneTwice` | custom_checker_non_unique_returns.py:56-67 | a body returning `"ok"` three times and the integer 1 twice, in any order and among any non-constant returns, gives 4 findings, or 3 when `ignore-ints` is on |
| `ReturnScenarios.NestedReturnsDoNotClash` | custom_checker_non_unique_returns.py:50-67 | a constant returned once by an outer function and once by a function nested in it draws no finding, and the pass ends with an empty stack |
| `ReturnScenarios.InnerDuplicateIsReported` | custom_checker_non_unique_returns.py:50-67 | a second return of that constant inside the inner function draws exactly one finding, attributed to that second return |

## Left out

- `register` (custom_checker_non_unique_returns.py:14-19) is the plugin's registration with the linter. It is a foreign call with no logic.
- The `msgs` table, `name`, `priority` and `options` (custom_checker_non_unique_returns.py:25-43) are static host configuration. Only the value of `ignore-ints` is modelled, as the constant field `ignoreInts`.
- The `add_message` call (custom_checker_non_unique_returns.py:63-65) is host reporting. It is modelled as appending the return node to `findings`. The message id and text are not modelled.
- Astroid's node classes, the `isinstance(node.value, nodes.Const)` test and `pytype()` are library behaviour that is not part of this model. They are abstracted as the `NonConst | Const(value, kind)` input.
- The integer test `node.value.pytype() == int` on line 62 compares the result of astroid's `pytype()` with Python's `int` type object. Whether that comparison can ever succeed depends on astroid, which is not part of this model. The model takes the literal's kind as an input and does not decide the question.
- Python's cross-type equality (`1 == True`, `1 == 1.0`) and float values are not modelled. Values are an abstract type compared with `==`.
- Tree traversal and callback dispatch are done by the host. The model takes the callback sequence as given. Which node classes reach `visit_functiondef` is the host's business; for example, whether async functions or lambdas open a frame is not modelled.
- FlatBody, EqualConstantsPairUp and FindingsSplitByValue speak of a function body made of return statements only. A body that also defines nested functions is covered by composing them with NestedDefinitionIsTransparent, one nested definition at a time, not by a single lemma.
