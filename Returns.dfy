/** The duplicate-constant-return rule as values: what a return statement
    returns, the observations a function scope keeps, the state of the
    checker, and the effect of each of the host's three callbacks on it. */
module Returns {

  /** Identity of a return-statement node; a finding is attributed to it. */
  type NodeId = nat

  /** The primitive kind of a literal, as far as the `ignore-ints` option
      distinguishes it. */
  datatype Kind = Int | Other

  /** The expression a return statement returns: a literal constant with its
      value and kind, or anything else (a name, a call, a computed value). */
  datatype Expr<V> = NonConst | Const(value: V, kind: Kind)

  /** One constant return already seen in a function scope. */
  datatype Obs<V> = Obs(value: V, kind: Kind, node: NodeId)

  /** The observations of one open function, in traversal order. */
  type Frame<V> = seq<Obs<V>>

  /** The callbacks the host linter drives the checker with. */
  datatype Callback<V> =
    | EnterFunction
    | LeaveFunction
    | Return(node: NodeId, expr: Expr<V>)

  /** The checker's state: the scope stack (innermost function last) and the
      findings reported so far, each the node of an offending return. */
  datatype State<V> = State(stack: seq<Frame<V>>, findings: seq<NodeId>)

  /** What a callback leaves behind: the new state, or the IndexError that
      popping or indexing an empty scope stack raises. */
  datatype Outcome<V> = Ok(state: State<V>) | IndexError

  /** The integer exemption: it looks at the kind of the NEW literal only. */
  predicate Exempt(ignoreInts: bool, kind: Kind) {
    ignoreInts && kind == Int
  }

  /** How many observations of `frame` hold a value equal to `v`. */
  function EqualCount<V(==)>(frame: Frame<V>, v: V): (n: nat)
    ensures n <= |frame|
  {
    if frame == [] then 0
    else EqualCount(frame[..|frame| - 1], v) + (if frame[|frame| - 1].value == v then 1 else 0)
  }

  /** The positions of `frame` whose value equals `v`: an independent
      description of what EqualCount counts. */
  function MatchIndices<V(==)>(frame: Frame<V>, v: V): set<nat> {
    set j: nat | j < |frame| && frame[j].value == v
  }

  /** `n` reports of the same return node. */
  function Repeat(node: NodeId, n: nat): (r: seq<NodeId>)
    ensures |r| == n
    ensures forall j :: 0 <= j < n ==> r[j] == node
  {
    if n == 0 then [] else Repeat(node, n - 1) + [node]
  }

  /** The effect of one callback on the checker's state. */
  function Step<V(==)>(ignoreInts: bool, s: State<V>, cb: Callback<V>): Outcome<V> {
    match cb
    case EnterFunction =>
      Ok(State(s.stack + [[]], s.findings))
    case LeaveFunction =>
      if |s.stack| == 0 then IndexError
      else Ok(State(s.stack[..|s.stack| - 1], s.findings))
    case Return(node, NonConst) =>
      Ok(s)
    case Return(node, Const(v, k)) =>
      if |s.stack| == 0 then IndexError
      else
        var top := s.stack[|s.stack| - 1];
        var emitted := if Exempt(ignoreInts, k) then 0 else EqualCount(top, v);
        Ok(State(s.stack[..|s.stack| - 1] + [top + [Obs(v, k, node)]],
                 s.findings + Repeat(node, emitted)))
  }

  /** The effect of a sequence of callbacks, stopping at the first error. */
  function Run<V(==)>(ignoreInts: bool, s: State<V>, t: seq<Callback<V>>): Outcome<V>
    decreases |t|
  {
    if t == [] then Ok(s)
    else
      match Step(ignoreInts, s, t[0])
      case IndexError => IndexError
      case Ok(s1) => Run(ignoreInts, s1, t[1..])
  }

  /** Number of function entries in a callback sequence. */
  function Enters<V>(t: seq<Callback<V>>): nat {
    if t == [] then 0 else (if t[0].EnterFunction? then 1 else 0) + Enters(t[1..])
  }

  /** Number of function exits in a callback sequence. */
  function Leaves<V>(t: seq<Callback<V>>): nat {
    if t == [] then 0 else (if t[0].LeaveFunction? then 1 else 0) + Leaves(t[1..])
  }
}
