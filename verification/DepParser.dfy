/** What the two-stack parser of dependency conditions does to its stacks, step by step,
    and what every run of it conserves. */
module DepParser {
  import opened DepLeaf
  import opened DepTree
  import opened Wrappers

  /** One reduction: the top operator takes its operands, the later one as `left`. */
  function MergeTop(s: State): Option<State> {
    if s.operators == [] || s.operands == [] then None
    else
      var op, rest, later := Last(s.operators), Init(s.operators), Last(s.operands);
      if op == Not then Some(State(rest, Init(s.operands) + [Neg(later)]))
      else if |s.operands| < 2 then None
      else
        var below := Init(s.operands);
        Some(State(rest, Init(below) + [Bin(op, later, Last(below))]))
  }

  /** Reduces down to the nearest open parenthesis and drops it. */
  function MergeLeft(s: State): Option<State>
    decreases |s.operators|
  {
    if s.operators == [] then None
    else if Last(s.operators) == Open then Some(State(Init(s.operators), s.operands))
    else
      match MergeTop(s)
      case None => None
      case Some(s') => MergeLeft(s')
  }

  /** Reduces until a reduction fails. */
  function MergeAll(s: State): State
    decreases |s.operators|
  {
    match MergeTop(s)
    case None => s
    case Some(s') => MergeAll(s')
  }

  function PushOp(s: State, op: Op): State { State(s.operators + [op], s.operands) }

  function PushTree(s: State, t: Tree): State { State(s.operators, s.operands + [t]) }

  /** Pushes one leaf per job and joins each to what is there with a fresh `&&`. */
  function CreateMoreNodes(s: State, more: seq<Leaf>): Option<State>
    decreases |more|
  {
    if more == [] then Some(s)
    else
      match MergeTop(PushOp(PushTree(s, Leaf(more[0])), And))
      case None => None
      case Some(s') => CreateMoreNodes(s', more[1..])
  }

  function Step(s: State, tok: Token): Option<State> {
    match tok
    case Oper(op) =>
      if op != Open && s.operators != [] && Rank(Last(s.operators)) > Rank(op) then
        (match MergeTop(s)
         case None => None
         case Some(s') => Some(PushOp(s', op)))
      else Some(PushOp(s, op))
    case Close => MergeLeft(s)
    case Operand(first, more) => CreateMoreNodes(PushTree(s, Leaf(first)), more)
  }

  function Run(s: State, toks: seq<Token>): Option<State>
    decreases |toks|
  {
    if toks == [] then Some(s)
    else
      match Step(s, toks[0])
      case None => None
      case Some(s') => Run(s', toks[1..])
  }

  /** The tree of a condition, or None for a syntax error. */
  function Parse(toks: seq<Token>): Option<Tree> {
    match Run(EMPTY, toks)
    case None => None
    case Some(s) =>
      var s' := MergeAll(s);
      if |s'.operands| == 1 && s'.operators == [] then Some(s'.operands[0]) else None
  }

  lemma {:induction false} RunAppend(s: State, a: seq<Token>, b: seq<Token>)
    ensures Run(s, a + b) ==
            match Run(s, a) case None => None case Some(s') => Run(s', b)
    decreases |a|
  {
    if a == [] {
      assert a + b == b;
    } else {
      assert (a + b)[1..] == a[1..] + b;
      match Step(s, a[0])
      case None =>
      case Some(s') => RunAppend(s', a[1..], b);
    }
  }

  lemma RunSnoc(s: State, a: seq<Token>, tok: Token)
    ensures Run(s, a + [tok]) == match Run(s, a) case None => None case Some(s') => Step(s', tok)
  {
    RunAppend(s, a, [tok]);
    match Run(s, a)
    case None =>
    case Some(s') =>
      match Step(s', tok)
      case None =>
      case Some(s'') => assert Run(s'', [tok][1..]) == Some(s'');
  }

  // ----- Conservation -----

  /** The leaves of a tree in input order: the later operand is on the left. */
  function Spell(t: Tree): seq<Leaf> {
    match t
    case Leaf(l) => [l]
    case Neg(x) => Spell(x)
    case Bin(_, l, r) => Spell(r) + Spell(l)
  }

  function SpellAll(ts: seq<Tree>): seq<Leaf> {
    if ts == [] then [] else SpellAll(Init(ts)) + Spell(Last(ts))
  }

  /** The leaves that a token names, and those that a token sequence names, in order. */
  function NamedBy(tok: Token): seq<Leaf> {
    match tok case Operand(f, m) => [f] + m case _ => []
  }

  function Named(toks: seq<Token>): seq<Leaf> {
    if toks == [] then [] else Named(Init(toks)) + NamedBy(Last(toks))
  }

  /** How many nodes of a tree were built by operator `op`. */
  function OpCount(t: Tree, op: Op): nat {
    match t
    case Leaf(_) => 0
    case Neg(x) => OpCount(x, op) + (if op == Not then 1 else 0)
    case Bin(o, l, r) => OpCount(l, op) + OpCount(r, op) + (if op == o then 1 else 0)
  }

  function OpCountAll(ts: seq<Tree>, op: Op): nat {
    if ts == [] then 0 else OpCountAll(Init(ts), op) + OpCount(Last(ts), op)
  }

  function OpsIn(ops: seq<Op>, op: Op): nat {
    if ops == [] then 0 else OpsIn(Init(ops), op) + (if Last(ops) == op then 1 else 0)
  }

  /** Operator `op` counted over both stacks. */
  function Held(s: State, op: Op): nat {
    OpsIn(s.operators, op) + OpCountAll(s.operands, op)
  }

  /** How many operators `op` a token brings in: an operand of n jobs brings n - 1 `&&`. */
  function BroughtBy(tok: Token, op: Op): nat {
    match tok
    case Oper(o) => if o == op then 1 else 0
    case Close => 0
    case Operand(_, more) => if op == And then |more| else 0
  }

  function Brought(toks: seq<Token>, op: Op): nat {
    if toks == [] then 0 else Brought(Init(toks), op) + BroughtBy(Last(toks), op)
  }

  /** How many `op` the token sequence takes off the stacks again. */
  function Closed(toks: seq<Token>, op: Op): nat {
    if toks == [] then 0 else Closed(Init(toks), op) + ClosedBy(Last(toks), op)
  }

  function ClosedBy(tok: Token, op: Op): nat {
    if tok == Close && op == Open then 1 else 0
  }

  lemma LastSplit<T>(s: seq<T>, x: T)
    ensures Init(s + [x]) == s && Last(s + [x]) == x
  {}

  /** What a reduction makes of a state on which an operand and an operator lie on top. */
  lemma MergeTopPushed(s: State, t: Tree, op: Op)
    ensures MergeTop(PushOp(PushTree(s, t), op)) ==
            if op == Not then Some(PushTree(s, Neg(t)))
            else if s.operands == [] then None
            else Some(PushTree(State(s.operators, Init(s.operands)), Bin(op, t, Last(s.operands))))
  {
    LastSplit(s.operators, op);
    LastSplit(s.operands, t);
  }

  lemma MergeTopJoins(s: State, earlier: Tree, later: Tree, op: Op)
    requires op != Not
    ensures MergeTop(PushOp(PushTree(PushTree(s, earlier), later), op)) == Some(PushTree(s, Bin(op, later, earlier)))
  {
    MergeTopPushed(PushTree(s, earlier), later, op);
    LastSplit(s.operands, earlier);
  }

  lemma PushTreeKeeps(s: State, t: Tree, op: Op)
    ensures SpellAll(PushTree(s, t).operands) == SpellAll(s.operands) + Spell(t)
    ensures Held(PushTree(s, t), op) == Held(s, op) + OpCount(t, op)
  {
    LastSplit(s.operands, t);
  }

  lemma PushOpKeeps(s: State, o: Op, op: Op)
    ensures Held(PushOp(s, o), op) == Held(s, op) + (if o == op then 1 else 0)
  {
    LastSplit(s.operators, o);
  }

  lemma MergeTopKeeps(s: State, op: Op)
    requires MergeTop(s).Some?
    ensures SpellAll(MergeTop(s).value.operands) == SpellAll(s.operands)
    ensures Held(MergeTop(s).value, op) == Held(s, op)
    ensures MergeTop(s).value.operators == Init(s.operators)
  {
    var top, later := Last(s.operators), Last(s.operands);
    var below := Init(s.operands);
    if top == Not {
      PushTreeKeeps(State(Init(s.operators), below), Neg(later), op);
    } else {
      var t := Bin(top, later, Last(below));
      PushTreeKeeps(State(Init(s.operators), Init(below)), t, op);
      assert SpellAll(s.operands) == SpellAll(Init(below)) + Spell(Last(below)) + Spell(later);
      assert OpCountAll(s.operands, op) == OpCountAll(Init(below), op) + OpCount(Last(below), op) + OpCount(later, op);
    }
  }

  lemma {:induction false} MergeLeftKeeps(s: State, op: Op)
    requires MergeLeft(s).Some?
    ensures SpellAll(MergeLeft(s).value.operands) == SpellAll(s.operands)
    ensures Held(MergeLeft(s).value, op) + (if op == Open then 1 else 0) == Held(s, op)
    decreases |s.operators|
  {
    if Last(s.operators) != Open {
      MergeTopKeeps(s, op);
      MergeLeftKeeps(MergeTop(s).value, op);
    }
  }

  lemma {:induction false} MergeAllKeeps(s: State, op: Op)
    ensures SpellAll(MergeAll(s).operands) == SpellAll(s.operands)
    ensures Held(MergeAll(s), op) == Held(s, op)
    decreases |s.operators|
  {
    match MergeTop(s)
    case None =>
    case Some(s') =>
      MergeTopKeeps(s, op);
      MergeAllKeeps(s', op);
  }

  /** The conjunction that an operand naming several jobs stands for. */
  function Chain(t: Tree, more: seq<Leaf>): Tree
    decreases |more|
  {
    if more == [] then t else Chain(Bin(And, Leaf(more[0]), t), more[1..])
  }

  /** An operand of several jobs adds a single tree and leaves the operators alone. */
  lemma {:induction false} CreateMoreNodesPushesOne(s: State, t: Tree, more: seq<Leaf>)
    ensures CreateMoreNodes(PushTree(s, t), more) == Some(PushTree(s, Chain(t, more)))
    decreases |more|
  {
    if more != [] {
      var u := Leaf(more[0]);
      var s2 := PushOp(PushTree(PushTree(s, t), u), And);
      LastSplit(s.operands + [t], u);
      LastSplit(s.operands, t);
      LastSplit(s.operators, And);
      assert MergeTop(s2) == Some(PushTree(s, Bin(And, u, t)));
      CreateMoreNodesPushesOne(s, Bin(And, u, t), more[1..]);
    }
  }

  lemma {:induction false} ChainKeeps(t: Tree, more: seq<Leaf>, op: Op)
    ensures Spell(Chain(t, more)) == Spell(t) + more
    ensures OpCount(Chain(t, more), op) == OpCount(t, op) + (if op == And then |more| else 0)
    decreases |more|
  {
    if more != [] {
      ChainKeeps(Bin(And, Leaf(more[0]), t), more[1..], op);
      assert more == [more[0]] + more[1..];
    }
  }

  lemma StepConserves(s: State, tok: Token, op: Op)
    requires Step(s, tok).Some?
    ensures SpellAll(Step(s, tok).value.operands) == SpellAll(s.operands) + NamedBy(tok)
    ensures Held(Step(s, tok).value, op) + ClosedBy(tok, op) == Held(s, op) + BroughtBy(tok, op)
  {
    match tok
    case Oper(o) => OperConserves(s, o, op);
    case Close => MergeLeftKeeps(s, op);
    case Operand(first, more) =>
      var t := Chain(Leaf(first), more);
      CreateMoreNodesPushesOne(s, Leaf(first), more);
      ChainKeeps(Leaf(first), more, op);
      PushTreeKeeps(s, t, op);
  }

  lemma OperConserves(s: State, o: Op, op: Op)
    requires Step(s, Oper(o)).Some?
    ensures SpellAll(Step(s, Oper(o)).value.operands) == SpellAll(s.operands)
    ensures Held(Step(s, Oper(o)).value, op) == Held(s, op) + BroughtBy(Oper(o), op)
  {
    if o != Open && s.operators != [] && Rank(Last(s.operators)) > Rank(o) {
      MergeTopKeeps(s, op);
      PushOpKeeps(MergeTop(s).value, o, op);
    } else {
      PushOpKeeps(s, o, op);
    }
  }

  lemma {:induction false} RunSpells(s: State, toks: seq<Token>)
    requires Run(s, toks).Some?
    ensures SpellAll(Run(s, toks).value.operands) == SpellAll(s.operands) + Named(toks)
    decreases |toks|
  {
    if toks != [] {
      var front, tok := Init(toks), Last(toks);
      assert toks == front + [tok];
      RunSnoc(s, front, tok);
      RunSpells(s, front);
      StepConserves(Run(s, front).value, tok, And);
      Associate(SpellAll(s.operands), Named(front), NamedBy(tok));
    }
  }

  lemma Associate(a: seq<Leaf>, b: seq<Leaf>, c: seq<Leaf>)
    ensures (a + b) + c == a + (b + c)
  {}

  lemma {:induction false} RunHolds(s: State, toks: seq<Token>, op: Op)
    requires Run(s, toks).Some?
    ensures Held(Run(s, toks).value, op) + Closed(toks, op) == Held(s, op) + Brought(toks, op)
    decreases |toks|
  {
    if toks != [] {
      var front, tok := Init(toks), Last(toks);
      assert toks == front + [tok];
      RunSnoc(s, front, tok);
      RunHolds(s, front, op);
      StepConserves(Run(s, front).value, tok, op);
    }
  }

  /** Over every run, whatever the tokens: the operand stack spells the operands read so far, in order,
      and every operator read is held by exactly one of the two stacks, except that each closing
      parenthesis has consumed one open one. */
  lemma RunConserves(s: State, toks: seq<Token>, op: Op)
    requires Run(s, toks).Some?
    ensures SpellAll(Run(s, toks).value.operands) == SpellAll(s.operands) + Named(toks)
    ensures Held(Run(s, toks).value, op) + Closed(toks, op) == Held(s, op) + Brought(toks, op)
  {
    RunSpells(s, toks);
    RunHolds(s, toks, op);
  }

  lemma LoneTree(s: State, op: Op)
    requires s.operators == [] && |s.operands| == 1
    ensures SpellAll(s.operands) == Spell(s.operands[0]) && Held(s, op) == OpCount(s.operands[0], op)
  {
    assert s == PushTree(EMPTY, s.operands[0]);
    PushTreeKeeps(EMPTY, s.operands[0], op);
  }

  /** What the stacks hold at the end of a condition, started from empty ones. */
  lemma WholeRunConserves(toks: seq<Token>, s: State, op: Op)
    requires Run(EMPTY, toks) == Some(s)
    ensures SpellAll(MergeAll(s).operands) == Named(toks)
    ensures Held(MergeAll(s), op) + Closed(toks, op) == Brought(toks, op)
  {
    StartedEmpty(toks, s, op);
    MergeAllKeeps(s, op);
  }

  lemma StartedEmpty(toks: seq<Token>, s: State, op: Op)
    requires Run(EMPTY, toks) == Some(s)
    ensures SpellAll(s.operands) == Named(toks) && Held(s, op) + Closed(toks, op) == Brought(toks, op)
  {
    RunConserves(EMPTY, toks, op);
    NothingBefore(Named(toks));
  }

  lemma NothingBefore(a: seq<Leaf>)
    ensures [] + a == a
  {}

  /** A condition that parses becomes a tree with exactly the named leaves, in order, with one node per
      operator read; unmatched open parentheses are the only ones left in it. */
  lemma ParseConserves(toks: seq<Token>, op: Op)
    requires Parse(toks).Some?
    ensures Spell(Parse(toks).value) == Named(toks)
    ensures OpCount(Parse(toks).value, op) + Closed(toks, op) == Brought(toks, op)
  {
    var s := Run(EMPTY, toks).value;
    WholeRunConserves(toks, s, op);
    LoneTree(MergeAll(s), op);
  }

  // ----- What is accepted -----

  /** The operators that take two operands; an open parenthesis left over is one of them. */
  function Binary(ops: seq<Op>): nat {
    if ops == [] then 0 else Binary(Init(ops)) + (if Last(ops) == Not then 0 else 1)
  }

  /** How many trees there would be if every operator on the stack found its operands. */
  function Balance(s: State): int {
    |s.operands| - Binary(s.operators)
  }

  /** What a token adds to the balance. */
  function Weight(tok: Token): int {
    match tok
    case Oper(op) => if op == Not then 0 else -1
    case Close => 1
    case Operand(_, _) => 1
  }

  /** Operands and closing parentheses, less `&&`, `||` and open parentheses. */
  function Surplus(toks: seq<Token>): int
    decreases |toks|
  {
    if toks == [] then 0 else Weight(toks[0]) + Surplus(toks[1..])
  }

  lemma BinaryPush(ops: seq<Op>, op: Op)
    ensures Binary(ops + [op]) == Binary(ops) + (if op == Not then 0 else 1)
  {
    LastSplit(ops, op);
  }

  /** A reduction keeps the balance. It can fail only when operands run short. */
  lemma MergeTopBalances(s: State)
    ensures MergeTop(s).Some? ==> Balance(MergeTop(s).value) == Balance(s)
    ensures MergeTop(s).None? && Balance(s) >= 1 ==> s.operators == []
  {}

  lemma {:induction false} MergeAllBalances(s: State)
    ensures |MergeAll(s).operands| == 1 && MergeAll(s).operators == [] <==> Balance(s) == 1
    decreases |s.operators|
  {
    MergeTopBalances(s);
    match MergeTop(s)
    case None =>
    case Some(s') => MergeAllBalances(s');
  }

  lemma {:induction false} MergeLeftBalances(s: State)
    requires MergeLeft(s).Some?
    ensures Balance(MergeLeft(s).value) == Balance(s) + 1
    decreases |s.operators|
  {
    if Last(s.operators) != Open {
      MergeTopBalances(s);
      MergeLeftBalances(MergeTop(s).value);
    }
  }

  lemma StepBalances(s: State, tok: Token)
    requires Step(s, tok).Some?
    ensures Balance(Step(s, tok).value) == Balance(s) + Weight(tok)
  {
    match tok
    case Oper(op) =>
      MergeTopBalances(s);
      BinaryPush(s.operators, op);
      if MergeTop(s).Some? {
        BinaryPush(MergeTop(s).value.operators, op);
      }
    case Close => MergeLeftBalances(s);
    case Operand(first, more) => CreateMoreNodesPushesOne(s, Leaf(first), more);
  }

  lemma {:induction false} RunBalances(s: State, toks: seq<Token>)
    requires Run(s, toks).Some?
    ensures Balance(Run(s, toks).value) == Balance(s) + Surplus(toks)
    decreases |toks|
  {
    if toks != [] {
      StepBalances(s, toks[0]);
      RunBalances(Step(s, toks[0]).value, toks[1..]);
    }
  }

  // The operator stack depends on the operator tokens alone, and the number of operands on the surplus. So whether
  // every token is taken can be read off the tokens.

  /** The operators below the nearest open parenthesis. */
  function BelowOpen(ops: seq<Op>): seq<Op> {
    if ops == [] then [] else if Last(ops) == Open then Init(ops) else BelowOpen(Init(ops))
  }

  /** Whether an arriving operator sets off a reduction. */
  predicate Reacts(ops: seq<Op>, op: Op) {
    op != Open && ops != [] && Rank(Last(ops)) > Rank(op)
  }

  /** The operator stack after a token. */
  function OpsAfter(ops: seq<Op>, tok: Token): seq<Op> {
    match tok
    case Oper(op) => (if Reacts(ops, op) then Init(ops) else ops) + [op]
    case Close => BelowOpen(ops)
    case Operand(_, _) => ops
  }

  function OpsOf(toks: seq<Token>): seq<Op> {
    if toks == [] then [] else OpsAfter(OpsOf(Init(toks)), Last(toks))
  }

  /** With `n` operands, the reductions that a token sets off find theirs; a `)` has its `(`. */
  predicate Finds(ops: seq<Op>, n: int, tok: Token) {
    match tok
    case Oper(op) => Reacts(ops, op) ==> n >= (if Last(ops) == Not then 1 else 2)
    case Close => Open in ops && (Last(ops) == Open || n >= Binary(ops) - Binary(BelowOpen(ops)))
    case Operand(_, _) => true
  }

  lemma {:induction false} MergeLeftTaken(s: State)
    ensures MergeLeft(s).Some? <==> Finds(s.operators, |s.operands|, Close)
    ensures MergeLeft(s).Some? ==> MergeLeft(s).value.operators == BelowOpen(s.operators)
    decreases |s.operators|
  {
    var ops := s.operators;
    if ops != [] {
      assert ops == Init(ops) + [Last(ops)];
      if Last(ops) != Open {
        OpensBelow(Init(ops));
        if MergeTop(s).Some? {
          MergeLeftTaken(MergeTop(s).value);
        }
      }
    }
  }

  /** Below an open parenthesis there is at least one operator less. */
  lemma {:induction false} OpensBelow(ops: seq<Op>)
    ensures Open in ops ==> Binary(ops) >= Binary(BelowOpen(ops)) + 1
    ensures Open in ops && Last(ops) == Open ==> Binary(ops) == Binary(BelowOpen(ops)) + 1
  {
    if ops != [] {
      assert ops == Init(ops) + [Last(ops)];
      OpensBelow(Init(ops));
    }
  }

  lemma StepTaken(s: State, tok: Token)
    ensures Step(s, tok).Some? <==> Finds(s.operators, |s.operands|, tok)
    ensures Step(s, tok).Some? ==> Step(s, tok).value.operators == OpsAfter(s.operators, tok)
  {
    match tok
    case Oper(_) =>
    case Close => MergeLeftTaken(s);
    case Operand(first, more) => CreateMoreNodesPushesOne(s, Leaf(first), more);
  }

  /** Every token finds its operands, by the count of the tokens before it. */
  predicate AllTaken(toks: seq<Token>) {
    if toks == [] then true
    else
      var front := Init(toks);
      AllTaken(front) && Finds(OpsOf(front), Surplus(front) + Binary(OpsOf(front)), Last(toks))
  }

  /** The run gets to the end exactly if every token is taken. */
  lemma {:induction false} RunExactly(toks: seq<Token>)
    ensures Run(EMPTY, toks).Some? <==> AllTaken(toks)
    ensures Run(EMPTY, toks).Some? ==> Run(EMPTY, toks).value.operators == OpsOf(toks)
    decreases |toks|
  {
    if toks != [] {
      var front, tok := Init(toks), Last(toks);
      assert toks == front + [tok];
      RunExactly(front);
      RunSnoc(EMPTY, front, tok);
      match Run(EMPTY, front)
      case None =>
      case Some(s) =>
        RunBalances(EMPTY, front);
        StepTaken(s, tok);
    }
  }

  /** What is accepted, grammatical or not: exactly the token sequences of which every token is taken and that name one
      operand more than their operators and unmatched open parentheses join. */
  lemma AcceptedExactly(toks: seq<Token>)
    ensures Parse(toks).Some? <==> AllTaken(toks) && Surplus(toks) == 1
  {
    RunExactly(toks);
    match Run(EMPTY, toks)
    case None =>
    case Some(s) =>
      RunBalances(EMPTY, toks);
      MergeAllBalances(s);
  }
}
