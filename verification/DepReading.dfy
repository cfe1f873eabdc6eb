/** Which tree the parser really builds for a well-formed condition, when that tree is the one
    the usual precedence of `!`, `&&` and `||` calls for, and the round trip through it. */
module DepReading {
  import opened DepLeaf
  import opened DepTree
  import opened DepParser
  import opened Wrappers

  /** Well-formed conditions: factors joined by `&&` and `||`. */
  datatype Factor = Atom(first: Leaf, more: seq<Leaf>) | Bang(arg: Factor) | Group(inner: Expr)
  datatype Expr = Single(f: Factor) | Join(f: Factor, op: Conn, rest: Expr)

  function FactorTokens(f: Factor): seq<Token> {
    match f
    case Atom(first, more) => [Operand(first, more)]
    case Bang(g) => [Oper(Not)] + FactorTokens(g)
    case Group(e) => [Oper(Open)] + Tokens(e) + [Close]
  }

  function Tokens(e: Expr): seq<Token> {
    match e
    case Single(f) => FactorTokens(f)
    case Join(f, op, r) => FactorTokens(f) + [Oper(op)] + Tokens(r)
  }

  function FactorSize(f: Factor): nat {
    match f
    case Atom(_, _) => 1
    case Bang(g) => 1 + FactorSize(g)
    case Group(e) => 1 + Size(e)
  }

  function Size(e: Expr): nat {
    match e
    case Single(f) => 1 + FactorSize(f)
    case Join(f, _, r) => 1 + FactorSize(f) + Size(r)
  }

  // ----- The standard reading -----

  /** The first conjunction of an expression and what follows the `||` after it. */
  function FirstTerm(e: Expr): Tree
    decreases Size(e), 0
  {
    match e
    case Single(f) => StdFactor(f)
    case Join(f, op, r) => if op == And then Bin(And, FirstTerm(r), StdFactor(f)) else StdFactor(f)
  }

  function AfterTerm(e: Expr): (r: Option<Expr>)
    ensures r.Some? ==> Size(r.value) < Size(e)
  {
    match e
    case Single(_) => None
    case Join(_, op, r) => if op == And then AfterTerm(r) else Some(r)
  }

  /** `!` binds tightest, then `&&`, then `||`; the later operand goes to the left. */
  function Std(e: Expr): Tree
    decreases Size(e), 1
  {
    match AfterTerm(e)
    case None => FirstTerm(e)
    case Some(r) => Bin(Or, Std(r), FirstTerm(e))
  }

  function StdFactor(f: Factor): Tree
    decreases FactorSize(f)
  {
    match f
    case Atom(first, more) => Chain(Leaf(first), more)
    case Bang(g) => Neg(StdFactor(g))
    case Group(e) => Std(e)
  }

  // ----- The parser's own reading -----

  /** What the parser makes of an expression. A `!` directly before another `!` takes everything up to the
      end of its parenthesis level, and so does a `&&` unless a `||` comes right after one unnegated factor. */
  function Read(e: Expr): Tree
    decreases Size(e)
  {
    match e
    case Single(f) => ReadFactor(f)
    case Join(f, op, r) =>
      assert Size(e) == 1 + FactorSize(f) + Size(r);
      if f.Bang? && f.arg.Bang? then
        assert FactorSize(f) == 1 + FactorSize(f.arg);
        Neg(Read(Join(f.arg, op, r)))
      else if op == And && r.Join? && r.op == Or && !r.f.Bang? then
        assert Size(r) == 1 + FactorSize(r.f) + Size(r.rest);
        Bin(Or, Read(r.rest), Bin(And, ReadFactor(r.f), ReadFactor(f)))
      else Bin(op, Read(r), ReadFactor(f))
  }

  function ReadFactor(f: Factor): Tree
    decreases FactorSize(f)
  {
    match f
    case Atom(first, more) => Chain(Leaf(first), more)
    case Bang(g) => Neg(ReadFactor(g))
    case Group(e) => Read(e)
  }

  // ----- The parser builds exactly that reading -----

  /** Reduces until at most `n` operators are left. */
  function Collapse(s: State, n: nat): Option<State>
    decreases |s.operators|
  {
    if |s.operators| <= n then Some(s)
    else
      match MergeTop(s)
      case None => None
      case Some(s') => Collapse(s', n)
  }

  lemma {:induction false} CollapseOneMore(s: State, n: nat, s1: State)
    requires Collapse(s, n + 1) == Some(s1) && |s1.operators| == n + 1
    ensures Collapse(s, n) == match MergeTop(s1) case None => None case Some(s2) => Some(s2)
    decreases |s.operators|
  {
    if |s.operators| > n + 1 {
      CollapseOneMore(MergeTop(s).value, n, s1);
    } else {
      match MergeTop(s1)
      case None =>
      case Some(s2) => assert |s2.operators| == n;
    }
  }

  lemma {:induction false} CollapseIsMergeAll(s: State, s1: State)
    requires Collapse(s, 0) == Some(s1)
    ensures MergeAll(s) == s1
    decreases |s.operators|
  {
    if s.operators != [] {
      CollapseIsMergeAll(MergeTop(s).value, s1);
    }
  }

  /** Taking off the top keeps the lowest open parenthesis the last one. */
  lemma OpenBelow(ops: seq<Op>, base: seq<Op>)
    requires base + [Open] < ops && Open !in ops[|base| + 1..]
    ensures Last(ops) != Open && base + [Open] <= Init(ops) && Open !in Init(ops)[|base| + 1..]
  {
    var n := |base| + 1;
    assert Last(ops) == ops[n..][|ops| - n - 1];
    assert Init(ops)[n..] <= ops[n..];
  }

  lemma {:induction false} CollapseIsMergeLeft(s: State, base: seq<Op>, trees: seq<Tree>)
    requires base + [Open] <= s.operators && Open !in s.operators[|base| + 1..]
    requires Collapse(s, |base| + 1) == Some(State(base + [Open], trees))
    ensures MergeLeft(s) == Some(State(base, trees))
    decreases |s.operators|
  {
    if |s.operators| == |base| + 1 {
      LastSplit(base, Open);
    } else {
      OpenBelow(s.operators, base);
      CollapseIsMergeLeft(MergeTop(s).value, base, trees);
    }
  }

  /** No operator that arrives while the last of `base` is on top can set off its reduction. */
  predicate Quiet(base: seq<Op>, e: Expr) {
    base == [] || e.Single? || e.f.Bang? || Rank(Last(base)) <= Rank(e.op)
  }

  /** After `toks` the level above `base` holds no open parenthesis and reduces to the one tree `t`. */
  predicate Settles(base: seq<Op>, trees: seq<Tree>, toks: seq<Token>, t: Tree) {
    match Run(State(base, trees), toks)
    case None => false
    case Some(s) =>
      && base <= s.operators && Open !in s.operators[|base|..]
      && Collapse(s, |base|) == Some(State(base, trees + [t]))
  }

  lemma PrimaryPushesOne(f: Factor, base: seq<Op>, trees: seq<Tree>)
    requires !f.Bang?
    ensures Run(State(base, trees), FactorTokens(f)) == Some(State(base, trees + [ReadFactor(f)]))
    decreases FactorSize(f), 0
  {
    var s := State(base, trees);
    match f
    case Atom(first, more) =>
      CreateMoreNodesPushesOne(s, Leaf(first), more);
      RunSnoc(s, [], Operand(first, more));
      assert [] + FactorTokens(f) == FactorTokens(f);
    case Group(e) =>
      var b := base + [Open];
      LastSplit(base, Open);
      ParserReads(e, b, trees);
      RunAppend(s, [Oper(Open)], Tokens(e));
      RunSnoc(s, [], Oper(Open));
      assert [] + [Oper(Open)] == [Oper(Open)];
      RunSnoc(s, [Oper(Open)] + Tokens(e), Close);
      var s1 := Run(State(b, trees), Tokens(e)).value;
      CollapseIsMergeLeft(s1, base, trees + [Read(e)]);
  }

  /** A factor with at most one `!`, then a connective that `base` does not react to. */
  lemma HeadPushesTwo(f: Factor, op: Conn, base: seq<Op>, trees: seq<Tree>)
    requires !(f.Bang? && f.arg.Bang?)
    requires f.Bang? || base == [] || Rank(Last(base)) <= Rank(op)
    ensures Run(State(base, trees), FactorTokens(f) + [Oper(op)])
            == Some(State(base + [op], trees + [ReadFactor(f)]))
    decreases FactorSize(f), 1
  {
    var s := State(base, trees);
    RunSnoc(s, FactorTokens(f), Oper(op));
    if f.Bang? {
      RunAppend(s, [Oper(Not)], FactorTokens(f.arg));
      RunSnoc(s, [], Oper(Not));
      assert [] + [Oper(Not)] == [Oper(Not)];
      PrimaryPushesOne(f.arg, base + [Not], trees);
      LastSplit(base, Not);
      LastSplit(trees, ReadFactor(f.arg));
    } else {
      PrimaryPushesOne(f, base, trees);
    }
  }

  /** Reading on above one more operator `op`, which then reduces last. */
  lemma SettlesUnder(base: seq<Op>, trees: seq<Tree>, head: seq<Token>, op: Op, pushed: seq<Tree>, toks: seq<Token>,
                     t: Tree, t': Tree)
    requires op != Open
    requires Run(State(base, trees), head) == Some(State(base + [op], trees + pushed))
    requires Settles(base + [op], trees + pushed, toks, t)
    requires MergeTop(State(base + [op], trees + pushed + [t])) == Some(State(base, trees + [t']))
    ensures Settles(base, trees, head + toks, t')
  {
    RunAppend(State(base, trees), head, toks);
    var s := Run(State(base + [op], trees + pushed), toks).value;
    CollapseOneMore(s, |base|, State(base + [op], trees + pushed + [t]));
    AboveOne(s.operators, base, op);
  }

  lemma AboveOne(ops: seq<Op>, base: seq<Op>, op: Op)
    requires base + [op] <= ops && Open !in ops[|base| + 1..] && op != Open
    ensures base <= ops && Open !in ops[|base|..]
  {
    assert ops[|base|..] == [op] + ops[|base| + 1..];
  }

  /** Main result on the parser's side: from any stacks whose last operator does not react, the tokens of
      an expression settle to exactly `Read(e)`. */
  lemma ParserReads(e: Expr, base: seq<Op>, trees: seq<Tree>)
    requires Quiet(base, e)
    ensures Settles(base, trees, Tokens(e), Read(e))
    decreases Size(e), 1
  {
    match e
    case Single(f) =>
      if f.Bang? {
        assert FactorSize(f) == 1 + FactorSize(f.arg);
        NotSwallows(Single(f.arg), base, trees);
      } else {
        PrimaryPushesOne(f, base, trees);
      }
    case Join(f, op, r) =>
      if f.Bang? && f.arg.Bang? {
        assert Tokens(e) == [Oper(Not)] + Tokens(Join(f.arg, op, r));
        assert FactorSize(f) == 1 + FactorSize(f.arg);
        NotSwallows(Join(f.arg, op, r), base, trees);
      } else {
        HeadPushesTwo(f, op, base, trees);
        if op == And && r.Join? && r.op == Or && !r.f.Bang? {
          TwoFactorsThenOr(e, base, trees);
        } else {
          var head, p := FactorTokens(f) + [Oper(op)], ReadFactor(f);
          LastSplit(base, op);
          ParserReads(r, base + [op], trees + [p]);
          LastSplit(trees + [p], Read(r));
          LastSplit(trees, p);
          SettlesUnder(base, trees, head, op, [p], Tokens(r), Read(r), Bin(op, Read(r), p));
        }
      }
  }

  lemma NotSwallows(e: Expr, base: seq<Op>, trees: seq<Tree>)
    requires e.Single? || e.f.Bang?
    ensures Settles(base, trees, [Oper(Not)] + Tokens(e), Neg(Read(e)))
    decreases Size(e), 2
  {
    RunSnoc(State(base, trees), [], Oper(Not));
    assert [] + [Oper(Not)] == [Oper(Not)];
    assert trees + [] == trees;
    LastSplit(base, Not);
    LastSplit(trees, Read(e));
    ParserReads(e, base + [Not], trees);
    SettlesUnder(base, trees, [Oper(Not)], Not, [], Tokens(e), Read(e), Neg(Read(e)));
  }

  /** The tokens of `p && q ||`. */
  function HeadOfTwo(p: Factor, q: Factor): seq<Token> {
    FactorTokens(p) + [Oper(And)] + FactorTokens(q) + [Oper(Or)]
  }

  lemma TokensOfTwo(p: Factor, q: Factor, r: Expr)
    ensures Tokens(Join(p, And, Join(q, Or, r))) == HeadOfTwo(p, q) + Tokens(r)
  {
    assert Tokens(Join(q, Or, r)) == FactorTokens(q) + [Oper(Or)] + Tokens(r);
  }

  lemma HeadOfTwoPushesTwo(p: Factor, q: Factor, base: seq<Op>, trees: seq<Tree>)
    requires !q.Bang?
    requires Run(State(base, trees), FactorTokens(p) + [Oper(And)])
             == Some(State(base + [And], trees + [ReadFactor(p)]))
    ensures Run(State(base, trees), HeadOfTwo(p, q))
            == Some(State(base + [Or], trees + [Bin(And, ReadFactor(q), ReadFactor(p))]))
    decreases FactorSize(q), 1
  {
    var s, head := State(base, trees), FactorTokens(p) + [Oper(And)];
    PrimaryPushesOne(q, base + [And], trees + [ReadFactor(p)]);
    RunAppend(s, head, FactorTokens(q));
    RunSnoc(s, head + FactorTokens(q), Oper(Or));
    LastSplit(base, And);
    LastSplit(trees + [ReadFactor(p)], ReadFactor(q));
    LastSplit(trees, ReadFactor(p));
  }

  lemma TwoFactorsThenOr(e: Expr, base: seq<Op>, trees: seq<Tree>)
    requires e.Join? && e.op == And && e.rest.Join? && e.rest.op == Or && !e.rest.f.Bang?
    requires !(e.f.Bang? && e.f.arg.Bang?)
    requires Run(State(base, trees), FactorTokens(e.f) + [Oper(And)])
             == Some(State(base + [And], trees + [ReadFactor(e.f)]))
    ensures Settles(base, trees, Tokens(e), Read(e))
    decreases Size(e), 0
  {
    var r, t := e.rest.rest, Bin(And, ReadFactor(e.rest.f), ReadFactor(e.f));
    assert Size(e.rest) == 1 + FactorSize(e.rest.f) + Size(r);
    HeadOfTwoPushesTwo(e.f, e.rest.f, base, trees);
    LastSplit(base, Or);
    ParserReads(r, base + [Or], trees + [t]);
    LastSplit(trees + [t], Read(r));
    LastSplit(trees, t);
    SettlesUnder(base, trees, HeadOfTwo(e.f, e.rest.f), Or, [t], Tokens(r), Read(r), Bin(Or, Read(r), t));
    TokensOfTwo(e.f, e.rest.f, r);
  }

  /** Every well-formed condition parses, to the tree `Read` gives it. */
  lemma ParseReads(e: Expr)
    ensures Parse(Tokens(e)) == Some(Read(e))
  {
    ParserReads(e, [], []);
    var s := Run(EMPTY, Tokens(e)).value;
    CollapseIsMergeAll(s, State([], [] + [Read(e)]));
  }

  // ----- When the two readings agree -----

  /** No factor before a connective has two `!`, and no conjunction before a `||` is longer than two factors
      or ends in a negated one. */
  predicate Plain(e: Expr)
    decreases Size(e)
  {
    match e
    case Single(f) => PlainFactor(f)
    case Join(f, op, r) =>
      && !(f.Bang? && f.arg.Bang?)
      && PlainFactor(f) && Plain(r)
      && (op == And && AfterTerm(r).Some? ==> r.op == Or && !r.f.Bang?)
  }

  predicate PlainFactor(f: Factor)
    decreases FactorSize(f)
  {
    match f
    case Atom(_, _) => true
    case Bang(g) => PlainFactor(g)
    case Group(e) => Plain(e)
  }

  /** The parser builds the standard tree exactly for plain conditions. */
  lemma {:induction false} StandardExactlyWhenPlain(e: Expr)
    ensures Read(e) == Std(e) <==> Plain(e)
    decreases Size(e)
  {
    match e
    case Single(f) => FactorStandardExactlyWhenPlain(f);
    case Join(f, op, r) =>
      FactorStandardExactlyWhenPlain(f);
      StandardExactlyWhenPlain(r);
      if r.Join? {
        FactorStandardExactlyWhenPlain(r.f);
        StandardExactlyWhenPlain(r.rest);
      }
  }

  lemma {:induction false} FactorStandardExactlyWhenPlain(f: Factor)
    ensures ReadFactor(f) == StdFactor(f) <==> PlainFactor(f)
    decreases FactorSize(f)
  {
    match f
    case Atom(_, _) =>
    case Bang(g) => FactorStandardExactlyWhenPlain(g);
    case Group(e) => StandardExactlyWhenPlain(e);
  }

  // ----- The same condition, seen from the operator stack -----

  /** How many operators on top of the stack, within the current parenthesis level, outrank `op`. */
  function Pending(ops: seq<Op>, op: Op): nat {
    if ops == [] || Rank(Last(ops)) <= Rank(op) then 0 else 1 + Pending(Init(ops), op)
  }

  /** Each arriving `&&`, `||` or `!` finds at most one pending operator that outranks it. */
  predicate Orderly(s: State, toks: seq<Token>)
    decreases |toks|
  {
    toks != [] ==>
      && (toks[0].Oper? && toks[0].op != Open ==> Pending(s.operators, toks[0].op) <= 1)
      && match Step(s, toks[0])
         case None => true
         case Some(s') => Orderly(s', toks[1..])
  }

  lemma {:induction false} OrderlyAppend(s: State, a: seq<Token>, b: seq<Token>)
    requires Run(s, a).Some?
    ensures Orderly(s, a + b) <==> Orderly(s, a) && Orderly(Run(s, a).value, b)
    decreases |a|
  {
    if a == [] {
      assert a + b == b;
    } else {
      assert (a + b)[1..] == a[1..] + b;
      OrderlyAppend(Step(s, a[0]).value, a[1..], b);
    }
  }

  lemma OrderlySnoc(s: State, a: seq<Token>, tok: Token)
    requires Run(s, a).Some?
    ensures Orderly(s, a + [tok]) <==>
            Orderly(s, a) && (tok.Oper? && tok.op != Open ==> Pending(Run(s, a).value.operators, tok.op) <= 1)
  {
    OrderlyAppend(s, a, [tok]);
    var s1 := Run(s, a).value;
    match Step(s1, tok)
    case None =>
    case Some(s2) => assert Orderly(s2, [tok][1..]);
  }

  /** Whether the last operator of `base` stays out of the way of the whole expression. */
  predicate Fits(base: seq<Op>, e: Expr) {
    base != [] ==>
      match Last(base)
      case And => AfterTerm(e).None?
      case Not => e.Single?
      case _ => true
  }

  lemma PrimaryOrderly(f: Factor, base: seq<Op>, trees: seq<Tree>)
    requires !f.Bang?
    ensures Orderly(State(base, trees), FactorTokens(f)) <==> PlainFactor(f)
    decreases FactorSize(f), 0
  {
    var s := State(base, trees);
    match f
    case Atom(first, more) =>
      OrderlySnoc(s, [], Operand(first, more));
      assert [] + FactorTokens(f) == FactorTokens(f);
    case Group(e) =>
      var b := base + [Open];
      LastSplit(base, Open);
      ParserReads(e, b, trees);
      OrderlyExactlyWhenPlainIn(e, b, trees);
      RunSnoc(s, [], Oper(Open));
      OrderlySnoc(s, [], Oper(Open));
      assert [] + [Oper(Open)] == [Oper(Open)];
      RunAppend(s, [Oper(Open)], Tokens(e));
      OrderlyAppend(s, [Oper(Open)], Tokens(e));
      OrderlySnoc(s, [Oper(Open)] + Tokens(e), Close);
  }

  lemma HeadOrderly(f: Factor, op: Conn, base: seq<Op>, trees: seq<Tree>)
    requires !(f.Bang? && f.arg.Bang?)
    requires f.Bang? || base == [] || Rank(Last(base)) <= Rank(op)
    ensures Orderly(State(base, trees), FactorTokens(f) + [Oper(op)])
            <==> PlainFactor(f) && Pending(base, op) == 0
    decreases FactorSize(f), 1
  {
    var s := State(base, trees);
    if f.Bang? {
      RunSnoc(s, [], Oper(Not));
      OrderlySnoc(s, [], Oper(Not));
      assert [] + [Oper(Not)] == [Oper(Not)];
      assert Pending(base, Not) == 0;
      PrimaryPushesOne(f.arg, base + [Not], trees);
      PrimaryOrderly(f.arg, base + [Not], trees);
      RunAppend(s, [Oper(Not)], FactorTokens(f.arg));
      OrderlyAppend(s, [Oper(Not)], FactorTokens(f.arg));
      LastSplit(base, Not);
      OrderlySnoc(s, FactorTokens(f), Oper(op));
    } else {
      PrimaryPushesOne(f, base, trees);
      PrimaryOrderly(f, base, trees);
      OrderlySnoc(s, FactorTokens(f), Oper(op));
    }
  }

  lemma NotOrderly(e: Expr, base: seq<Op>, trees: seq<Tree>)
    requires e.Single? || e.f.Bang?
    ensures Orderly(State(base, trees), [Oper(Not)] + Tokens(e)) <==> e.Single? && Plain(e)
    decreases Size(e), 2
  {
    var s := State(base, trees);
    RunSnoc(s, [], Oper(Not));
    OrderlySnoc(s, [], Oper(Not));
    assert [] + [Oper(Not)] == [Oper(Not)];
    assert Pending(base, Not) == 0;
    LastSplit(base, Not);
    OrderlyAppend(s, [Oper(Not)], Tokens(e));
    OrderlyExactlyWhenPlainIn(e, base + [Not], trees);
  }

  lemma HeadOfTwoOrderly(p: Factor, q: Factor, base: seq<Op>, trees: seq<Tree>)
    requires !q.Bang? && !(p.Bang? && p.arg.Bang?)
    requires p.Bang? || base == [] || Rank(Last(base)) <= Rank(And)
    ensures Orderly(State(base, trees), HeadOfTwo(p, q))
            <==> PlainFactor(p) && PlainFactor(q) && Pending(base, Or) == 0
    decreases FactorSize(p) + FactorSize(q), 1
  {
    var s, head, t := State(base, trees), FactorTokens(p) + [Oper(And)], ReadFactor(p);
    HeadPushesTwo(p, And, base, trees);
    HeadOrderly(p, And, base, trees);
    PrimaryPushesOne(q, base + [And], trees + [t]);
    PrimaryOrderly(q, base + [And], trees + [t]);
    RunAppend(s, head, FactorTokens(q));
    OrderlyAppend(s, head, FactorTokens(q));
    OrderlySnoc(s, head + FactorTokens(q), Oper(Or));
    LastSplit(base, And);
    assert Pending(base + [And], Or) == 1 + Pending(base, Or);
  }

  lemma PlainOfTwo(p: Factor, q: Factor, r: Expr)
    requires !q.Bang? && !(p.Bang? && p.arg.Bang?)
    ensures Plain(Join(p, And, Join(q, Or, r))) <==> PlainFactor(p) && PlainFactor(q) && Plain(r)
  {
    var e := Join(q, Or, r);
    assert Plain(e) <==> PlainFactor(q) && Plain(r);
  }

  lemma TwoFactorsThenOrOrderly(p: Factor, q: Factor, r: Expr, base: seq<Op>, trees: seq<Tree>)
    requires !q.Bang? && !(p.Bang? && p.arg.Bang?)
    requires p.Bang? || base == [] || Rank(Last(base)) <= Rank(And)
    ensures Orderly(State(base, trees), HeadOfTwo(p, q) + Tokens(r))
            <==> PlainFactor(p) && PlainFactor(q) && Plain(r) && Pending(base, Or) == 0
    decreases FactorSize(p) + FactorSize(q) + Size(r), 2
  {
    var t := Bin(And, ReadFactor(q), ReadFactor(p));
    HeadPushesTwo(p, And, base, trees);
    HeadOfTwoPushesTwo(p, q, base, trees);
    HeadOfTwoOrderly(p, q, base, trees);
    OrderlyAppend(State(base, trees), HeadOfTwo(p, q), Tokens(r));
    LastSplit(base, Or);
    assert Quiet(base + [Or], r) && Fits(base + [Or], r);
    OrderlyExactlyWhenPlainIn(r, base + [Or], trees + [t]);
  }

  lemma OneFactorOrderly(e: Expr, base: seq<Op>, trees: seq<Tree>)
    requires e.Join? && Quiet(base, e) && !(e.f.Bang? && e.f.arg.Bang?)
    ensures Orderly(State(base, trees), Tokens(e))
            <==> PlainFactor(e.f) && Pending(base, e.op) == 0
                 && Orderly(State(base + [e.op], trees + [ReadFactor(e.f)]), Tokens(e.rest))
    decreases FactorSize(e.f), 2
  {
    HeadPushesTwo(e.f, e.op, base, trees);
    HeadOrderly(e.f, e.op, base, trees);
    OrderlyAppend(State(base, trees), FactorTokens(e.f) + [Oper(e.op)], Tokens(e.rest));
  }

  lemma OrderlyExactlyWhenPlainIn(e: Expr, base: seq<Op>, trees: seq<Tree>)
    requires Quiet(base, e)
    ensures Orderly(State(base, trees), Tokens(e)) <==> Plain(e) && Fits(base, e)
    decreases Size(e), 1
  {
    match e
    case Single(f) =>
      if f.Bang? {
        assert FactorSize(f) == 1 + FactorSize(f.arg);
        NotOrderly(Single(f.arg), base, trees);
      } else {
        PrimaryOrderly(f, base, trees);
      }
    case Join(f, op, r) =>
      if f.Bang? && f.arg.Bang? {
        assert Tokens(e) == [Oper(Not)] + Tokens(Join(f.arg, op, r));
        assert FactorSize(f) == 1 + FactorSize(f.arg);
        NotOrderly(Join(f.arg, op, r), base, trees);
      } else {
        JoinOrderly(e, base, trees);
      }
  }

  lemma JoinOrderly(e: Expr, base: seq<Op>, trees: seq<Tree>)
    requires e.Join? && Quiet(base, e) && !(e.f.Bang? && e.f.arg.Bang?)
    ensures Orderly(State(base, trees), Tokens(e)) <==> Plain(e) && Fits(base, e)
    decreases Size(e), 0
  {
    var f, op, r := e.f, e.op, e.rest;
    if op == And && r.Join? && r.op == Or && !r.f.Bang? {
      assert Size(r) == 1 + FactorSize(r.f) + Size(r.rest);
      TwoFactorsThenOrOrderly(f, r.f, r.rest, base, trees);
      TokensOfTwo(f, r.f, r.rest);
      PlainOfTwo(f, r.f, r.rest);
      assert e == Join(f, And, Join(r.f, Or, r.rest));
      assert AfterTerm(e) == Some(r.rest);
    } else {
      OneFactorOrderly(e, base, trees);
      LastSplit(base, op);
      OrderlyExactlyWhenPlainIn(r, base + [op], trees + [ReadFactor(f)]);
      assert Fits(base + [op], r) <==> (op == And ==> AfterTerm(r).None?);
    }
  }

  /** In terms of the run: the tree is the standard one exactly if every arriving operator finds at most
      one pending operator of higher precedence at its own parenthesis level. */
  lemma StandardExactlyWhenOrderly(e: Expr)
    ensures Parse(Tokens(e)) == Some(Std(e)) <==> Orderly(EMPTY, Tokens(e))
  {
    ParseReads(e);
    StandardExactlyWhenPlain(e);
    OrderlyExactlyWhenPlainIn(e, [], []);
  }

  // ----- Unique reading -----

  lemma {:induction false} FactorTokensUnique(f: Factor, g: Factor, x: seq<Token>, y: seq<Token>)
    requires FactorTokens(f) + x == FactorTokens(g) + y
    ensures f == g && x == y
    decreases FactorSize(f), 0
  {
    var s, t := FactorTokens(f) + x, FactorTokens(g) + y;
    assert s[0] == t[0];
    match f
    case Atom(_, _) =>
      assert s[1..] == x && t[1..] == y;
    case Bang(f') =>
      assert s[1..] == FactorTokens(f') + x && t[1..] == FactorTokens(g.arg) + y;
      FactorTokensUnique(f', g.arg, x, y);
    case Group(e) =>
      assert s[1..] == Tokens(e) + ([Close] + x) && t[1..] == Tokens(g.inner) + ([Close] + y);
      TokensUnique(e, g.inner, [Close] + x, [Close] + y);
      assert x == ([Close] + x)[1..] && y == ([Close] + y)[1..];
  }

  predicate Stops(x: seq<Token>) {
    x == [] || x[0] == Close
  }

  function AfterFactor(e: Expr, x: seq<Token>): seq<Token> {
    match e
    case Single(_) => x
    case Join(_, op, r) => [Oper(op)] + (Tokens(r) + x)
  }

  lemma SplitFirst(e: Expr, x: seq<Token>)
    ensures Tokens(e) + x == FactorTokens(e.f) + AfterFactor(e, x)
  {}

  /** A token sequence has at most one reading as a well-formed condition. */
  lemma {:induction false} TokensUnique(d: Expr, e: Expr, x: seq<Token>, y: seq<Token>)
    requires Tokens(d) + x == Tokens(e) + y && Stops(x) && Stops(y)
    ensures d == e && x == y
    decreases Size(d), 1
  {
    SplitFirst(d, x);
    SplitFirst(e, y);
    FactorTokensUnique(d.f, e.f, AfterFactor(d, x), AfterFactor(e, y));
    if d.Join? && e.Join? {
      assert AfterFactor(d, x)[0] == AfterFactor(e, y)[0];
      assert Tokens(d.rest) + x == AfterFactor(d, x)[1..] == AfterFactor(e, y)[1..] == Tokens(e.rest) + y;
      TokensUnique(d.rest, e.rest, x, y);
    }
  }

  // ----- Round trip -----

  predicate Proper(t: Tree) {
    match t
    case Leaf(_) => true
    case Neg(x) => Proper(x)
    case Bin(op, l, r) => op != Not && op != Open && Proper(l) && Proper(r)
  }

  function Mirror(t: Tree): Tree {
    match t
    case Leaf(_) => t
    case Neg(x) => Neg(Mirror(x))
    case Bin(op, l, r) => Bin(op, Mirror(r), Mirror(l))
  }

  /** A tree written out with a pair of parentheses around every operator. */
  function Enclose(t: Tree): Factor
    requires Proper(t)
  {
    match t
    case Leaf(l) => Atom(l, [])
    case Neg(x) => Group(Single(Bang(Enclose(x))))
    case Bin(op, l, r) => Group(Join(Enclose(l), op, Single(Enclose(r))))
  }

  lemma {:induction false} EncloseReads(t: Tree)
    requires Proper(t)
    ensures ReadFactor(Enclose(t)) == Mirror(t) && !Enclose(t).Bang?
  {
    match t
    case Leaf(_) =>
    case Neg(x) =>
      EncloseReads(x);
      assert Read(Single(Bang(Enclose(x)))) == Neg(ReadFactor(Enclose(x)));
    case Bin(op, l, r) =>
      EncloseReads(l);
      EncloseReads(r);
      assert Read(Single(Enclose(r))) == Mirror(r);
  }

  /** Round trip: the parser gives back the mirror image of a tree written out in full. */
  lemma RoundTrip(t: Tree)
    requires Proper(t)
    ensures Parse(Tokens(Single(Enclose(t)))) == Some(Mirror(t))
  {
    EncloseReads(t);
    ParseReads(Single(Enclose(t)));
  }

  lemma {:induction false} ChainProper(t: Tree, more: seq<Leaf>)
    requires Proper(t)
    ensures Proper(Chain(t, more))
    decreases |more|
  {
    if more != [] {
      ChainProper(Bin(And, Leaf(more[0]), t), more[1..]);
    }
  }

  lemma {:induction false} ReadProper(e: Expr)
    ensures Proper(Read(e))
    decreases Size(e)
  {
    match e
    case Single(f) => ReadFactorProper(f);
    case Join(f, op, r) =>
      ReadFactorProper(f);
      ReadProper(r);
      if f.Bang? && f.arg.Bang? {
        assert FactorSize(f) == 1 + FactorSize(f.arg);
        ReadProper(Join(f.arg, op, r));
      }
      if r.Join? {
        assert Size(r) == 1 + FactorSize(r.f) + Size(r.rest);
        ReadFactorProper(r.f);
        ReadProper(r.rest);
      }
  }

  lemma {:induction false} ReadFactorProper(f: Factor)
    ensures Proper(ReadFactor(f))
    decreases FactorSize(f)
  {
    match f
    case Atom(first, more) => ChainProper(Leaf(first), more);
    case Bang(g) => ReadFactorProper(g);
    case Group(e) => ReadProper(e);
  }

  lemma {:induction false} MirrorTwice(t: Tree)
    ensures Mirror(Mirror(t)) == t && (Proper(t) ==> Proper(Mirror(t)))
  {
    match t
    case Leaf(_) =>
    case Neg(x) => MirrorTwice(x);
    case Bin(op, l, r) =>
      MirrorTwice(l);
      MirrorTwice(r);
  }

  /** Writing out in full what the parser understood, and parsing that, changes nothing. */
  lemma ReparseIsStable(e: Expr)
    ensures Proper(Mirror(Read(e)))
    ensures Parse(Tokens(Single(Enclose(Mirror(Read(e)))))) == Parse(Tokens(e))
  {
    ReadProper(e);
    MirrorTwice(Read(e));
    RoundTrip(Mirror(Read(e)));
    ParseReads(e);
  }

  // ----- Two conditions worth knowing -----

  lemma AtomReads(x: Leaf)
    ensures ReadFactor(Atom(x, [])) == StdFactor(Atom(x, [])) == Leaf(x)
    ensures Read(Single(Atom(x, []))) == Leaf(x)
  {}

  /** `x && y && z || w` is read as `x && ((y && z) || w)`, not as `(x && y && z) || w`. */
  lemma LongConjunctionMisread(x: Leaf, y: Leaf, z: Leaf, w: Leaf)
    ensures var e := Join(Atom(x, []), And, Join(Atom(y, []), And, Join(Atom(z, []), Or, Single(Atom(w, [])))));
            && Parse(Tokens(e)) == Some(Bin(And, Bin(Or, Leaf(w), Bin(And, Leaf(z), Leaf(y))), Leaf(x)))
            && Std(e) == Bin(Or, Leaf(w), Bin(And, Bin(And, Leaf(z), Leaf(y)), Leaf(x)))
  {
    var e2 := Join(Atom(z, []), Or, Single(Atom(w, [])));
    var e1 := Join(Atom(y, []), And, e2);
    var e := Join(Atom(x, []), And, e1);
    ParseReads(e);
    AtomReads(x);
    AtomReads(y);
    AtomReads(z);
    AtomReads(w);
    assert Read(e1) == Bin(Or, Leaf(w), Bin(And, Leaf(z), Leaf(y)));
    assert AfterTerm(e2) == Some(Single(Atom(w, [])));
    assert AfterTerm(e1) == AfterTerm(e2);
    assert AfterTerm(e) == AfterTerm(e1);
    assert FirstTerm(e2) == Leaf(z);
    assert FirstTerm(e1) == Bin(And, Leaf(z), Leaf(y));
    assert FirstTerm(e) == Bin(And, FirstTerm(e1), Leaf(x));
    assert Std(Single(Atom(w, []))) == Leaf(w);
  }

  /** An unmatched `(` between two operands is accepted, as a node that belongs to no connective. */
  lemma UnmatchedOpenAccepted(x: Leaf, y: Leaf)
    ensures Parse([Operand(x, []), Oper(Open), Operand(y, [])]) == Some(Bin(Open, Leaf(y), Leaf(x)))
  {
    RunsToTwo(x, y);
    MergesTwo(Leaf(x), Leaf(y), Open);
  }

  /** An operator behind its two operands is accepted too, as if it stood between them. */
  lemma PostfixAccepted(x: Leaf, y: Leaf, op: Conn)
    ensures Parse([Operand(x, []), Operand(y, []), Oper(op)]) == Some(Bin(op, Leaf(y), Leaf(x)))
  {
    RunsPostfix(x, y, op);
    MergesTwo(Leaf(x), Leaf(y), op);
  }

  lemma RunsPostfix(x: Leaf, y: Leaf, op: Conn)
    ensures Run(EMPTY, [Operand(x, []), Operand(y, []), Oper(op)]) == Some(State([op], [Leaf(x), Leaf(y)]))
  {
    var a, b, c := Operand(x, []), Operand(y, []), Oper(op);
    assert [a, b, c] == [a, b] + [c] && [a, b] == [a] + [b] && [a] == [] + [a];
    RunSnoc(EMPTY, [a, b], c);
    RunSnoc(EMPTY, [a], b);
    RunSnoc(EMPTY, [], a);
    assert PushTree(EMPTY, Leaf(x)) == State([], [Leaf(x)]);
    assert PushTree(State([], [Leaf(x)]), Leaf(y)) == State([], [Leaf(x), Leaf(y)]);
    assert PushOp(State([], [Leaf(x), Leaf(y)]), op) == State([op], [Leaf(x), Leaf(y)]);
  }

  lemma MergesTwo(a: Tree, b: Tree, op: Op)
    requires op != Not
    ensures MergeAll(State([op], [a, b])) == State([], [Bin(op, b, a)])
  {
    MergeTopPushed(State([], [a]), b, op);
    assert PushOp(PushTree(State([], [a]), b), op) == State([op], [a, b]);
    assert Init([a]) == [];
    assert PushTree(EMPTY, Bin(op, b, a)) == State([], [Bin(op, b, a)]);
    assert MergeTop(State([op], [a, b])) == Some(State([], [Bin(op, b, a)]));
    assert MergeTop(State([], [Bin(op, b, a)])) == None;
  }

  lemma RunsToTwo(x: Leaf, y: Leaf)
    ensures Run(EMPTY, [Operand(x, []), Oper(Open), Operand(y, [])]) == Some(State([Open], [Leaf(x), Leaf(y)]))
  {
    var a, b, c := Operand(x, []), Oper(Open), Operand(y, []);
    assert [a, b, c] == [a, b] + [c] && [a, b] == [a] + [b] && [a] == [] + [a];
    RunSnoc(EMPTY, [a, b], c);
    RunSnoc(EMPTY, [a], b);
    RunSnoc(EMPTY, [], a);
    assert PushTree(EMPTY, Leaf(x)) == State([], [Leaf(x)]);
    assert PushOp(State([], [Leaf(x)]), Open) == State([Open], [Leaf(x)]);
    assert PushTree(State([Open], [Leaf(x)]), Leaf(y)) == State([Open], [Leaf(x), Leaf(y)]);
  }
}
