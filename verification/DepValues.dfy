/** When a misreading shows. A condition whose leaves are all different gets its usual value exactly if what the parser
    makes of it is equivalent, and that can be read off the condition. */
module DepValues {
  import opened DepLeaf
  import opened DepTree
  import opened DepParser
  import opened DepReading
  import opened DepEval
  import opened Wrappers

  // ----- The condition -----

  function LeavesOf(f: Factor): set<Leaf>
    decreases FactorSize(f)
  {
    match f
    case Atom(first, more) => {first} + (set l | l in more)
    case Bang(g) => LeavesOf(g)
    case Group(e) => Leaves(e)
  }

  function Leaves(e: Expr): set<Leaf>
    decreases Size(e)
  {
    match e
    case Single(f) => LeavesOf(f)
    case Join(f, _, r) => LeavesOf(f) + Leaves(r)
  }

  /** Different factors are about different leaves. */
  predicate Apart(e: Expr)
    decreases Size(e)
  {
    ApartFactor(e.f) && (e.Join? ==> LeavesOf(e.f) !! Leaves(e.rest) && Apart(e.rest))
  }

  predicate ApartFactor(f: Factor)
    decreases FactorSize(f)
  {
    match f
    case Atom(_, _) => true
    case Bang(g) => ApartFactor(g)
    case Group(e) => Apart(e)
  }

  predicate TwoBangs(e: Expr) {
    e.Join? && e.f.Bang? && e.f.arg.Bang?
  }

  /** As plain, except that three, five, .. `!` before a connective may stand where one does. */
  predicate Mild(e: Expr)
    decreases Size(e)
  {
    match e
    case Single(f) => MildFactor(f)
    case Join(f, op, r) =>
      if TwoBangs(e) then
        assert FactorSize(f) == 1 + FactorSize(f.arg) == 2 + FactorSize(f.arg.arg);
        f.arg.arg.Bang? && Mild(Join(f.arg.arg, op, r))
      else
        && MildFactor(f) && Mild(r)
        && (op == And && AfterTerm(r).Some? ==> r.op == Or && !r.f.Bang?)
  }

  predicate MildFactor(f: Factor)
    decreases FactorSize(f)
  {
    match f
    case Atom(_, _) => true
    case Bang(g) => MildFactor(g)
    case Group(e) => Mild(e)
  }

  /** Whether a tree is Invalid, if exactly the leaves in `bad` are: not under a `!`, on some side of a `&&`, on both of
      a `||`. */
  predicate Spoilt(t: Tree, bad: Leaf -> bool) {
    match t
    case Leaf(l) => bad(l)
    case Neg(_) => false
    case Bin(op, l, r) =>
      if op == And then Spoilt(l, bad) || Spoilt(r, bad) else op == Or && Spoilt(l, bad) && Spoilt(r, bad)
  }

  function All(): Leaf -> bool { l => true }

  /** The parser's reading and the standard one can both be Invalid, or both cannot. */
  predicate CanBoth(t: Tree, u: Tree) {
    Spoilt(t, All()) && Spoilt(u, All())
  }

  /** Two alternatives together are Invalid under the same circumstances in both readings, if either never are, or both
      can be and each is under the same circumstances. */
  predicate SameTogether(t1: Tree, u1: Tree, same1: bool, t2: Tree, u2: Tree, same2: bool) {
    && (CanBoth(t1, t2) <==> CanBoth(u1, u2))
    && (CanBoth(t1, t2) ==> same1 && same2)
  }

  /** A condition with three or more `!` before a connective is never Invalid as the parser reads it. This says that no
      such place shows in the value of the whole. */
  predicate Hides(e: Expr)
    decreases Size(e)
  {
    match e
    case Single(f) => HidesFactor(f)
    case Join(f, op, r) =>
      if TwoBangs(e) then !Spoilt(Std(e), All())
      else if op == And && r.Join? && r.op == Or then
        assert Size(r) == 1 + FactorSize(r.f) + Size(r.rest);
        SameTogether(Bin(And, ReadFactor(r.f), ReadFactor(f)), Bin(And, StdFactor(r.f), StdFactor(f)),
                     HidesFactor(r.f) && HidesFactor(f), Read(r.rest), Std(r.rest), Hides(r.rest))
      else if op == And then HidesFactor(f) && Hides(r)
      else SameTogether(ReadFactor(f), StdFactor(f), HidesFactor(f), Read(r), Std(r), Hides(r))
  }

  predicate HidesFactor(f: Factor)
    decreases FactorSize(f)
  {
    match f
    case Atom(_, _) => true
    case Bang(_) => true
    case Group(e) => Hides(e)
  }

  // ----- Trees that use each leaf once -----

  function Below(t: Tree): set<Leaf> {
    match t
    case Leaf(l) => {l}
    case Neg(x) => Below(x)
    case Bin(_, l, r) => Below(l) + Below(r)
  }

  /** A conjunction of leaves, such as an operand of several jobs. */
  predicate Conjunction(t: Tree) {
    t.Leaf? || (t.Bin? && t.op == And && Conjunction(t.left) && Conjunction(t.right))
  }

  predicate Once(t: Tree) {
    Conjunction(t) ||
    match t
    case Leaf(_) => true
    case Neg(x) => Once(x)
    case Bin(op, l, r) => (op == And || op == Or) && Below(l) !! Below(r) && Once(l) && Once(r)
  }

  lemma {:induction false} ChainOnce(t: Tree, more: seq<Leaf>)
    requires Conjunction(t)
    ensures Conjunction(Chain(t, more)) && Below(Chain(t, more)) == Below(t) + (set l | l in more)
    decreases |more|
  {
    if more != [] {
      var u := Bin(And, Leaf(more[0]), t);
      ChainOnce(u, more[1..]);
      assert more == [more[0]] + more[1..];
    }
  }

  lemma {:induction false} FactorOnce(f: Factor)
    requires ApartFactor(f)
    ensures Once(ReadFactor(f)) && Below(ReadFactor(f)) == LeavesOf(f)
    ensures Once(StdFactor(f)) && Below(StdFactor(f)) == LeavesOf(f)
    decreases FactorSize(f)
  {
    match f
    case Atom(first, more) => ChainOnce(Leaf(first), more);
    case Bang(g) => FactorOnce(g);
    case Group(e) =>
      ReadOnce(e);
      StdOnce(e);
  }

  lemma WithoutBangs(e: Expr)
    requires TwoBangs(e)
    ensures var e2 := Join(e.f.arg.arg, e.op, e.rest); Leaves(e2) == Leaves(e) && (Apart(e) <==> Apart(e2))
  {
    assert LeavesOf(e.f) == LeavesOf(e.f.arg) == LeavesOf(e.f.arg.arg);
    assert ApartFactor(e.f) <==> ApartFactor(e.f.arg);
  }

  lemma {:induction false} ReadOnce(e: Expr)
    requires Apart(e)
    ensures Once(Read(e)) && Below(Read(e)) == Leaves(e)
    decreases Size(e)
  {
    match e
    case Single(f) => FactorOnce(f);
    case Join(f, op, r) =>
      if TwoBangs(e) {
        assert FactorSize(f) == 1 + FactorSize(f.arg);
        ReadOnce(Join(f.arg, op, r));
      } else {
        FactorOnce(f);
        ReadOnce(r);
        if op == And && r.Join? && r.op == Or && !r.f.Bang? {
          FactorOnce(r.f);
          ReadOnce(r.rest);
        }
      }
  }

  lemma {:induction false} FirstOnce(e: Expr)
    requires Apart(e)
    ensures Once(FirstTerm(e)) && Below(FirstTerm(e)) <= Leaves(e)
    ensures AfterTerm(e).None? ==> Below(FirstTerm(e)) == Leaves(e)
    ensures AfterTerm(e).Some? ==>
              && Apart(AfterTerm(e).value) && Below(FirstTerm(e)) !! Leaves(AfterTerm(e).value)
              && Below(FirstTerm(e)) + Leaves(AfterTerm(e).value) == Leaves(e)
    decreases Size(e), 0
  {
    FactorOnce(e.f);
    if e.Join? && e.op == And {
      FirstOnce(e.rest);
    }
  }

  lemma {:induction false} StdOnce(e: Expr)
    requires Apart(e)
    ensures Once(Std(e)) && Below(Std(e)) == Leaves(e)
    decreases Size(e), 1
  {
    FirstOnce(e);
    match AfterTerm(e)
    case None =>
    case Some(r) => StdOnce(r);
  }

  // ----- Truth values -----

  function Truth(b: bool): Value { if b then True else False }

  /** The leaves in `on` are True, all others False. */
  function Val(on: set<Leaf>): Leaf -> Value {
    l => Truth(l in on)
  }

  predicate IsTrue(t: Tree, val: Leaf -> Value) {
    Denote(t, val) == True
  }

  predicate Holds(t: Tree, on: set<Leaf>) {
    IsTrue(t, Val(on))
  }

  lemma TrueNeg(x: Tree, val: Leaf -> Value)
    ensures IsTrue(Neg(x), val) <==> !IsTrue(x, val)
  {}

  lemma TrueBin(op: Conn, l: Tree, r: Tree, val: Leaf -> Value)
    ensures IsTrue(Bin(op, l, r), val) <==>
            if op == And then IsTrue(l, val) && IsTrue(r, val) else IsTrue(l, val) || IsTrue(r, val)
  {}

  /** The two settings agree on all leaves but those in `x`. */
  ghost predicate SameBut(a: set<Leaf>, b: set<Leaf>, x: set<Leaf>) {
    forall l :: l !in x ==> (l in a <==> l in b)
  }

  lemma {:induction false} HoldsSame(t: Tree, a: set<Leaf>, b: set<Leaf>, x: set<Leaf>)
    requires SameBut(a, b, x) && x !! Below(t)
    ensures Denote(t, Val(a)) == Denote(t, Val(b))
  {
    match t
    case Leaf(_) =>
    case Neg(y) => HoldsSame(y, a, b, x);
    case Bin(_, l, r) =>
      HoldsSame(l, a, b, x);
      HoldsSame(r, a, b, x);
  }

  lemma {:induction false} ConjunctionHolds(t: Tree, want: bool, on: set<Leaf>)
    requires Conjunction(t) && forall l :: l in Below(t) ==> (l in on <==> want)
    ensures Holds(t, on) <==> want
  {
    if t.Bin? {
      ConjunctionHolds(t.left, want, on);
      ConjunctionHolds(t.right, want, on);
      TrueBin(And, t.left, t.right, Val(on));
    }
  }

  /** A tree that uses each leaf once can be made true or false, leaving all other leaves alone. */
  lemma {:induction false} Force(t: Tree, want: bool, a: set<Leaf>) returns (on: set<Leaf>)
    requires Once(t)
    ensures (Holds(t, on) <==> want) && SameBut(a, on, Below(t))
  {
    if Conjunction(t) {
      on := if want then a + Below(t) else a - Below(t);
      ConjunctionHolds(t, want, on);
    } else {
      match t
      case Neg(x) =>
        on := Force(x, !want, a);
        TrueNeg(x, Val(on));
      case Bin(op, l, r) =>
        var b := Force(l, want, a);
        on := Force(r, want, b);
        HoldsSame(l, b, on, Below(r));
        TrueBin(op, l, r, Val(on));
    }
  }

  /** If two trees differ, so do the trees that join each to a tree of its own by the same connective, for some setting
      of the leaves of those. */
  lemma PassOn(op: Conn, t1: Tree, u1: Tree, t2: Tree, u2: Tree, x: set<Leaf>, a: set<Leaf>) returns (on: set<Leaf>)
    requires Holds(t1, a) != Holds(u1, a) && Once(t2) && Once(u2)
    requires Below(t2) <= x && Below(u2) <= x && x !! Below(t1) && x !! Below(u1)
    ensures SameBut(a, on, x)
    ensures Holds(Bin(op, t2, t1), on) != Holds(Bin(op, u2, u1), on)
    ensures Holds(Bin(op, t1, t2), on) != Holds(Bin(op, u1, u2), on)
  {
    var neutral := op == And;
    on := Force(if Holds(t1, a) == neutral then t2 else u2, neutral, a);
    HoldsSame(t1, a, on, x);
    HoldsSame(u1, a, on, x);
    TrueBin(op, t2, t1, Val(on));
    TrueBin(op, t1, t2, Val(on));
    TrueBin(op, u2, u1, Val(on));
    TrueBin(op, u1, u2, Val(on));
  }

  // ----- Telling the readings apart -----

  ghost predicate Differs(e: Expr, on: set<Leaf>) {
    Holds(Read(e), on) != Holds(Std(e), on)
  }

  ghost predicate DiffersFactor(f: Factor, on: set<Leaf>) {
    Holds(ReadFactor(f), on) != Holds(StdFactor(f), on)
  }

  /** For a condition that is not mild, a setting that tells the two readings apart. */
  lemma {:induction false} TellApart(e: Expr, a: set<Leaf>) returns (on: set<Leaf>)
    requires Apart(e) && !Mild(e)
    ensures Differs(e, on) && SameBut(a, on, Leaves(e))
    decreases Size(e)
  {
    match e
    case Single(f) => on := TellFactorApart(f, a);
    case Join(f, op, r) =>
      if TwoBangs(e) {
        assert FactorSize(f) == 1 + FactorSize(f.arg) == 2 + FactorSize(f.arg.arg);
        WithoutBangs(e);
        if f.arg.arg.Bang? {
          on := TellApart(Join(f.arg.arg, op, r), a);
          TwoBangsCancel(e, Val(on));
        } else {
          on := TellEven(e, a);
        }
      } else if op == And && AfterTerm(r).Some? {
        if r.op == Or && !r.f.Bang? {
          assert Size(r) == 1 + FactorSize(r.f) + Size(r.rest);
          on := TellTwoApart(f, r.f, r.rest, a);
        } else {
          on := TellLong(e, a);
        }
      } else {
        JoinTrees(e);
        FactorOnce(f);
        ReadOnce(r);
        StdOnce(r);
        if MildFactor(f) {
          var b := TellApart(r, a);
          on := PassOn(op, Read(r), Std(r), ReadFactor(f), StdFactor(f), LeavesOf(f), b);
        } else {
          var b := TellFactorApart(f, a);
          on := PassOn(op, ReadFactor(f), StdFactor(f), Read(r), Std(r), Leaves(r), b);
        }
      }
  }

  lemma {:induction false} TellFactorApart(f: Factor, a: set<Leaf>) returns (on: set<Leaf>)
    requires ApartFactor(f) && !MildFactor(f)
    ensures DiffersFactor(f, on) && SameBut(a, on, LeavesOf(f))
    decreases FactorSize(f)
  {
    match f
    case Bang(g) =>
      on := TellFactorApart(g, a);
      TrueNeg(ReadFactor(g), Val(on));
      TrueNeg(StdFactor(g), Val(on));
    case Group(e) => on := TellApart(e, a);
  }

  /** Where nothing is special, both readings join the first factor and the rest. */
  lemma JoinTrees(e: Expr)
    requires e.Join? && !TwoBangs(e) && (e.op == And ==> AfterTerm(e.rest).None?)
    ensures Read(e) == Bin(e.op, Read(e.rest), ReadFactor(e.f))
    ensures Std(e) == Bin(e.op, Std(e.rest), StdFactor(e.f))
  {}

  lemma TwoFactorTrees(f: Factor, q: Factor, r: Expr)
    requires !(f.Bang? && f.arg.Bang?) && !q.Bang?
    ensures var e := Join(f, And, Join(q, Or, r));
            && Read(e) == Bin(Or, Read(r), Bin(And, ReadFactor(q), ReadFactor(f)))
            && Std(e) == Bin(Or, Std(r), Bin(And, StdFactor(q), StdFactor(f)))
  {
    assert AfterTerm(Join(q, Or, r)) == Some(r) && FirstTerm(Join(q, Or, r)) == StdFactor(q);
  }

  /** `f && q || r`: one of the three parts passes its difference on. */
  lemma {:induction false} TellTwoApart(f: Factor, q: Factor, r: Expr, a: set<Leaf>) returns (on: set<Leaf>)
    requires var e := Join(f, And, Join(q, Or, r));
             Apart(e) && !TwoBangs(e) && !q.Bang? && !(MildFactor(f) && MildFactor(q) && Mild(r))
    ensures var e := Join(f, And, Join(q, Or, r)); Differs(e, on) && SameBut(a, on, Leaves(e))
    decreases FactorSize(f) + FactorSize(q) + Size(r)
  {
    TwoFactorTrees(f, q, r);
    FactorOnce(f);
    FactorOnce(q);
    ReadOnce(r);
    StdOnce(r);
    var t, u := Bin(And, ReadFactor(q), ReadFactor(f)), Bin(And, StdFactor(q), StdFactor(f));
    if !Mild(r) {
      var b := TellApart(r, a);
      on := PassOn(Or, Read(r), Std(r), t, u, LeavesOf(f) + LeavesOf(q), b);
    } else {
      var b, c;
      if !MildFactor(f) {
        b := TellFactorApart(f, a);
        c := PassOn(And, ReadFactor(f), StdFactor(f), ReadFactor(q), StdFactor(q), LeavesOf(q), b);
      } else {
        b := TellFactorApart(q, a);
        c := PassOn(And, ReadFactor(q), StdFactor(q), ReadFactor(f), StdFactor(f), LeavesOf(f), b);
      }
      on := PassOn(Or, t, u, Read(r), Std(r), Leaves(r), c);
    }
  }

  /** A `&&` that takes a whole disjunction: False on its left makes it False, but not what is behind the `||`. */
  lemma TellLong(e: Expr, a: set<Leaf>) returns (on: set<Leaf>)
    requires Apart(e) && e.Join? && !TwoBangs(e) && e.op == And && AfterTerm(e.rest).Some?
    requires !(e.rest.op == Or && !e.rest.f.Bang?)
    ensures Differs(e, on) && SameBut(a, on, Leaves(e))
  {
    var r := AfterTerm(e.rest).value;
    FirstOnce(e.rest);
    StdOnce(r);
    FactorOnce(e.f);
    var b := Force(Std(r), true, a);
    on := Force(ReadFactor(e.f), false, b);
    HoldsSame(Std(r), b, on, LeavesOf(e.f));
    TrueBin(And, Read(e.rest), ReadFactor(e.f), Val(on));
    TrueBin(Or, Std(r), FirstTerm(e), Val(on));
  }

  /** Two `!` before another one change neither truth value. */
  lemma TwoBangsCancel(e: Expr, val: Leaf -> Value)
    requires TwoBangs(e) && e.f.arg.arg.Bang?
    ensures var e2 := Join(e.f.arg.arg, e.op, e.rest);
            (IsTrue(Read(e), val) <==> IsTrue(Read(e2), val)) && (IsTrue(Std(e), val) <==> IsTrue(Std(e2), val))
  {
    var g := e.f.arg.arg;
    var e1, e2 := Join(Bang(g), e.op, e.rest), Join(g, e.op, e.rest);
    assert Read(e) == Neg(Read(e1)) && Read(e1) == Neg(Read(e2));
    TrueNeg(Read(e1), val);
    TrueNeg(Read(e2), val);
    TrueNeg(StdFactor(Bang(g)), val);
    TrueNeg(StdFactor(g), val);
    StdByFactor(e, e2, val);
  }

  /** Whether the standard reading is True depends on whether its first factor is. */
  lemma StdByFactor(e: Expr, e2: Expr, val: Leaf -> Value)
    requires e.Join? && e2 == Join(e2.f, e.op, e.rest)
    requires IsTrue(StdFactor(e.f), val) <==> IsTrue(StdFactor(e2.f), val)
    ensures IsTrue(Std(e), val) <==> IsTrue(Std(e2), val)
  {
    if e.op == And {
      TrueBin(And, FirstTerm(e.rest), StdFactor(e.f), val);
      TrueBin(And, FirstTerm(e.rest), StdFactor(e2.f), val);
    }
    match AfterTerm(e)
    case None =>
    case Some(r) =>
      TrueBin(Or, Std(r), FirstTerm(e), val);
      TrueBin(Or, Std(r), FirstTerm(e2), val);
  }

  /** Exactly two `!` before a connective: the parser negates all that follows, too. */
  lemma TellEven(e: Expr, a: set<Leaf>) returns (on: set<Leaf>)
    requires Apart(e) && TwoBangs(e) && !e.f.arg.arg.Bang?
    ensures Differs(e, on) && SameBut(a, on, Leaves(e))
  {
    var g := e.f.arg.arg;
    var e1, e2 := Join(Bang(g), e.op, e.rest), Join(g, e.op, e.rest);
    WithoutBangs(e);
    if e.op == And && AfterTerm(e.rest).Some? {
      if e.rest.op == Or && !e.rest.f.Bang? {
        on := EvenTwo(g, e.rest.f, e.rest.rest, a);
      } else {
        on := EvenLong(g, e.rest, a);
      }
    } else {
      on := EvenJoin(g, e.op, e.rest, a);
    }
    assert Read(e) == Neg(Read(e1));
    TrueNeg(Read(e1), Val(on));
    TrueNeg(StdFactor(Bang(g)), Val(on));
    TrueNeg(StdFactor(g), Val(on));
    StdByFactor(e, e2, Val(on));
  }

  /** The reading of the negated factor with what follows, and the standard reading of the factor as such, can be made
      the same. */
  lemma EvenJoin(g: Factor, op: Conn, r: Expr, a: set<Leaf>) returns (on: set<Leaf>)
    requires Apart(Join(g, op, r)) && !g.Bang? && (op == And ==> AfterTerm(r).None?)
    ensures Holds(Read(Join(Bang(g), op, r)), on) == Holds(Std(Join(g, op, r)), on)
    ensures SameBut(a, on, Leaves(Join(g, op, r)))
  {
    var want := op == Or;
    FactorOnce(g);
    ReadOnce(r);
    var b := Force(StdFactor(g), want, a);
    on := Force(Read(r), want, b);
    HoldsSame(StdFactor(g), b, on, Leaves(r));
    JoinTrees(Join(Bang(g), op, r));
    JoinTrees(Join(g, op, r));
    TrueBin(op, Read(r), ReadFactor(Bang(g)), Val(on));
    TrueBin(op, Std(r), StdFactor(g), Val(on));
  }

  lemma EvenTwo(g: Factor, q: Factor, r: Expr, a: set<Leaf>) returns (on: set<Leaf>)
    requires Apart(Join(g, And, Join(q, Or, r))) && !g.Bang? && !q.Bang?
    ensures Holds(Read(Join(Bang(g), And, Join(q, Or, r))), on) == Holds(Std(Join(g, And, Join(q, Or, r))), on)
    ensures SameBut(a, on, Leaves(Join(g, And, Join(q, Or, r))))
  {
    FactorOnce(g);
    FactorOnce(q);
    ReadOnce(r);
    var b := Force(StdFactor(g), true, a);
    var c := Force(StdFactor(q), true, b);
    on := Force(Read(r), true, c);
    HoldsSame(StdFactor(g), b, c, LeavesOf(q));
    HoldsSame(StdFactor(g), c, on, Leaves(r));
    HoldsSame(StdFactor(q), c, on, Leaves(r));
    TwoFactorTrees(Bang(g), q, r);
    TwoFactorTrees(g, q, r);
    TrueBin(Or, Read(r), Bin(And, ReadFactor(q), ReadFactor(Bang(g))), Val(on));
    TrueBin(And, StdFactor(q), StdFactor(g), Val(on));
    TrueBin(Or, Std(r), Bin(And, StdFactor(q), StdFactor(g)), Val(on));
  }

  lemma EvenLong(g: Factor, r: Expr, a: set<Leaf>) returns (on: set<Leaf>)
    requires Apart(Join(g, And, r)) && !g.Bang? && AfterTerm(r).Some? && !(r.op == Or && !r.f.Bang?)
    ensures Holds(Read(Join(Bang(g), And, r)), on) == Holds(Std(Join(g, And, r)), on)
    ensures SameBut(a, on, Leaves(Join(g, And, r)))
  {
    var s, e := AfterTerm(r).value, Join(g, And, r);
    FactorOnce(g);
    StdOnce(r);
    var b := Force(ReadFactor(g), true, a);
    on := Force(Std(r), false, b);
    HoldsSame(ReadFactor(g), b, on, Leaves(r));
    TrueNeg(ReadFactor(g), Val(on));
    TrueBin(And, Read(r), Neg(ReadFactor(g)), Val(on));
    TrueBin(Or, Std(s), FirstTerm(r), Val(on));
    TrueBin(And, FirstTerm(r), StdFactor(g), Val(on));
    TrueBin(Or, Std(s), FirstTerm(e), Val(on));
  }

  // ----- Mild conditions are True when they should be -----

  lemma {:induction false} MildIsTrue(e: Expr, val: Leaf -> Value)
    requires Mild(e)
    ensures IsTrue(Read(e), val) <==> IsTrue(Std(e), val)
    decreases Size(e)
  {
    match e
    case Single(f) => MildFactorIsTrue(f, val);
    case Join(f, op, r) =>
      if TwoBangs(e) {
        assert FactorSize(f) == 1 + FactorSize(f.arg) == 2 + FactorSize(f.arg.arg);
        MildIsTrue(Join(f.arg.arg, op, r), val);
        TwoBangsCancel(e, val);
      } else {
        MildFactorIsTrue(f, val);
        if op == And && AfterTerm(r).Some? {
          MildFactorIsTrue(r.f, val);
          MildIsTrue(r.rest, val);
          TwoFactorTrees(f, r.f, r.rest);
          TrueBin(And, ReadFactor(r.f), ReadFactor(f), val);
          TrueBin(And, StdFactor(r.f), StdFactor(f), val);
          TrueBin(Or, Read(r.rest), Bin(And, ReadFactor(r.f), ReadFactor(f)), val);
          TrueBin(Or, Std(r.rest), Bin(And, StdFactor(r.f), StdFactor(f)), val);
        } else {
          MildIsTrue(r, val);
          JoinTrees(e);
          TrueBin(op, Read(r), ReadFactor(f), val);
          TrueBin(op, Std(r), StdFactor(f), val);
        }
      }
  }

  lemma {:induction false} MildFactorIsTrue(f: Factor, val: Leaf -> Value)
    requires MildFactor(f)
    ensures IsTrue(ReadFactor(f), val) <==> IsTrue(StdFactor(f), val)
    decreases FactorSize(f)
  {
    match f
    case Atom(_, _) =>
    case Bang(g) =>
      MildFactorIsTrue(g, val);
      TrueNeg(ReadFactor(g), val);
      TrueNeg(StdFactor(g), val);
    case Group(e) => MildIsTrue(e, val);
  }

  // ----- When both readings are Invalid under the same circumstances -----

  ghost predicate SameSpoilt(t: Tree, u: Tree) {
    forall bad: Leaf -> bool :: Spoilt(t, bad) <==> Spoilt(u, bad)
  }

  lemma {:induction false} SpoiltMore(t: Tree, bad: Leaf -> bool, worse: Leaf -> bool)
    requires forall l :: l in Below(t) && bad(l) ==> worse(l)
    ensures Spoilt(t, bad) ==> Spoilt(t, worse)
  {
    match t
    case Leaf(_) =>
    case Neg(_) =>
    case Bin(_, l, r) =>
      SpoiltMore(l, bad, worse);
      SpoiltMore(r, bad, worse);
  }

  lemma {:induction false} SpoiltNot(t: Tree, bad: Leaf -> bool)
    requires forall l :: l in Below(t) ==> !bad(l)
    ensures !Spoilt(t, bad)
  {
    match t
    case Leaf(_) =>
    case Neg(_) =>
    case Bin(_, l, r) =>
      SpoiltNot(l, bad);
      SpoiltNot(r, bad);
  }

  /** Only the leaves in `x`; and those and all others. */
  function Only(bad: Leaf -> bool, x: set<Leaf>): Leaf -> bool { l => l in x && bad(l) }

  function Besides(bad: Leaf -> bool, x: set<Leaf>): Leaf -> bool { l => l in x ==> bad(l) }

  lemma SpoiltOnly(t: Tree, bad: Leaf -> bool, x: set<Leaf>)
    requires Below(t) <= x
    ensures Spoilt(t, Only(bad, x)) <==> Spoilt(t, bad)
    ensures Spoilt(t, Besides(bad, x)) <==> Spoilt(t, bad)
  {
    SpoiltMore(t, Only(bad, x), bad);
    SpoiltMore(t, bad, Only(bad, x));
    SpoiltMore(t, Besides(bad, x), bad);
    SpoiltMore(t, bad, Besides(bad, x));
  }

  lemma SpoiltOutside(t: Tree, bad: Leaf -> bool, x: set<Leaf>)
    requires Below(t) !! x
    ensures !Spoilt(t, Only(bad, x))
    ensures Spoilt(t, Besides(bad, x)) <==> Spoilt(t, All())
  {
    SpoiltNot(t, Only(bad, x));
    SpoiltMore(t, Besides(bad, x), All());
    SpoiltMore(t, All(), Besides(bad, x));
  }

  /** What is on one side shows if the other side does not cover it: of a `&&` if nothing there is Invalid, of a `||` if
      all is. */
  lemma SideShows(op: Conn, t: Tree, u: Tree, t1: Tree, u1: Tree, x: set<Leaf>, t2: Tree, u2: Tree)
    requires Below(t1) <= x && Below(u1) <= x && Below(t2) !! x && Below(u2) !! x
    requires (t == Bin(op, t2, t1) && u == Bin(op, u2, u1)) || (t == Bin(op, t1, t2) && u == Bin(op, u1, u2))
    requires SameSpoilt(t, u) && (op == Or ==> CanBoth(t2, u2))
    ensures SameSpoilt(t1, u1)
  {
    forall bad: Leaf -> bool
      ensures Spoilt(t1, bad) <==> Spoilt(u1, bad)
    {
      SpoiltOnly(t1, bad, x);
      SpoiltOnly(u1, bad, x);
      SpoiltOutside(t2, bad, x);
      SpoiltOutside(u2, bad, x);
      var b := if op == And then Only(bad, x) else Besides(bad, x);
      assert Spoilt(t, b) <==> Spoilt(u, b);
    }
  }

  lemma JoinSame(op: Conn, t1: Tree, u1: Tree, t2: Tree, u2: Tree)
    requires SameSpoilt(t1, u1) && SameSpoilt(t2, u2)
    ensures SameSpoilt(Bin(op, t2, t1), Bin(op, u2, u1))
  {
    forall bad: Leaf -> bool
      ensures Spoilt(Bin(op, t2, t1), bad) <==> Spoilt(Bin(op, u2, u1), bad)
    {
      assert Spoilt(t1, bad) <==> Spoilt(u1, bad);
      assert Spoilt(t2, bad) <==> Spoilt(u2, bad);
    }
  }

  lemma AndSame(t1: Tree, u1: Tree, x: set<Leaf>, t2: Tree, u2: Tree, y: set<Leaf>)
    requires Below(t1) <= x && Below(u1) <= x && Below(t2) <= y && Below(u2) <= y && x !! y
    ensures SameSpoilt(Bin(And, t2, t1), Bin(And, u2, u1)) <==> SameSpoilt(t1, u1) && SameSpoilt(t2, u2)
  {
    var t, u := Bin(And, t2, t1), Bin(And, u2, u1);
    if SameSpoilt(t, u) {
      SideShows(And, t, u, t1, u1, x, t2, u2);
      SideShows(And, t, u, t2, u2, y, t1, u1);
    }
    if SameSpoilt(t1, u1) && SameSpoilt(t2, u2) {
      JoinSame(And, t1, u1, t2, u2);
    }
  }

  lemma OrSame(t1: Tree, u1: Tree, x: set<Leaf>, t2: Tree, u2: Tree, y: set<Leaf>)
    requires Below(t1) <= x && Below(u1) <= x && Below(t2) <= y && Below(u2) <= y && x !! y
    ensures SameSpoilt(Bin(Or, t2, t1), Bin(Or, u2, u1)) <==>
            SameTogether(t1, u1, SameSpoilt(t1, u1), t2, u2, SameSpoilt(t2, u2))
  {
    var t, u := Bin(Or, t2, t1), Bin(Or, u2, u1);
    if SameSpoilt(t, u) {
      assert Spoilt(t, All()) <==> Spoilt(u, All());
      if CanBoth(t1, t2) {
        SideShows(Or, t, u, t1, u1, x, t2, u2);
        SideShows(Or, t, u, t2, u2, y, t1, u1);
      }
    }
    if SameTogether(t1, u1, SameSpoilt(t1, u1), t2, u2, SameSpoilt(t2, u2)) {
      if CanBoth(t1, t2) {
        JoinSame(Or, t1, u1, t2, u2);
      } else {
        NeverSpoilt(t);
        NeverSpoilt(u);
      }
    }
  }

  lemma NeverSpoilt(t: Tree)
    requires !Spoilt(t, All())
    ensures forall bad: Leaf -> bool :: !Spoilt(t, bad)
  {
    forall bad: Leaf -> bool
      ensures !Spoilt(t, bad)
    {
      SpoiltMore(t, bad, All());
    }
  }

  lemma NegSame(x: Tree, u: Tree)
    ensures SameSpoilt(Neg(x), u) <==> !Spoilt(u, All())
  {
    if !Spoilt(u, All()) {
      NeverSpoilt(u);
    } else {
      assert Spoilt(Neg(x), All()) != Spoilt(u, All());
    }
  }

  lemma {:induction false} HidesExactly(e: Expr)
    requires Apart(e) && Mild(e)
    ensures SameSpoilt(Read(e), Std(e)) <==> Hides(e)
    decreases Size(e)
  {
    match e
    case Single(f) => HidesFactorExactly(f);
    case Join(f, op, r) =>
      if TwoBangs(e) {
        NegSame(Read(e).left, Std(e));
      } else {
        FactorOnce(f);
        HidesFactorExactly(f);
        if op == And && AfterTerm(r).Some? {
          HidesTwo(f, r.f, r.rest);
        } else {
          HidesExactly(r);
          ReadOnce(r);
          StdOnce(r);
          JoinTrees(e);
          if op == And {
            AndSame(ReadFactor(f), StdFactor(f), LeavesOf(f), Read(r), Std(r), Leaves(r));
          } else {
            OrSame(ReadFactor(f), StdFactor(f), LeavesOf(f), Read(r), Std(r), Leaves(r));
          }
        }
      }
  }

  lemma {:induction false} HidesTwo(f: Factor, q: Factor, r: Expr)
    requires var e := Join(f, And, Join(q, Or, r)); Apart(e) && Mild(e) && !TwoBangs(e) && !q.Bang?
    ensures var e := Join(f, And, Join(q, Or, r)); SameSpoilt(Read(e), Std(e)) <==> Hides(e)
    decreases FactorSize(f) + FactorSize(q) + Size(r)
  {
    HidesFactorExactly(f);
    HidesFactorExactly(q);
    HidesExactly(r);
    FactorOnce(f);
    FactorOnce(q);
    ReadOnce(r);
    StdOnce(r);
    TwoFactorTrees(f, q, r);
    AndSame(ReadFactor(f), StdFactor(f), LeavesOf(f), ReadFactor(q), StdFactor(q), LeavesOf(q));
    var t, u := Bin(And, ReadFactor(q), ReadFactor(f)), Bin(And, StdFactor(q), StdFactor(f));
    OrSame(t, u, LeavesOf(f) + LeavesOf(q), Read(r), Std(r), Leaves(r));
  }

  lemma {:induction false} HidesFactorExactly(f: Factor)
    requires ApartFactor(f) && MildFactor(f)
    ensures SameSpoilt(ReadFactor(f), StdFactor(f)) <==> HidesFactor(f)
    decreases FactorSize(f)
  {
    match f
    case Atom(_, _) =>
    case Bang(g) => NegSame(ReadFactor(g), StdFactor(f));
    case Group(e) => HidesExactly(e);
  }

  // ----- The value is right exactly then -----

  ghost predicate NoReject(val: Leaf -> Value) {
    forall l :: val(l) != Reject
  }

  function Bad(val: Leaf -> Value): Leaf -> bool { l => val(l) == Invalid }

  lemma {:induction false} SpoiltExactly(t: Tree, val: Leaf -> Value)
    requires NoReject(val)
    ensures Denote(t, val) != Reject && (Denote(t, val) == Invalid <==> Spoilt(t, Bad(val)))
  {
    match t
    case Leaf(_) =>
    case Neg(_) =>
    case Bin(_, l, r) =>
      SpoiltExactly(l, val);
      SpoiltExactly(r, val);
  }

  /** Whatever the leaves are worth, what the parser makes of a condition is True exactly if the condition is. */
  ghost predicate RightTruth(e: Expr) {
    forall val: Leaf -> Value :: Denote(Read(e), val) == True <==> ExprValue(e, val) == True
  }

  /** And it has the same value. */
  ghost predicate RightValue(e: Expr) {
    forall val: Leaf -> Value :: NoReject(val) ==> Denote(Read(e), val) == ExprValue(e, val)
  }

  /** Without repeated leaves: the parser's tree is True for the same leaves as the condition exactly if the condition
      is mild. */
  lemma RightTruthExactly(e: Expr)
    requires Apart(e)
    ensures Parse(Tokens(e)) == Some(Read(e))
    ensures RightTruth(e) <==> Mild(e)
  {
    ParseReads(e);
    if Mild(e) {
      forall val: Leaf -> Value
        ensures Denote(Read(e), val) == True <==> ExprValue(e, val) == True
      {
        MildIsTrue(e, val);
        StdValue(e, val);
      }
    } else {
      var on := TellApart(e, {});
      StdValue(e, Val(on));
      assert Denote(Read(e), Val(on)) == True <==> ExprValue(e, Val(on)) != True;
    }
  }

  /** And it has the value of the condition for all leaves exactly if, besides, no place shows where the parser's tree
      cannot be Invalid. */
  lemma RightValueExactly(e: Expr)
    requires Apart(e)
    ensures Parse(Tokens(e)) == Some(Read(e))
    ensures RightValue(e) <==> Mild(e) && Hides(e)
  {
    ParseReads(e);
    if !Mild(e) {
      var on := TellApart(e, {});
      StdValue(e, Val(on));
      assert NoReject(Val(on)) && Denote(Read(e), Val(on)) != ExprValue(e, Val(on));
    } else {
      HidesExactly(e);
      if Hides(e) {
        HiddenIsRight(e);
      } else {
        ShownIsWrong(e);
      }
    }
  }

  lemma HiddenIsRight(e: Expr)
    requires Mild(e) && SameSpoilt(Read(e), Std(e))
    ensures RightValue(e)
  {
    forall val: Leaf -> Value | NoReject(val)
      ensures Denote(Read(e), val) == ExprValue(e, val)
    {
      MildIsTrue(e, val);
      StdValue(e, val);
      SpoiltExactly(Read(e), val);
      SpoiltExactly(Std(e), val);
      assert Spoilt(Read(e), Bad(val)) <==> Spoilt(Std(e), Bad(val));
    }
  }

  lemma ShownIsWrong(e: Expr)
    requires !SameSpoilt(Read(e), Std(e))
    ensures !RightValue(e)
  {
    var bad: Leaf -> bool :| Spoilt(Read(e), bad) != Spoilt(Std(e), bad);
    var val: Leaf -> Value := l => if bad(l) then Invalid else False;
    SpoiltExactly(Read(e), val);
    SpoiltExactly(Std(e), val);
    SpoiltMore(Read(e), bad, Bad(val));
    SpoiltMore(Read(e), Bad(val), bad);
    SpoiltMore(Std(e), bad, Bad(val));
    SpoiltMore(Std(e), Bad(val), bad);
    StdValue(e, val);
    assert NoReject(val);
  }

  /** A leaf that is repeated can hide a misreading: `x && x && x || x` is not mild, and worth `x` either way. */
  lemma RepetitionHides(x: Leaf)
    ensures var e := Join(Atom(x, []), And, Join(Atom(x, []), And, Join(Atom(x, []), Or, Single(Atom(x, [])))));
            !Mild(e) && RightTruth(e) && RightValue(e)
  {
    var e1 := Join(Atom(x, []), And, Join(Atom(x, []), Or, Single(Atom(x, []))));
    var e := Join(Atom(x, []), And, e1);
    assert e1.op == And && AfterTerm(e1).Some?;
    LongConjunctionMisread(x, x, x, x);
    ParseReads(e);
    forall val: Leaf -> Value
      ensures Denote(Read(e), val) == ExprValue(e, val)
    {
      StdValue(e, val);
      var pair := Bin(And, Leaf(x), Leaf(x));
      assert Denote(pair, val) == val(x) && Denote(Bin(Or, Leaf(x), pair), val) == val(x);
      assert Denote(Bin(And, pair, Leaf(x)), val) == val(x);
    }
  }
}
