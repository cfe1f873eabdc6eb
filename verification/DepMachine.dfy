/** The parser of dependency conditions as it runs: two stacks of nodes, reduced by linking them. */
module DepMachine {
  import opened DepLeaf
  import opened DepTree
  import P = DepParser
  import opened DepEval
  import opened DepNode
  import opened Wrappers

  class Parser {
    var operators: seq<DptNode>
    var operands: seq<DptNode>
    /** The trees and operators that the stacks stand for, and the nodes they are made of. */
    ghost var Abs: State
    ghost var Repr: set<DptNode>

    /** Operator nodes are still unlinked; operands are complete trees; nothing is shared. */
    ghost predicate Valid()
      reads this, Repr
    {
      && |Abs.operators| == |operators| && |Abs.operands| == |operands|
      && (forall i :: 0 <= i < |operators| ==>
            operators[i] in Repr && operators[i].nodeType == OpType(Abs.operators[i]) && operators[i].value == False)
      && (forall i, j :: 0 <= i < j < |operators| ==> operators[i] != operators[j])
      && (forall i :: 0 <= i < |operands| ==> IsOperand(operands[i], Abs.operands[i]))
      && (forall i, j :: 0 <= i < j < |operands| ==> operands[i].Repr !! operands[j].Repr)
      && (forall i, j :: 0 <= i < |operators| && 0 <= j < |operands| ==> operators[i] !in operands[j].Repr)
    }

    ghost predicate IsOperand(n: DptNode, t: Tree)
      reads this, Repr
    {
      n in Repr && n.Repr <= Repr && n.Valid() && Clean(n.Snap()) && Erase(n.Snap()) == t
    }

    constructor ()
      ensures Valid() && Abs == EMPTY && Repr == {}
    {
      operators, operands, Abs, Repr := [], [], EMPTY, {};
    }

    method PushOperatorNode(n: DptNode)
      requires Valid() && n !in Repr && n.nodeType.OpType? && n.value == False
      modifies this
      ensures Valid() && Repr == old(Repr) + {n} && Abs == P.PushOp(old(Abs), n.nodeType.op)
      ensures operators == old(operators) + [n] && operands == old(operands)
    {
      operators, Abs, Repr := operators + [n], P.PushOp(Abs, n.nodeType.op), Repr + {n};
    }

    method PushOperandNode(n: DptNode)
      requires Valid() && n.Valid() && n.Repr !! Repr && Clean(n.Snap())
      modifies this
      ensures Valid() && Repr == old(Repr) + n.Repr && Abs == P.PushTree(old(Abs), Erase(n.Snap()))
      ensures operators == old(operators) && operands == old(operands) + [n]
    {
      operands, Abs, Repr := operands + [n], P.PushTree(Abs, Erase(n.Snap())), Repr + n.Repr;
    }

    method PopOperator() returns (n: DptNode)
      requires Valid() && operators != []
      modifies this
      ensures Valid() && n in old(Repr) && Repr == old(Repr) - {n}
      ensures old(operators) == operators + [n] && operands == old(operands)
      ensures n.nodeType.OpType? && n.value == False && old(Abs) == P.PushOp(Abs, n.nodeType.op)
    {
      n := Last(operators);
      operators, Abs, Repr := Init(operators), State(Init(Abs.operators), Abs.operands), Repr - {n};
    }

    method PopOperand() returns (n: DptNode)
      requires Valid() && operands != []
      modifies this
      ensures Valid() && n.Valid() && n.Repr <= old(Repr) && Repr == old(Repr) - n.Repr
      ensures old(operands) == operands + [n] && operators == old(operators)
      ensures Clean(n.Snap()) && old(Abs) == P.PushTree(Abs, Erase(n.Snap()))
    {
      n := Last(operands);
      assert IsOperand(n, Last(Abs.operands));
      operands, Abs, Repr := Init(operands), State(Abs.operators, Init(Abs.operands)), Repr - n.Repr;
    }

    method PushOperator(op: Op)
      requires Valid()
      modifies this
      ensures Valid() && fresh(Repr - old(Repr)) && Abs == P.PushOp(old(Abs), op)
    {
      var n := new DptNode.Operator(op);
      PushOperatorNode(n);
    }

    method PushOperand(l: Leaf)
      requires Valid()
      modifies this
      ensures Valid() && fresh(Repr - old(Repr)) && Abs == P.PushTree(old(Abs), Leaf(l))
    {
      var n := new DptNode.Operand(l);
      PushOperandNode(n);
    }

    /** A popped `!` takes the popped operand. */
    method PushNegated(op: DptNode, operand: DptNode)
      requires Valid() && op !in Repr && op.nodeType == OpType(Not) && op.value == False
      requires operand.Valid() && Clean(operand.Snap()) && operand.Repr !! Repr && op !in operand.Repr
      modifies this, op
      ensures Valid() && Repr == old(Repr) + {op} + operand.Repr
      ensures Abs == P.PushTree(old(Abs), Neg(old(Erase(operand.Snap()))))
    {
      op.LinkOne(operand);
      PushOperandNode(op);
    }

    /** Any other popped operator takes the two popped operands. */
    method PushLinked(op: DptNode, later: DptNode, earlier: DptNode)
      requires Valid() && op !in Repr && op.nodeType.OpType? && op.nodeType.op != Not && op.value == False
      requires later.Valid() && Clean(later.Snap()) && later.Repr !! Repr && op !in later.Repr
      requires earlier.Valid() && Clean(earlier.Snap()) && earlier.Repr !! Repr && op !in earlier.Repr
      requires later.Repr !! earlier.Repr
      modifies this, op
      ensures Valid() && Repr == old(Repr) + {op} + later.Repr + earlier.Repr
      ensures Abs == P.PushTree(old(Abs), Bin(op.nodeType.op, old(Erase(later.Snap())), old(Erase(earlier.Snap()))))
    {
      op.LinkTwo(later, earlier);
      PushOperandNode(op);
    }

    method JoinTop(op: DptNode, operand1: DptNode)
      requires Valid() && op !in Repr && op.nodeType.OpType? && op.nodeType.op != Not && op.value == False
      requires operand1.Valid() && Clean(operand1.Snap()) && operand1.Repr !! Repr && op !in operand1.Repr
      requires operands != []
      modifies this, op
      ensures Valid() && Repr == old(Repr) + {op} + operand1.Repr
      ensures P.MergeTop(P.PushOp(P.PushTree(old(Abs), old(Erase(operand1.Snap()))), op.nodeType.op)) == Some(Abs)
    {
      var operand2 := PopOperand();
      P.MergeTopJoins(Abs, Erase(operand2.Snap()), Erase(operand1.Snap()), op.nodeType.op);
      PushLinked(op, operand1, operand2);
    }

    /** The rest of a reduction, once an operator and an operand have been popped. If there is no second operand for an
        operator that needs one, both are pushed back. */
    method Reduce(op: DptNode, operand1: DptNode) returns (ok: bool)
      requires Valid() && op !in Repr && op.nodeType.OpType? && op.value == False
      requires operand1.Valid() && Clean(operand1.Snap()) && operand1.Repr !! Repr && op !in operand1.Repr
      modifies this, op
      ensures Valid() && Repr == old(Repr) + {op} + operand1.Repr
      ensures var s := P.PushOp(P.PushTree(old(Abs), old(Erase(operand1.Snap()))), op.nodeType.op);
              (ok <==> P.MergeTop(s).Some?) && Abs == if ok then P.MergeTop(s).value else s
      ensures !ok ==> operators == old(operators) + [op] && operands == old(operands) + [operand1]
    {
      P.MergeTopPushed(Abs, Erase(operand1.Snap()), op.nodeType.op);
      ok := true;
      if op.nodeType.op == Not {
        PushNegated(op, operand1);
      } else if operands == [] {
        PushOperatorNode(op);
        PushOperandNode(operand1);
        ok := false;
      } else {
        JoinTop(op, operand1);
      }
    }

    /** A reduction, once an operator has been popped. If there is no operand, it is pushed back. */
    method MergeUnder(op: DptNode) returns (ok: bool)
      requires Valid() && op !in Repr && op.nodeType.OpType? && op.value == False
      modifies this, op
      ensures Valid() && Repr == old(Repr) + {op}
      ensures var s := P.PushOp(old(Abs), op.nodeType.op);
              (ok <==> P.MergeTop(s).Some?) && Abs == if ok then P.MergeTop(s).value else s
      ensures !ok ==> operators == old(operators) + [op] && operands == old(operands)
    {
      if operands == [] {
        PushOperatorNode(op);
        return false;
      }
      var operand1 := PopOperand();
      ok := Reduce(op, operand1);
    }

    /** One reduction. What has been popped is pushed back if it fails, so that both stacks are as before. */
    method MergeTop() returns (ok: bool)
      requires Valid()
      modifies this, Repr
      ensures Valid() && Repr == old(Repr)
      ensures ok <==> P.MergeTop(old(Abs)).Some?
      ensures ok ==> Abs == P.MergeTop(old(Abs)).value
      ensures !ok ==> operators == old(operators) && operands == old(operands) && Abs == old(Abs)
    {
      if operators == [] {
        return false;
      }
      var op := PopOperator();
      ok := MergeUnder(op);
    }

    /** Pops an operator; if it is not an open parenthesis, pushes it back. */
    method DropOpen() returns (dropped: bool)
      requires Valid() && operators != []
      modifies this
      ensures Valid() && Repr <= old(Repr) && (dropped <==> Last(old(Abs).operators) == Open)
      ensures Abs == if dropped then State(Init(old(Abs).operators), old(Abs).operands) else old(Abs)
    {
      var op := PopOperator();
      P.LastSplit(Abs.operators, op.nodeType.op);
      dropped := op.nodeType.op == Open;
      if !dropped {
        PushOperatorNode(op);
      }
    }

    method MergeLeft() returns (ok: bool)
      requires Valid()
      modifies this, Repr
      ensures Valid() && Repr <= old(Repr)
      ensures ok <==> P.MergeLeft(old(Abs)).Some?
      ensures ok ==> Abs == P.MergeLeft(old(Abs)).value
    {
      while true
        invariant Valid() && Repr <= old(Repr) && P.MergeLeft(Abs) == P.MergeLeft(old(Abs))
        decreases |Abs.operators|
      {
        if operators == [] {
          return false;
        }
        var dropped := DropOpen();
        if dropped {
          return true;
        }
        var merged := MergeTop();
        if !merged {
          return false;
        }
      }
    }

    method MergeAll()
      requires Valid()
      modifies this, Repr
      ensures Valid() && Repr == old(Repr) && Abs == P.MergeAll(old(Abs))
    {
      var merged := MergeTop();
      while merged
        invariant Valid() && Repr == old(Repr) && P.MergeAll(Abs) == P.MergeAll(old(Abs))
        invariant !merged ==> Abs == P.MergeAll(old(Abs))
        decreases |Abs.operators|, merged
      {
        merged := MergeTop();
      }
    }

    method JoinOne(l: Leaf) returns (ok: bool)
      requires Valid()
      modifies this, Repr
      ensures Valid() && fresh(Repr - old(Repr))
      ensures ok <==> P.MergeTop(P.PushOp(P.PushTree(old(Abs), Leaf(l)), And)).Some?
      ensures ok ==> Abs == P.MergeTop(P.PushOp(P.PushTree(old(Abs), Leaf(l)), And)).value
    {
      PushOperand(l);
      PushOperator(And);
      ok := MergeTop();
    }

    method CreateMoreNodes(more: seq<Leaf>) returns (ok: bool)
      requires Valid()
      modifies this, Repr
      ensures Valid() && fresh(Repr - old(Repr))
      ensures ok <==> P.CreateMoreNodes(old(Abs), more).Some?
      ensures ok ==> Abs == P.CreateMoreNodes(old(Abs), more).value
    {
      for i := 0 to |more|
        invariant Valid() && fresh(Repr - old(Repr))
        invariant P.CreateMoreNodes(Abs, more[i..]) == P.CreateMoreNodes(old(Abs), more)
      {
        assert more[i..][1..] == more[i + 1..];
        var joined := JoinOne(more[i]);
        if !joined {
          return false;
        }
      }
      ok := true;
    }

    /** One token. */
    method Take(tok: Token) returns (ok: bool)
      requires Valid()
      modifies this, Repr
      ensures Valid() && fresh(Repr - old(Repr))
      ensures ok <==> P.Step(old(Abs), tok).Some?
      ensures ok ==> Abs == P.Step(old(Abs), tok).value
    {
      match tok {
        case Oper(op) =>
          if op != Open && operators != [] && Rank(Last(operators).nodeType.op) > Rank(op) {
            var merged := MergeTop();
            if !merged {
              return false;
            }
          }
          PushOperator(op);
          ok := true;
        case Close => ok := MergeLeft();
        case Operand(first, more) =>
          PushOperand(first);
          ok := CreateMoreNodes(more);
      }
    }
  }

  /** Parses a condition into freshly made nodes; null stands for a syntax error. */
  method ParseDepCond(toks: seq<Token>) returns (root: DptNode?)
    ensures root == null <==> P.Parse(toks).None?
    ensures root != null ==>
              && fresh(root.Repr) && root.Valid() && Clean(root.Snap())
              && Erase(root.Snap()) == P.Parse(toks).value
  {
    var p := new Parser();
    for i := 0 to |toks|
      invariant p.Valid() && fresh(p) && fresh(p.Repr)
      invariant P.Run(p.Abs, toks[i..]) == P.Run(EMPTY, toks)
    {
      assert toks[i..][1..] == toks[i + 1..];
      var ok := p.Take(toks[i]);
      if !ok {
        return null;
      }
    }
    p.MergeAll();
    if |p.operands| != 1 || p.operators != [] {
      return null;
    }
    root := p.operands[0];
    assert p.IsOperand(root, p.Abs.operands[0]);
  }
}
