/** Dependency-condition nodes as they live in the daemon: linked, and overwritten by each evaluation. */
module DepNode {
  import opened DepLeaf
  import opened DepTree
  import opened DepEval
  import opened Wrappers

  datatype NodeType = LeafType | OpType(op: Op)

  class DptNode {
    const nodeType: NodeType
    var value: Value
    var leaf: Leaf
    var left: DptNode?
    var right: DptNode?
    ghost var Repr: set<DptNode>

    /** A complete tree: every operator node has its operands. */
    ghost predicate Valid()
      reads this, Repr
      decreases Repr
    {
      && this in Repr
      && (nodeType.OpType? ==>
            && left != null && left in Repr && left.Repr <= Repr && this !in left.Repr && left.Valid()
            && (nodeType.op != Not ==>
                  && right != null && right in Repr && right.Repr <= Repr && this !in right.Repr && right.Valid()
                  && left.Repr !! right.Repr))
    }

    /** The tree below this node with the values its nodes hold. */
    ghost function Snap(): VTree
      requires Valid()
      reads this, Repr
      decreases Repr
    {
      match nodeType
      case LeafType => VLeaf(leaf, value)
      case OpType(op) =>
        if op == Not then VNeg(value, left.Snap()) else VBin(op, value, left.Snap(), right.Snap())
    }

    constructor Operator(op: Op)
      ensures nodeType == OpType(op) && value == False && left == null && right == null && Repr == {this}
    {
      nodeType, value, leaf := OpType(op), False, WindowLeaf(0);
      left, right, Repr := null, null, {this};
    }

    constructor Operand(l: Leaf)
      ensures Valid() && Repr == {this} && Snap() == VLeaf(l, False)
    {
      nodeType, value, leaf := LeafType, False, l;
      left, right, Repr := null, null, {this};
    }

    /** An operator node takes its operands, the later one on the left. */
    method LinkOne(l: DptNode)
      requires nodeType == OpType(Not) && l.Valid() && this !in l.Repr
      modifies this`left, this`Repr
      ensures Valid() && Repr == {this} + l.Repr && Snap() == VNeg(value, l.Snap())
    {
      left, Repr := l, {this} + l.Repr;
    }

    method LinkTwo(l: DptNode, r: DptNode)
      requires nodeType.OpType? && nodeType.op != Not
      requires l.Valid() && r.Valid() && this !in l.Repr && this !in r.Repr && l.Repr !! r.Repr
      modifies this`left, this`right, this`Repr
      ensures Valid() && Repr == {this} + l.Repr + r.Repr
      ensures Snap() == VBin(nodeType.op, value, l.Snap(), r.Snap())
      ensures Erase(Snap()) == Bin(nodeType.op, Erase(l.Snap()), Erase(r.Snap()))
      ensures Clean(l.Snap()) && Clean(r.Snap()) && value == False ==> Clean(Snap())
    {
      left, right, Repr := l, r, {this} + l.Repr + r.Repr;
    }

    /** Evaluates the condition at this node and records the value of every node it visits. */
    method EvalDepCond(rec: Option<Job>, env: Env) returns (v: Value)
      requires Valid() && TreeReady(Erase(Snap()), rec)
      modifies Repr
      ensures Valid() && Repr == old(Repr)
      ensures Snap() == Eval(old(Snap()), rec, env)
      ensures v == value == Snap().value
      decreases Repr, 2
    {
      match nodeType {
        case LeafType => v := EvalLeafNode(rec, env);
        case OpType(Or) => v := EvalOr(rec, env);
        case OpType(And) => v := EvalAnd(rec, env);
        case OpType(Not) => v := EvalNot(rec, env);
        case OpType(Open) => v := value;
      }
    }

    method EvalLeft(rec: Option<Job>, env: Env) returns (v: Value)
      requires Valid() && TreeReady(Erase(Snap()), rec) && nodeType.OpType? && nodeType.op != Not
      modifies left.Repr
      ensures Valid() && Repr == old(Repr)
      ensures Snap() == old(Snap()).(left := Eval(old(Snap()).left, rec, env)) && v == Snap().left.value
      decreases Repr, 0
    {
      ghost var r := right.Snap();
      v := left.EvalDepCond(rec, env);
      assert right.Valid() && right.Snap() == r;
    }

    method EvalRight(rec: Option<Job>, env: Env) returns (v: Value)
      requires Valid() && nodeType.OpType? && nodeType.op != Not && TreeReady(Erase(Snap().right), rec)
      modifies right.Repr
      ensures Valid() && Repr == old(Repr)
      ensures Snap() == old(Snap()).(right := Eval(old(Snap()).right, rec, env)) && v == Snap().right.value
      decreases Repr, 0
    {
      ghost var l := left.Snap();
      v := right.EvalDepCond(rec, env);
      assert left.Valid() && left.Snap() == l;
    }

    method SetValue(v: Value)
      requires Valid()
      modifies this`value
      ensures Valid() && Snap() == old(Snap()).(value := v) && value == v
    {
      value := v;
    }

    method EvalOr(rec: Option<Job>, env: Env) returns (v: Value)
      requires Valid() && TreeReady(Erase(Snap()), rec) && nodeType == OpType(Or)
      modifies Repr
      ensures Valid() && Repr == old(Repr)
      ensures Snap() == Eval(old(Snap()), rec, env)
      ensures v == value == Snap().value
      decreases Repr, 1
    {
      v := EvalLeft(rec, env);
      if v == Reject || v == True {
        SetValue(v);
      } else if v == False {
        v := EvalRight(rec, env);
        v := if v == Reject || v == True then v else False;
        SetValue(v);
      } else {
        v := EvalRight(rec, env);
        SetValue(v);
      }
    }

    method EvalAnd(rec: Option<Job>, env: Env) returns (v: Value)
      requires Valid() && TreeReady(Erase(Snap()), rec) && nodeType == OpType(And)
      modifies Repr
      ensures Valid() && Repr == old(Repr)
      ensures Snap() == Eval(old(Snap()), rec, env)
      ensures v == value == Snap().value
      decreases Repr, 1
    {
      v := EvalLeft(rec, env);
      if v == Invalid || v == Reject {
        SetValue(v);
      } else if v == False {
        v := EvalRight(rec, env);
        v := if v == Invalid || v == Reject then v else False;
        SetValue(v);
      } else {
        v := EvalRight(rec, env);
        SetValue(v);
      }
    }

    method EvalNot(rec: Option<Job>, env: Env) returns (v: Value)
      requires Valid() && TreeReady(Erase(Snap()), rec) && nodeType == OpType(Not)
      modifies Repr
      ensures Valid() && Repr == old(Repr)
      ensures Snap() == Eval(old(Snap()), rec, env)
      ensures v == value == Snap().value
      decreases Repr, 0
    {
      value := left.EvalDepCond(rec, env);
      if value == False || value == Invalid {
        value := True;
      } else if value == True {
        value := False;
      }
      v := value;
    }

    method EvalLeafNode(rec: Option<Job>, env: Env) returns (v: Value)
      requires Valid() && nodeType.LeafType?
      modifies this`value, this`leaf
      ensures Valid() && Snap() == Eval(old(Snap()), rec, env) && v == value
    {
      match leaf {
      case JobLeaf(kind, _, _, job, _, _) =>
        if job.None? || Candidates(leaf, rec, env).None? {
          value := Invalid;
          return value;
        }
        var js := Candidates(leaf, rec, env).value;
        var i := 0;
        while i < |js|
          invariant 0 <= i <= |js| && leaf == old(leaf)
          invariant Walk(leaf, js[i..], rec, value) == Walk(leaf, js, rec, old(value))
        {
          assert js[i..][1..] == js[i + 1..];
          if Admits(leaf, js[i]) {
            if Meets(leaf, js[i], rec) {
              value := True;
            } else {
              value := Failing(kind, js[i]);
              return value;
            }
          }
          i := i + 1;
        }
      case WindowLeaf(w) => value := if env.windows(w) then True else False;
      case CountLeaf(k, op, num, group) =>
        if group.None? {
          value := Invalid;
        } else if env.groups(group.value).gone {
          value := Invalid;
          leaf := leaf.(group := None);
        } else {
          var c := env.groups(group.value).counts;
          value := if OpExpr(op, CounterOf(k, c), CountLimit(num, c)) then True else False;
        }
      }
      v := value;
    }
  }
}
