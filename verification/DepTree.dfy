/** Dependency-condition trees, the tokens they are parsed from and the parser's stacks. */
module DepTree {
  import opened DepLeaf
  import opened Wrappers

  /** Entries of the operator stack. */
  datatype Op = And | Or | Not | Open

  type Conn = op: Op | op.And? || op.Or? witness And

  /** An operand node. An unmatched parenthesis can end up as a binary node, so `op` may be `Open`. */
  datatype Tree = Leaf(leaf: Leaf) | Neg(left: Tree) | Bin(op: Op, left: Tree, right: Tree)

  /** A token whose job names are already resolved: an operand stands for one job or for several. */
  datatype Token = Oper(op: Op) | Close | Operand(first: Leaf, more: seq<Leaf>)

  /** Operators and operands, each with its top last. */
  datatype State = State(operators: seq<Op>, operands: seq<Tree>)

  const EMPTY := State([], [])

  /** `preceTable`, with the entry it lacks for an open parenthesis taken to be the lowest. */
  function Rank(op: Op): int {
    match op
    case And => 2
    case Or => 1
    case Not => 3
    case Open => 0
  }

  function Last<T>(s: seq<T>): T
    requires s != []
  {
    s[|s| - 1]
  }

  function Init<T>(s: seq<T>): seq<T>
    requires s != []
  {
    s[..|s| - 1]
  }
}
