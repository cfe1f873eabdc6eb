/** Evaluation of dependency conditions: a caching, short-circuiting walk over the tree,
    and the pure four-valued meaning that it computes. */
module DepEval {
  import opened JobIndex
  import opened DepLeaf
  import opened DepTree
  import opened DepParser
  import opened DepReading
  import opened JobCounts
  import opened JobStatus
  import opened Wrappers

  datatype Value = Reject | Invalid | False | True

  function Ord(v: Value): int {
    match v
    case Reject => -2
    case Invalid => -1
    case False => 0
    case True => 1
  }

  function Min(a: Value, b: Value): Value { if Ord(a) <= Ord(b) then a else b }
  function Max(a: Value, b: Value): Value { if Ord(a) <= Ord(b) then b else a }
  function Flip(v: Value): Value { if v == True then False else True }

  datatype GroupInfo = GroupInfo(gone: bool, counts: Counters)

  /** What the daemon knows at the time of an evaluation; `table` finds jobs by id. */
  datatype Env = Env(jobs: Ref -> Job, table: JobId -> Option<Ref>, groups: Ref -> GroupInfo, windows: Ref -> bool)

  // ----- Leaves -----

  predicate OpExpr(op: RelOp, a: int, b: int) {
    match op
    case LT => a < b
    case LE => a <= b
    case GT => a > b
    case GE => a >= b
    case EQ => a == b
    case NE => a != b
    case ALWAYS => true
  }

  function CounterOf(k: CountKind, c: Counters): int {
    match k
    case NumPend => c[JGRP_COUNT_PEND]
    case NumRun => c[JGRP_COUNT_NRUN]
    case NumHold => c[JGRP_COUNT_NPSUSP]
    case NumExit => c[JGRP_COUNT_NEXIT]
    case NumDone => c[JGRP_COUNT_NDONE]
    case NumStart => c[JGRP_COUNT_NJOBS] - c[JGRP_COUNT_PEND] - c[JGRP_COUNT_NPSUSP]
    case NumEnded => c[JGRP_COUNT_NEXIT] + c[JGRP_COUNT_NDONE]
  }

  /** Whether job `j` meets the condition, as seen by the dependent job `dep`, which may be absent. */
  predicate EvalJobDep(kind: JobKind, op: RelOp, exitCode: int, j: Job, dep: Option<Job>) {
    var since := dep.None? || dep.value.endTime < j.endTime;
    match kind
    case Done => since && (DONE in j.status || (IsPend(j.status) && j.lastRunSucc))
    case PostDone => since && IsPostDone(j.status) && DONE in j.status
    case PostErr => since && IsPostErr(j.status) && DONE in j.status
    case Exit =>
      && since
      && OpExpr(op, j.exitStatus / 256, exitCode)
      && (IsFinish(j.status) || (IsPend(j.status) && !j.lastRunSucc))
      && DONE !in j.status
    case Ended => since && (IsFinish(j.status) || IsPend(j.status))
    case Started =>
      j.startTime != 0 && (dep.None? || dep.value.endTime < j.startTime) && PRE_EXEC !in j.status
  }

  /** The value of a job that does not meet the condition: it never will, or not yet. */
  function Failing(kind: JobKind, j: Job): Value {
    if VOID in j.status
       || (IsFinish(j.status)
           && !(!IsPostFinish(j.status) && DONE in j.status && (kind == PostDone || kind == PostErr)))
    then Invalid else False
  }

  function JobsAt(refs: seq<Ref>, env: Env): seq<Job> {
    seq(|refs|, i requires 0 <= i < |refs| => env.jobs(refs[i]))
  }

  /** The element with index `i`, or the last one looked at when there is none. */
  function FindElement(refs: seq<Ref>, i: int, env: Env): seq<Job> {
    if refs == [] then []
    else if env.jobs(refs[0]).id.idx == i || |refs| == 1 then [env.jobs(refs[0])]
    else FindElement(refs[1..], i, env)
  }

  /** The element index of the dependent job. Only an element-by-element condition asks for it,
      and `TreeReady` makes sure there is a dependent job then. */
  function RecIdx(rec: Option<Job>): int {
    if rec.Some? then rec.value.id.idx else 0
  }

  /** The jobs a leaf walks over before filtering; None if there is nothing to look in. */
  function Candidates(l: Leaf, rec: Option<Job>, env: Env): Option<seq<Job>>
    requires l.JobLeaf? && l.job.Some?
  {
    var j := env.jobs(l.job.value);
    if !j.isArray then Some([j])
    else if l.idx.Some? && l.idx.value.jobs != [] && !l.oneToOne then Some(JobsAt(l.idx.value.jobs, env))
    else if l.oneToOne then
      match env.table(JobId(j.id.base, RecIdx(rec)))
      case Some(r) => Some([env.jobs(r)])
      case None =>
        if l.idx.None? then None else Some(FindElement(l.idx.value.jobs, RecIdx(rec), env))
    else Some(JobsAt(j.chain, env))
  }

  predicate Admits(l: Leaf, j: Job)
    requires l.JobLeaf?
  {
    l.oneToOne || l.idx.None? || InIdxList(j.id.idx, l.idx.value.ranges)
  }

  function Filter(l: Leaf, js: seq<Job>): (r: seq<Job>)
    requires l.JobLeaf?
    ensures forall j :: j in r <==> j in js && Admits(l, j)
  {
    if js == [] then []
    else (if Admits(l, js[0]) then [js[0]] else []) + Filter(l, js[1..])
  }

  predicate Meets(l: Leaf, j: Job, rec: Option<Job>)
    requires l.JobLeaf?
  {
    EvalJobDep(l.kind, l.op, l.exitCode, j, rec)
  }

  /** The walk over the candidates; `cached` is the node's value so far. */
  function Walk(l: Leaf, js: seq<Job>, rec: Option<Job>, cached: Value): Value
    requires l.JobLeaf?
    decreases |js|
  {
    if js == [] then cached
    else if !Admits(l, js[0]) then Walk(l, js[1..], rec, cached)
    else if Meets(l, js[0], rec) then Walk(l, js[1..], rec, True)
    else Failing(l.kind, js[0])
  }

  function CountLimit(num: int, c: Counters): int {
    if num != INFINIT_INT then num else if c[JGRP_COUNT_NJOBS] <= 0 then INFINIT_INT else c[JGRP_COUNT_NJOBS]
  }

  /** The new value of a leaf node; a counter leaf also lets go of a group that is gone. */
  function EvalLeaf(l: Leaf, cached: Value, rec: Option<Job>, env: Env): (Value, Leaf)
  {
    match l
    case JobLeaf(_, _, _, job, _, _) =>
      if job.None? then (Invalid, l)
      else (match Candidates(l, rec, env)
            case None => (Invalid, l)
            case Some(js) => (Walk(l, js, rec, cached), l))
    case WindowLeaf(w) => (if env.windows(w) then True else False, l)
    case CountLeaf(k, op, num, group) =>
      if group.None? then (Invalid, l)
      else
        var g := env.groups(group.value);
        if g.gone then (Invalid, l.(group := None))
        else (if OpExpr(op, CounterOf(k, g.counts), CountLimit(num, g.counts)) then True else False, l)
  }

  /** The elements a job leaf is about. */
  function Selection(l: Leaf, rec: Option<Job>, env: Env): seq<Job>
    requires l.JobLeaf? && l.job.Some?
  {
    match Candidates(l, rec, env)
    case None => []
    case Some(js) => Filter(l, js)
  }

  /** A job leaf that has candidates selects at least one of them. */
  predicate LeafSelects(l: Leaf, rec: Option<Job>, env: Env)
  {
    l.JobLeaf? && l.job.Some? && Candidates(l, rec, env).Some? ==> Selection(l, rec, env) != []
  }

  /** The meaning of a leaf: all selected elements meet the condition, or the first one that does not decides. */
  ghost function LeafMeaning(l: Leaf, rec: Option<Job>, env: Env): Value
  {
    match l
    case JobLeaf(kind, _, _, job, _, _) =>
      if job.None? || Candidates(l, rec, env).None? then Invalid
      else
        var sel := Selection(l, rec, env);
        if AllMeet(l, sel, rec) then True
        else Failing(kind, sel[FirstFailing(l, sel, rec)])
    case WindowLeaf(w) => if env.windows(w) then True else False
    case CountLeaf(k, op, num, group) =>
      if group.None? || env.groups(group.value).gone then Invalid
      else
        var c := env.groups(group.value).counts;
        if OpExpr(op, CounterOf(k, c), CountLimit(num, c)) then True else False
  }

  predicate AllMeet(l: Leaf, sel: seq<Job>, rec: Option<Job>)
    requires l.JobLeaf?
  {
    forall j | j in sel :: Meets(l, j, rec)
  }

  function FirstFailing(l: Leaf, sel: seq<Job>, rec: Option<Job>): (i: nat)
    requires l.JobLeaf? && !AllMeet(l, sel, rec)
    ensures i < |sel| && !Meets(l, sel[i], rec)
    ensures forall k :: 0 <= k < i ==> Meets(l, sel[k], rec)
  {
    if !Meets(l, sel[0], rec) then 0 else 1 + FirstFailing(l, sel[1..], rec)
  }

  lemma FailingCons(l: Leaf, j: Job, rest: seq<Job>, rec: Option<Job>)
    requires l.JobLeaf?
    ensures AllMeet(l, [j] + rest, rec) <==> Meets(l, j, rec) && AllMeet(l, rest, rec)
    ensures var sel := [j] + rest;
            !AllMeet(l, sel, rec) ==>
              sel[FirstFailing(l, sel, rec)] ==
                if Meets(l, j, rec) then rest[FirstFailing(l, rest, rec)] else j
  {
    var sel := [j] + rest;
    assert sel[0] == j && sel[1..] == rest;
    assert forall x :: x in sel <==> x == j || x in rest;
  }

  /** The walk over a selection: True exactly if every selected element meets the condition, otherwise the class of the
      first that does not. If nothing is selected, the cached value stays. */
  lemma {:induction false} WalkDecides(l: Leaf, js: seq<Job>, rec: Option<Job>, cached: Value)
    requires l.JobLeaf?
    ensures var sel := Filter(l, js);
            Walk(l, js, rec, cached) ==
              if sel == [] then cached
              else if AllMeet(l, sel, rec) then True
              else Failing(l.kind, sel[FirstFailing(l, sel, rec)])
    decreases |js|
  {
    if js != [] {
      var rest := Filter(l, js[1..]);
      if !Admits(l, js[0]) {
        assert Filter(l, js) == rest;
        WalkDecides(l, js[1..], rec, cached);
      } else {
        FailingCons(l, js[0], rest, rec);
        if Meets(l, js[0], rec) {
          WalkDecides(l, js[1..], rec, True);
        }
      }
    }
  }

  /** The cached value plays no part exactly if something is selected. */
  lemma CacheMattersExactly(l: Leaf, js: seq<Job>, rec: Option<Job>)
    requires l.JobLeaf?
    ensures (forall c, c' :: Walk(l, js, rec, c) == Walk(l, js, rec, c')) <==> Filter(l, js) != []
  {
    forall c
      ensures Filter(l, js) == [] ==> Walk(l, js, rec, c) == c
      ensures Filter(l, js) != [] ==> Walk(l, js, rec, c) == Walk(l, js, rec, True)
    {
      WalkDecides(l, js, rec, c);
      WalkDecides(l, js, rec, True);
    }
    if Filter(l, js) == [] {
      assert Walk(l, js, rec, True) != Walk(l, js, rec, False);
    }
  }

  /** A leaf evaluates to its meaning, whatever was cached. */
  lemma LeafRefines(l: Leaf, cached: Value, rec: Option<Job>, env: Env)
    requires LeafSelects(l, rec, env)
    ensures EvalLeaf(l, cached, rec, env).0 == LeafMeaning(l, rec, env) != Reject
  {
    if l.JobLeaf? && l.job.Some? && Candidates(l, rec, env).Some? {
      WalkDecides(l, Candidates(l, rec, env).value, rec, cached);
    }
  }

  // ----- Trees -----

  /** A tree together with the value each node last had. */
  datatype VTree =
    | VLeaf(leaf: Leaf, value: Value)
    | VNeg(value: Value, left: VTree)
    | VBin(op: Op, value: Value, left: VTree, right: VTree)

  function Erase(t: VTree): Tree {
    match t
    case VLeaf(l, _) => Leaf(l)
    case VNeg(_, x) => Neg(Erase(x))
    case VBin(op, _, l, r) => Bin(op, Erase(l), Erase(r))
  }

  /** An element-by-element condition is only evaluated for a dependent job. */
  predicate TreeReady(t: Tree, rec: Option<Job>) {
    match t
    case Leaf(l) => l.JobLeaf? && l.oneToOne ==> rec.Some?
    case Neg(x) => TreeReady(x, rec)
    case Bin(_, l, r) => TreeReady(l, rec) && TreeReady(r, rec)
  }

  predicate TreeSelects(t: Tree, rec: Option<Job>, env: Env)
  {
    match t
    case Leaf(l) => LeafSelects(l, rec, env)
    case Neg(x) => TreeSelects(x, rec, env)
    case Bin(_, l, r) => TreeSelects(l, rec, env) && TreeSelects(r, rec, env)
  }

  /** One evaluation: the tree with its new node values; the result is the value of the root. */
  function Eval(t: VTree, rec: Option<Job>, env: Env): VTree
  {
    match t
    case VLeaf(l, v) =>
      var (v', l') := EvalLeaf(l, v, rec, env);
      VLeaf(l', v')
    case VNeg(_, x) =>
      var x' := Eval(x, rec, env);
      VNeg(if x'.value == Reject then Reject else if x'.value == True then False else True, x')
    case VBin(op, v, l, r) =>
      if op != Or && op != And then t
      else
        var l' := Eval(l, rec, env);
        if Decides(op, l'.value) then VBin(op, l'.value, l', r)
        else
          var r' := Eval(r, rec, env);
          VBin(op, Combined(op, l'.value, r'.value), l', r')
  }

  /** The left values that leave the right operand unvisited. */
  predicate Decides(op: Op, v: Value) {
    v == Reject || (if op == Or then v == True else v == Invalid)
  }

  /** The value of a connective whose left operand was False, or does not matter. */
  function Combined(op: Op, l: Value, r: Value): Value {
    if l == False && !Decides(op, r) then False else r
  }

  /** The meaning of a tree whose leaves have the values `val`: `&&` is minimum, `||` is maximum
      and `!` sends Invalid to True. */
  function Denote(t: Tree, val: Leaf -> Value): Value {
    match t
    case Leaf(l) => val(l)
    case Neg(x) => Flip(Denote(x, val))
    case Bin(op, l, r) =>
      match op
      case And => Min(Denote(l, val), Denote(r, val))
      case Or => Max(Denote(l, val), Denote(r, val))
      case _ => False
  }

  ghost function Meaning(t: Tree, rec: Option<Job>, env: Env): Value {
    Denote(t, l => LeafMeaning(l, rec, env))
  }

  /** No node holds Reject, and parenthesis nodes still hold the value they were made with. */
  predicate Clean(t: VTree) {
    t.value != Reject &&
    match t
    case VLeaf(_, _) => true
    case VNeg(_, x) => Clean(x)
    case VBin(op, v, l, r) => Clean(l) && Clean(r) && ((op == Open || op == Not) ==> v == False)
  }

  /** Short-circuiting, caching evaluation computes the meaning, and Reject never arises. */
  lemma {:induction false} EvalRefinesMeaning(t: VTree, rec: Option<Job>, env: Env)
    requires TreeSelects(Erase(t), rec, env) && Clean(t)
    ensures Eval(t, rec, env).value == Meaning(Erase(t), rec, env) != Reject
    ensures Clean(Eval(t, rec, env))
  {
    match t
    case VLeaf(l, v) => LeafRefines(l, v, rec, env);
    case VNeg(_, x) => EvalRefinesMeaning(x, rec, env);
    case VBin(_, _, l, r) =>
      EvalRefinesMeaning(l, rec, env);
      EvalRefinesMeaning(r, rec, env);
  }

  /** Even with leaves that select nothing, Reject never arises out of a clean tree. */
  lemma {:induction false} NeverRejects(t: VTree, rec: Option<Job>, env: Env)
    requires Clean(t)
    ensures Clean(Eval(t, rec, env))
  {
    match t
    case VLeaf(l, v) =>
      if l.JobLeaf? && l.job.Some? && Candidates(l, rec, env).Some? {
        WalkNotReject(l, Candidates(l, rec, env).value, rec, v);
      }
    case VNeg(_, x) => NeverRejects(x, rec, env);
    case VBin(_, _, l, r) =>
      NeverRejects(l, rec, env);
      NeverRejects(r, rec, env);
  }

  lemma {:induction false} WalkNotReject(l: Leaf, js: seq<Job>, rec: Option<Job>, cached: Value)
    requires l.JobLeaf? && cached != Reject
    ensures Walk(l, js, rec, cached) != Reject
    decreases |js|
  {
    if js != [] {
      WalkNotReject(l, js[1..], rec, cached);
      WalkNotReject(l, js[1..], rec, True);
    }
  }

  /** Mirroring the operands never changes the meaning. */
  lemma {:induction false} DenoteMirror(t: Tree, val: Leaf -> Value)
    ensures Denote(Mirror(t), val) == Denote(t, val)
  {
    match t
    case Leaf(_) =>
    case Neg(x) => DenoteMirror(x, val);
    case Bin(_, l, r) =>
      DenoteMirror(l, val);
      DenoteMirror(r, val);
  }

  // ----- Any number of evaluations -----

  /** `u` is `t` with some groups let go of that are gone in `env`. */
  predicate Faded(t: Tree, u: Tree, env: Env) {
    match t
    case Leaf(l) =>
      t == u || (u.Leaf? && l.CountLeaf? && l.group.Some? && env.groups(l.group.value).gone
                 && u.leaf == l.(group := None))
    case Neg(x) => u.Neg? && Faded(x, u.left, env)
    case Bin(op, l, r) => u.Bin? && u.op == op && Faded(l, u.left, env) && Faded(r, u.right, env)
  }

  /** Groups that are gone stay gone. */
  ghost predicate Later(env: Env, env': Env) {
    forall g :: env.groups(g).gone ==> env'.groups(g).gone
  }

  lemma {:induction false} FadedSame(t: Tree, u: Tree, env: Env, rec: Option<Job>, env': Env)
    requires Faded(t, u, env) && Later(env, env')
    ensures Faded(t, u, env')
    ensures Meaning(u, rec, env') == Meaning(t, rec, env')
    ensures TreeSelects(u, rec, env') <==> TreeSelects(t, rec, env')
  {
    match t
    case Leaf(_) =>
    case Neg(x) => FadedSame(x, u.left, env, rec, env');
    case Bin(_, l, r) =>
      FadedSame(l, u.left, env, rec, env');
      FadedSame(r, u.right, env, rec, env');
  }

  lemma {:induction false} FadedRefl(t: Tree, env: Env)
    ensures Faded(t, t, env)
  {
    match t
    case Leaf(_) =>
    case Neg(x) => FadedRefl(x, env);
    case Bin(_, l, r) =>
      FadedRefl(l, env);
      FadedRefl(r, env);
  }

  lemma {:induction false} EvalFades(t0: Tree, t: VTree, rec: Option<Job>, env: Env)
    requires Faded(t0, Erase(t), env)
    ensures Faded(t0, Erase(Eval(t, rec, env)), env)
  {
    match t0
    case Leaf(_) =>
    case Neg(x) => EvalFades(x, t.left, rec, env);
    case Bin(_, l, r) =>
      EvalFades(l, t.left, rec, env);
      EvalFades(r, t.right, rec, env);
  }

  datatype Occasion = Occasion(rec: Option<Job>, env: Env)

  /** A history of evaluations in which groups that are gone stay gone. */
  ghost predicate History(h: seq<Occasion>) {
    forall i, j :: 0 <= i < j < |h| ==> Later(h[i].env, h[j].env)
  }

  /** The tree after a history, most recent last. */
  ghost function After(t: VTree, h: seq<Occasion>): (r: VTree)
    requires Clean(t) && History(h)
    ensures Clean(r)
    ensures h == [] ==> r == t
    ensures h != [] ==> Faded(Erase(t), Erase(r), Last(h).env)
    decreases |h|
  {
    if h == [] then t
    else
      var u, o := After(t, Init(h)), Last(h);
      HistoryStep(t, u, h);
      NeverRejects(u, o.rec, o.env);
      EvalFades(Erase(t), u, o.rec, o.env);
      Eval(u, o.rec, o.env)
  }

  lemma HistoryStep(t: VTree, u: VTree, h: seq<Occasion>)
    requires h != [] && History(h)
    requires |h| == 1 ==> u == t
    requires |h| > 1 ==> Faded(Erase(t), Erase(u), h[|h| - 2].env)
    ensures var o := Last(h);
            && (TreeSelects(Erase(u), o.rec, o.env) <==> TreeSelects(Erase(t), o.rec, o.env))
            && Faded(Erase(t), Erase(u), o.env)
            && Meaning(Erase(u), o.rec, o.env) == Meaning(Erase(t), o.rec, o.env)
  {
    var o := Last(h);
    if |h| == 1 {
      FadedRefl(Erase(t), o.env);
    } else {
      FadedSame(Erase(t), Erase(u), h[|h| - 2].env, o.rec, o.env);
    }
  }

  /** However often and in whatever circumstances a condition was evaluated before, leaves that selected nothing
      included, the result is the meaning of the original condition at the time of the last evaluation. */
  lemma HistoryDoesNotMatter(t: VTree, h: seq<Occasion>)
    requires Clean(t) && h != [] && History(h) && TreeSelects(Erase(t), Last(h).rec, Last(h).env)
    ensures After(t, h).value == Meaning(Erase(t), Last(h).rec, Last(h).env)
  {
    var u, o := After(t, Init(h)), Last(h);
    assert Init(h) != [] ==> Last(Init(h)) == h[|h| - 2];
    HistoryStep(t, u, h);
    EvalRefinesMeaning(u, o.rec, o.env);
  }

  // ----- Values of conditions -----

  /** The least value in a list of leaves. */
  function MinOf(ls: seq<Leaf>, val: Leaf -> Value): Value
    requires ls != []
  {
    if |ls| == 1 then val(ls[0]) else Min(MinOf(Init(ls), val), val(Last(ls)))
  }

  /** The usual value of a well-formed condition, read from left to right. */
  function FactorValue(f: Factor, val: Leaf -> Value): Value
    decreases FactorSize(f), 0
  {
    match f
    case Atom(first, more) => MinOf([first] + more, val)
    case Bang(g) => Flip(FactorValue(g, val))
    case Group(e) => ExprValue(e, val)
  }

  function FirstValue(e: Expr, val: Leaf -> Value): Value
    decreases Size(e), 0
  {
    match e
    case Single(f) => FactorValue(f, val)
    case Join(f, op, r) => if op == And then Min(FactorValue(f, val), FirstValue(r, val)) else FactorValue(f, val)
  }

  function ExprValue(e: Expr, val: Leaf -> Value): Value
    decreases Size(e), 1
  {
    match AfterTerm(e)
    case None => FirstValue(e, val)
    case Some(r) => Max(FirstValue(e, val), ExprValue(r, val))
  }

  /** An operand of several jobs has the value of their conjunction. */
  lemma {:induction false} ChainValue(first: Leaf, more: seq<Leaf>, val: Leaf -> Value)
    ensures Denote(Chain(Leaf(first), more), val) == MinOf([first] + more, val)
    decreases |more|
  {
    if more != [] {
      var all := [first] + more;
      assert Init(all) == [first] + Init(more) && Last(all) == Last(more);
      ChainValue(first, Init(more), val);
      ChainSnoc(Leaf(first), Init(more), Last(more));
      assert more == Init(more) + [Last(more)];
    }
  }

  lemma {:induction false} ChainSnoc(t: Tree, more: seq<Leaf>, x: Leaf)
    ensures Chain(t, more + [x]) == Bin(And, Leaf(x), Chain(t, more))
    decreases |more|
  {
    if more == [] {
      assert (more + [x])[1..] == [];
    } else {
      assert (more + [x])[1..] == more[1..] + [x];
      ChainSnoc(Bin(And, Leaf(more[0]), t), more[1..], x);
    }
  }

  lemma {:induction false} StdFactorValue(f: Factor, val: Leaf -> Value)
    ensures Denote(StdFactor(f), val) == FactorValue(f, val)
    decreases FactorSize(f), 0
  {
    match f
    case Atom(first, more) => ChainValue(first, more, val);
    case Bang(g) => StdFactorValue(g, val);
    case Group(e) => StdValue(e, val);
  }

  lemma {:induction false} FirstTermValue(e: Expr, val: Leaf -> Value)
    ensures Denote(FirstTerm(e), val) == FirstValue(e, val)
    decreases Size(e), 0
  {
    StdFactorValue(e.f, val);
    if e.Join? {
      FirstTermValue(e.rest, val);
    }
  }

  lemma {:induction false} StdValue(e: Expr, val: Leaf -> Value)
    ensures Denote(Std(e), val) == ExprValue(e, val)
    decreases Size(e), 1
  {
    FirstTermValue(e, val);
    match AfterTerm(e)
    case None =>
    case Some(r) => StdValue(r, val);
  }

  /** A plain condition evaluates as the usual precedence has it, for all values of its leaves. */
  lemma PlainMeansWhatItSays(e: Expr, val: Leaf -> Value)
    requires Plain(e)
    ensures Parse(Tokens(e)).Some? && Denote(Parse(Tokens(e)).value, val) == ExprValue(e, val)
  {
    ParseReads(e);
    StandardExactlyWhenPlain(e);
    StdValue(e, val);
  }

  /** Not being plain can matter: `x && y && z || w` is False where the usual reading makes it True. */
  lemma MisreadChangesValue(x: Leaf, y: Leaf, z: Leaf, w: Leaf, val: Leaf -> Value)
    requires val(x) == False && val(w) == True
    ensures var e := Join(Atom(x, []), And, Join(Atom(y, []), And, Join(Atom(z, []), Or, Single(Atom(w, [])))));
            && !Plain(e) && Parse(Tokens(e)).Some?
            && Denote(Parse(Tokens(e)).value, val) == False
            && ExprValue(e, val) == True
  {
    var e := Join(Atom(x, []), And, Join(Atom(y, []), And, Join(Atom(z, []), Or, Single(Atom(w, [])))));
    LongConjunctionMisread(x, y, z, w);
    ParseReads(e);
    StandardExactlyWhenPlain(e);
    StdValue(e, val);
    var t := Bin(Or, Leaf(w), Bin(And, Leaf(z), Leaf(y)));
    assert Denote(t, val) == True;
    assert Denote(Std(e), val) == Max(True, Denote(Bin(And, Bin(And, Leaf(z), Leaf(y)), Leaf(x)), val));
  }

  /** And sometimes it does not: `! ! ! x || y` is not plain, yet has its usual value whenever no leaf is
      rejected. Agreement of trees is stronger than agreement of values. */
  lemma TripleNotHarmless(x: Leaf, y: Leaf, val: Leaf -> Value)
    requires val(x) != Reject && val(y) != Reject
    ensures var e := Join(Bang(Bang(Bang(Atom(x, [])))), Or, Single(Atom(y, [])));
            && !Plain(e) && Parse(Tokens(e)).Some?
            && Denote(Parse(Tokens(e)).value, val) == ExprValue(e, val)
  {
    var f1 := Bang(Atom(x, []));
    var e1 := Join(f1, Or, Single(Atom(y, [])));
    var e2 := Join(Bang(f1), Or, Single(Atom(y, [])));
    var e := Join(Bang(Bang(f1)), Or, Single(Atom(y, [])));
    ParseReads(e);
    AtomReads(x);
    AtomReads(y);
    assert Read(e1) == Bin(Or, Leaf(y), Neg(Leaf(x)));
    assert Read(e2) == Neg(Read(e1));
    assert Read(e) == Neg(Read(e2));
    StdValue(e, val);
    assert AfterTerm(e) == Some(Single(Atom(y, [])));
    assert FirstTerm(e) == StdFactor(Bang(Bang(f1)));
    assert Std(Single(Atom(y, []))) == FirstTerm(Single(Atom(y, []))) == Leaf(y);
    assert StdFactor(Bang(Bang(f1))) == Neg(StdFactor(Bang(f1)));
    assert StdFactor(Bang(f1)) == Neg(StdFactor(f1));
    var n1 := Neg(Leaf(x));
    assert Std(e) == Bin(Or, Leaf(y), Neg(Neg(n1)));
    assert Denote(Neg(Neg(n1)), val) == Flip(Denote(Neg(n1), val));
    assert Denote(Read(e), val) == Flip(Denote(Read(e2), val));
    assert Denote(Read(e2), val) == Flip(Denote(Read(e1), val));
  }

  /** End to end: evaluating the parsed tree of a plain condition gives the condition's usual value. */
  lemma ConditionEvaluates(e: Expr, t: VTree, rec: Option<Job>, env: Env)
    requires Plain(e) && Parse(Tokens(e)) == Some(Erase(t)) && Clean(t) && TreeSelects(Erase(t), rec, env)
    ensures Eval(t, rec, env).value == ExprValue(e, l => LeafMeaning(l, rec, env))
  {
    EvalRefinesMeaning(t, rec, env);
    PlainMeansWhatItSays(e, l => LeafMeaning(l, rec, env));
  }
}
