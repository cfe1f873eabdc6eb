/** What each kind of leaf says about the jobs it names, in terms of their status, their times and their number. */
module DepStatus {
  import opened JobIndex
  import opened DepLeaf
  import opened DepEval
  import opened JobCounts
  import opened JobStatus
  import opened Wrappers

  /** How `a` compares with `b`, by which of the two is greater. */
  predicate Related(op: RelOp, a: int, b: int) {
    || op == ALWAYS
    || (a < b && op in {LT, LE, NE})
    || (a == b && op in {LE, EQ, GE})
    || (a > b && op in {GE, GT, NE})
  }

  lemma RelatedExactly(op: RelOp, a: int, b: int)
    ensures Related(op, a, b) <==> OpExpr(op, a, b)
  {}

  // ----- One job -----

  function OneJob(kind: JobKind, op: RelOp, code: int, r: Ref): Leaf {
    JobLeaf(kind, op, code, Some(r), None, false)
  }

  /** Evaluating a leaf about the one job `r`. */
  function Verdict(kind: JobKind, op: RelOp, code: int, r: Ref, rec: Option<Job>, env: Env): Value {
    Eval(VLeaf(OneJob(kind, op, code, r), False), rec, env).value
  }

  /** After the last end of the dependent job, if there is one. */
  predicate Since(t: int, rec: Option<Job>) {
    rec.Some? ==> rec.value.endTime < t
  }

  lemma VerdictOf(kind: JobKind, op: RelOp, code: int, r: Ref, rec: Option<Job>, env: Env)
    requires !env.jobs(r).isArray
    ensures var j := env.jobs(r);
            Verdict(kind, op, code, r, rec, env) ==
              if EvalJobDep(kind, op, code, j, rec) then True else Failing(kind, j)
  {
    var l, j := OneJob(kind, op, code, r), env.jobs(r);
    assert Candidates(l, rec, env) == Some([j]) && Admits(l, j) && [j][1..] == [];
    assert Meets(l, j, rec) <==> EvalJobDep(kind, op, code, j, rec);
    assert Walk(l, [j], rec, False) == if Meets(l, j, rec) then Walk(l, [], rec, True) else Failing(kind, j);
  }

  /** When a leaf about a job that is no array is True, kind by kind. */
  lemma TrueExactly(op: RelOp, code: int, r: Ref, rec: Option<Job>, env: Env)
    requires !env.jobs(r).isArray
    ensures var j := env.jobs(r);
            var s, ended := j.status, Since(j.endTime, rec);
            && (Verdict(Done, op, code, r, rec, env) == True <==>
                ended && (DONE in s || ((PEND in s || PSUSP in s) && j.lastRunSucc)))
            && (Verdict(Exit, op, code, r, rec, env) == True <==>
                ended && DONE !in s && Related(op, j.exitStatus / 256, code)
                && (EXIT in s || ((PEND in s || PSUSP in s) && !j.lastRunSucc)))
            && (Verdict(Ended, op, code, r, rec, env) == True <==>
                ended && (DONE in s || EXIT in s || PEND in s || PSUSP in s))
            && (Verdict(Started, op, code, r, rec, env) == True <==>
                j.startTime != 0 && Since(j.startTime, rec) && PRE_EXEC !in s)
            && (Verdict(PostDone, op, code, r, rec, env) == True <==> ended && DONE in s && PDONE in s)
            && (Verdict(PostErr, op, code, r, rec, env) == True <==> ended && DONE in s && PERR in s)
  {
    forall kind
      ensures Verdict(kind, op, code, r, rec, env) == True <==> EvalJobDep(kind, op, code, env.jobs(r), rec)
    {
      VerdictOf(kind, op, code, r, rec, env);
    }
    RelatedExactly(op, env.jobs(r).exitStatus / 256, code);
  }

  /** Otherwise it is Invalid exactly if the job is void, or has ended and there is no post-processing to wait for; and
      False if not. */
  lemma InvalidExactly(kind: JobKind, op: RelOp, code: int, r: Ref, rec: Option<Job>, env: Env)
    requires !env.jobs(r).isArray && Verdict(kind, op, code, r, rec, env) != True
    ensures var s, v := env.jobs(r).status, Verdict(kind, op, code, r, rec, env);
            && (v == Invalid <==>
                VOID in s || (EXIT in s && DONE !in s)
                || (DONE in s && (kind !in {PostDone, PostErr} || PDONE in s || PERR in s)))
            && (v == Invalid || v == False)
  {
    VerdictOf(kind, op, code, r, rec, env);
  }

  // ----- Arrays -----

  /** The elements among `rs` whose index is listed, if any list is given. */
  function Listed(l: Leaf, rs: seq<Ref>, env: Env): seq<Ref>
    requires l.JobLeaf?
  {
    if rs == [] then []
    else
      var i := env.jobs(rs[0]).id.idx;
      var rest := Listed(l, rs[1..], env);
      if l.idx.None? || l.idx.value.ranges == [] || i in EnumerateAll(l.idx.value.ranges) then [rs[0]] + rest else rest
  }

  /** The value of the leaf about one job alone. */
  function Alone(l: Leaf, r: Ref, rec: Option<Job>, env: Env): Value
    requires l.JobLeaf?
  {
    Verdict(l.kind, l.op, l.exitCode, r, rec, env)
  }

  /** Position `k` is the first whose job alone is not True. */
  predicate FailsFirst(l: Leaf, rs: seq<Ref>, k: nat, rec: Option<Job>, env: Env)
    requires l.JobLeaf?
  {
    k < |rs| && Alone(l, rs[k], rec, env) != True && forall m :: 0 <= m < k ==> Alone(l, rs[m], rec, env) == True
  }

  /** The value of the first job that is not True by itself, or True. */
  function FirstNotTrue(l: Leaf, rs: seq<Ref>, rec: Option<Job>, env: Env): (v: Value)
    requires l.JobLeaf?
    ensures v == True <==> forall k :: 0 <= k < |rs| ==> Alone(l, rs[k], rec, env) == True
    ensures forall k: nat :: FailsFirst(l, rs, k, rec, env) ==> v == Alone(l, rs[k], rec, env)
  {
    if rs == [] then True
    else if Alone(l, rs[0], rec, env) != True then Alone(l, rs[0], rec, env)
    else
      assert forall k: nat :: k > 0 && FailsFirst(l, rs, k, rec, env) ==> FailsFirst(l, rs[1..], k - 1, rec, env);
      FirstNotTrue(l, rs[1..], rec, env)
  }

  predicate NoArrays(rs: seq<Ref>, env: Env) {
    forall k :: 0 <= k < |rs| ==> !env.jobs(rs[k]).isArray
  }

  lemma JobsAtStep(rs: seq<Ref>, env: Env)
    requires rs != []
    ensures JobsAt(rs, env) == [env.jobs(rs[0])] + JobsAt(rs[1..], env)
  {}

  lemma AdmitsExactly(l: Leaf, j: Job)
    requires l.JobLeaf? && !l.oneToOne
    ensures Admits(l, j) <==> l.idx.None? || l.idx.value.ranges == [] || j.id.idx in EnumerateAll(l.idx.value.ranges)
  {
    if l.idx.Some? && l.idx.value.ranges != [] {
      InIdxListExactly(j.id.idx, l.idx.value.ranges);
    }
  }

  lemma {:induction false} WalkIsFirst(l: Leaf, rs: seq<Ref>, rec: Option<Job>, env: Env, cached: Value)
    requires l.JobLeaf? && !l.oneToOne && NoArrays(rs, env)
    ensures Walk(l, JobsAt(rs, env), rec, cached) ==
            if Listed(l, rs, env) == [] then cached else FirstNotTrue(l, Listed(l, rs, env), rec, env)
    decreases |rs|
  {
    if rs != [] {
      var j, rest := env.jobs(rs[0]), Listed(l, rs[1..], env);
      JobsAtStep(rs, env);
      AdmitsExactly(l, j);
      VerdictOf(l.kind, l.op, l.exitCode, rs[0], rec, env);
      WalkIsFirst(l, rs[1..], rec, env, cached);
      WalkIsFirst(l, rs[1..], rec, env, True);
      assert ([rs[0]] + rest)[1..] == rest;
    }
  }

  /** A leaf about an array: of the elements named with the leaf, or else of all elements, those whose index is listed
      count. The leaf is True exactly if each of them is for itself; else the first that is not decides. Without any the
      leaf keeps its value. */
  lemma ArrayExactly(l: Leaf, v: Value, rec: Option<Job>, env: Env)
    requires l.JobLeaf? && l.job.Some? && env.jobs(l.job.value).isArray && !l.oneToOne
    requires NoArrays(env.jobs(l.job.value).chain, env) && (l.idx.Some? ==> NoArrays(l.idx.value.jobs, env))
    ensures var named := if l.idx.None? then [] else l.idx.value.jobs;
            var rs := Listed(l, if named != [] then named else env.jobs(l.job.value).chain, env);
            Eval(VLeaf(l, v), rec, env).value == if rs == [] then v else FirstNotTrue(l, rs, rec, env)
  {
    var named := if l.idx.None? then [] else l.idx.value.jobs;
    WalkIsFirst(l, if named != [] then named else env.jobs(l.job.value).chain, rec, env, v);
  }

  lemma OneCandidate(l: Leaf, v: Value, rec: Job, env: Env, r: Ref)
    requires l.JobLeaf? && l.job.Some? && l.oneToOne && !env.jobs(r).isArray
    requires Candidates(l, Some(rec), env) == Some([env.jobs(r)])
    ensures Eval(VLeaf(l, v), Some(rec), env).value == Alone(l, r, Some(rec), env)
  {
    var j := env.jobs(r);
    VerdictOf(l.kind, l.op, l.exitCode, r, Some(rec), env);
    assert Admits(l, j) && [j][1..] == [];
    assert Walk(l, [j], Some(rec), v) ==
           if Meets(l, j, Some(rec)) then Walk(l, [], Some(rec), True) else Failing(l.kind, j);
  }

  /** An element-by-element leaf is about the element that has the same index as the dependent job. */
  lemma ElementwiseExactly(l: Leaf, v: Value, rec: Job, env: Env, r: Ref)
    requires l.JobLeaf? && l.job.Some? && env.jobs(l.job.value).isArray && l.oneToOne
    requires env.table(JobId(env.jobs(l.job.value).id.base, rec.id.idx)) == Some(r) && !env.jobs(r).isArray
    ensures Eval(VLeaf(l, v), Some(rec), env).value == Alone(l, r, Some(rec), env)
  {
    OneCandidate(l, v, rec, env, r);
  }

  /** Position `k` is the first with index `i`, or the last of all if none before it has that index. */
  predicate StandsIn(rs: seq<Ref>, k: nat, i: int, env: Env) {
    && k < |rs| && (env.jobs(rs[k]).id.idx == i || k == |rs| - 1)
    && forall m :: 0 <= m < k ==> env.jobs(rs[m]).id.idx != i
  }

  lemma {:induction false} FoundElement(rs: seq<Ref>, k: nat, i: int, env: Env)
    requires StandsIn(rs, k, i, env)
    ensures FindElement(rs, i, env) == [env.jobs(rs[k])]
    decreases k
  {
    if k > 0 {
      FoundElement(rs[1..], k - 1, i, env);
    }
  }

  /** If that element is gone from the table: Invalid without an index list; and without elements named with the leaf it
      keeps its value. */
  lemma ElementGone(l: Leaf, v: Value, rec: Job, env: Env)
    requires l.JobLeaf? && l.job.Some? && env.jobs(l.job.value).isArray && l.oneToOne
    requires env.table(JobId(env.jobs(l.job.value).id.base, rec.id.idx)) == None
    ensures l.idx.None? ==> Eval(VLeaf(l, v), Some(rec), env).value == Invalid
    ensures l.idx.Some? && l.idx.value.jobs == [] ==> Eval(VLeaf(l, v), Some(rec), env).value == v
  {}

  lemma StandInOnly(l: Leaf, rec: Job, env: Env, rs: seq<Ref>, k: nat)
    requires l.JobLeaf? && l.job.Some? && env.jobs(l.job.value).isArray && l.oneToOne && l.idx.Some?
    requires env.table(JobId(env.jobs(l.job.value).id.base, rec.id.idx)) == None
    requires rs == l.idx.value.jobs && StandsIn(rs, k, rec.id.idx, env)
    ensures Candidates(l, Some(rec), env) == Some([env.jobs(rs[k])])
  {
    FoundElement(rs, k, rec.id.idx, env);
  }

  /** Else it is looked for among the elements named, and the last of them stands in if it is not there. */
  lemma ElementStandsIn(l: Leaf, v: Value, rec: Job, env: Env, rs: seq<Ref>, k: nat)
    requires l.JobLeaf? && l.job.Some? && env.jobs(l.job.value).isArray && l.oneToOne && l.idx.Some?
    requires env.table(JobId(env.jobs(l.job.value).id.base, rec.id.idx)) == None
    requires rs == l.idx.value.jobs && NoArrays(rs, env) && StandsIn(rs, k, rec.id.idx, env)
    ensures Eval(VLeaf(l, v), Some(rec), env).value == Alone(l, rs[k], Some(rec), env)
  {
    StandInOnly(l, rec, env, rs, k);
    OneCandidate(l, v, rec, env, rs[k]);
  }

  // ----- Counters -----

  /** The jobs that a counter leaf asks the number of. */
  ghost function Asked(k: CountKind, st: Statuses): set<JobId> {
    match k
    case NumPend => Among(st, {{PEND}, {RUN, WAIT}})
    case NumHold => Among(st, {{PSUSP}})
    case NumRun => Among(st, {{RUN}})
    case NumExit => Among(st, {{EXIT}, {EXIT, WAIT}})
    case NumDone => Among(st, {{DONE}, {DONE, WAIT}})
    case NumStart => st.Keys - Among(st, {{PEND}, {RUN, WAIT}, {PSUSP}})
    case NumEnded => Among(st, {{EXIT}, {EXIT, WAIT}, {DONE}, {DONE, WAIT}})
  }

  /** If a group's counters are right, a leaf about the group is True exactly if the number of its jobs asked for
      compares as it says with the number given, or with the number of all its jobs. */
  lemma CountExactly(k: CountKind, op: RelOp, num: int, g: Ref, v: Value, rec: Option<Job>, env: Env, st: Statuses)
    requires !env.groups(g).gone && Counted(env.groups(g).counts, st)
    ensures var limit := if num != INFINIT_INT then num else if st == map[] then INFINIT_INT else |st|;
            Eval(VLeaf(CountLeaf(k, op, num, Some(g)), v), rec, env).value ==
              if Related(op, |Asked(k, st)|, limit) then True else False
  {
    var c := env.groups(g).counts;
    CounterIs(k, c, st);
    LimitIs(num, c, st);
    CompareCounter(k, op, num, g, v, rec, env, |Asked(k, st)|, CountLimit(num, c));
  }

  lemma LimitIs(num: int, c: Counters, st: Statuses)
    requires Counted(c, st)
    ensures CountLimit(num, c) == if num != INFINIT_INT then num else if st == map[] then INFINIT_INT else |st|
  {
    assert |st| == 0 <==> st == map[];
  }

  lemma CompareCounter(k: CountKind, op: RelOp, num: int, g: Ref, v: Value, rec: Option<Job>, env: Env, n: int,
                       limit: int)
    requires !env.groups(g).gone
    requires CounterOf(k, env.groups(g).counts) == n && CountLimit(num, env.groups(g).counts) == limit
    ensures Eval(VLeaf(CountLeaf(k, op, num, Some(g)), v), rec, env).value ==
            if Related(op, n, limit) then True else False
  {
    RelatedExactly(op, n, limit);
  }

  lemma CounterIs(k: CountKind, c: Counters, st: Statuses)
    requires Counted(c, st)
    ensures CounterOf(k, c) == |Asked(k, st)|
  {
    match k
    case NumStart => StartedAre(c, st);
    case NumEnded => EndedAre(c, st);
    case _ => KindsAre(c, st);
  }

  lemma KindsAre(c: Counters, st: Statuses)
    requires Counted(c, st)
    ensures c[0] == |st| && c[1] == |Asked(NumPend, st)| && c[2] == |Asked(NumHold, st)|
    ensures c[3] == |Asked(NumRun, st)| && c[6] == |Asked(NumExit, st)| && c[7] == |Asked(NumDone, st)|
  {
    assert c[1] == |Among(st, KINDS[1])| && c[2] == |Among(st, KINDS[2])| && c[3] == |Among(st, KINDS[3])|;
    assert c[6] == |Among(st, KINDS[6])| && c[7] == |Among(st, KINDS[7])|;
  }

  lemma StartedAre(c: Counters, st: Statuses)
    requires Counted(c, st)
    ensures c[0] - c[1] - c[2] == |Asked(NumStart, st)|
  {
    var waiting := Among(st, {{PEND}, {RUN, WAIT}, {PSUSP}});
    WaitingAre(c, st);
    Remaining(st.Keys, waiting);
    KindsAre(c, st);
    assert Asked(NumStart, st) == st.Keys - waiting && |st| == |st.Keys|;
  }

  lemma WaitingAre(c: Counters, st: Statuses)
    requires Counted(c, st)
    ensures c[1] + c[2] == |Among(st, {{PEND}, {RUN, WAIT}, {PSUSP}})|
  {
    KindsAre(c, st);
    KindsApart();
    Apart(st, {{PEND}, {RUN, WAIT}}, {{PSUSP}});
    assert {{PEND}, {RUN, WAIT}} + {{PSUSP}} == {{PEND}, {RUN, WAIT}, {PSUSP}};
  }

  lemma Remaining(all: set<JobId>, some: set<JobId>)
    requires some <= all
    ensures |all - some| == |all| - |some|
  {}

  lemma EndedAre(c: Counters, st: Statuses)
    requires Counted(c, st)
    ensures c[6] + c[7] == |Asked(NumEnded, st)|
  {
    KindsAre(c, st);
    KindsApart();
    Apart(st, {{EXIT}, {EXIT, WAIT}}, {{DONE}, {DONE, WAIT}});
    assert {{EXIT}, {EXIT, WAIT}} + {{DONE}, {DONE, WAIT}} == {{EXIT}, {EXIT, WAIT}, {DONE}, {DONE, WAIT}};
  }

  lemma KindsApart()
    ensures {{PEND}, {RUN, WAIT}} !! {{PSUSP}} && {{EXIT}, {EXIT, WAIT}} !! {{DONE}, {DONE, WAIT}}
  {
    assert PSUSP in {PSUSP} && PSUSP !in {PEND} && PSUSP !in {RUN, WAIT};
    assert DONE in {DONE} && DONE in {DONE, WAIT} && DONE !in {EXIT} && DONE !in {EXIT, WAIT};
  }

  lemma Apart(st: Statuses, a: set<Status>, b: set<Status>)
    requires a !! b
    ensures |Among(st, a + b)| == |Among(st, a)| + |Among(st, b)|
  {
    assert Among(st, a + b) == Among(st, a) + Among(st, b);
    assert Among(st, a) !! Among(st, b);
  }

  /** With no number given, a leaf asks for all jobs: it is True exactly if there are any and each is one asked for. */
  lemma AllOfThem(k: CountKind, g: Ref, v: Value, rec: Option<Job>, env: Env, st: Statuses)
    requires !env.groups(g).gone && Counted(env.groups(g).counts, st) && |st| < INFINIT_INT
    ensures Eval(VLeaf(CountLeaf(k, EQ, INFINIT_INT, Some(g)), v), rec, env).value == True <==>
            st != map[] && forall j :: j in st ==> j in Asked(k, st)
  {
    CountExactly(k, EQ, INFINIT_INT, g, v, rec, env, st);
    assert Asked(k, st) <= st.Keys && |st| == |st.Keys|;
    SubsetSize(Asked(k, st), st.Keys);
  }

  lemma SubsetSize(a: set<JobId>, b: set<JobId>)
    requires a <= b
    ensures |a| <= |b| && (|a| == |b| <==> a == b)
  {
    assert b == a + (b - a);
  }

  /** A leaf without a job or a group is Invalid; a time window is True while it is open, and False while it is not. */
  lemma OtherwiseExactly(l: Leaf, v: Value, rec: Option<Job>, env: Env)
    ensures l.JobLeaf? && l.job.None? ==> Eval(VLeaf(l, v), rec, env).value == Invalid
    ensures l.CountLeaf? && l.group.None? ==> Eval(VLeaf(l, v), rec, env).value == Invalid
    ensures l.WindowLeaf? ==> Eval(VLeaf(l, v), rec, env).value == if env.windows(l.window) then True else False
  {}

  /** A group that is gone makes the leaf Invalid, now and ever after: the leaf lets go of it. */
  lemma GroupGone(k: CountKind, op: RelOp, num: int, g: Ref, v: Value, rec: Option<Job>, env: Env, o: Occasion)
    requires env.groups(g).gone
    ensures var t := Eval(VLeaf(CountLeaf(k, op, num, Some(g)), v), rec, env);
            t.value == Invalid && Eval(t, o.rec, o.env).value == Invalid
  {}
}
