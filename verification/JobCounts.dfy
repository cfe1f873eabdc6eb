/** The counters of job arrays and job groups: how many of the jobs below have each kind of status. */
module JobCounts {
  import opened JobStatus
  import opened DepLeaf

  const NUM_JGRP_COUNTERS := 8

  const JGRP_COUNT_NJOBS := 0
  const JGRP_COUNT_PEND := 1
  const JGRP_COUNT_NPSUSP := 2
  const JGRP_COUNT_NRUN := 3
  const JGRP_COUNT_NSSUSP := 4
  const JGRP_COUNT_NUSUSP := 5
  const JGRP_COUNT_NEXIT := 6
  const JGRP_COUNT_NDONE := 7

  /** The counters, and one behind them for a status of no kind. */
  type Counters = c: seq<int> | |c| == NUM_JGRP_COUNTERS + 1 witness [0, 0, 0, 0, 0, 0, 0, 0, 0]

  const ZERO_COUNTS: Counters := [0, 0, 0, 0, 0, 0, 0, 0, 0]

  /** A status without the flags that counters ignore. */
  function Core(s: Status): Status { s - {UNKWN, PDONE, PERR, VOID, PRE_EXEC} }

  /** The counter of a status. */
  function IndexOfStatus(s: Status): (i: nat)
    ensures 1 <= i <= NUM_JGRP_COUNTERS
  {
    var m := Core(s);
    if m == {PEND} || m == {RUN, WAIT} then JGRP_COUNT_PEND
    else if m == {PSUSP} then JGRP_COUNT_NPSUSP
    else if m == {RUN} then JGRP_COUNT_NRUN
    else if m == {SSUSP} then JGRP_COUNT_NSSUSP
    else if m == {USUSP} then JGRP_COUNT_NUSUSP
    else if m == {EXIT} || m == {EXIT, WAIT} then JGRP_COUNT_NEXIT
    else if m == {DONE} || m == {DONE, WAIT} then JGRP_COUNT_NDONE
    else NUM_JGRP_COUNTERS
  }

  // ----- What the counters should be -----

  type Statuses = map<JobId, Status>

  /** The jobs whose status is, flags aside, one of `kinds`. */
  ghost function Among(st: Statuses, kinds: set<Status>): set<JobId> {
    set j | j in st && Core(st[j]) in kinds
  }

  /** The kinds that have a counter of their own, from 1 on: pending, held, running, suspended by the system, suspended
      by the user, exited, done. A job that is started but has to wait counts as pending. */
  ghost const KINDS: seq<set<Status>> :=
    [{}, {{PEND}, {RUN, WAIT}}, {{PSUSP}}, {{RUN}}, {{SSUSP}}, {{USUSP}},
     {{EXIT}, {EXIT, WAIT}}, {{DONE}, {DONE, WAIT}}]

  ghost predicate HasKind(s: Status) {
    exists i :: 1 <= i < NUM_JGRP_COUNTERS && Core(s) in KINDS[i]
  }

  /** The counters of `c` say how many jobs there are, how many of each kind, and how many of no kind. */
  ghost predicate Counted(c: Counters, st: Statuses) {
    && c[JGRP_COUNT_NJOBS] == |st|
    && (forall i :: 1 <= i < NUM_JGRP_COUNTERS ==> c[i] == |Among(st, KINDS[i])|)
    && c[NUM_JGRP_COUNTERS] == |Strays(st)|
  }

  ghost function Strays(st: Statuses): set<JobId> {
    set j | j in st && !HasKind(st[j])
  }

  lemma IndexExactly(s: Status, i: nat)
    requires 1 <= i < NUM_JGRP_COUNTERS
    ensures IndexOfStatus(s) == i <==> Core(s) in KINDS[i]
  {
    assert PEND in {PEND} && PSUSP in {PSUSP} && RUN in {RUN} && SSUSP in {SSUSP} && USUSP in {USUSP};
    assert EXIT in {EXIT} && DONE in {DONE} && WAIT in {RUN, WAIT} && WAIT !in {RUN} && RUN in {RUN, WAIT};
    assert WAIT in {EXIT, WAIT} && WAIT in {DONE, WAIT} && EXIT in {EXIT, WAIT} && DONE in {DONE, WAIT};
  }

  lemma StrayExactly(s: Status)
    ensures IndexOfStatus(s) == NUM_JGRP_COUNTERS <==> !HasKind(s)
  {
    forall i | 1 <= i < NUM_JGRP_COUNTERS
      ensures IndexOfStatus(s) == i <==> Core(s) in KINDS[i]
    {
      IndexExactly(s, i);
    }
    var k := IndexOfStatus(s);
    assert k < NUM_JGRP_COUNTERS ==> Core(s) in KINDS[k];
  }

  /** The jobs filed under counter `i`. */
  ghost function Filed(st: Statuses, i: nat): set<JobId> {
    set j | j in st && IndexOfStatus(st[j]) == i
  }

  lemma FiledExactly(st: Statuses, i: nat)
    requires 1 <= i <= NUM_JGRP_COUNTERS
    ensures Filed(st, i) == if i < NUM_JGRP_COUNTERS then Among(st, KINDS[i]) else Strays(st)
  {
    forall j | j in st
      ensures j in Filed(st, i) <==> if i < NUM_JGRP_COUNTERS then j in Among(st, KINDS[i]) else j in Strays(st)
    {
      if i < NUM_JGRP_COUNTERS {
        IndexExactly(st[j], i);
      } else {
        StrayExactly(st[j]);
      }
    }
  }

  lemma CountedIsFiled(c: Counters, st: Statuses)
    ensures Counted(c, st) <==>
            c[JGRP_COUNT_NJOBS] == |st| && forall i :: 1 <= i <= NUM_JGRP_COUNTERS ==> c[i] == |Filed(st, i)|
  {
    forall i | 1 <= i <= NUM_JGRP_COUNTERS
      ensures Filed(st, i) == if i < NUM_JGRP_COUNTERS then Among(st, KINDS[i]) else Strays(st)
    {
      FiledExactly(st, i);
    }
  }

  // ----- Keeping them so -----

  /** One job more or less of status `s`. */
  function Bump(c: Counters, s: Status, d: int): Counters {
    var i := IndexOfStatus(s);
    c[i := c[i] + d][JGRP_COUNT_NJOBS := c[JGRP_COUNT_NJOBS] + d]
  }

  /** A job goes from one status to another; no status means that it was not there, or is not any more. */
  function Updated(c: Counters, was: Status, now: Status): Counters {
    var c' := if was == {} then c else Bump(c, was, -1);
    if now == {} then c' else Bump(c', now, 1)
  }

  function StatusOf(st: Statuses, j: JobId): Status { if j in st then st[j] else {} }

  function WithStatus(st: Statuses, j: JobId, s: Status): Statuses { if s == {} then st - {j} else st[j := s] }

  lemma FiledLeave(st: Statuses, j: JobId, i: nat)
    requires j in st
    ensures |Filed(st - {j}, i)| == |Filed(st, i)| - (if IndexOfStatus(st[j]) == i then 1 else 0)
  {
    var fewer := st - {j};
    assert Filed(fewer, i) == Filed(st, i) - {j};
  }

  lemma FiledJoin(st: Statuses, j: JobId, s: Status, i: nat)
    requires j !in st
    ensures |Filed(st[j := s], i)| == |Filed(st, i)| + (if IndexOfStatus(s) == i then 1 else 0)
  {
    var more := st[j := s];
    assert Filed(more, i) == if IndexOfStatus(s) == i then Filed(st, i) + {j} else Filed(st, i);
  }

  lemma LeaveCounted(c: Counters, st: Statuses, j: JobId)
    requires Counted(c, st) && j in st
    ensures Counted(Bump(c, st[j], -1), st - {j})
  {
    var c' := Bump(c, st[j], -1);
    CountedIsFiled(c, st);
    CountedIsFiled(c', st - {j});
    forall i | 1 <= i <= NUM_JGRP_COUNTERS
      ensures c'[i] == |Filed(st - {j}, i)|
    {
      FiledLeave(st, j, i);
    }
    assert (st - {j}).Keys == st.Keys - {j};
    assert |st - {j}| == |(st - {j}).Keys| && |st| == |st.Keys|;
  }

  lemma JoinCounted(c: Counters, st: Statuses, j: JobId, s: Status)
    requires Counted(c, st) && j !in st
    ensures Counted(Bump(c, s, 1), st[j := s])
  {
    var c' := Bump(c, s, 1);
    CountedIsFiled(c, st);
    CountedIsFiled(c', st[j := s]);
    forall i | 1 <= i <= NUM_JGRP_COUNTERS
      ensures c'[i] == |Filed(st[j := s], i)|
    {
      FiledJoin(st, j, s, i);
    }
  }

  lemma WithAndWithout(st: Statuses, j: JobId, s: Status)
    ensures j !in st - {j} && (st - {j})[j := s] == st[j := s] && (j !in st ==> st - {j} == st)
  {}

  /** Counters that are right stay right when a job comes, goes or changes its status. */
  lemma UpdateCounted(c: Counters, st: Statuses, j: JobId, s: Status)
    requires Counted(c, st) && (j in st ==> st[j] != {})
    ensures Counted(Updated(c, StatusOf(st, j), s), WithStatus(st, j, s))
  {
    var c', fewer := if j in st then Bump(c, st[j], -1) else c, st - {j};
    WithAndWithout(st, j, s);
    if j in st {
      LeaveCounted(c, st, j);
    }
    if s != {} {
      JoinCounted(c', fewer, j, s);
    }
  }

  // ----- A whole array of one status -----

  function CountsOf(s: Status, n: int): Counters {
    ZERO_COUNTS[IndexOfStatus(s) := n][JGRP_COUNT_NJOBS := n]
  }

  ghost function Uniform(js: set<JobId>, s: Status): Statuses { map j | j in js :: s }

  /** The counters of jobs that all have the same status. */
  lemma UniformCounted(js: set<JobId>, s: Status)
    ensures Counted(CountsOf(s, |js|), Uniform(js, s))
  {
    var c, st := CountsOf(s, |js|), Uniform(js, s);
    CountedIsFiled(c, st);
    assert st.Keys == js && |st| == |st.Keys|;
    forall i | 1 <= i <= NUM_JGRP_COUNTERS
      ensures c[i] == |Filed(st, i)|
    {
      assert Filed(st, i) == if i == IndexOfStatus(s) then js else {};
    }
  }

  /** The counters of the kinds add up to the number of jobs exactly if every job's status is of some kind. */
  lemma AddUpExactly(c: Counters, st: Statuses)
    requires Counted(c, st)
    ensures c[1] + c[2] + c[3] + c[4] + c[5] + c[6] + c[7] == c[0] <==> forall j :: j in st ==> HasKind(st[j])
  {
    CountedIsFiled(c, st);
    FiledAddUp(st);
    FiledExactly(st, NUM_JGRP_COUNTERS);
    NoStraysExactly(st);
  }

  lemma {:induction false} FiledAddUp(st: Statuses)
    ensures |Filed(st, 1)| + |Filed(st, 2)| + |Filed(st, 3)| + |Filed(st, 4)| + |Filed(st, 5)| + |Filed(st, 6)|
            + |Filed(st, 7)| + |Filed(st, 8)| == |st|
    decreases |st|
  {
    if st == map[] {
      assert forall i: nat :: Filed(st, i) == {};
    } else {
      var j :| j in st;
      assert (st - {j}).Keys == st.Keys - {j} && |st| == |st.Keys| && |st - {j}| == |(st - {j}).Keys|;
      FiledAddUp(st - {j});
      forall i: nat | 1 <= i <= 8
        ensures |Filed(st - {j}, i)| == |Filed(st, i)| - (if IndexOfStatus(st[j]) == i then 1 else 0)
      {
        FiledLeave(st, j, i);
      }
    }
  }

  // ----- Counters of a whole subtree -----

  /** The counters of a subtree added to those above, or taken off; the one behind the counters is left out. */
  function Added(c: Counters, d: Counters, factor: int): Counters {
    seq(NUM_JGRP_COUNTERS + 1, i requires 0 <= i < |c| && |c| == |d| =>
      if i < NUM_JGRP_COUNTERS then c[i] + factor * d[i] else c[i])
  }

  lemma FiledUnion(st: Statuses, more: Statuses, i: nat)
    requires st.Keys !! more.Keys
    ensures |Filed(st + more, i)| == |Filed(st, i)| + |Filed(more, i)|
  {
    assert Filed(st + more, i) == Filed(st, i) + Filed(more, i);
    assert Filed(st, i) !! Filed(more, i);
  }

  /** The jobs of two sets, counted together. */
  lemma UnionFiled(st: Statuses, more: Statuses)
    requires st.Keys !! more.Keys
    ensures |st + more| == |st| + |more|
    ensures forall i: nat :: |Filed(st + more, i)| == |Filed(st, i)| + |Filed(more, i)|
  {
    assert (st + more).Keys == st.Keys + more.Keys;
    assert |st + more| == |(st + more).Keys| && |st| == |st.Keys| && |more| == |more.Keys|;
    forall i: nat
      ensures |Filed(st + more, i)| == |Filed(st, i)| + |Filed(more, i)|
    {
      FiledUnion(st, more, i);
    }
  }

  lemma AddedAt(c: Counters, d: Counters, i: nat)
    requires i <= NUM_JGRP_COUNTERS
    ensures Added(c, d, 1)[i] == c[i] + (if i < NUM_JGRP_COUNTERS then d[i] else 0)
    ensures Added(c, d, -1)[i] == c[i] - (if i < NUM_JGRP_COUNTERS then d[i] else 0)
  {}

  /** When a subtree is put below a node, the node's counters are right afterwards exactly if every status in the
      subtree is of some kind. */
  lemma AttachExactly(c: Counters, st: Statuses, d: Counters, more: Statuses)
    requires Counted(c, st) && Counted(d, more) && st.Keys !! more.Keys
    ensures Counted(Added(c, d, 1), st + more) <==> forall j :: j in more ==> HasKind(more[j])
  {
    var sum := Added(c, d, 1);
    CountedIsFiled(c, st);
    CountedIsFiled(d, more);
    CountedIsFiled(sum, st + more);
    UnionFiled(st, more);
    forall i: nat | i <= NUM_JGRP_COUNTERS
      ensures sum[i] == c[i] + (if i < NUM_JGRP_COUNTERS then d[i] else 0)
    {
      AddedAt(c, d, i);
    }
    FiledExactly(more, NUM_JGRP_COUNTERS);
    NoStraysExactly(more);
  }

  /** And so when it is taken away again. */
  lemma ClipExactly(c: Counters, st: Statuses, d: Counters, more: Statuses)
    requires Counted(c, st + more) && Counted(d, more) && st.Keys !! more.Keys
    ensures Counted(Added(c, d, -1), st) <==> forall j :: j in more ==> HasKind(more[j])
  {
    var rest := Added(c, d, -1);
    CountedIsFiled(c, st + more);
    CountedIsFiled(d, more);
    CountedIsFiled(rest, st);
    UnionFiled(st, more);
    forall i: nat | i <= NUM_JGRP_COUNTERS
      ensures rest[i] == c[i] - (if i < NUM_JGRP_COUNTERS then d[i] else 0)
    {
      AddedAt(c, d, i);
    }
    FiledExactly(more, NUM_JGRP_COUNTERS);
    NoStraysExactly(more);
  }

  lemma NoStraysExactly(st: Statuses)
    ensures |Strays(st)| == 0 <==> forall j :: j in st ==> HasKind(st[j])
  {
    assert forall j :: j in st ==> (HasKind(st[j]) <==> j !in Strays(st));
    assert Strays(st) != {} ==> exists j :: j in Strays(st);
  }

  // ----- The tree of job groups -----

  /** A group, an array or a job in the tree; only groups and arrays have counters. */
  class JgNode {
    const isJob: bool
    const parent: JgNode?
    var counts: Counters
    /** The node and those above it. */
    ghost const up: seq<JgNode>

    constructor (isJob: bool, parent: JgNode?)
      requires parent != null ==> parent.Valid()
      ensures Valid() && this.isJob == isJob && this.parent == parent && counts == ZERO_COUNTS
    {
      this.isJob, this.parent, counts := isJob, parent, ZERO_COUNTS;
      up := [this] + (if parent == null then [] else parent.up);
    }

    ghost predicate Valid()
      decreases |up|
    {
      && up != [] && up[0] == this
      && (if parent == null then up == [this]
          else up == [this] + parent.up && this !in parent.up && parent.Valid())
    }
  }

  /** Walking up: the node at each position, and that nodes are different. */
  lemma {:induction false} UpExactly(n: JgNode, i: nat)
    requires n.Valid() && i < |n.up|
    ensures n.up[i].parent == if i + 1 < |n.up| then n.up[i + 1] else null
    ensures n.up[i] !in n.up[..i]
    decreases |n.up|
  {
    if n.parent != null {
      assert n.up[1..] == n.parent.up && n.parent.up[0] == n.parent;
      if i > 0 {
        UpExactly(n.parent, i - 1);
        assert n.up[..i] == [n] + n.parent.up[..i - 1];
      }
    }
  }

  lemma Apart(n: JgNode, i: nat)
    requires n.Valid() && i < |n.up|
    ensures n.up[i].parent == if i + 1 < |n.up| then n.up[i + 1] else null
    ensures forall k :: 0 <= k < |n.up| && k != i ==> n.up[k] != n.up[i]
  {
    UpExactly(n, i);
    forall k | 0 <= k < |n.up| && k != i
      ensures n.up[k] != n.up[i]
    {
      UpExactly(n, k);
      assert i < k ==> n.up[i] in n.up[..k];
      assert k < i ==> n.up[k] in n.up[..i];
    }
  }

  /** The jobs below a node; `at` says where each job is in the tree. */
  ghost function Below(st: Statuses, at: map<JobId, JgNode>, n: JgNode): Statuses {
    map j | j in st && j in at && n in at[j].up :: st[j]
  }

  /** The counters of every node in `nodes` are right. */
  ghost predicate AllCounted(nodes: set<JgNode>, at: map<JobId, JgNode>, st: Statuses)
    reads nodes
  {
    forall n :: n in nodes && !n.isJob ==> Counted(n.counts, Below(st, at, n))
  }

  lemma BelowChanges(st: Statuses, at: map<JobId, JgNode>, j: JobId, s: Status, n: JgNode)
    requires j in at
    ensures Below(WithStatus(st, j, s), at, n) ==
            if n in at[j].up then WithStatus(Below(st, at, n), j, s) else Below(st, at, n)
    ensures n in at[j].up ==> StatusOf(Below(st, at, n), j) == StatusOf(st, j)
  {}

  /** A job goes from one status to another: the counters of all groups and arrays above it follow. */
  method UpdJgrpCountByJStatus(node: JgNode, was: Status, now: Status)
    requires node.Valid()
    modifies set n | n in node.up
    ensures forall n :: n in node.up ==> n.counts == if n.isJob then old(n.counts) else Updated(old(n.counts), was, now)
  {
    var g: JgNode? := node;
    ghost var i := 0;
    while g != null
      invariant i <= |node.up| && g == if i < |node.up| then node.up[i] else null
      invariant forall k :: 0 <= k < i ==>
        node.up[k].counts ==
          if node.up[k].isJob then old(node.up[k].counts) else Updated(old(node.up[k].counts), was, now)
      invariant forall k :: i <= k < |node.up| ==> node.up[k].counts == old(node.up[k].counts)
      decreases |node.up| - i
    {
      Apart(node, i);
      if !g.isJob {
        if was != {} {
          g.counts := Bump(g.counts, was, -1);
        }
        if now != {} {
          g.counts := Bump(g.counts, now, 1);
        }
      }
      g, i := g.parent, i + 1;
    }
  }

  method AddCounts(c: Counters, d: Counters, factor: int) returns (sum: Counters)
    ensures sum == Added(c, d, factor)
  {
    sum := c;
    for i := 0 to NUM_JGRP_COUNTERS
      invariant forall k :: 0 <= k < i ==> sum[k] == Added(c, d, factor)[k]
      invariant forall k :: i <= k < |sum| ==> sum[k] == c[k]
    {
      sum := sum[i := sum[i] + factor * d[i]];
    }
  }

  /** The counters of a subtree are added to those of all groups above, or taken off. */
  method UpdJgrpCountByOp(node: JgNode, factor: int)
    requires node.Valid()
    modifies set n | n in node.up[1..]
    ensures node.counts == old(node.counts)
    ensures forall n :: n in node.up[1..] ==>
              n.counts == if node.isJob then old(n.counts) else Added(old(n.counts), node.counts, factor)
  {
    UpExactly(node, 0);
    var g := node.parent;
    ghost var i := 1;
    while g != null
      invariant 1 <= i <= |node.up| && g == (if i < |node.up| then node.up[i] else null)
      invariant node.counts == old(node.counts)
      invariant forall k :: 1 <= k < i ==>
        node.up[k].counts ==
          if node.isJob then old(node.up[k].counts) else Added(old(node.up[k].counts), node.counts, factor)
      invariant forall k :: i <= k < |node.up| ==> node.up[k].counts == old(node.up[k].counts)
      decreases |node.up| - i
    {
      Apart(node, i);
      assert g in node.up[1..];
      if !node.isJob {
        g.counts := AddCounts(g.counts, node.counts, factor);
      }
      g, i := g.parent, i + 1;
    }
  }

  /** The same, for the whole tree: if the counters of all nodes are right, they are right afterwards, above the job and
      elsewhere. */
  method ChangeStatus(j: JobId, node: JgNode, was: Status, now: Status,
                      ghost nodes: set<JgNode>, ghost at: map<JobId, JgNode>, ghost st: Statuses)
    requires node.Valid() && j in at && at[j] == node && was == StatusOf(st, j) && (j in st ==> st[j] != {})
    requires (forall n :: n in node.up ==> n in nodes) && AllCounted(nodes, at, st)
    modifies set n | n in node.up
    ensures AllCounted(nodes, at, WithStatus(st, j, now))
  {
    UpdJgrpCountByJStatus(node, was, now);
    forall n | n in nodes && !n.isJob
      ensures Counted(n.counts, Below(WithStatus(st, j, now), at, n))
    {
      BelowChanges(st, at, j, now, n);
      if n in node.up {
        UpdateCounted(old(n.counts), Below(st, at, n), j, now);
      }
    }
  }
}
