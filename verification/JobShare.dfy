/** The jobs of an array and the submission record they share, with its reference count. */
module JobShare {
  import opened JobIndex
  import opened DepLeaf
  import opened JobArray
  import opened JobCounts
  import opened JobStatus
  import opened DepTree
  import opened DepParser
  import opened Wrappers

  /** What was submitted: the dependency condition, if any, and the rest. */
  datatype Bill = Bill(cond: seq<Token>, other: nat)

  /** A shared record: how many jobs refer to it, what was submitted, and the tree of the condition. */
  datatype Rec = Rec(numRef: int, bill: Bill, root: Option<Tree>)

  /** The tree that goes with a condition. */
  function RootOf(b: Bill): Option<Tree> {
    if b.cond == [] then None else Parse(b.cond)
  }

  function NewRec(b: Bill): Rec { Rec(1, b, RootOf(b)) }

  /** Every record has the tree that goes with its condition. */
  predicate Parsed(recs: Recs) {
    forall r :: r in recs ==> recs[r].root == RootOf(recs[r].bill)
  }

  type Shared = map<JobId, Ref>
  type Recs = map<Ref, Rec>

  /** The jobs that refer to record `r`. */
  ghost function Holders(shared: Shared, r: Ref): set<JobId> {
    set j | j in shared && shared[j] == r
  }

  /** Every job refers to an existing record, and every record counts exactly the jobs that refer to it. */
  ghost predicate ExactRefs(shared: Shared, recs: Recs) {
    && (forall j :: j in shared ==> shared[j] in recs)
    && (forall r :: r in recs ==> recs[r].numRef == |Holders(shared, r)|)
  }

  lemma HoldersMove(shared: Shared, j: JobId, r: Ref, q: Ref)
    ensures Holders(shared[j := r], q) == if q == r then Holders(shared, q) + {j} else Holders(shared, q) - {j}
  {}

  /** How a record's holders change when a job gets its first record, or changes records. */
  lemma CountJoins(shared: Shared, j: JobId, r: Ref, q: Ref)
    requires j !in shared
    ensures |Holders(shared[j := r], q)| == |Holders(shared, q)| + (if q == r then 1 else 0)
  {
    HoldersMove(shared, j, r, q);
    assert j !in Holders(shared, q);
    assert Holders(shared, q) - {j} == Holders(shared, q);
  }

  lemma CountMoves(shared: Shared, j: JobId, r: Ref, q: Ref)
    requires j in shared && shared[j] != r && q != r
    ensures |Holders(shared[j := r], q)| == |Holders(shared, q)| - (if q == shared[j] then 1 else 0)
  {
    HoldersMove(shared, j, r, q);
    if q == shared[j] {
      assert j in Holders(shared, q);
    } else {
      assert Holders(shared, q) - {j} == Holders(shared, q);
    }
  }

  /** Counting one reference more for a job that had none. */
  lemma AddExact(shared: Shared, recs: Recs, j: JobId, r: Ref)
    requires ExactRefs(shared, recs) && j !in shared && r in recs
    ensures ExactRefs(shared[j := r], recs[r := recs[r].(numRef := recs[r].numRef + 1)])
  {
    forall q | q in recs
      ensures |Holders(shared[j := r], q)| == |Holders(shared, q)| + (if q == r then 1 else 0)
    {
      CountJoins(shared, j, r, q);
    }
  }

  /** A new record for a job that had none. */
  lemma NewExact(shared: Shared, recs: Recs, j: JobId, r: Ref, b: Bill)
    requires ExactRefs(shared, recs) && j !in shared && r !in recs
    ensures ExactRefs(shared[j := r], recs[r := NewRec(b)])
  {
    forall q | q in recs
      ensures |Holders(shared[j := r], q)| == |Holders(shared, q)|
    {
      CountJoins(shared, j, r, q);
    }
    FreshHolder(shared, j, r);
  }

  lemma FreshHolder(shared: Shared, j: JobId, r: Ref)
    requires forall k :: k in shared ==> shared[k] != r
    ensures |Holders(shared[j := r], r)| == 1
  {
    assert Holders(shared[j := r], r) == {j};
  }

  /** A job leaves the record it shares with others for a new one. */
  lemma SplitExact(shared: Shared, recs: Recs, j: JobId, r: Ref, b: Bill)
    requires ExactRefs(shared, recs) && j in shared && r !in recs
    ensures var o := shared[j];
            ExactRefs(shared[j := r], recs[o := recs[o].(numRef := recs[o].numRef - 1)][r := NewRec(b)])
  {
    var o := shared[j];
    forall q | q in recs
      ensures |Holders(shared[j := r], q)| == |Holders(shared, q)| - (if q == o then 1 else 0)
    {
      CountMoves(shared, j, r, q);
    }
    FreshHolder(shared, j, r);
  }

  lemma LoneHolder(s: set<JobId>, a: JobId, b: JobId)
    requires a in s && b in s && |s| <= 1
    ensures a == b
  {
    if a != b {
      Subset({a, b}, s);
    }
  }

  lemma Subset(a: set<JobId>, b: set<JobId>)
    requires a <= b
    ensures |a| <= |b|
  {
    assert b == a + (b - a);
  }

  ghost function Elems(c: seq<JobId>): (r: set<JobId>)
    ensures forall id :: id in r <==> id in c
  {
    set id | id in c
  }

  // ----- Filling an array -----

  /** While an array is being filled: `c` are the elements so far, all on record `r`, and nothing else is new. */
  ghost predicate Filled(known: Shared, shared: Shared, r: Ref, c: seq<JobId>) {
    && (forall j :: j in shared <==> j in known || j in c)
    && (forall j :: j in known ==> shared[j] == known[j])
    && (forall id :: id in c ==> id !in known && shared[id] == r)
  }

  lemma FillOne(known: Shared, shared: Shared, r: Ref, c: seq<JobId>, id: JobId)
    requires Filled(known, shared, r, c)
    ensures id in shared <==> id in known.Keys || id in c
    ensures id !in shared ==> Filled(known, shared[id := r], r, c + [id])
  {}

  /** The same jobs are known, and each one's record says what it said, with the same tree. */
  ghost predicate SameBills(a: Shared, ra: Recs, b: Shared, rb: Recs) {
    && a.Keys == b.Keys
    && forall k :: k in a ==> a[k] in ra && b[k] in rb && SameContent(ra[a[k]], rb[b[k]])
  }

  predicate SameContent(a: Rec, b: Rec) {
    a.bill == b.bill && a.root == b.root
  }

  lemma SaysTheSame(shared: Shared, recs: Recs)
    requires ExactRefs(shared, recs)
    ensures SameBills(shared, recs, shared, recs)
  {}

  /** The records after a job has left record `o` for a copy of it, `r`. */
  function Split(recs: Recs, o: Ref, r: Ref): Recs
    requires o in recs
  {
    recs[o := recs[o].(numRef := recs[o].numRef - 1)][r := NewRec(recs[o].bill)]
  }

  /** A job that leaves its record finds the same in its new one. */
  lemma SplitKeeps(shared: Shared, recs: Recs, j: JobId, r: Ref)
    requires ExactRefs(shared, recs) && Parsed(recs) && j in shared && r !in recs
    ensures var recs' := Split(recs, shared[j], r);
            && ExactRefs(shared[j := r], recs') && Parsed(recs') && SameBills(shared, recs, shared[j := r], recs')
            && recs'.Keys == recs.Keys + {r}
  {
    SplitExact(shared, recs, j, r, recs[shared[j]].bill);
  }

  ghost predicate SameOutside(a: Shared, b: Shared, es: seq<JobId>) {
    forall k :: k in a && k !in es ==> k in b && b[k] == a[k]
  }

  /** The element leaves record `h` if it was on it; who has left stays away. */
  ghost predicate Left(shared: Shared, es: seq<JobId>, h: Ref) {
    forall e :: e in es ==> e in shared && shared[e] != h
  }

  lemma OneLeaves(shared: Shared, es: seq<JobId>, i: nat, h: Ref, q: Ref)
    requires i < |es| && es[i] in shared && Left(shared, es[..i], h) && q != h
    ensures Left(shared[es[i] := q], es[..i + 1], h)
  {
    assert es[..i + 1] == es[..i] + [es[i]];
  }

  /** Once the count says that nobody else holds the head's record, no element does. */
  lemma AllLeft(shared: Shared, recs: Recs, es: seq<JobId>, i: nat, head: JobId)
    requires ExactRefs(shared, recs) && head in shared && head !in es && i <= |es|
    requires forall e :: e in es ==> e in shared
    requires Left(shared, es[..i], shared[head]) && (i == |es| || recs[shared[head]].numRef <= 1)
    ensures Left(shared, es, shared[head])
  {
    var h := shared[head];
    assert i == |es| ==> es[..i] == es;
    forall e | e in es
      ensures shared[e] != h
    {
      if shared[e] == h && i < |es| {
        LoneHolder(Holders(shared, h), head, e);
      }
    }
  }

  class Jobs {
    /** Every known job and the record it refers to. */
    var shared: Shared
    var recs: Recs
    /** The elements of each array, in chain order, and its counters. */
    var chain: map<JobId, seq<JobId>>
    var counts: map<JobId, Counters>
    /** Where the next record will be. */
    var next: Ref

    ghost predicate Valid()
      reads this
    {
      ExactRefs(shared, recs) && Parsed(recs) && forall r :: r in recs ==> r < next
    }

    constructor ()
      ensures Valid() && shared == map[]
    {
      shared, recs, chain, counts, next := map[], map[], map[], map[], 0;
    }

    /** Gives one job a record of its own, unless nobody else refers to the one it has. */
    method LocalizeJobElement(j: JobId)
      requires Valid() && j in shared
      modifies this`shared, this`recs, this`next
      ensures Valid() && j in shared && shared == old(shared)[j := shared[j]]
      ensures SameBills(old(shared), old(recs), shared, recs)
      ensures if old(recs[shared[j]].numRef) > 1 then shared[j] !in old(recs) else shared[j] == old(shared[j])
    {
      var r := shared[j];
      if recs[r].numRef <= 1 {
        SaysTheSame(shared, recs);
        return;
      }
      var split := Split(recs, r, next);
      SplitKeeps(shared, recs, j, next);
      shared, recs, next := shared[j := next], split, next + 1;
    }

    /** Takes every element of an array off the record of the array head. The walk may stop early, once the count
        says that nobody else refers to that record; it is right to. */
    method LocalizeJobArray(head: JobId)
      requires Valid() && head in shared && head in chain && head !in chain[head]
      requires forall e :: e in chain[head] ==> e in shared
      modifies this`shared, this`recs, this`next
      ensures Valid() && head in shared && shared[head] == old(shared[head])
      ensures Left(shared, chain[head], shared[head])
      ensures SameBills(old(shared), old(recs), shared, recs) && SameOutside(old(shared), shared, chain[head])
    {
      var es, h, i := chain[head], shared[head], 0;
      while i < |es| && recs[h].numRef > 1
        invariant 0 <= i <= |es| && Valid() && head in shared && shared[head] == h
        invariant Left(shared, es[..i], h)
        invariant SameBills(old(shared), old(recs), shared, recs) && SameOutside(old(shared), shared, es)
      {
        assert es[i] in chain[head] && es[i] in shared.Keys;
        ghost var before := shared;
        LocalizeJobElement(es[i]);
        OneLeaves(before, es, i, h, shared[es[i]]);
        i := i + 1;
      }
      assert forall e :: e in es ==> e in shared.Keys;
      AllLeft(shared, recs, es, i, head);
    }

    /** One element of a new array, referring to the head's record, unless the id is known. */
    method AddElement(base: int, i: int, r: Ref, c: seq<JobId>, ghost known: Shared, ghost seen: seq<int>)
      returns (c': seq<JobId>)
      requires Valid() && r in recs && Filled(known, shared, r, c) && c == FirstVisits(base, seen, known.Keys)
      modifies this`shared, this`recs
      ensures Valid() && r in recs && Filled(known, shared, r, c')
      ensures c' == FirstVisits(base, seen + [i], known.Keys)
      ensures recs[r].bill == old(recs[r].bill)
    {
      var id := JobId(base, i);
      FillOne(known, shared, r, c, id);
      FirstVisitsSnoc(base, seen, i, known.Keys);
      if id in shared {
        return c;
      }
      AddExact(shared, recs, id, r);
      shared := shared[id := r];
      recs := recs[r := recs[r].(numRef := recs[r].numRef + 1)];
      c' := c + [id];
    }

    method AddRange(base: int, g: Range, r: Ref, c: seq<JobId>, ghost known: Shared, ghost seen: seq<int>)
      returns (c': seq<JobId>)
      requires g.step >= 1 && Valid() && r in recs && Filled(known, shared, r, c)
      requires c == FirstVisits(base, seen, known.Keys)
      modifies this`shared, this`recs
      ensures Valid() && r in recs && Filled(known, shared, r, c')
      ensures c' == FirstVisits(base, seen + Enumerate(g), known.Keys) && recs[r].bill == old(recs[r].bill)
    {
      c' := c;
      var i := g.start;
      ghost var now, all := seen, seen + Enumerate(g);
      while i <= g.end
        invariant now + Count(i, g.end, g.step) == all
        invariant Valid() && r in recs && Filled(known, shared, r, c')
        invariant c' == FirstVisits(base, now, known.Keys) && recs[r].bill == old(recs[r].bill)
        decreases g.end - i
      {
        CountNext(now, i, g.end, g.step);
        c' := AddElement(base, i, r, c', known, now);
        now := now + [i];
        i := i + g.step;
      }
      CountNext(now, i, g.end, g.step);
    }

    method FillArray(base: int, l: seq<Range>, r: Ref) returns (c: seq<JobId>)
      requires Valid() && r in recs && Steps(l)
      modifies this`shared, this`recs
      ensures Valid() && r in recs && Filled(old(shared), shared, r, c)
      ensures c == FirstVisits(base, EnumerateAll(l), old(shared.Keys)) && recs[r].bill == old(recs[r].bill)
    {
      c := [];
      for k := 0 to |l|
        invariant Valid() && r in recs && Filled(old(shared), shared, r, c)
        invariant c == FirstVisits(base, EnumerateAll(l[..k]), old(shared.Keys)) && recs[r].bill == old(recs[r].bill)
      {
        c := AddRange(base, l[k], r, c, old(shared), EnumerateAll(l[..k]));
        EnumerateSnoc(l[..k], l[k]);
        assert l[..k + 1] == l[..k] + [l[k]];
      }
      assert l[..|l|] == l;
    }

    /** Registers a new array with record `b` and one job for each distinct index not known before, in order of first
        visit. The elements have the status of the array, unless they are held, and the counters say so. If there is no
        element the source follows a null link there; `filed` is false then, and the counters are as before. */
    method HandleNewJobArray(base: int, b: Bill, l: seq<Range>, status: Status, hold: bool)
      returns (numJobs: nat, filed: bool)
      requires Valid() && Steps(l) && JobId(base, 0) !in shared
      modifies this
      ensures var head := JobId(base, 0);
              && Valid() && head in shared && head in chain
              && chain == old(chain)[head := FirstVisits(base, EnumerateAll(l), old(shared.Keys) + {head})]
              && numJobs == |chain[head]|
              && NewArray(old(shared), shared, head, chain[head])
              && recs[shared[head]] == Rec(1 + numJobs, b, if b.cond == [] then None else Parse(b.cond))
              && (!filed ==> counts == old(counts))
              && (filed ==> head in counts && counts == old(counts)[head := counts[head]]
                            && Counted(counts[head], Uniform(Elems(chain[head]), if hold then {PSUSP} else status)))
      ensures filed <==> exists i :: i in EnumerateAll(l) && i != 0 && JobId(base, i) !in old(shared)
    {
      var head, r := JobId(base, 0), next;
      ghost var before := shared;
      RegisterHead(head, b);
      var c := FillArray(base, l, r);
      ArrayMade(before, shared, r, c, base, l);
      chain, numJobs, filed := chain[head := c], |c|, c != [];
      if filed {
        var s := if hold then {PSUSP} else status;
        UniformCounted(Elems(c), s);
        counts := counts[head := ZERO_COUNTS[IndexOfStatus(s) := numJobs][JGRP_COUNT_NJOBS := numJobs]];
      }
    }

    method RegisterHead(head: JobId, b: Bill)
      requires Valid() && head !in shared
      modifies this`shared, this`recs, this`next
      ensures Valid() && shared == old(shared)[head := old(next)] && recs == old(recs)[old(next) := NewRec(b)]
      ensures forall j :: j in old(shared) ==> old(shared)[j] != old(next)
    {
      NewExact(shared, recs, head, next, b);
      shared, recs, next := shared[head := next], recs[next := NewRec(b)], next + 1;
    }
  }

  /** The jobs after a new array: the head and its elements are new and share one record; nothing else changed. */
  ghost predicate NewArray(before: Shared, shared: Shared, head: JobId, c: seq<JobId>) {
    && head in shared && (forall j :: j in shared <==> j in before || j == head || j in c)
    && (forall j :: j in before ==> shared[j] == before[j])
    && (forall id :: id in c ==> id in shared && shared[id] == shared[head])
  }

  /** What filling a new array comes to; and that there are elements exactly if some index but 0 is new. */
  lemma ArrayMade(before: Shared, shared: Shared, r: Ref, c: seq<JobId>, base: int, l: seq<Range>)
    requires JobId(base, 0) !in before && Steps(l) && forall j :: j in before ==> before[j] != r
    requires Filled(before[JobId(base, 0) := r], shared, r, c)
    requires c == FirstVisits(base, EnumerateAll(l), before[JobId(base, 0) := r].Keys)
    ensures c == FirstVisits(base, EnumerateAll(l), before.Keys + {JobId(base, 0)})
    ensures c != [] <==> exists i :: i in EnumerateAll(l) && i != 0 && JobId(base, i) !in before
    ensures NewArray(before, shared, JobId(base, 0), c) && shared[JobId(base, 0)] == r
    ensures |Holders(shared, r)| == 1 + |c| && |Elems(c)| == |c|
  {
    var head := JobId(base, 0);
    var known := before[head := r].Keys;
    assert known == before.Keys + {head};
    FirstVisitsExactly(base, EnumerateAll(l), known);
    FilledIsNewArray(before, shared, head, r, c);
    ArrayHolders(before, shared, head, r, c);
    SizeOfDistinct(c);
  }

  lemma FilledIsNewArray(before: Shared, shared: Shared, head: JobId, r: Ref, c: seq<JobId>)
    requires head !in before && Filled(before[head := r], shared, r, c)
    ensures NewArray(before, shared, head, c) && shared[head] == r && head !in c
  {}

  lemma {:induction false} SizeOfDistinct(c: seq<JobId>)
    requires Distinct(c)
    ensures |Elems(c)| == |c|
    decreases |c|
  {
    if c == [] {
      assert Elems(c) == {};
    } else {
      var front, x := c[..|c| - 1], c[|c| - 1];
      SizeOfDistinct(front);
      assert c == front + [x];
      assert Elems(c) == Elems(front) + {x};
    }
  }

  /** The record of a new array is held by the head and by each element. */
  lemma ArrayHolders(before: Shared, shared: Shared, head: JobId, r: Ref, c: seq<JobId>)
    requires NewArray(before, shared, head, c) && shared[head] == r && head !in c && Distinct(c)
    requires forall j :: j in before ==> before[j] != r
    ensures |Holders(shared, r)| == 1 + |c|
  {
    SizeOfDistinct(c);
    forall j
      ensures j in Holders(shared, r) <==> j == head || j in Elems(c)
    {}
    assert Holders(shared, r) == {head} + Elems(c);
  }
}
