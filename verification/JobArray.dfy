/** Job arrays: the elements that an index list stands for. */
module JobArray {
  import opened JobIndex
  import opened DepLeaf

  // ----- Each id once, in order of first visit -----

  /** The elements of array `base` that the indices visit and that are not in `known`, each at its first visit. */
  function FirstVisits(base: int, idxs: seq<int>, known: set<JobId>): seq<JobId> {
    if idxs == [] then []
    else
      var d, id := FirstVisits(base, idxs[..|idxs| - 1], known), JobId(base, idxs[|idxs| - 1]);
      if id in known || id in d then d else d + [id]
  }

  lemma FirstVisitsSnoc(base: int, idxs: seq<int>, j: int, known: set<JobId>)
    ensures var d, id := FirstVisits(base, idxs, known), JobId(base, j);
            FirstVisits(base, idxs + [j], known) == if id in known || id in d then d else d + [id]
  {
    assert (idxs + [j])[..|idxs|] == idxs;
  }

  ghost predicate Distinct(c: seq<JobId>) {
    forall i, j :: 0 <= i < j < |c| ==> c[i] != c[j]
  }

  /** Exactly the visited elements that are new, each once; so there is none exactly if all are known. */
  lemma {:induction false} FirstVisitsExactly(base: int, idxs: seq<int>, known: set<JobId>)
    ensures var r := FirstVisits(base, idxs, known);
            && (forall id :: id in r <==> id.base == base && id.idx in idxs && id !in known)
            && Distinct(r)
    ensures FirstVisits(base, idxs, known) == [] <==> forall i :: i in idxs ==> JobId(base, i) in known
    decreases |idxs|
  {
    var r := FirstVisits(base, idxs, known);
    if idxs != [] {
      var front, j := idxs[..|idxs| - 1], idxs[|idxs| - 1];
      assert idxs == front + [j];
      FirstVisitsExactly(base, front, known);
    }
    if r == [] {
      forall i | i in idxs
        ensures JobId(base, i) in known
      {
        assert JobId(base, i) !in r;
      }
    } else {
      assert r[0] in r && JobId(base, r[0].idx) == r[0];
    }
  }

  function FirstIndex(s: seq<int>, x: int): (i: nat)
    requires x in s
    ensures i < |s| && s[i] == x && x !in s[..i]
  {
    if s[0] == x then 0
    else
      var k := FirstIndex(s[1..], x);
      assert s[..k + 1] == [s[0]] + s[1..][..k];
      k + 1
  }

  lemma FirstIndexUnique(s: seq<int>, x: int, k: nat)
    requires k < |s| && s[k] == x && x !in s[..k]
    ensures x in s && FirstIndex(s, x) == k
  {
    assert forall i :: 0 <= i < k ==> s[i] == s[..k][i];
  }

  lemma FirstIndexInit(s: seq<int>, x: int, y: int)
    requires x in s
    ensures x in s + [y] && FirstIndex(s + [y], x) == FirstIndex(s, x)
  {
    var a := FirstIndex(s, x);
    assert (s + [y])[..a] == s[..a];
    FirstIndexUnique(s + [y], x, a);
  }

  /** Results come in the order in which they are first visited. */
  lemma {:induction false} FirstVisitsOrder(base: int, idxs: seq<int>, known: set<JobId>, i: nat, j: nat)
    requires i < j < |FirstVisits(base, idxs, known)|
    ensures var r := FirstVisits(base, idxs, known);
            r[i].idx in idxs && r[j].idx in idxs && FirstIndex(idxs, r[i].idx) < FirstIndex(idxs, r[j].idx)
    decreases |idxs|
  {
    var front, x := idxs[..|idxs| - 1], idxs[|idxs| - 1];
    var d := FirstVisits(base, front, known);
    assert idxs == front + [x];
    FirstVisitsExactly(base, front, known);
    assert d[i] in d;
    FirstIndexInit(front, d[i].idx, x);
    if j < |d| {
      FirstVisitsOrder(base, front, known, i, j);
      FirstIndexInit(front, d[j].idx, x);
    } else {
      assert (front + [x])[..|front|] == front && JobId(base, x) !in d;
      FirstIndexUnique(idxs, x, |front|);
    }
  }

  const MAX_JOB_IDS := 50

  /** A growing table of job ids: `used` of its slots are taken. */
  class IdTable {
    var ids: array<JobId>
    var used: nat

    ghost predicate Valid()
      reads this
    {
      used <= ids.Length && ids.Length >= MAX_JOB_IDS
    }

    ghost function Contents(): seq<JobId>
      requires Valid()
      reads this, ids
    {
      ids[..used]
    }

    constructor ()
      ensures Valid() && fresh(ids) && Contents() == []
    {
      ids := new JobId[MAX_JOB_IDS](_ => JobId(0, 0));
      used := 0;
    }

    /** Adds an id unless it is there already, growing the table by MAX_JOB_IDS slots when it is full. */
    method Add(id: JobId)
      requires Valid()
      modifies this, ids
      ensures Valid() && (ids == old(ids) || fresh(ids))
      ensures Contents() == Put(old(Contents()), id)
    {
      if used >= ids.Length {
        var bigger := new JobId[ids.Length + MAX_JOB_IDS](_ => JobId(0, 0));
        for k := 0 to used
          invariant forall m :: 0 <= m < k ==> bigger[m] == ids[m]
          invariant ids == old(ids) && ids[..] == old(ids[..]) && used == old(used)
          modifies bigger
        {
          bigger[k] := ids[k];
        }
        ids := bigger;
      }
      assert ids[..used] == old(Contents());
      var i := 0;
      while i < used && ids[i] != id
        invariant 0 <= i <= used && id !in ids[..i]
      {
        i := i + 1;
      }
      if i == used {
        ids[used] := id;
        used := used + 1;
      }
    }
  }

  ghost function Put(ids: seq<JobId>, id: JobId): seq<JobId> {
    if id in ids then ids else ids + [id]
  }

  /** Adds the ids of one range; `seen` are the indices visited before. */
  method AddRange(t: IdTable, base: int, r: Range, ghost seen: seq<int>)
    requires r.step >= 1 && t.Valid() && t.Contents() == FirstVisits(base, seen, {})
    modifies t, t.ids
    ensures t.Valid() && (t.ids == old(t.ids) || fresh(t.ids))
    ensures t.Contents() == FirstVisits(base, seen + Enumerate(r), {})
  {
    var j := r.start;
    ghost var now, all := seen, seen + Enumerate(r);
    while j <= r.end
      invariant t.Valid() && (t.ids == old(t.ids) || fresh(t.ids))
      invariant now + Count(j, r.end, r.step) == all
      invariant t.Contents() == FirstVisits(base, now, {})
      decreases r.end - j
    {
      CountNext(now, j, r.end, r.step);
      t.Add(JobId(base, j));
      FirstVisitsSnoc(base, now, j, {});
      now := now + [j];
      j := j + r.step;
    }
    CountNext(now, j, r.end, r.step);
  }

  /** The loop over the ranges of an index list. */
  method AddRanges(t: IdTable, base: int, l: seq<Range>)
    requires Steps(l) && t.Valid() && t.Contents() == []
    modifies t, t.ids
    ensures t.Valid() && t.Contents() == FirstVisits(base, EnumerateAll(l), {})
  {
    for k := 0 to |l|
      invariant t.Valid() && (t.ids == old(t.ids) || fresh(t.ids))
      invariant t.Contents() == FirstVisits(base, EnumerateAll(l[..k]), {})
    {
      AddRange(t, base, l[k], EnumerateAll(l[..k]));
      EnumerateSnoc(l[..k], l[k]);
      assert l[..k + 1] == l[..k] + [l[k]];
    }
    assert l[..|l|] == l;
  }

  /** The ids that a job id with an index list stands for, each once, in order of first visit; without a list the
      job itself. None if the job id is not positive. */
  method GetJobIdList(base: int, l: seq<Range>) returns (t: IdTable?)
    requires Steps(l)
    ensures t == null <==> base <= 0
    ensures t != null ==>
              && fresh(t) && t.Valid()
              && t.Contents() == if l == [] then [JobId(base, 0)] else FirstVisits(base, EnumerateAll(l), {})
  {
    if base <= 0 {
      return null;
    }
    var ids := new IdTable();
    if l == [] {
      ids.Add(JobId(base, 0));
    } else {
      AddRanges(ids, base, l);
    }
    t := ids;
  }
}
