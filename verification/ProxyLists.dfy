/** Proxy entries: each user's list of started jobs, mirrored from the started-job list, with a pool of spare
    entries; and where a new entry goes in a list. */
module ProxyLists {
  import opened Wrappers

  type User = nat
  type Ptr = nat

  /** A job in memory: where it is, and whose. Neither changes. */
  datatype Job = Job(at: nat, user: User)

  /** What is known of a job at some time. */
  datatype Info = Info(id: int, priority: int, submitTime: int, startTime: int)

  datatype Proxy = Proxy(at: Ptr, subject: Job)

  // ----- Order -----

  /** Pending job `j` ranks ahead of `x`: better queue, submitted earlier, smaller id. */
  predicate PendAhead(j: Info, x: Info) {
    x.priority < j.priority ||
    (x.priority == j.priority && (x.submitTime > j.submitTime || (x.submitTime == j.submitTime && x.id > j.id)))
  }

  predicate StartAhead(j: Info, x: Info) {
    x.priority < j.priority ||
    (x.priority == j.priority &&
     (x.startTime > j.startTime || ((x.startTime == j.startTime || x.startTime == 0) && x.id > j.id)))
  }

  predicate Before(a: (int, int, int), b: (int, int, int)) {
    a.0 < b.0 || (a.0 == b.0 && (a.1 < b.1 || (a.1 == b.1 && a.2 < b.2)))
  }

  /** Pending jobs go by queue priority, the greatest first, then by time of submission and id, the smallest first.
      Started jobs go by start time in place of that; one without a start time is compared by its id alone. */
  lemma AheadByKey(j: Info, x: Info)
    ensures PendAhead(j, x) <==> Before((-j.priority, j.submitTime, j.id), (-x.priority, x.submitTime, x.id))
    ensures x.startTime != 0 ==>
              (StartAhead(j, x) <==> Before((-j.priority, j.startTime, j.id), (-x.priority, x.startTime, x.id)))
    ensures x.startTime == 0 <= j.startTime ==>
              (StartAhead(j, x) <==> Before((-j.priority, 0, j.id), (-x.priority, 0, x.id)))
  {}

  /** Pending jobs with different ids are strictly and totally ordered. Started jobs are not: two can each be ahead of
      the other, exactly if one of them has no start time, the larger id, and is otherwise equal. */
  lemma AheadOrders(a: Info, b: Info, c: Info)
    ensures !(PendAhead(a, b) && PendAhead(b, a)) && (a.id != b.id ==> PendAhead(a, b) || PendAhead(b, a))
    ensures PendAhead(a, b) && PendAhead(b, c) ==> PendAhead(a, c)
    ensures a.startTime >= 0 && b.startTime >= 0 ==>
              (StartAhead(a, b) && StartAhead(b, a) <==>
               a.priority == b.priority && ((a.startTime == 0 < b.startTime && a.id > b.id)
                                            || (b.startTime == 0 < a.startTime && b.id > a.id)))
  {}

  /** The two orders on jobs, as the jobs are now. */
  function Pending(now: Job -> Info): (Job, Job) -> bool {
    (a, b) => PendAhead(now(a), now(b))
  }

  function Started(now: Job -> Info): (Job, Job) -> bool {
    (a, b) => StartAhead(now(a), now(b))
  }

  predicate InOrder(l: seq<Proxy>, ahead: (Job, Job) -> bool) {
    forall i, k :: 0 <= i < k < |l| ==> ahead(l[i].subject, l[k].subject)
  }

  /** The first entry that ranks ahead of `x`, or the end of the list. */
  function FirstAhead(l: seq<Proxy>, x: Job, ahead: (Job, Job) -> bool): (i: nat)
    ensures i <= |l| && (i < |l| ==> ahead(l[i].subject, x))
    ensures forall k :: 0 <= k < i ==> !ahead(l[k].subject, x)
  {
    if l == [] || ahead(l[0].subject, x) then 0 else 1 + FirstAhead(l[1..], x, ahead)
  }

  /** A new entry goes right behind the first one ahead of it, or to the back if there is none. */
  function Place(l: seq<Proxy>, p: Proxy, ahead: (Job, Job) -> bool): (r: seq<Proxy>)
    ensures |r| == |l| + 1 && forall x :: x in r <==> x in l || x == p
  {
    var i := FirstAhead(l, p.subject, ahead);
    if i == |l| then l + [p]
    else
      assert l == l[..i + 1] + l[i + 1..];
      l[..i + 1] + [p] + l[i + 1..]
  }

  /** The job of `p` compares with every job on the list, in a way that fits the order of the list. */
  ghost predicate Compares(l: seq<Proxy>, p: Proxy, ahead: (Job, Job) -> bool) {
    && (forall k :: 0 <= k < |l| ==> (ahead(l[k].subject, p.subject) <==> !ahead(p.subject, l[k].subject)))
    && (forall i, k :: 0 <= i < k < |l| && ahead(p.subject, l[i].subject) ==> ahead(p.subject, l[k].subject))
  }

  /** In a list in order, a new job is placed in order exactly if the list is empty or the job belongs right behind the
      first one. */
  lemma PlacedExactly(l: seq<Proxy>, p: Proxy, ahead: (Job, Job) -> bool)
    requires InOrder(l, ahead) && Compares(l, p, ahead)
    ensures InOrder(Place(l, p, ahead), ahead) <==>
            l == [] || (ahead(l[0].subject, p.subject) && (|l| > 1 ==> ahead(p.subject, l[1].subject)))
  {
    var i, r := FirstAhead(l, p.subject, ahead), Place(l, p, ahead);
    if l != [] {
      if ahead(l[0].subject, p.subject) {
        assert i == 0 && r == [l[0], p] + l[1..];
        assert forall k :: 2 <= k < |r| ==> r[k] == l[k - 1];
        if |l| > 1 {
          assert r[1] == p && r[2] == l[1];
        }
      } else {
        assert i == |l|;
        assert r[|l|] == p && r[0] == l[0];
      }
    }
  }

  /** The list of slot-reserving jobs, in the order of pending jobs. */
  lemma PlacedInOrderExactly(l: seq<Proxy>, p: Proxy, now: Job -> Info)
    requires InOrder(l, Pending(now)) && forall k :: 0 <= k < |l| ==> now(l[k].subject).id != now(p.subject).id
    ensures InOrder(Place(l, p, Pending(now)), Pending(now)) <==>
            l == [] || (PendAhead(now(l[0].subject), now(p.subject))
                        && (|l| > 1 ==> PendAhead(now(p.subject), now(l[1].subject))))
  {
    forall i, k | 0 <= i < k < |l| && Pending(now)(p.subject, l[i].subject)
      ensures Pending(now)(p.subject, l[k].subject)
    {
      assert Pending(now)(l[i].subject, l[k].subject);
    }
    PlacedExactly(l, p, Pending(now));
  }

  /** A user's list of started jobs, all of which have a start time. */
  lemma StartedInOrderExactly(l: seq<Proxy>, p: Proxy, now: Job -> Info)
    requires InOrder(l, Started(now)) && forall k :: 0 <= k < |l| ==> now(l[k].subject).id != now(p.subject).id
    requires now(p.subject).startTime > 0 && forall k :: 0 <= k < |l| ==> now(l[k].subject).startTime > 0
    ensures InOrder(Place(l, p, Started(now)), Started(now)) <==>
            l == [] || (StartAhead(now(l[0].subject), now(p.subject))
                        && (|l| > 1 ==> StartAhead(now(p.subject), now(l[1].subject))))
  {
    forall i, k | 0 <= i < k < |l| && Started(now)(p.subject, l[i].subject)
      ensures Started(now)(p.subject, l[k].subject)
    {
      assert Started(now)(l[i].subject, l[k].subject);
    }
    PlacedExactly(l, p, Started(now));
  }

  /** In either order, a job that two others are ahead of is put between them. */
  lemma LaterJobJumpsAhead(a: Proxy, b: Proxy, c: Proxy, ahead: (Job, Job) -> bool)
    requires ahead(a.subject, b.subject) && ahead(a.subject, c.subject)
    requires ahead(b.subject, c.subject) && !ahead(c.subject, b.subject)
    ensures InOrder([a, b], ahead) && Place([a, b], c, ahead) == [a, c, b] && !InOrder([a, c, b], ahead)
  {
    assert FirstAhead([a, b], c.subject, ahead) == 0;
    assert !ahead([a, c, b][1].subject, [a, c, b][2].subject);
  }

  // ----- Lists and the pool -----

  const PROXY_FREE_LIST_MAX_ENTRIES := 64

  function Subjects(l: seq<Proxy>): seq<Job> {
    if l == [] then [] else Subjects(l[..|l| - 1]) + [l[|l| - 1].subject]
  }

  lemma {:induction false} SubjectsAppend(a: seq<Proxy>, b: seq<Proxy>)
    ensures Subjects(a + b) == Subjects(a) + Subjects(b)
    decreases |b|
  {
    if b == [] {
      assert a + b == a;
    } else {
      var b', x := b[..|b| - 1], b[|b| - 1];
      assert (a + b)[..|a + b| - 1] == a + b' && (a + b)[|a + b| - 1] == x;
      SubjectsAppend(a, b');
    }
  }

  lemma SubjectsOne(p: Proxy)
    ensures Subjects([p]) == [p.subject]
  {
    assert [p][..0] == [];
  }

  /** No entry occurs twice. */
  ghost predicate Apart(l: seq<Proxy>) {
    forall i, k :: 0 <= i < k < |l| ==> l[i].at != l[k].at
  }

  type Home = map<Ptr, Option<User>>

  predicate LivesAt(home: Home, q: Ptr, u: Option<User>) {
    q in home && home[q] == u
  }

  /** Every entry of the list is recorded as the user's and is about one of the user's jobs. */
  ghost predicate Homed(l: seq<Proxy>, u: User, home: Home) {
    forall x :: x in l ==> x.subject.user == u && LivesAt(home, x.at, Some(u))
  }

  lemma Around(a: seq<Proxy>, p: Proxy, b: seq<Proxy>)
    ensures multiset(Subjects(a + [p] + b)) == multiset(Subjects(a + b)) + multiset{p.subject}
  {
    SubjectsAppend(a + [p], b);
    SubjectsAppend(a, [p]);
    SubjectsAppend(a, b);
    SubjectsOne(p);
  }

  lemma ApartAround(a: seq<Proxy>, p: Proxy, b: seq<Proxy>)
    ensures Apart(a + b) && (forall x :: x in a + b ==> x.at != p.at) ==> Apart(a + [p] + b)
    ensures Apart(a + [p] + b) ==> Apart(a + b) && forall x :: x in a + b ==> x.at != p.at
  {
    var r, l, n := a + [p] + b, a + b, |a|;
    assert forall k :: 0 <= k < |l| ==> r[if k < n then k else k + 1] == l[k];
    if Apart(l) && forall x :: x in l ==> x.at != p.at {
      forall i, k | 0 <= i < k < |r|
        ensures r[i].at != r[k].at
      {
        if i != n {
          assert l[if i < n then i else i - 1] == r[i] && r[i] in l;
        }
        if k != n {
          assert l[if k < n then k else k - 1] == r[k] && r[k] in l;
        }
      }
    }
    if Apart(r) {
      assert r[n] == p;
      forall i, k | 0 <= i < k < |l|
        ensures l[i].at != l[k].at
      {
        assert r[if i < n then i else i + 1] == l[i] && r[if k < n then k else k + 1] == l[k];
      }
      forall x | x in l
        ensures x.at != p.at
      {
        var k :| 0 <= k < |l| && l[k] == x;
        assert r[if k < n then k else k + 1] == x;
      }
    }
  }

  lemma PlaceAround(l: seq<Proxy>, p: Proxy, ahead: (Job, Job) -> bool) returns (a: seq<Proxy>, b: seq<Proxy>)
    ensures l == a + b && Place(l, p, ahead) == a + [p] + b
  {
    var i := FirstAhead(l, p.subject, ahead);
    var n := if i == |l| then i else i + 1;
    a, b := l[..n], l[n..];
  }

  /** Placing an entry adds its job to the list and keeps entries apart. */
  lemma PlaceKeeps(l: seq<Proxy>, p: Proxy, ahead: (Job, Job) -> bool)
    requires Apart(l) && forall x :: x in l ==> x.at != p.at
    ensures Apart(Place(l, p, ahead))
    ensures multiset(Subjects(Place(l, p, ahead))) == multiset(Subjects(l)) + multiset{p.subject}
  {
    var a, b := PlaceAround(l, p, ahead);
    Around(a, p, b);
    ApartAround(a, p, b);
  }

  function Without(l: seq<Proxy>, i: nat): seq<Proxy> {
    if i < |l| then l[..i] + l[i + 1..] else l
  }

  /** The first entry about the job, or the length of the list. */
  function EntryOf(l: seq<Proxy>, job: Job): nat {
    if l == [] || l[0].subject == job then 0 else 1 + EntryOf(l[1..], job)
  }

  /** Taking one out removes its job, and the entry is not on the list any more. */
  lemma RemoveKeeps(l: seq<Proxy>, i: nat)
    requires Apart(l) && i < |l|
    ensures var r := Without(l, i);
            && Apart(r) && (forall x :: x in r ==> x in l && x.at != l[i].at)
            && multiset(Subjects(l)) == multiset(Subjects(r)) + multiset{l[i].subject}
  {
    assert l == l[..i] + [l[i]] + l[i + 1..];
    Around(l[..i], l[i], l[i + 1..]);
    ApartAround(l[..i], l[i], l[i + 1..]);
  }

  /** Entries of a list stay at home when an entry of another place moves. */
  lemma HomedElsewhere(l: seq<Proxy>, u: User, home: Home, home': Home, q: Ptr)
    requires Homed(l, u, home) && (forall x :: x in l ==> x.at != q)
    requires forall r :: r in home && r != q ==> r in home' && home'[r] == home[r]
    ensures Homed(l, u, home')
  {
    forall x | x in l
      ensures LivesAt(home', x.at, Some(u))
    {
      assert LivesAt(home, x.at, Some(u));
    }
  }

  type Lists = map<User, seq<Proxy>>

  function ListOf(lists: Lists, u: User): seq<Proxy> {
    if u in lists then lists[u] else []
  }

  /** Spare entries are different and not too many. */
  ghost predicate ValidSpare(spare: seq<Ptr>, home: Home) {
    && |spare| <= PROXY_FREE_LIST_MAX_ENTRIES
    && (forall i, k :: 0 <= i < k < |spare| ==> spare[i] != spare[k])
    && (forall q :: q in spare ==> LivesAt(home, q, None))
  }

  /** Each list holds different entries, all at home there: so no entry is on two lists, or on one and spare. */
  ghost predicate ValidLists(lists: Lists, home: Home) {
    forall u :: u in lists ==> Apart(lists[u]) && Homed(lists[u], u, home)
  }

  /** The job's user has as many entries about it as it has been started. */
  ghost predicate Agrees(lists: Lists, started: multiset<Job>, j: Job) {
    started[j] == multiset(Subjects(ListOf(lists, j.user)))[j]
  }

  /** The users' lists hold exactly the started jobs. */
  ghost predicate Mirrored(lists: Lists, started: multiset<Job>) {
    forall j :: Agrees(lists, started, j)
  }

  /** An entry that is on no list changes its home. */
  lemma MoveKeeps(lists: Lists, home: Home, home': Home, q: Ptr)
    requires ValidLists(lists, home)
    requires forall u :: !LivesAt(home, q, Some(u))
    requires forall r :: r in home && r != q ==> r in home' && home'[r] == home[r]
    ensures ValidLists(lists, home')
  {
    forall u | u in lists
      ensures Homed(lists[u], u, home')
    {
      forall x | x in lists[u]
        ensures x.at != q
      {
        assert LivesAt(home, x.at, Some(u));
      }
      HomedElsewhere(lists[u], u, home, home', q);
    }
  }

  lemma SpareKeeps(spare: seq<Ptr>, home: Home, home': Home, q: Ptr)
    requires ValidSpare(spare, home) && q !in spare
    requires forall r :: r in home && r != q ==> r in home' && home'[r] == home[r]
    ensures ValidSpare(spare, home')
  {
    forall r | r in spare
      ensures LivesAt(home', r, None)
    {
      assert LivesAt(home, r, None);
    }
  }

  lemma NewListKeeps(lists: Lists, home: Home, u: User, l: seq<Proxy>)
    requires ValidLists(lists, home) && Apart(l) && Homed(l, u, home)
    ensures ValidLists(lists[u := l], home)
  {}

  lemma OneMoreHomed(l: seq<Proxy>, p: Proxy, u: User, home: Home, ahead: (Job, Job) -> bool)
    requires Homed(l, u, home) && p.subject.user == u && LivesAt(home, p.at, Some(u))
    ensures Homed(Place(l, p, ahead), u, home)
  {
    var a, b := PlaceAround(l, p, ahead);
    assert forall x :: x in a + [p] + b ==> x in l || x == p;
  }

  lemma AttachKeeps(lists: Lists, home: Home, p: Proxy, ahead: (Job, Job) -> bool)
    requires ValidLists(lists, home) && p.at !in home
    ensures var u := p.subject.user;
            ValidLists(lists[u := Place(ListOf(lists, u), p, ahead)], home[p.at := Some(u)])
  {
    var u := p.subject.user;
    var l, home' := ListOf(lists, u), home[p.at := Some(u)];
    MoveKeeps(lists, home, home', p.at);
    forall x | x in l
      ensures x.at != p.at
    {
      assert LivesAt(home, x.at, Some(u));
    }
    PlaceKeeps(l, p, ahead);
    OneMoreHomed(l, p, u, home', ahead);
    NewListKeeps(lists, home', u, Place(l, p, ahead));
  }

  lemma DetachKeeps(lists: Lists, home: Home, u: User, i: nat)
    requires ValidLists(lists, home) && u in lists && i < |lists[u]|
    ensures ValidLists(lists[u := Without(lists[u], i)], home - {lists[u][i].at})
  {
    var l := lists[u];
    var q, r := l[i].at, Without(l, i);
    RemoveKeeps(l, i);
    assert l[i] in l && LivesAt(home, q, Some(u));
    assert Homed(r, u, home);
    HomedElsewhere(r, u, home, home - {q}, q);
    forall w | w in lists && w != u
      ensures Homed(lists[w], w, home - {q})
    {
      forall x | x in lists[w]
        ensures x.at != q
      {
        assert LivesAt(home, x.at, Some(w));
      }
      HomedElsewhere(lists[w], w, home, home - {q}, q);
    }
  }

  /** A list and the started jobs gain one job of the user, or lose one. */
  lemma MirrorAdd(lists: Lists, started: multiset<Job>, job: Job, l': seq<Proxy>)
    requires Mirrored(lists, started)
    requires multiset(Subjects(l')) == multiset(Subjects(ListOf(lists, job.user))) + multiset{job}
    ensures Mirrored(lists[job.user := l'], started + multiset{job})
  {
    var lists', started' := lists[job.user := l'], started + multiset{job};
    forall j: Job
      ensures Agrees(lists', started', j)
    {
      assert Agrees(lists, started, j);
    }
  }

  lemma MirrorRemove(lists: Lists, started: multiset<Job>, job: Job, l': seq<Proxy>)
    requires Mirrored(lists, started)
    requires multiset(Subjects(ListOf(lists, job.user))) == multiset(Subjects(l')) + multiset{job}
    ensures Mirrored(lists[job.user := l'], started - multiset{job})
  {
    var lists', started' := lists[job.user := l'], started - multiset{job};
    forall j: Job
      ensures Agrees(lists', started', j)
    {
      assert Agrees(lists, started, j);
    }
  }

  lemma AttachSpare(spare: seq<Ptr>, home: Home, p: Proxy)
    requires ValidSpare(spare, home) && p.at !in home
    ensures ValidSpare(spare, home[p.at := Some(p.subject.user)])
  {
    forall r | r in spare
      ensures r != p.at
    {
      assert LivesAt(home, r, None);
    }
    SpareKeeps(spare, home, home[p.at := Some(p.subject.user)], p.at);
  }

  lemma AttachMirrors(lists: Lists, home: Home, started: multiset<Job>, p: Proxy, ahead: (Job, Job) -> bool)
    requires ValidLists(lists, home) && Mirrored(lists, started) && p.at !in home
    ensures var u := p.subject.user;
            Mirrored(lists[u := Place(ListOf(lists, u), p, ahead)], started + multiset{p.subject})
  {
    var u := p.subject.user;
    var l := ListOf(lists, u);
    forall x | x in l
      ensures x.at != p.at
    {
      assert LivesAt(home, x.at, Some(u));
    }
    PlaceKeeps(l, p, ahead);
    MirrorAdd(lists, started, p.subject, Place(l, p, ahead));
  }

  lemma DetachSpare(lists: Lists, spare: seq<Ptr>, home: Home, u: User, i: nat)
    requires ValidLists(lists, home) && ValidSpare(spare, home) && u in lists && i < |lists[u]|
    ensures lists[u][i].at in home && ValidSpare(spare, home - {lists[u][i].at})
  {
    var q := lists[u][i].at;
    assert lists[u][i] in lists[u] && LivesAt(home, q, Some(u));
    forall r | r in spare
      ensures r != q
    {
      assert LivesAt(home, r, None);
    }
    SpareKeeps(spare, home, home - {q}, q);
  }

  lemma DetachMirrors(lists: Lists, home: Home, started: multiset<Job>, u: User, i: nat)
    requires ValidLists(lists, home) && Mirrored(lists, started) && u in lists && i < |lists[u]|
    ensures Mirrored(lists[u := Without(lists[u], i)], started - multiset{lists[u][i].subject})
  {
    var l := lists[u];
    var job := l[i].subject;
    RemoveKeeps(l, i);
    assert l[i] in l && job.user == u;
    MirrorRemove(lists, started, job, Without(l, i));
  }

  /** A job is found on its user's list exactly when it is among the started jobs; and the first entry about it is. */
  lemma LeaveFinds(lists: Lists, started: multiset<Job>, job: Job)
    requires Mirrored(lists, started)
    ensures var l := ListOf(lists, job.user);
            && EntryOf(l, job) <= |l|
            && (job in started <==> EntryOf(l, job) < |l|)
            && (EntryOf(l, job) < |l| ==> l[EntryOf(l, job)].subject == job)
            && forall k :: 0 <= k < EntryOf(l, job) ==> l[k].subject != job
  {
    var l := ListOf(lists, job.user);
    assert Agrees(lists, started, job);
    EntryOfExactly(l, job);
  }

  lemma {:induction false} EntryOfExactly(l: seq<Proxy>, job: Job)
    ensures EntryOf(l, job) <= |l|
    ensures job in Subjects(l) <==> EntryOf(l, job) < |l|
    ensures EntryOf(l, job) < |l| ==> l[EntryOf(l, job)].subject == job
    ensures forall k :: 0 <= k < EntryOf(l, job) ==> l[k].subject != job
  {
    if l == [] {
    } else {
      assert l == [l[0]] + l[1..];
      SubjectsAppend([l[0]], l[1..]);
      SubjectsOne(l[0]);
      EntryOfExactly(l[1..], job);
    }
  }

  class Proxies {
    var lists: Lists
    var spare: seq<Ptr>
    var next: Ptr
    /** The started jobs, and where each entry is: on a user's list, or spare. */
    ghost var started: multiset<Job>
    ghost var home: Home

    ghost predicate Valid()
      reads this
    {
      && ValidSpare(spare, home) && ValidLists(lists, home) && Mirrored(lists, started)
      && forall q :: q in home ==> q < next
    }

    constructor ()
      ensures Valid() && started == multiset{}
    {
      lists, spare, next, started, home := map[], [], 0, multiset{}, map[];
    }

    /** An entry for a job: a spare one if there is any. It is nowhere else. */
    method Create() returns (q: Ptr)
      requires Valid()
      modifies this`spare, this`next, this`home
      ensures Valid() && q !in home && q < next
      ensures if old(spare) == [] then spare == [] && q == old(next) else old(spare) == [q] + spare
    {
      if spare == [] {
        q, next := next, next + 1;
      } else {
        q := spare[0];
        assert q in spare && LivesAt(home, q, None);
        MoveKeeps(lists, home, home - {q}, q);
        assert forall r :: r in spare[1..] ==> r in spare;
        SpareKeeps(spare[1..], home, home - {q}, q);
        spare, home := spare[1..], home - {q};
      }
    }

    /** An entry that has been taken off its list becomes spare, unless there are enough. */
    method Destroy(q: Ptr)
      requires Valid() && q !in home && q < next
      modifies this`spare, this`home
      ensures Valid()
      ensures spare == if |old(spare)| < PROXY_FREE_LIST_MAX_ENTRIES then old(spare) + [q] else old(spare)
    {
      if |spare| < PROXY_FREE_LIST_MAX_ENTRIES {
        assert forall r :: r in spare ==> LivesAt(home, r, None);
        MoveKeeps(lists, home, home[q := None], q);
        SpareKeeps(spare, home, home[q := None], q);
        spare, home := spare + [q], home[q := None];
      }
    }

    /** A job enters the started-job list. */
    method Enter(job: Job, now: Job -> Info)
      requires Valid()
      modifies this
      ensures Valid() && started == old(started) + multiset{job}
      ensures exists q :: var u := job.user;
                lists == old(lists)[u := Place(ListOf(old(lists), u), Proxy(q, job), Started(now))]
    {
      var q := Create();
      Attach(Proxy(q, job), now);
    }

    /** A filled-in entry goes on the list of its job's user. */
    method Attach(p: Proxy, now: Job -> Info)
      requires Valid() && p.at !in home && p.at < next
      modifies this`lists, this`home, this`started
      ensures Valid() && started == old(started) + multiset{p.subject}
      ensures var u := p.subject.user;
              lists == old(lists)[u := Place(ListOf(old(lists), u), p, Started(now))]
    {
      var u := p.subject.user;
      ghost var home' := home[p.at := Some(u)];
      AttachSpare(spare, home, p);
      AttachKeeps(lists, home, p, Started(now));
      AttachMirrors(lists, home, started, p, Started(now));
      lists := lists[u := Place(ListOf(lists, u), p, Started(now))];
      home, started := home', started + multiset{p.subject};
    }

    /** A job leaves the started-job list: the first entry about it goes. False if there is none. */
    method Leave(job: Job) returns (ok: bool)
      requires Valid()
      modifies this
      ensures Valid() && ok == (job in old(started)) && started == old(started) - multiset{job}
      ensures var l := ListOf(old(lists), job.user);
              lists == if ok then old(lists)[job.user := Without(l, EntryOf(l, job))] else old(lists)
    {
      var i := Find(job);
      LeaveFinds(lists, started, job);
      ok := i < |ListOf(lists, job.user)|;
      if ok {
        var q := Detach(job.user, i);
        Destroy(q);
      }
    }

    /** The first entry about the job. */
    method Find(job: Job) returns (i: nat)
      ensures i == EntryOf(ListOf(lists, job.user), job)
    {
      var l := ListOf(lists, job.user);
      i := 0;
      while i < |l| && l[i].subject != job
        invariant 0 <= i <= |l| && EntryOf(l, job) == i + EntryOf(l[i..], job)
      {
        assert l[i..][1..] == l[i + 1..];
        i := i + 1;
      }
    }

    /** An entry is taken off its list and is nowhere then. */
    method Detach(u: User, i: nat) returns (q: Ptr)
      requires Valid() && i < |ListOf(lists, u)|
      modifies this`lists, this`home, this`started
      ensures Valid() && q !in home && q < next
      ensures lists == old(lists)[u := Without(ListOf(old(lists), u), i)]
      ensures started == old(started) - multiset{ListOf(old(lists), u)[i].subject}
    {
      q := lists[u][i].at;
      ghost var job := lists[u][i].subject;
      DetachSpare(lists, spare, home, u, i);
      DetachKeeps(lists, home, u, i);
      DetachMirrors(lists, home, started, u, i);
      lists := lists[u := Without(lists[u], i)];
      home, started := home - {q}, started - multiset{job};
    }
  }
}
