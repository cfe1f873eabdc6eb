/** The history of a job: its events in order of time, and the time it spent in each state. */
module JobHistory {
  import opened JobStatus

  datatype Kind = NewJob | Switch | Mig | Chkpnt | SigAct | Other(code: nat)

  datatype Reason = ExitZombie | FinishPend | ExitKillZombie | ExitRerun

  datatype Ev = Ev(kind: Kind, time: int, status: Status, reasons: set<Reason>, idx: int, timeEvent: int)

  /** In order of time. */
  predicate Sorted(es: seq<Ev>) {
    forall i, j :: 0 <= i < j < |es| ==> es[i].time <= es[j].time
  }

  // ----- Collecting events -----

  /** Whether `e` is out of order or repeats the event before it. */
  predicate Refused(e: Ev, before: Ev) {
    e.time < before.time ||
    match e.kind
    case Switch => e.time == before.time && before.kind == Switch
    case Mig => false
    case Chkpnt => false
    case SigAct => false
    case _ =>
      && e.time == before.time && e.kind == before.kind && e.status == before.status
      && e.idx == before.idx && e.timeEvent == before.timeEvent
  }

  /** An earlier event is refused and a later one is not. At the same time: migration, checkpoint and signal events are
      never refused, a queue switch exactly after another, and any other event exactly if it says the same. */
  lemma RefusedExactly(e: Ev, before: Ev)
    ensures e.time < before.time ==> Refused(e, before)
    ensures e.time > before.time ==> !Refused(e, before)
    ensures e.time == before.time ==>
              (Refused(e, before) <==>
               && e.kind == before.kind && e.kind !in {Mig, Chkpnt, SigAct}
               && (e.kind != Switch ==>
                     e.status == before.status && e.idx == before.idx && e.timeEvent == before.timeEvent))
  {}

  /** The events kept when a whole log is read. */
  function Collected(log: seq<Ev>): (es: seq<Ev>)
    ensures |es| <= |log| && (log != [] ==> es != [])
  {
    if log == [] then []
    else
      var es, e := Collected(log[..|log| - 1]), log[|log| - 1];
      if es == [] || !Refused(e, es[|es| - 1]) then es + [e] else es
  }

  /** No event of the log would be refused after the one before it. */
  predicate NoneRefused(log: seq<Ev>) {
    forall i :: 0 < i < |log| ==> !Refused(log[i], log[i - 1])
  }

  lemma NoneRefusedSnoc(log: seq<Ev>, e: Ev)
    ensures NoneRefused(log + [e]) <==> NoneRefused(log) && (log == [] || !Refused(e, log[|log| - 1]))
  {
    var all := log + [e];
    if NoneRefused(all) {
      forall i | 0 < i < |log|
        ensures !Refused(log[i], log[i - 1])
      {
        assert !Refused(all[i], all[i - 1]);
      }
      assert log != [] ==> !Refused(all[|log|], all[|log| - 1]);
    }
  }

  lemma SameFront(a: seq<Ev>, b: seq<Ev>, e: Ev, f: Ev)
    ensures a + [e] == b + [f] <==> a == b && e == f
  {
    if a + [e] == b + [f] {
      assert a == (a + [e])[..|a|] == (b + [f])[..|b|] == b;
      assert e == (a + [e])[|a|];
    }
  }

  /** What is kept is in order; and everything is kept exactly if no event would be refused after the one before it. */
  lemma {:induction false} CollectedExactly(log: seq<Ev>)
    ensures Sorted(Collected(log)) && (Collected(log) == log <==> NoneRefused(log))
    decreases |log|
  {
    if log != [] {
      var front, e := log[..|log| - 1], log[|log| - 1];
      assert log == front + [e];
      CollectedExactly(front);
      NoneRefusedSnoc(front, e);
      SameFront(Collected(front), front, e, e);
    }
  }

  /** The list cut off behind position `at`, with `e` added. */
  function Extended(es: seq<Ev>, at: nat, e: Ev): seq<Ev> {
    if at < |es| then es[..at + 1] + [e] else [e]
  }

  lemma SortedAppend(es: seq<Ev>, at: nat, e: Ev)
    requires Sorted(es) && (at < |es| ==> es[at].time <= e.time)
    ensures Sorted(Extended(es, at, e))
    ensures Extended(es, at, e)[|Extended(es, at, e)| - 1] == e
  {}

  class JobRecord {
    /** The linked list from `eventhead`, and the position of `eventtail` in it. */
    var events: seq<Ev>
    var tail: nat
    var currentStatus: Status
    var reasons: set<Reason>
    var endTime: int
    var nonNewFromHead: bool

    ghost predicate Valid()
      reads this
    {
      Sorted(events) && (if events == [] then tail == 0 else tail < |events|)
    }

    constructor ()
      ensures Valid() && events == [] && !nonNewFromHead
    {
      events, tail, currentStatus, reasons, endTime, nonNewFromHead := [], 0, {}, {}, 0, false;
    }

    /** Adds an event behind `eventtail`. When the log is read on after a first look at its head, the tail goes
        back to the first event, and what followed is dropped with the next event accepted. */
    method AddEvent(e: Ev, fromHead: bool, laterFile: bool) returns (ok: bool)
      requires Valid()
      modifies this
      ensures Valid()
      ensures currentStatus == e.status && reasons == e.reasons
      ensures endTime == if DONE in e.status || EXIT in e.status then e.time else old(endTime)
      ensures var rewound := !fromHead && old(nonNewFromHead) && laterFile && e.kind != NewJob;
              var at := if rewound then 0 else old(tail);
              && ok == (old(events) == [] || !Refused(e, old(events)[at]))
              && (ok ==> events == Extended(old(events), at, e) && tail == |events| - 1 && events[tail] == e)
              && (!ok ==> events == old(events) && tail == at)
              && nonNewFromHead == ((ok && fromHead && e.kind != NewJob) || (!rewound && old(nonNewFromHead)))
    {
      currentStatus, reasons := e.status, e.reasons;
      if DONE in e.status || EXIT in e.status {
        endTime := e.time;
      }
      if !fromHead && nonNewFromHead && laterFile && e.kind != NewJob {
        tail, nonNewFromHead := 0, false;
      }
      ok := Append(e);
      if ok && fromHead && e.kind != NewJob {
        nonNewFromHead := true;
      }
    }

    /** Reads a log from its beginning to its end. */
    method AddEvents(log: seq<Ev>, laterFile: bool)
      requires Valid() && events == [] && !nonNewFromHead
      modifies this
      ensures Valid() && events == Collected(log)
      ensures log != [] ==> currentStatus == log[|log| - 1].status
    {
      for i := 0 to |log|
        invariant Valid() && !nonNewFromHead && events == Collected(log[..i])
        invariant tail == if events == [] then 0 else |events| - 1
        invariant i > 0 ==> currentStatus == log[i - 1].status
      {
        assert log[..i + 1][..i] == log[..i];
        assert Extended(events, tail, log[i]) == events + [log[i]];
        var _ := AddEvent(log[i], false, laterFile);
      }
      assert log[..|log|] == log;
    }

    method Append(e: Ev) returns (ok: bool)
      requires Valid()
      modifies this`events, this`tail
      ensures Valid() && ok == (old(events) == [] || !Refused(e, old(events)[old(tail)]))
      ensures ok ==> events == Extended(old(events), old(tail), e) && tail == |events| - 1 && events[tail] == e
      ensures !ok ==> events == old(events) && tail == old(tail)
    {
      ok := events == [] || !Refused(e, events[tail]);
      if ok {
        SortedAppend(events, tail, e);
        events := Extended(events, tail, e);
        tail := |events| - 1;
      }
    }
  }

  // ----- Accounting -----

  datatype Buckets = Buckets(pend: int, psusp: int, run: int, ususp: int, ssusp: int, unknown: int)

  const EMPTY := Buckets(0, 0, 0, 0, 0, 0)

  function Total(b: Buckets): int {
    b.pend + b.psusp + b.run + b.ususp + b.ssusp + b.unknown
  }

  function Plus(a: Buckets, b: Buckets): Buckets {
    Buckets(a.pend + b.pend, a.psusp + b.psusp, a.run + b.run, a.ususp + b.ususp, a.ssusp + b.ssusp,
            a.unknown + b.unknown)
  }

  /** An event without a status of its own goes on with the last one. */
  function Resolved(e: Ev, last: Status): Status {
    if e.status == {} then last else e.status
  }

  /** The next event that is not a queue switch, or the end. */
  function NextIdx(es: seq<Ev>, i: nat): (k: nat)
    requires i <= |es|
    ensures i <= k <= |es| && (k < |es| ==> es[k].kind != Switch)
    ensures forall m :: i <= m < k ==> es[m].kind == Switch
    decreases |es| - i
  {
    if i < |es| && es[i].kind == Switch then NextIdx(es, i + 1) else i
  }

  /** The status values that the accounting tells apart. */
  datatype Class = Psusp | Pend | RunWait | Run | Ssusp | Ususp | Done | Exit | PostFinish | Unknown

  function ClassOf(s: Status): Class {
    if s == {PSUSP} then Psusp
    else if s == {PEND} then Pend
    else if s == {RUN, WAIT} then RunWait
    else if s == {RUN} then Run
    else if s == {SSUSP} then Ssusp
    else if s == {USUSP} then Ususp
    else if s == {DONE} then Done
    else if s == {EXIT} then Exit
    else if PDONE in s || PERR in s then PostFinish
    else Unknown
  }

  /** What is known of the event after: none, or whether it is a post-done. */
  datatype Next = NoNext | Next(pdone: bool)

  function NextAt(es: seq<Ev>, k: nat): Next {
    if k < |es| then Next(PDONE in es[k].status) else NoNext
  }

  predicate PendAfterDone(reasons: set<Reason>, next: Next) {
    FinishPend in reasons || (next.Next? && !next.pdone)
  }

  predicate PendAfterExit(reasons: set<Reason>, next: Next) {
    ExitRerun in reasons || FinishPend in reasons || next.Next?
  }

  predicate Zombie(reasons: set<Reason>) {
    ExitKillZombie in reasons || ExitZombie in reasons
  }

  /** Where the time `d` from an event to the next is put; `was` is the class of the status before. */
  function Charge(c: Class, reasons: set<Reason>, next: Next, was: Class, d: int): Buckets {
    match c
    case Psusp => EMPTY.(psusp := d)
    case Pend => EMPTY.(pend := d)
    case RunWait => EMPTY.(pend := d)
    case Run => EMPTY.(run := d)
    case Ssusp => EMPTY.(ssusp := d)
    case Ususp => if was == RunWait then EMPTY.(pend := d) else EMPTY.(ususp := d)
    case Done => if PendAfterDone(reasons, next) then EMPTY.(pend := d) else EMPTY
    case Exit =>
      EMPTY.(pend := if PendAfterExit(reasons, next) then d else 0, unknown := if Zombie(reasons) then d else 0)
    case PostFinish => EMPTY
    case Unknown => EMPTY.(unknown := d)
  }

  /** How many buckets the time after an event goes to. */
  function Times(c: Class, reasons: set<Reason>, next: Next): int {
    match c
    case Done => if PendAfterDone(reasons, next) then 1 else 0
    case Exit => (if PendAfterExit(reasons, next) then 1 else 0) + (if Zombie(reasons) then 1 else 0)
    case PostFinish => 0
    case _ => 1
  }

  /** What an interval `d` that goes to `times` buckets adds beyond itself. */
  function Over(times: int, d: int): int {
    if times >= 2 then d else if times == 1 then 0 else -d
  }

  lemma ChargeTotal(c: Class, reasons: set<Reason>, next: Next, was: Class, d: int)
    ensures 0 <= Times(c, reasons, next) <= 2
    ensures Times(c, reasons, next) == 0 ==> Total(Charge(c, reasons, next, was, d)) == 0
    ensures Times(c, reasons, next) == 1 ==> Total(Charge(c, reasons, next, was, d)) == d
    ensures Times(c, reasons, next) == 2 ==> Total(Charge(c, reasons, next, was, d)) == d + d
  {
    var b := Charge(c, reasons, next, was, d);
    match c
    case Psusp => assert b == Buckets(0, d, 0, 0, 0, 0);
    case Pend => assert b == Buckets(d, 0, 0, 0, 0, 0);
    case RunWait => assert b == Buckets(d, 0, 0, 0, 0, 0);
    case Run => assert b == Buckets(0, 0, d, 0, 0, 0);
    case Ssusp => assert b == Buckets(0, 0, 0, 0, d, 0);
    case Ususp => assert b == if was == RunWait then Buckets(d, 0, 0, 0, 0, 0) else Buckets(0, 0, 0, d, 0, 0);
    case Done => assert b == Buckets(if PendAfterDone(reasons, next) then d else 0, 0, 0, 0, 0, 0);
    case Exit =>
      var p, z := if PendAfterExit(reasons, next) then d else 0, if Zombie(reasons) then d else 0;
      assert b == Buckets(p, 0, 0, 0, 0, z);
    case PostFinish => assert b == EMPTY;
    case Unknown => assert b == Buckets(0, 0, 0, 0, 0, d);
  }

  function Max(a: int, b: int): int { if a < b then b else a }

  /** The time from event `i` to the next event, or until now. */
  function Interval(es: seq<Ev>, i: nat, now: int): int
    requires i < |es|
  {
    var k := NextIdx(es, i + 1);
    Max(0, (if k < |es| then es[k].time else now) - es[i].time)
  }

  /** The buckets filled by the events from `i` on, after status `last`. */
  function Account(es: seq<Ev>, i: nat, last: Status, now: int): Buckets
    requires i <= |es|
    decreases |es| - i
  {
    if i == |es| then EMPTY
    else
      var s := Resolved(es[i], last);
      var next := NextAt(es, NextIdx(es, i + 1));
      var b := if es[i].kind == Switch then EMPTY
               else Charge(ClassOf(s), es[i].reasons, next, ClassOf(last), Interval(es, i, now));
      Plus(b, Account(es, i + 1, s, now))
  }

  // ----- What each bucket is -----

  /** The status in force after the first `n` events: that of the last of them that has one, or `last`. */
  function InForce(es: seq<Ev>, n: nat, last: Status): Status
    requires n <= |es|
  {
    if n == 0 then last else if es[n - 1].status != {} then es[n - 1].status else InForce(es, n - 1, last)
  }

  /** The time after the events from `i` on that are chosen and are no queue switches, each until the next event. */
  function Spent(es: seq<Ev>, i: nat, now: int, chosen: nat -> bool): int
    requires i <= |es|
    decreases |es| - i
  {
    if i == |es| then 0
    else (if es[i].kind != Switch && chosen(i) then Interval(es, i, now) else 0) + Spent(es, i + 1, now, chosen)
  }

  function With(es: seq<Ev>, last: Status, s: Status): nat -> bool {
    (k: nat) => k < |es| && InForce(es, k + 1, last) == s
  }

  /** A job stopped by its user; it goes on pending if it was to run but had to wait. */
  function StoppedByUser(es: seq<Ev>, last: Status): nat -> bool {
    (k: nat) => k < |es| && InForce(es, k + 1, last) == {USUSP} && InForce(es, k, last) != {RUN, WAIT}
  }

  /** A job that is done or has exited, and is started again or has some event after that. */
  predicate GoesOn(es: seq<Ev>, k: nat, last: Status)
    requires k < |es|
  {
    var s, reasons, next := InForce(es, k + 1, last), es[k].reasons, NextIdx(es, k + 1);
    || (s == {DONE} && (FinishPend in reasons || (next < |es| && PDONE !in es[next].status)))
    || (s == {EXIT} && (FinishPend in reasons || ExitRerun in reasons || next < |es|))
  }

  function Pending(es: seq<Ev>, last: Status): nat -> bool {
    (k: nat) => k < |es| &&
         (|| InForce(es, k + 1, last) in {{PEND}, {RUN, WAIT}}
          || (InForce(es, k + 1, last) == {USUSP} && InForce(es, k, last) == {RUN, WAIT})
          || GoesOn(es, k, last))
  }

  function Unaccounted(es: seq<Ev>, last: Status): nat -> bool {
    (k: nat) => k < |es| &&
         (var s := InForce(es, k + 1, last);
          || (s == {EXIT} && (ExitZombie in es[k].reasons || ExitKillZombie in es[k].reasons))
          || (PDONE !in s && PERR !in s
              && s !in {{PSUSP}, {PEND}, {RUN, WAIT}, {RUN}, {SSUSP}, {USUSP}, {DONE}, {EXIT}}))
  }

  /** Which status goes to which bucket. */
  lemma ChargeExactly(s: Status, reasons: set<Reason>, next: Next, was: Status, d: int)
    ensures var b := Charge(ClassOf(s), reasons, next, ClassOf(was), d);
            && b.run == (if s == {RUN} then d else 0)
            && b.psusp == (if s == {PSUSP} then d else 0)
            && b.ssusp == (if s == {SSUSP} then d else 0)
            && b.ususp == (if s == {USUSP} && was != {RUN, WAIT} then d else 0)
            && b.pend == (if || s in {{PEND}, {RUN, WAIT}} || (s == {USUSP} && was == {RUN, WAIT})
                             || (s == {DONE} && (FinishPend in reasons || (next.Next? && !next.pdone)))
                             || (s == {EXIT} && (FinishPend in reasons || ExitRerun in reasons || next.Next?))
                          then d else 0)
            && b.unknown ==
               (if || (s == {EXIT} && (ExitZombie in reasons || ExitKillZombie in reasons))
                   || (PDONE !in s && PERR !in s
                       && s !in {{PSUSP}, {PEND}, {RUN, WAIT}, {RUN}, {SSUSP}, {USUSP}, {DONE}, {EXIT}})
                then d else 0)
  {
    assert WAIT in {RUN, WAIT} && RUN in {RUN} && PEND in {PEND} && PSUSP in {PSUSP} && SSUSP in {SSUSP};
    assert USUSP in {USUSP} && DONE in {DONE} && EXIT in {EXIT} && WAIT !in {RUN};
    RunWaitOnly(was);
  }

  lemma RunWaitOnly(s: Status)
    ensures ClassOf(s) == RunWait <==> s == {RUN, WAIT}
  {
    assert WAIT in {RUN, WAIT} && WAIT !in {PSUSP} && WAIT !in {PEND};
  }

  /** What the event at `k` adds. */
  function Share(es: seq<Ev>, k: nat, last: Status, now: int): Buckets
    requires k < |es|
  {
    if es[k].kind == Switch then EMPTY
    else
      Charge(ClassOf(InForce(es, k + 1, last)), es[k].reasons, NextAt(es, NextIdx(es, k + 1)),
             ClassOf(InForce(es, k, last)), Interval(es, k, now))
  }

  datatype Bucket = PendB | PsuspB | RunB | UsuspB | SsuspB | UnknownB

  function In(b: Buckets, which: Bucket): int {
    match which
    case PendB => b.pend
    case PsuspB => b.psusp
    case RunB => b.run
    case UsuspB => b.ususp
    case SsuspB => b.ssusp
    case UnknownB => b.unknown
  }

  lemma InPlus(a: Buckets, b: Buckets, which: Bucket)
    ensures In(Plus(a, b), which) == In(a, which) + In(b, which) && In(EMPTY, which) == 0
  {}

  /** The event at `k` adds its time or nothing to a bucket. */
  predicate Adds(es: seq<Ev>, k: nat, last: Status, now: int, which: Bucket, chosen: nat -> bool)
    requires k < |es|
  {
    In(Share(es, k, last, now), which) == if es[k].kind != Switch && chosen(k) then Interval(es, k, now) else 0
  }

  lemma AccountShare(es: seq<Ev>, i: nat, last: Status, now: int)
    requires i < |es|
    ensures Account(es, i, InForce(es, i, last), now)
         == Plus(Share(es, i, last, now), Account(es, i + 1, InForce(es, i + 1, last), now))
  {
    assert Resolved(es[i], InForce(es, i, last)) == InForce(es, i + 1, last);
  }

  lemma SpentStep(es: seq<Ev>, i: nat, now: int, chosen: nat -> bool)
    requires i < |es|
    ensures Spent(es, i, now, chosen) ==
            (if es[i].kind != Switch && chosen(i) then Interval(es, i, now) else 0) + Spent(es, i + 1, now, chosen)
  {}

  lemma {:induction false} BucketIs(es: seq<Ev>, i: nat, last: Status, now: int, which: Bucket, chosen: nat -> bool)
    requires i <= |es| && forall k :: 0 <= k < |es| ==> Adds(es, k, last, now, which, chosen)
    ensures In(Account(es, i, InForce(es, i, last), now), which) == Spent(es, i, now, chosen)
    decreases |es| - i
  {
    if i == |es| {
      InPlus(EMPTY, EMPTY, which);
    } else {
      BucketIs(es, i + 1, last, now, which, chosen);
      AccountShare(es, i, last, now);
      InPlus(Share(es, i, last, now), Account(es, i + 1, InForce(es, i + 1, last), now), which);
      assert Adds(es, i, last, now, which, chosen);
      SpentStep(es, i, now, chosen);
    }
  }

  /** Main result: each bucket holds exactly the time spent in its states. */
  lemma BucketsExactly(es: seq<Ev>, last: Status, now: int)
    ensures var b := Account(es, 0, last, now);
            && b.run == Spent(es, 0, now, With(es, last, {RUN}))
            && b.psusp == Spent(es, 0, now, With(es, last, {PSUSP}))
            && b.ssusp == Spent(es, 0, now, With(es, last, {SSUSP}))
            && b.ususp == Spent(es, 0, now, StoppedByUser(es, last))
            && b.pend == Spent(es, 0, now, Pending(es, last))
            && b.unknown == Spent(es, 0, now, Unaccounted(es, last))
  {
    forall k | 0 <= k < |es|
      ensures Adds(es, k, last, now, RunB, With(es, last, {RUN}))
      ensures Adds(es, k, last, now, PsuspB, With(es, last, {PSUSP}))
      ensures Adds(es, k, last, now, SsuspB, With(es, last, {SSUSP}))
      ensures Adds(es, k, last, now, UsuspB, StoppedByUser(es, last))
      ensures Adds(es, k, last, now, PendB, Pending(es, last))
      ensures Adds(es, k, last, now, UnknownB, Unaccounted(es, last))
    {
      if es[k].kind != Switch {
        ShareExactly(es, k, last, now);
      }
    }
    BucketIs(es, 0, last, now, RunB, With(es, last, {RUN}));
    BucketIs(es, 0, last, now, PsuspB, With(es, last, {PSUSP}));
    BucketIs(es, 0, last, now, SsuspB, With(es, last, {SSUSP}));
    BucketIs(es, 0, last, now, UsuspB, StoppedByUser(es, last));
    BucketIs(es, 0, last, now, PendB, Pending(es, last));
    BucketIs(es, 0, last, now, UnknownB, Unaccounted(es, last));
  }

  lemma ShareExactly(es: seq<Ev>, k: nat, last: Status, now: int)
    requires k < |es| && es[k].kind != Switch
    ensures var b, d := Share(es, k, last, now), Interval(es, k, now);
            && b.run == (if With(es, last, {RUN})(k) then d else 0)
            && b.psusp == (if With(es, last, {PSUSP})(k) then d else 0)
            && b.ssusp == (if With(es, last, {SSUSP})(k) then d else 0)
            && b.ususp == (if StoppedByUser(es, last)(k) then d else 0)
            && b.pend == (if Pending(es, last)(k) then d else 0)
            && b.unknown == (if Unaccounted(es, last)(k) then d else 0)
  {
    var s, was, next := InForce(es, k + 1, last), InForce(es, k, last), NextIdx(es, k + 1);
    ChargeExactly(s, es[k].reasons, NextAt(es, next), was, Interval(es, k, now));
  }

  /** Looks for the next event that is not a queue switch. */
  method FindNext(es: seq<Ev>, i: nat) returns (next: nat)
    requires i <= |es|
    ensures next == NextIdx(es, i)
  {
    next := i;
    while next < |es| && es[next].kind == Switch
      invariant i <= next <= |es| && NextIdx(es, next) == NextIdx(es, i)
    {
      next := next + 1;
    }
  }

  lemma AccountStep(b: Buckets, es: seq<Ev>, i: nat, last: Status, now: int)
    requires i < |es|
    ensures var s := Resolved(es[i], last);
            var next := NextAt(es, NextIdx(es, i + 1));
            var c := Charge(ClassOf(s), es[i].reasons, next, ClassOf(last), Interval(es, i, now));
            Plus(b, Account(es, i, last, now)) ==
              Plus(if es[i].kind == Switch then b else Plus(b, c), Account(es, i + 1, s, now))
  {}

  /** The time from an event at `timeStamp` to the next one, and what is carried over to that one. */
  method Lapse(es: seq<Ev>, next: nat, timeStamp: int, carried: int, now: int) returns (d: int, nextTimeStamp: int)
    ensures d == Max(0, (if next < |es| then es[next].time else now) - timeStamp)
    ensures nextTimeStamp == if next >= |es| then carried else if es[next].time < timeStamp then timeStamp else 0
  {
    nextTimeStamp := carried;
    if next >= |es| {
      d := now - timeStamp;
      if d < 0 {
        d := 0;
      }
    } else {
      d := es[next].time - timeStamp;
      if d < 0 {
        d, nextTimeStamp := 0, timeStamp;
      } else {
        nextTimeStamp := 0;
      }
    }
  }

  /** The loop over a job's events. `last` is what the status variable holds at the start. */
  method DisplayHist(es: seq<Ev>, last: Status, now: int) returns (b: Buckets)
    requires Sorted(es)
    ensures b == Account(es, 0, last, now)
    ensures b.run == Spent(es, 0, now, With(es, last, {RUN})) && b.psusp == Spent(es, 0, now, With(es, last, {PSUSP}))
    ensures b.ssusp == Spent(es, 0, now, With(es, last, {SSUSP}))
    ensures b.ususp == Spent(es, 0, now, StoppedByUser(es, last)) && b.pend == Spent(es, 0, now, Pending(es, last))
    ensures b.unknown == Spent(es, 0, now, Unaccounted(es, last))
  {
    b := AddUp(es, last, now);
    BucketsExactly(es, last, now);
  }

  method AddUp(es: seq<Ev>, last: Status, now: int) returns (b: Buckets)
    requires Sorted(es)
    ensures b == Account(es, 0, last, now)
  {
    b := EMPTY;
    var laststatus, nextTimeStamp, i := last, 0, 0;
    while i < |es|
      invariant 0 <= i <= |es| && nextTimeStamp == 0
      invariant Plus(b, Account(es, i, laststatus, now)) == Account(es, 0, last, now)
    {
      var next := FindNext(es, i + 1);
      var timeStamp := if nextTimeStamp > 0 then nextTimeStamp else es[i].time;
      var d;
      d, nextTimeStamp := Lapse(es, next, timeStamp, nextTimeStamp, now);
      b, laststatus := Book(b, es, i, next, laststatus, d, now);
      i := i + 1;
    }
  }

  /** Books the time `d` after event `i`. */
  method Book(b: Buckets, es: seq<Ev>, i: nat, next: nat, last: Status, d: int, ghost now: int)
    returns (b': Buckets, s: Status)
    requires i < |es| && next == NextIdx(es, i + 1) && d == Interval(es, i, now)
    ensures Plus(b', Account(es, i + 1, s, now)) == Plus(b, Account(es, i, last, now))
  {
    AccountStep(b, es, i, last, now);
    b', s := b, Resolved(es[i], last);
    if es[i].kind != Switch {
      b' := Plus(b, Charge(ClassOf(s), es[i].reasons, NextAt(es, next), ClassOf(last), d));
    }
  }

  // ----- Where the time goes -----

  /** When the first event from `i` on that is not a queue switch happens. */
  function Since(es: seq<Ev>, i: nat, now: int): int
    requires i <= |es|
  {
    var k := NextIdx(es, i);
    if k < |es| then es[k].time else now
  }

  /** Time counted more than once, less time not counted, from event `i` on. */
  function Excess(es: seq<Ev>, i: nat, last: Status, now: int): int
    requires i <= |es|
    decreases |es| - i
  {
    if i == |es| then 0
    else
      var s := Resolved(es[i], last);
      (if es[i].kind == Switch then 0
       else Over(Times(ClassOf(s), es[i].reasons, NextAt(es, NextIdx(es, i + 1))), Interval(es, i, now)))
      + Excess(es, i + 1, s, now)
  }

  /** No event is later than now. */
  predicate NotAfter(es: seq<Ev>, now: int) {
    forall k :: 0 <= k < |es| ==> es[k].time <= now
  }

  lemma SinceStep(es: seq<Ev>, i: nat, now: int)
    requires Sorted(es) && i < |es| && NotAfter(es, now)
    ensures Since(es, i, now) ==
            if es[i].kind == Switch then Since(es, i + 1, now) else Since(es, i + 1, now) - Interval(es, i, now)
  {}

  lemma TotalPlus(a: Buckets, b: Buckets)
    ensures Total(Plus(a, b)) == Total(a) + Total(b)
  {}

  /** For every history in order: the buckets add up to the time since the first event, give or take exactly what
      finished states leave out or count twice. */
  lemma {:induction false} BucketsAddUp(es: seq<Ev>, i: nat, last: Status, now: int)
    requires Sorted(es) && i <= |es| && NotAfter(es, now)
    ensures Total(Account(es, i, last, now)) == now - Since(es, i, now) + Excess(es, i, last, now)
    decreases |es| - i
  {
    if i < |es| {
      var s := Resolved(es[i], last);
      BucketsAddUp(es, i + 1, s, now);
      SinceStep(es, i, now);
      if es[i].kind != Switch {
        var next, d := NextAt(es, NextIdx(es, i + 1)), Interval(es, i, now);
        ChargeTotal(ClassOf(s), es[i].reasons, next, ClassOf(last), d);
        TotalPlus(Charge(ClassOf(s), es[i].reasons, next, ClassOf(last), d), Account(es, i + 1, s, now));
      } else {
        TotalPlus(EMPTY, Account(es, i + 1, s, now));
      }
    }
  }

  /** No part of the status says that the job is over. */
  predicate Unfinished(s: Status) {
    DONE !in s && EXIT !in s && PDONE !in s && PERR !in s
  }

  lemma UnfinishedOnce(s: Status, reasons: set<Reason>, next: Next)
    requires Unfinished(s)
    ensures Times(ClassOf(s), reasons, next) == 1
  {
    assert DONE in {DONE} && EXIT in {EXIT};
  }

  /** A job that is simply done or has exited. */
  predicate PlainEnd(e: Ev) {
    e.kind != Switch && (e.status == {DONE} || e.status == {EXIT}) && e.reasons == {}
  }

  lemma PlainEndNever(e: Ev)
    requires PlainEnd(e)
    ensures Times(ClassOf(e.status), e.reasons, NoNext) == 0
  {
    assert DONE in {DONE} && EXIT in {EXIT};
    assert e.status == {DONE} ==> ClassOf(e.status) == Done;
  }

  lemma {:induction false} NoExcess(es: seq<Ev>, i: nat, last: Status, now: int, n: nat)
    requires i <= n <= |es| && (Unfinished(last) || i == n || es[i].status != {})
    requires forall k :: i <= k < n ==> Unfinished(es[k].status)
    requires n < |es| ==> PlainEnd(es[n]) && forall k :: n < k < |es| ==> es[k].kind == Switch
    ensures Excess(es, i, last, now) == if n == |es| then 0 else -Interval(es, n, now)
    decreases n - i
  {
    if i < n {
      var s := Resolved(es[i], last);
      NoExcess(es, i + 1, s, now, n);
      UnfinishedOnce(s, es[i].reasons, NextAt(es, NextIdx(es, i + 1)));
    } else if n < |es| {
      SwitchesOnly(es, n + 1, es[n].status, now);
      PlainEndNever(es[n]);
      assert es[n].status != {} by { assert DONE in {DONE} && EXIT in {EXIT}; }
    }
  }

  lemma {:induction false} SwitchesOnly(es: seq<Ev>, i: nat, last: Status, now: int)
    requires i <= |es| && forall k :: i <= k < |es| ==> es[k].kind == Switch
    ensures Excess(es, i, last, now) == 0 && NextIdx(es, i) == |es|
    decreases |es| - i
  {
    if i < |es| {
      SwitchesOnly(es, i + 1, Resolved(es[i], last), now);
    }
  }

  /** A history of unfinished states accounts for all the time from its first event until now, if that event has a
      status of its own, as a new job's has. */
  lemma UnfinishedAddsUp(es: seq<Ev>, last: Status, now: int)
    requires Sorted(es) && (Unfinished(last) || es == [] || es[0].status != {})
    requires NotAfter(es, now) && forall k :: 0 <= k < |es| ==> Unfinished(es[k].status)
    ensures Total(Account(es, 0, last, now)) == now - Since(es, 0, now)
  {
    BucketsAddUp(es, 0, last, now);
    NoExcess(es, 0, last, now, |es|);
  }

  /** Events without a status at the head of a history go on with the status `last` that the job listed before left
      behind. Each of them is counted once, or takes no time. */
  predicate HeadCounted(es: seq<Ev>, i: nat, last: Status, now: int)
    requires i <= |es|
    decreases |es| - i
  {
    i == |es| || es[i].status != {} ||
    ((es[i].kind == Switch || Interval(es, i, now) == 0
      || Times(ClassOf(last), es[i].reasons, NextAt(es, NextIdx(es, i + 1))) == 1)
     && HeadCounted(es, i + 1, last, now))
  }

  lemma {:induction false} HeadDecides(es: seq<Ev>, i: nat, last: Status, now: int)
    requires i <= |es| && forall k :: i <= k < |es| ==> Unfinished(es[k].status) && !Zombie(es[k].reasons)
    ensures Excess(es, i, last, now) <= 0 && (Excess(es, i, last, now) == 0 <==> HeadCounted(es, i, last, now))
    decreases |es| - i
  {
    if i < |es| {
      if es[i].status != {} {
        NoExcess(es, i, last, now, |es|);
      } else {
        HeadDecides(es, i + 1, last, now);
        AtMostOnce(ClassOf(last), es[i].reasons, NextAt(es, NextIdx(es, i + 1)));
      }
    }
  }

  lemma AtMostOnce(c: Class, reasons: set<Reason>, next: Next)
    requires !Zombie(reasons)
    ensures 0 <= Times(c, reasons, next) <= 1
  {
    match c
    case Done =>
    case Exit =>
    case _ =>
  }

  /** For any status left behind by the job listed before: a history of unfinished states without zombies accounts for
      all its time exactly if its head is counted. */
  lemma UnfinishedAddsUpExactly(es: seq<Ev>, last: Status, now: int)
    requires Sorted(es) && NotAfter(es, now)
    requires forall k :: 0 <= k < |es| ==> Unfinished(es[k].status) && !Zombie(es[k].reasons)
    ensures Total(Account(es, 0, last, now)) == now - Since(es, 0, now) <==> HeadCounted(es, 0, last, now)
  {
    BucketsAddUp(es, 0, last, now);
    HeadDecides(es, 0, last, now);
  }

  /** After a job that is done, a job whose only event has no status of its own has all its time lost. */
  lemma StaleStatusLosesTime(e: Ev, now: int)
    requires e.kind != Switch && e.status == {} && e.reasons == {} && e.time < now
    ensures Total(Account([e], 0, {DONE}, now)) == 0 && Since([e], 0, now) == e.time < now
  {
    var es := [e];
    assert NextIdx(es, 1) == 1 && NextIdx(es, 0) == 0;
    assert ClassOf({DONE}) == Done by {
      assert DONE in {DONE};
    }
    assert Charge(Done, {}, NoNext, Done, Interval(es, 0, now)) == EMPTY;
    assert Account(es, 1, {DONE}, now) == EMPTY;
  }

  /** A history that ends in a plain DONE or EXIT accounts for all the time from its first event to that one. */
  lemma FinishedAddsUp(es: seq<Ev>, last: Status, now: int, n: nat)
    requires Sorted(es) && n < |es| && (Unfinished(last) || es[0].status != {})
    requires NotAfter(es, now) && forall k :: 0 <= k < n ==> Unfinished(es[k].status)
    requires PlainEnd(es[n]) && forall k :: n < k < |es| ==> es[k].kind == Switch
    ensures Total(Account(es, 0, last, now)) == es[n].time - Since(es, 0, now)
  {
    BucketsAddUp(es, 0, last, now);
    NoExcess(es, 0, last, now, n);
    SwitchesOnly(es, n + 1, es[n].status, now);
  }

  /** A zombie that later gets another event has the time between them counted twice, as pending and as unknown:
      the buckets then add up to more than the time since the first event. */
  lemma ZombieCountedTwice(z: Ev, r: Ev, now: int)
    requires z.kind != Switch && r.kind != Switch && z.status == {EXIT} && Zombie(z.reasons) && Unfinished(r.status)
    requires r.status != {} && z.time < r.time <= now
    ensures Total(Account([z, r], 0, {}, now)) == now - z.time + (r.time - z.time)
  {
    var es := [z, r];
    assert EXIT in {EXIT};
    assert NextIdx(es, 1) == 1 && NextIdx(es, 2) == 2 && NextIdx(es, 0) == 0;
    BucketsAddUp(es, 0, {}, now);
    UnfinishedOnce(r.status, r.reasons, NoNext);
    assert ClassOf(z.status) == Exit;
    assert Excess(es, 2, r.status, now) == 0;
    assert Excess(es, 1, {EXIT}, now) == 0;
  }
}
