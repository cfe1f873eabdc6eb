/** Requeue tables: the exit values of a queue after which a job is requeued, and how often a job was requeued from
    each host. Both are arrays that end in a sentinel and double when they are full. */
module Requeue {
  import opened Wrappers

  function Min(a: nat, b: nat): nat { if a < b then a else b }

  /** Another size, keeping what fits. */
  method Realloc<T(0)>(a: array<T>, n: nat) returns (b: array<T>)
    ensures fresh(b) && b.Length == n && b[..Min(a.Length, n)] == a[..Min(a.Length, n)]
  {
    b := new T[n];
    for i := 0 to Min(a.Length, n)
      invariant b[..i] == a[..i]
    {
      b[i] := a[i];
    }
  }

  const INITIAL_SIZE := 16

  // ----- Exit values -----

  const RQE_NORMAL := 0
  const RQE_EXCLUDE := 1
  const RQE_END := 255

  datatype Word = Code(value: int) | BadCode | OpenExclude | CloseExclude | Other

  datatype Entry = Entry(kind: int, value: int)

  /** The state of the reading: mode, entries so far, and whether something was wrong. */
  datatype Scan = Scan(mode: int, entries: seq<Entry>, error: bool)

  function Match(es: seq<Entry>, v: int): int {
    if es == [] then -1 else if es[0].value == v then es[0].kind else Match(es[1..], v)
  }

  function ScanWord(s: Scan, w: Word): Scan {
    match w
    case Code(v) =>
      if Match(s.entries, v) != -1 then s.(error := true) else s.(entries := s.entries + [Entry(s.mode, v)])
    case BadCode => s.(error := true)
    case OpenExclude => s.(mode := RQE_EXCLUDE)
    case CloseExclude => s.(mode := RQE_NORMAL)
    case Other => s
  }

  function ScanFrom(s: Scan, words: seq<Word>): Scan
    decreases |words|
  {
    if words == [] then s else ScanFrom(ScanWord(s, words[0]), words[1..])
  }

  const FRESH := Scan(RQE_NORMAL, [], false)

  /** The mode in force where `v` is first listed, or -1. */
  function FirstListing(words: seq<Word>, mode: int, v: int): int
    decreases |words|
  {
    if words == [] then -1
    else if words[0] == Code(v) then mode
    else FirstListing(words[1..], ScanWord(Scan(mode, [], false), words[0]).mode, v)
  }

  predicate ProperMode(mode: int) {
    mode == RQE_NORMAL || mode == RQE_EXCLUDE
  }

  predicate Proper(s: Scan) {
    ProperMode(s.mode) && forall e :: e in s.entries ==> ProperMode(e.kind)
  }

  lemma {:induction false} MatchAppend(es: seq<Entry>, e: Entry, v: int)
    requires forall x :: x in es ==> ProperMode(x.kind)
    ensures Match(es + [e], v) == if Match(es, v) != -1 then Match(es, v) else Match([e], v)
  {
    if es == [] {
      assert es + [e] == [e];
    } else {
      assert (es + [e])[1..] == es[1..] + [e];
      MatchAppend(es[1..], e, v);
    }
  }

  /** Every value is looked up with the mode that was in force where it was first listed, on top of what was there
      before. */
  lemma {:induction false} ScanMatches(s: Scan, words: seq<Word>, v: int)
    requires Proper(s)
    ensures Proper(ScanFrom(s, words))
    ensures Match(ScanFrom(s, words).entries, v) ==
            if Match(s.entries, v) != -1 then Match(s.entries, v) else FirstListing(words, s.mode, v)
    decreases |words|
  {
    if words != [] {
      var s' := ScanWord(s, words[0]);
      if words[0].Code? {
        MatchAppend(s.entries, Entry(s.mode, words[0].value), v);
        if words[0].value == v {
          MatchKinds(s.entries, v);
        }
      }
      ScanMatches(s', words[1..], v);
    }
  }

  lemma {:induction false} MatchKinds(es: seq<Entry>, v: int)
    requires forall x :: x in es ==> ProperMode(x.kind)
    ensures Match(es, v) != -1 <==> exists e :: e in es && e.value == v
  {
    if es != [] {
      MatchKinds(es[1..], v);
      assert es[0] in es;
      assert forall e :: e in es <==> e == es[0] || e in es[1..];
    }
  }

  /** `match_exitvalue` on what `requeueEParse` made of a list of words. */
  lemma LookupIsFirstListing(words: seq<Word>, v: int)
    ensures Match(ScanFrom(FRESH, words).entries, v) == FirstListing(words, RQE_NORMAL, v)
  {
    ScanMatches(FRESH, words, v);
  }

  lemma {:induction false} ListedExactly(words: seq<Word>, mode: int, v: int)
    requires ProperMode(mode)
    ensures FirstListing(words, mode, v) != -1 <==> Code(v) in words
    decreases |words|
  {
    if words != [] && words[0] != Code(v) {
      ListedExactly(words[1..], ScanWord(Scan(mode, [], false), words[0]).mode, v);
    }
  }

  /** Word `k` is the first listing of value `v`. */
  predicate ListedFirst(words: seq<Word>, k: nat, v: int) {
    k < |words| && words[k] == Code(v) && Code(v) !in words[..k]
  }

  /** Word `k` stands behind an opening of the exclusion list with no closing in between. */
  predicate Inside(words: seq<Word>, k: nat) {
    exists m :: 0 <= m < k <= |words| && words[m] == OpenExclude && CloseExclude !in words[m..k]
  }

  lemma {:induction false} ModeIsInside(words: seq<Word>)
    ensures ScanFrom(FRESH, words).mode == if Inside(words, |words|) then RQE_EXCLUDE else RQE_NORMAL
    decreases |words|
  {
    if words != [] {
      var front, w := words[..|words| - 1], words[|words| - 1];
      assert words == front + [w];
      ModeIsInside(front);
      ScanSnoc(FRESH, front, w);
      InsideSnoc(front, w);
    }
  }

  lemma InsideSnoc(front: seq<Word>, w: Word)
    ensures Inside(front + [w], |front| + 1) <==> w == OpenExclude || (w != CloseExclude && Inside(front, |front|))
  {
    var words, n := front + [w], |front|;
    if Inside(words, n + 1) && w != OpenExclude {
      var m :| 0 <= m < n + 1 && words[m] == OpenExclude && CloseExclude !in words[m..n + 1];
      assert words[m..n + 1] == front[m..n] + [w];
      assert words[m..n + 1][n - m] == w;
      assert m < n && front[m] == OpenExclude && CloseExclude !in front[m..n];
    }
    if w == OpenExclude {
      assert words[n] == OpenExclude && words[n..n + 1] == [w];
    } else if w != CloseExclude && Inside(front, n) {
      var m :| 0 <= m < n && front[m] == OpenExclude && CloseExclude !in front[m..n];
      assert words[m] == OpenExclude && words[m..n + 1] == front[m..n] + [w];
    }
  }

  lemma {:induction false} FirstListingAt(words: seq<Word>, s: Scan, k: nat, v: int)
    requires ListedFirst(words, k, v)
    ensures FirstListing(words, s.mode, v) == ScanFrom(s, words[..k]).mode
    decreases k
  {
    if k > 0 {
      assert words[..k][0] == words[0] && words[..k][1..] == words[1..][..k - 1];
      assert Code(v) !in words[1..][..k - 1] by {
        assert words[1..][..k - 1] == words[..k][1..];
      }
      FirstListingAt(words[1..], ScanWord(s, words[0]), k - 1, v);
    } else {
      assert words[..k] == [];
    }
  }

  /** A value is looked up as excluded exactly if its first listing stands behind an opening of the exclusion list that
      is not closed before it, as normal if not, and not found exactly if it is not listed. */
  lemma LookupExactly(words: seq<Word>, v: int, k: nat)
    ensures ListedFirst(words, k, v) ==>
              Match(ScanFrom(FRESH, words).entries, v) == if Inside(words, k) then RQE_EXCLUDE else RQE_NORMAL
    ensures Match(ScanFrom(FRESH, words).entries, v) == -1 <==> Code(v) !in words
  {
    LookupIsFirstListing(words, v);
    ListedExactly(words, RQE_NORMAL, v);
    if ListedFirst(words, k, v) {
      FirstListingAt(words, FRESH, k, v);
      ModeIsInside(words[..k]);
      InsidePrefix(words, k);
    }
  }

  lemma InsidePrefix(words: seq<Word>, k: nat)
    requires k <= |words|
    ensures Inside(words[..k], k) <==> Inside(words, k)
  {
    assert forall m :: 0 <= m < k ==> words[..k][m] == words[m] && words[..k][m..k] == words[m..k];
  }

  lemma {:induction false} ScanSnoc(s: Scan, words: seq<Word>, w: Word)
    ensures ScanFrom(s, words + [w]) == ScanWord(ScanFrom(s, words), w)
    decreases |words|
  {
    if words == [] {
      assert words + [w] == [w];
    } else {
      assert (words + [w])[1..] == words[1..] + [w];
      ScanSnoc(ScanWord(s, words[0]), words[1..], w);
    }
  }

  /** Word `k` is no exit value although it is a number, or repeats an earlier one. */
  predicate Faulty(words: seq<Word>, k: nat) {
    k < |words| && (words[k] == BadCode || (words[k].Code? && words[k] in words[..k]))
  }

  /** An error is reported exactly if some word is faulty. */
  lemma {:induction false} ErrorExactly(words: seq<Word>)
    ensures ScanFrom(FRESH, words).error <==> exists k :: Faulty(words, k)
    decreases |words|
  {
    if words != [] {
      var front, w := words[..|words| - 1], words[|words| - 1];
      assert words == front + [w];
      ErrorExactly(front);
      ScanSnoc(FRESH, front, w);
      if w.Code? {
        LookupIsFirstListing(front, w.value);
        ListedExactly(front, RQE_NORMAL, w.value);
      }
      assert forall k :: 0 <= k < |front| ==> words[..k] == front[..k] && words[k] == front[k];
      assert forall k :: 0 <= k < |front| ==> (Faulty(words, k) <==> Faulty(front, k));
      assert Faulty(words, |front|) <==> w == BadCode || (w.Code? && w in front);
    }
  }

  class ExitTable {
    var cells: array<Entry>

    /** The table holds what has been read, and the sentinel behind it. */
    ghost predicate Holds(s: Scan)
      reads this, cells
    {
      && Proper(s) && |s.entries| < cells.Length
      && cells[..|s.entries|] == s.entries && cells[|s.entries|].kind == RQE_END
    }

    constructor ()
      ensures fresh(cells) && Holds(FRESH)
    {
      cells := new Entry[INITIAL_SIZE](_ => Entry(RQE_END, 0));
    }

    /** Fills the table from the words of a queue's requeue values. */
    method RequeueEParse(words: seq<Word>) returns (numStruct: nat, error: bool)
      requires Holds(FRESH)
      modifies this, cells
      ensures Holds(ScanFrom(FRESH, words)) && (cells == old(cells) || fresh(cells))
      ensures numStruct == |ScanFrom(FRESH, words).entries| && error == ScanFrom(FRESH, words).error
    {
      var mode := RQE_NORMAL;
      numStruct, error := 0, false;
      ghost var s := FRESH;
      for k := 0 to |words|
        invariant (cells == old(cells) || fresh(cells)) && Holds(s)
        invariant s.mode == mode && numStruct == |s.entries| && error == s.error
        invariant ScanFrom(s, words[k..]) == ScanFrom(FRESH, words)
      {
        assert words[k..][1..] == words[k + 1..];
        match words[k] {
          case Code(v) =>
            var ok := FillStruct(s, numStruct, v, mode);
            if ok {
              numStruct := numStruct + 1;
            } else {
              error := true;
            }
          case BadCode => error := true;
          case OpenExclude => mode := RQE_EXCLUDE;
          case CloseExclude => mode := RQE_NORMAL;
          case Other =>
        }
        s := ScanWord(s, words[k]);
      }
      if numStruct > 0 {
        cells := Realloc(cells, numStruct + 1);
        assert cells[numStruct] == cells[..numStruct + 1][numStruct];
      }
    }

    /** Adds a value unless it is there; the sentinel moves up, inside the array. */
    method FillStruct(ghost s: Scan, seqnum: nat, value: int, mode: int) returns (ok: bool)
      requires Holds(s) && seqnum == |s.entries| && mode == s.mode
      modifies this, cells
      ensures (cells == old(cells) || fresh(cells)) && Holds(ScanWord(s, Code(value)))
      ensures ok == (Match(s.entries, value) == -1)
    {
      MatchKinds(s.entries, value);
      for i := 0 to seqnum
        invariant forall k :: 0 <= k < i ==> cells[k].value != value
      {
        assert cells[i] == cells[..seqnum][i];
        if cells[i].value == value {
          return false;
        }
      }
      if seqnum >= cells.Length - 1 {
        cells := Realloc(cells, 2 * cells.Length);
      }
      assert cells[..seqnum] == s.entries;
      cells[seqnum] := Entry(mode, value);
      cells[seqnum + 1] := Entry(RQE_END, cells[seqnum + 1].value);
      ok := true;
    }

    /** Looks up an exit value; stops at the sentinel. */
    method MatchExitValue(v: int, ghost s: Scan) returns (mode: int)
      requires Holds(s)
      ensures mode == Match(s.entries, v)
    {
      var i := 0;
      assert forall k :: 0 <= k < |s.entries| ==> cells[k] == cells[..|s.entries|][k] && s.entries[k] in s.entries;
      while cells[i].kind != RQE_END
        invariant 0 <= i <= |s.entries| && Match(s.entries[i..], v) == Match(s.entries, v)
        decreases |s.entries| - i
      {
        if cells[i].value == v {
          return cells[i].kind;
        }
        i := i + 1;
      }
      mode := -1;
    }
  }

  // ----- Hosts a job was requeued from -----

  type Host = nat

  datatype Retry = Retry(host: Option<Host>, num: int)

  function Find(rs: seq<Retry>, h: Host): nat {
    if rs == [] || rs[0].host == Some(h) then 0 else 1 + Find(rs[1..], h)
  }

  function Record(rs: seq<Retry>, h: Host): seq<Retry> {
    var i := Find(rs, h);
    if i < |rs| then rs[i := Retry(Some(h), rs[i].num + 1)] else rs + [Retry(Some(h), 1)]
  }

  function Records(calls: seq<Host>): seq<Retry> {
    if calls == [] then [] else Record(Records(calls[..|calls| - 1]), calls[|calls| - 1])
  }

  lemma {:induction false} FindExactly(rs: seq<Retry>, h: Host)
    ensures Find(rs, h) <= |rs| && (Find(rs, h) < |rs| ==> rs[Find(rs, h)].host == Some(h))
    ensures forall k :: 0 <= k < Find(rs, h) ==> rs[k].host != Some(h)
  {
    if rs != [] && rs[0].host != Some(h) {
      FindExactly(rs[1..], h);
    }
  }

  /** Hosts are all different, and each has been counted as often as it was called for. */
  ghost predicate Counts(rs: seq<Retry>, calls: seq<Host>) {
    && (forall i, k :: 0 <= i < k < |rs| ==> rs[i].host != rs[k].host)
    && (forall i :: 0 <= i < |rs| ==> rs[i].host.Some? && rs[i].num == multiset(calls)[rs[i].host.value] > 0)
    && (forall h :: h in calls ==> Find(rs, h) < |rs|)
  }

  lemma {:induction false} RecordsCount(calls: seq<Host>)
    ensures Counts(Records(calls), calls)
    decreases |calls|
  {
    if calls != [] {
      var front, h := calls[..|calls| - 1], calls[|calls| - 1];
      RecordsCount(front);
      assert calls == front + [h];
      RecordCounts(Records(front), front, h);
    }
  }

  lemma RecordCounts(rs: seq<Retry>, calls: seq<Host>, h: Host)
    requires Counts(rs, calls)
    ensures Counts(Record(rs, h), calls + [h])
  {
    var rs' := Record(rs, h);
    FindExactly(rs, h);
    forall g | g in calls + [h]
      ensures Find(rs', g) < |rs'|
    {
      FindExactly(rs', g);
      FindExactly(rs, g);
      assert g != h ==> g in calls;
      var k := if g == h then Find(rs, h) else Find(rs, g);
      assert k < |rs'| && rs'[k].host == Some(g);
    }
  }

  predicate AllHosts(rs: seq<Retry>) {
    forall k :: 0 <= k < |rs| ==> rs[k].host.Some?
  }

  /** What one more call for a host changes. */
  lemma OneMoreCall(calls: seq<Host>, h: Host)
    ensures var rs, rs' := Records(calls), Records(calls + [h]);
            && AllHosts(rs) && rs' == Record(rs, h) && Find(rs, h) < |rs'|
            && rs'[Find(rs, h)] == Retry(Some(h), multiset(calls + [h])[h])
  {
    assert (calls + [h])[..|calls|] == calls;
    RecordsCount(calls);
    RecordsCount(calls + [h]);
    FindExactly(Records(calls), h);
  }

  class History {
    var cells: array<Retry>
    /** The hosts asked for so far. */
    ghost var calls: seq<Host>

    /** The array holds the entries, and the sentinel behind them. */
    ghost predicate Holds(rs: seq<Retry>)
      reads this, cells
    {
      |rs| < cells.Length && cells[..|rs|] == rs && cells[|rs|].host == None
    }

    ghost predicate Valid()
      reads this, cells
    {
      Holds(Records(calls))
    }

    constructor ()
      ensures Valid() && fresh(cells) && calls == []
    {
      cells, calls := new Retry[INITIAL_SIZE](_ => Retry(None, 0)), [];
    }

    /** Counts one more requeue from a host and returns where it is recorded. */
    method FillRequeueHist(host: Host) returns (i: nat)
      requires Valid()
      modifies this, cells
      ensures Valid() && (cells == old(cells) || fresh(cells)) && calls == old(calls) + [host]
      ensures i < cells.Length && cells[i] == Retry(Some(host), multiset(calls)[host])
    {
      ghost var rs := Records(calls);
      OneMoreCall(calls, host);
      i := Search(host, rs);
      Update(i, host, rs);
      calls := calls + [host];
    }

    method Update(i: nat, host: Host, ghost rs: seq<Retry>)
      requires Holds(rs) && i == Find(rs, host) <= |rs| && (i < |rs| <==> cells[i].host == Some(host))
      modifies this`cells, cells
      ensures Holds(Record(rs, host)) && i < |Record(rs, host)| && cells[i] == Record(rs, host)[i]
      ensures cells == old(cells) || fresh(cells)
    {
      if cells[i].host == Some(host) {
        assert rs[i] == cells[..|rs|][i];
        CountUp(i, rs);
      } else {
        Enter(i, host, rs);
      }
    }

    method CountUp(i: nat, ghost rs: seq<Retry>)
      requires Holds(rs) && i < |rs|
      modifies cells
      ensures var r := rs[i].(num := rs[i].num + 1);
              Holds(rs[i := r]) && cells[i] == r
    {
      assert cells[i] == cells[..|rs|][i];
      cells[i] := cells[i].(num := cells[i].num + 1);
    }

    /** The host goes where the sentinel was; the array doubles if the sentinel has no room behind it. */
    method Enter(i: nat, host: Host, ghost rs: seq<Retry>)
      requires Holds(rs) && i == |rs|
      modifies this`cells, cells
      ensures Holds(rs + [Retry(Some(host), 1)]) && cells[i] == Retry(Some(host), 1)
      ensures cells == old(cells) || fresh(cells)
    {
      if i + 1 >= cells.Length {
        cells := Realloc(cells, 2 * cells.Length);
      }
      assert cells[..i] == rs;
      cells[i], cells[i + 1] := Retry(Some(host), 1), Retry(None, 0);
      assert cells[..i + 1] == rs + [Retry(Some(host), 1)];
    }

    /** The entry of a host, or the sentinel. */
    method Search(host: Host, ghost rs: seq<Retry>) returns (i: nat)
      requires Holds(rs) && AllHosts(rs)
      ensures i == Find(rs, host) <= |rs| && (i < |rs| <==> cells[i].host == Some(host))
    {
      assert forall k :: 0 <= k < |rs| ==> cells[k] == cells[..|rs|][k];
      FindExactly(rs, host);
      i := 0;
      while cells[i].host != None && cells[i].host != Some(host)
        invariant 0 <= i <= Find(rs, host)
        decreases |rs| - i
      {
        i := i + 1;
      }
    }
  }
}
