/** The ancestor and descendant sets of users and groups, as one work-list pass per group builds them. */
module GroupClosure {
  import opened GroupGraph

  type Rel = map<Name, set<Name>>

  function At(m: Rel, n: Name): set<Name> {
    if n in m then m[n] else {}
  }

  predicate Has(m: Rel, n: Name, x: Name) {
    x in At(m, n)
  }

  /** Adds `xs` to the set of `n` and leaves the other sets alone. */
  function Grow(m: Rel, n: Name, xs: set<Name>): (r: Rel)
    ensures forall k, x :: Has(r, k, x) <==> Has(m, k, x) || (k == n && x in xs)
  {
    m[n := At(m, n) + xs]
  }

  /** A queued group and the group it was queued for. */
  datatype Entry = Entry(me: Name, parent: Name)

  // ----- How many entries a pass queues -----

  function Unrolled(G: Graph, g: Name, ghost rank: Name -> nat): nat
    requires g in G && Ranked(G, rank)
    decreases rank(g), |G[g].subs| + 1
  {
    1 + UnrolledSubs(G, g, 0, rank)
  }

  function UnrolledSubs(G: Graph, g: Name, i: nat, ghost rank: Name -> nat): nat
    requires g in G && Ranked(G, rank) && i <= |G[g].subs|
    decreases rank(g), |G[g].subs| - i
  {
    if i == |G[g].subs| then 0 else Unrolled(G, G[g].subs[i], rank) + UnrolledSubs(G, g, i + 1, rank)
  }

  ghost predicate Groups(G: Graph, q: seq<Entry>) {
    forall k :: 0 <= k < |q| ==> q[k].me in G
  }

  ghost function Weight(G: Graph, q: seq<Entry>, i: nat, rank: Name -> nat): nat
    requires Ranked(G, rank) && Groups(G, q) && i <= |q|
    decreases |q| - i
  {
    if i == |q| then 0 else Unrolled(G, q[i].me, rank) + Weight(G, q, i + 1, rank)
  }

  lemma {:induction false} WeightAppend(G: Graph, q: seq<Entry>, e: Entry, i: nat, rank: Name -> nat)
    requires Ranked(G, rank) && Groups(G, q) && e.me in G && i <= |q|
    ensures Groups(G, q + [e])
    ensures Weight(G, q + [e], i, rank) == Weight(G, q, i, rank) + Unrolled(G, e.me, rank)
    decreases |q| - i
  {
    if i < |q| {
      WeightAppend(G, q, e, i + 1, rank);
    } else {
      assert (q + [e])[i] == e;
      assert Weight(G, q + [e], i + 1, rank) == 0;
    }
  }

  // ----- What the sets say -----

  /** Everything recorded is true, and recorded for groups of `scope` only. */
  ghost predicate Sound(G: Graph, anc: Rel, desc: Rel, scope: set<Name>) {
    && (forall g, v :: Has(anc, v, g) ==> g in scope && Reaches(G, g, v))
    && (forall g, v :: Has(desc, g, v) ==> g in scope && Reaches(G, g, v))
  }

  /** The ancestors of `g`, and `g` itself, are recorded for everything directly below `g`. */
  ghost predicate AncClosed(G: Graph, anc: Rel, g: Name) {
    && (forall v :: Edge(G, g, v) ==> Has(anc, v, g))
    && (forall v, x :: Edge(G, g, v) && Has(anc, g, x) ==> Has(anc, v, x))
  }

  /** Children and parents are the direct links of the groups of `done`. */
  ghost predicate DirectExact(G: Graph, chi: Rel, par: Rel, done: set<Name>) {
    forall g, v :: (Has(chi, g, v) <==> g in done && Edge(G, g, v)) && (Has(par, v, g) <==> g in done && Edge(G, g, v))
  }

  ghost predicate DescDirect(G: Graph, desc: Rel, g: Name) {
    forall v :: Edge(G, g, v) ==> Has(desc, g, v)
  }

  ghost predicate DescComplete(G: Graph, desc: Rel, g: Name) {
    forall v :: Reaches(G, g, v) ==> Has(desc, g, v)
  }

  /** `g` is still in the part of the queue from position `from` on. */
  ghost predicate Waiting(q: seq<Entry>, from: nat, g: Name) {
    exists k :: from <= k < |q| && q[k].me == g
  }

  /** Every group of `done` has passed its ancestors on or will do so again. */
  ghost predicate Settled(G: Graph, anc: Rel, q: seq<Entry>, from: nat, done: set<Name>) {
    forall g :: g in done ==> AncClosed(G, anc, g) || Waiting(q, from, g)
  }

  /** Each queued subgroup belongs to the group it was queued for, and all come from `root`. */
  ghost predicate Queue(G: Graph, q: seq<Entry>, root: Name) {
    && Groups(G, q) && |q| > 0 && q[0].me == root
    && (forall k :: 0 <= k < |q| ==> ReachesOrIs(G, root, q[k].me))
    && (forall k :: 1 <= k < |q| ==> Edge(G, q[k].parent, q[k].me) && ReachesOrIs(G, root, q[k].parent))
  }

  /** The subgroups of the groups queued before `upto` are queued after them. */
  ghost predicate Expanded(G: Graph, q: seq<Entry>, upto: nat) {
    forall j, s :: 0 <= j < upto && j < |q| && q[j].me in G && s in G[q[j].me].subs ==> HasChild(q, j, s)
  }

  ghost predicate HasChild(q: seq<Entry>, j: nat, s: Name)
    requires j < |q|
  {
    exists k :: j < k < |q| && q[k] == Entry(s, q[j].me)
  }

  ghost function Processed(q: seq<Entry>, cur: nat): set<Name>
    requires cur <= |q|
  {
    set k | 0 <= k < cur :: q[k].me
  }

  ghost function Reached(G: Graph, root: Name): set<Name> {
    set h | h in G && ReachesOrIs(G, root, h)
  }

  // ----- Visiting one group -----

  /** The sets after everything directly below `c` has been linked to `c`. */
  ghost predicate Visited(G: Graph, c: Name, anc: Rel, desc: Rel, anc': Rel, desc': Rel) {
    && (forall v, g :: Has(anc', v, g) <==> Has(anc, v, g) || (Edge(G, c, v) && (g == c || Has(anc, c, g))))
    && (forall g, v :: Has(desc', g, v) <==> Has(desc, g, v) || (g == c && Edge(G, c, v)))
  }

  function Below(G: Graph, c: Name): (r: set<Name>)
    ensures forall v :: v in r <==> Edge(G, c, v)
  {
    if c in G then (set u | u in G[c].members) + (set s | s in G[c].subs) else {}
  }

  /** The queue entries of the first `n` subgroups of `c`. */
  function Entries(G: Graph, c: Name, n: nat): (r: seq<Entry>)
    requires c in G && n <= |G[c].subs|
    ensures |r| == n && forall k :: 0 <= k < n ==> r[k] == Entry(G[c].subs[k], c)
  {
    if n == 0 then [] else Entries(G, c, n - 1) + [Entry(G[c].subs[n - 1], c)]
  }

  function AllEntries(G: Graph, c: Name): seq<Entry>
    requires c in G
  {
    Entries(G, c, |G[c].subs|)
  }

  lemma RankDown(G: Graph, c: Name, s: Name, rank: Name -> nat)
    requires Ranked(G, rank) && c in G && s in G[c].subs
    ensures rank(s) < rank(c)
  {}

  lemma NoSelfEdge(G: Graph, c: Name, rank: Name -> nat)
    requires Ranked(G, rank)
    ensures !Edge(G, c, c)
  {
    if c in G && c in G[c].subs {
      RankDown(G, c, c, rank);
    }
  }

  lemma VisitSound(G: Graph, c: Name, anc: Rel, desc: Rel, anc': Rel, desc': Rel, scope: set<Name>)
    requires Visited(G, c, anc, desc, anc', desc') && Sound(G, anc, desc, scope) && c in scope
    ensures Sound(G, anc', desc', scope)
  {
    forall g, v | Has(anc', v, g) && !Has(anc, v, g)
      ensures g in scope && Reaches(G, g, v)
    {
      ReachStep(G, c, v, v);
      if g != c {
        ReachSnoc(G, g, c, v);
      }
    }
    forall g, v | Has(desc', g, v) && !Has(desc, g, v)
      ensures g in scope && Reaches(G, g, v)
    {
      ReachStep(G, c, v, v);
    }
  }

  lemma VisitClosesOther(G: Graph, c: Name, anc: Rel, desc: Rel, anc': Rel, desc': Rel, g: Name)
    requires Visited(G, c, anc, desc, anc', desc') && AncClosed(G, anc, g) && !Edge(G, c, g)
    ensures AncClosed(G, anc', g)
  {}

  lemma VisitClosesItself(G: Graph, c: Name, anc: Rel, desc: Rel, anc': Rel, desc': Rel, rank: Name -> nat)
    requires Visited(G, c, anc, desc, anc', desc') && Ranked(G, rank)
    ensures AncClosed(G, anc', c) && DescDirect(G, desc', c)
  {
    NoSelfEdge(G, c, rank);
  }

  lemma VisitSettled(G: Graph, q: seq<Entry>, cur: nat, anc: Rel, desc: Rel, anc': Rel, desc': Rel,
                     done: set<Name>, rank: Name -> nat)
    requires Ranked(G, rank) && cur < |q| && q[cur].me in G
    requires Visited(G, q[cur].me, anc, desc, anc', desc') && Settled(G, anc, q, cur, done)
    requires forall g :: g in done ==> g in G
    ensures Settled(G, anc', q + AllEntries(G, q[cur].me), cur + 1, done + {q[cur].me})
  {
    var c, es := q[cur].me, AllEntries(G, q[cur].me);
    var q' := q + es;
    forall g | g in done + {c}
      ensures AncClosed(G, anc', g) || Waiting(q', cur + 1, g)
    {
      if g == c {
        VisitClosesItself(G, c, anc, desc, anc', desc', rank);
      } else if Edge(G, c, g) {
        assert g !in G[c].members;
        var k :| 0 <= k < |G[c].subs| && G[c].subs[k] == g;
        assert q'[|q| + k] == es[k] == Entry(g, c);
      } else if AncClosed(G, anc, g) {
        VisitClosesOther(G, c, anc, desc, anc', desc', g);
      } else {
        var k :| cur <= k < |q| && q[k].me == g;
        assert q'[k].me == g;
      }
    }
  }

  lemma VisitQueue(G: Graph, q: seq<Entry>, cur: nat, root: Name)
    requires Closed(G) && Queue(G, q, root) && cur < |q| && Expanded(G, q, cur)
    ensures var q' := q + AllEntries(G, q[cur].me);
            Queue(G, q', root) && Expanded(G, q', cur + 1)
  {
    var c, es := q[cur].me, AllEntries(G, q[cur].me);
    var q' := q + es;
    forall k | |q| <= k < |q'|
      ensures q'[k].me in G && Edge(G, q'[k].parent, q'[k].me)
      ensures ReachesOrIs(G, root, q'[k].me) && ReachesOrIs(G, root, q'[k].parent)
    {
      assert q'[k] == es[k - |q|];
      ReachSnoc(G, root, c, q'[k].me);
    }
    forall j, s | 0 <= j < cur + 1 && s in G[q'[j].me].subs
      ensures HasChild(q', j, s)
    {
      if j < cur {
        assert HasChild(q, j, s);
        var k :| j < k < |q| && q[k] == Entry(s, q[j].me);
        assert q'[k] == Entry(s, q'[j].me);
      } else {
        var k :| 0 <= k < |G[c].subs| && G[c].subs[k] == s;
        assert q'[|q| + k] == es[k];
      }
    }
  }

  lemma {:induction false} VisitWeight(G: Graph, q: seq<Entry>, from: nat, c: Name, n: nat, rank: Name -> nat)
    requires Ranked(G, rank) && Groups(G, q) && from <= |q| && c in G && n <= |G[c].subs|
    ensures Groups(G, q + Entries(G, c, n))
    ensures Weight(G, q + Entries(G, c, n), from, rank) + UnrolledSubs(G, c, n, rank)
            == Weight(G, q, from, rank) + UnrolledSubs(G, c, 0, rank)
    decreases n
  {
    if n == 0 {
      assert q + Entries(G, c, n) == q;
    } else {
      VisitWeight(G, q, from, c, n - 1, rank);
      var e := Entry(G[c].subs[n - 1], c);
      WeightAppend(G, q + Entries(G, c, n - 1), e, from, rank);
      assert q + Entries(G, c, n) == q + Entries(G, c, n - 1) + [e];
    }
  }

  /** The first half of a pass from `grp`, with the entries before `cur` processed. */
  ghost predicate Forward(G: Graph, q: seq<Entry>, cur: nat, grp: Name, before: set<Name>, anc: Rel, desc: Rel) {
    && grp in G && before <= G.Keys && Queue(G, q, grp) && cur <= |q| && Expanded(G, q, cur)
    && Sound(G, anc, desc, before + Reached(G, grp))
    && Settled(G, anc, q, cur, before + Processed(q, cur))
    && (forall g :: g in before ==> DescComplete(G, desc, g))
    && (forall k :: 0 <= k < cur ==> DescDirect(G, desc, q[k].me))
  }

  lemma ProcessedStep(q: seq<Entry>, q': seq<Entry>, cur: nat)
    requires cur < |q| && q <= q'
    ensures Processed(q', cur + 1) == Processed(q, cur) + {q[cur].me}
  {
    forall g
      ensures g in Processed(q', cur + 1) <==> g in Processed(q, cur) + {q[cur].me}
    {
      if g in Processed(q, cur) {
        var k :| 0 <= k < cur && q[k].me == g;
        assert q'[k].me == g;
      }
      assert q'[cur].me == q[cur].me;
      if g in Processed(q', cur + 1) {
        var k :| 0 <= k < cur + 1 && q'[k].me == g;
        assert q[k].me == g;
      }
    }
  }

  lemma ForwardStep(G: Graph, q: seq<Entry>, cur: nat, grp: Name, before: set<Name>, anc: Rel, desc: Rel, anc': Rel,
                    desc': Rel, rank: Name -> nat)
    requires Ranked(G, rank) && Forward(G, q, cur, grp, before, anc, desc) && cur < |q|
    requires Visited(G, q[cur].me, anc, desc, anc', desc')
    ensures Forward(G, q + AllEntries(G, q[cur].me), cur + 1, grp, before, anc', desc')
  {
    var c, q' := q[cur].me, q + AllEntries(G, q[cur].me);
    VisitQueue(G, q, cur, grp);
    VisitSound(G, c, anc, desc, anc', desc', before + Reached(G, grp));
    VisitSettled(G, q, cur, anc, desc, anc', desc', before + Processed(q, cur), rank);
    ProcessedStep(q, q', cur);
    assert before + Processed(q', cur + 1) == before + Processed(q, cur) + {c};
    VisitClosesItself(G, c, anc, desc, anc', desc', rank);
    assert forall k :: 0 <= k < cur + 1 ==> DescDirect(G, desc', q'[k].me);
  }

  // ----- From the queue to the sets -----

  /** When the queue is exhausted it holds every group reachable from the root. */
  lemma {:induction false} QueueHoldsAll(G: Graph, q: seq<Entry>, p: seq<Name>, h: Name)
    requires Closed(G) && Groups(G, q) && Expanded(G, q, |q|) && |q| > 0
    requires IsPath(G, p, q[0].me, h) && h in G
    ensures Waiting(q, 0, h)
    decreases |p|
  {
    if |p| == 1 {
      assert q[0].me == h;
    } else {
      var g := p[|p| - 2];
      assert Edge(G, p[|p| - 2], p[|p| - 2 + 1]);
      var p' := p[..|p| - 1];
      assert forall i :: 0 <= i < |p'| - 1 ==> Edge(G, p[i], p[i + 1]);
      QueueHoldsAll(G, q, p', g);
      var j :| 0 <= j < |q| && q[j].me == g;
      assert h in G[q[j].me].subs;
      assert HasChild(q, j, h);
    }
  }

  lemma QueueIsReached(G: Graph, q: seq<Entry>, root: Name, h: Name)
    requires Closed(G) && Queue(G, q, root) && Expanded(G, q, |q|)
    requires h in G && ReachesOrIs(G, root, h)
    ensures Waiting(q, 0, h)
  {
    var p :| IsPath(G, p, root, h) by {
      if root == h {
        assert IsPath(G, [root], root, h);
      } else {
        assert Reaches(G, root, h);
      }
    }
    QueueHoldsAll(G, q, p, h);
  }

  /** What the group of an entry reaches has been added to the group it was queued for. */
  ghost predicate Merged(G: Graph, desc: Rel, e: Entry) {
    forall v :: Reaches(G, e.me, v) ==> Has(desc, e.parent, v)
  }

  lemma EntryComplete(G: Graph, q: seq<Entry>, desc: Rel, k: nat)
    requires Closed(G) && Groups(G, q) && Expanded(G, q, |q|) && k < |q|
    requires DescDirect(G, desc, q[k].me)
    requires forall j :: k < j < |q| ==> Merged(G, desc, q[j])
    ensures DescComplete(G, desc, q[k].me)
  {
    var g := q[k].me;
    forall v | Reaches(G, g, v)
      ensures Has(desc, g, v)
    {
      ReachCases(G, g, v);
      if v in G[g].members {
        assert Edge(G, g, v);
      } else {
        var s :| s in G[g].subs && ReachesOrIs(G, s, v);
        if s == v {
          assert Edge(G, g, v);
        } else {
          assert HasChild(q, k, s);
          var j :| k < j < |q| && q[j] == Entry(s, g);
          assert Merged(G, desc, q[j]);
        }
      }
    }
  }

  lemma MergeSound(G: Graph, q: seq<Entry>, i: nat, root: Name, anc: Rel, desc: Rel, scope: set<Name>)
    requires Closed(G) && Queue(G, q, root) && 1 <= i < |q| && Expanded(G, q, |q|)
    requires Sound(G, anc, desc, scope + Reached(G, root))
    ensures Sound(G, anc, Grow(desc, q[i].parent, At(desc, q[i].me)), scope + Reached(G, root))
  {
    var e := q[i];
    forall v | Has(desc, e.me, v)
      ensures Reaches(G, e.parent, v)
    {
      ReachStep(G, e.parent, e.me, v);
    }
  }

  /** The exhausted queue holds exactly the groups reachable from the root. */
  lemma QueueExact(G: Graph, q: seq<Entry>, root: Name)
    requires Closed(G) && Queue(G, q, root) && Expanded(G, q, |q|)
    ensures Processed(q, |q|) == Reached(G, root)
  {
    forall h | h in Reached(G, root)
      ensures h in Processed(q, |q|)
    {
      QueueIsReached(G, q, root, h);
      var k :| 0 <= k < |q| && q[k].me == h;
    }
  }

  lemma ReachedDown(G: Graph, root: Name)
    requires Closed(G) && root in G
    ensures DownClosed(G, Reached(G, root))
  {
    forall g, s | g in Reached(G, root) && s in G[g].subs
      ensures s in Reached(G, root)
    {
      ReachSnoc(G, root, g, s);
    }
  }

  /** Ancestors passed on along every edge reach everything below. */
  lemma {:induction false} AncAlongPath(G: Graph, anc: Rel, p: seq<Name>, g: Name, v: Name)
    requires |p| >= 2 && IsPath(G, p, g, v)
    requires forall i :: 0 <= i < |p| - 1 ==> AncClosed(G, anc, p[i])
    ensures Has(anc, v, g)
    decreases |p|
  {
    assert Edge(G, p[|p| - 2], p[|p| - 2 + 1]);
    if |p| > 2 {
      var p' := p[..|p| - 1];
      assert forall i :: 0 <= i < |p'| - 1 ==> Edge(G, p[i], p[i + 1]);
      AncAlongPath(G, anc, p', g, p[|p| - 2]);
    }
  }

  /** `scope` is closed under subgroups. */
  ghost predicate DownClosed(G: Graph, scope: set<Name>) {
    && scope <= G.Keys
    && forall g, s :: g in scope && s in G[g].subs ==> s in scope
  }

  lemma {:induction false} PathInScope(G: Graph, scope: set<Name>, p: seq<Name>, g: Name, v: Name, i: nat)
    requires Closed(G) && DownClosed(G, scope) && g in scope && IsPath(G, p, g, v) && i < |p| - 1
    ensures p[i] in scope
    decreases i
  {
    if i > 0 {
      PathInScope(G, scope, p, g, v, i - 1);
      assert Edge(G, p[i - 1], p[i - 1 + 1]);
      assert Edge(G, p[i], p[i + 1]);
    }
  }

  /** Main result: if the groups of `scope` are settled and complete, ancestors and descendants are exactly
      reachability from those groups, hence inverse to each other. */
  lemma ClosureExact(G: Graph, anc: Rel, desc: Rel, scope: set<Name>, g: Name, v: Name)
    requires Closed(G) && DownClosed(G, scope) && Sound(G, anc, desc, scope)
    requires forall h :: h in scope ==> AncClosed(G, anc, h) && DescComplete(G, desc, h)
    ensures Has(desc, g, v) <==> g in scope && Reaches(G, g, v)
    ensures Has(anc, v, g) <==> g in scope && Reaches(G, g, v)
  {
    if g in scope && Reaches(G, g, v) {
      var p :| |p| >= 2 && IsPath(G, p, g, v);
      forall i | 0 <= i < |p| - 1
        ensures AncClosed(G, anc, p[i])
      {
        PathInScope(G, scope, p, g, v, i);
      }
      AncAlongPath(G, anc, p, g, v);
    }
  }

  // ----- The passes -----

  predicate IsOthers(n: Name): (b: bool)
    ensures b <==> "others" <= n.text
  {
    |n.text| >= 6 && n.text[..6] == "others"
  }

  class UserTable {
    const G: Graph
    ghost const rank: Name -> nat
    var children: Rel
    var parents: Rel
    var ancestors: Rel
    var descendants: Rel
    /** The groups whose sets are final. */
    ghost var scope: set<Name>

    ghost predicate Valid()
      reads this
    {
      && Ranked(G, rank) && DownClosed(G, scope)
      && DirectExact(G, children, parents, scope)
      && Sound(G, ancestors, descendants, scope)
      && (forall g :: g in scope ==> AncClosed(G, ancestors, g))
      && (forall g :: g in scope ==> DescComplete(G, descendants, g))
    }

    constructor (G: Graph, ghost rank: Name -> nat)
      requires Ranked(G, rank)
      ensures Valid() && this.G == G && this.rank == rank && scope == {}
    {
      this.G, this.rank := G, rank;
      children, parents, ancestors, descendants, scope := map[], map[], map[], map[], {};
    }

    /** Links everything directly below group `c` to it, and queues its subgroups. */
    method VisitGroup(c: Name, q: seq<Entry>) returns (q': seq<Entry>)
      requires c in G && Ranked(G, rank)
      modifies this`children, this`parents, this`ancestors, this`descendants
      ensures Visited(G, c, old(ancestors), old(descendants), ancestors, descendants)
      ensures forall g, v :: Has(children, g, v) <==> old(Has(children, g, v)) || (g == c && Edge(G, c, v))
      ensures forall g, v :: Has(parents, v, g) <==> old(Has(parents, v, g)) || (g == c && Edge(G, c, v))
      ensures q' == q + AllEntries(G, c)
    {
      NoSelfEdge(G, c, rank);
      ghost var below: set<Name> := {};
      for i := 0 to |G[c].members|
        invariant below == set k | 0 <= k < i :: G[c].members[k]
        invariant Linked(c, below, old(ancestors), old(descendants), old(children), old(parents))
      {
        assert Edge(G, c, G[c].members[i]);
        Link(c, G[c].members[i], below, old(ancestors), old(descendants), old(children), old(parents));
        below := below + {G[c].members[i]};
      }
      q' := q;
      for i := 0 to |G[c].subs|
        invariant q' == q + Entries(G, c, i)
        invariant below == (set u | u in G[c].members) + set k | 0 <= k < i :: G[c].subs[k]
        invariant Linked(c, below, old(ancestors), old(descendants), old(children), old(parents))
      {
        assert Edge(G, c, G[c].subs[i]);
        q' := q' + [Entry(G[c].subs[i], c)];
        Link(c, G[c].subs[i], below, old(ancestors), old(descendants), old(children), old(parents));
        below := below + {G[c].subs[i]};
      }
      assert below == Below(G, c);
    }

    /** The names in `below` have been linked to `c`. */
    ghost predicate Linked(c: Name, below: set<Name>, anc: Rel, desc: Rel, chi: Rel, par: Rel)
      reads this
    {
      && (forall v, g :: Has(ancestors, v, g) <==> Has(anc, v, g) || (v in below && (g == c || Has(anc, c, g))))
      && (forall g, v :: Has(descendants, g, v) <==> Has(desc, g, v) || (g == c && v in below))
      && (forall g, v :: Has(children, g, v) <==> Has(chi, g, v) || (g == c && v in below))
      && (forall g, v :: Has(parents, v, g) <==> Has(par, v, g) || (g == c && v in below))
    }

    method Link(c: Name, v: Name, ghost below: set<Name>,
                ghost anc: Rel, ghost desc: Rel, ghost chi: Rel, ghost par: Rel)
      requires Linked(c, below, anc, desc, chi, par) && c !in below && c != v
      modifies this`children, this`parents, this`ancestors, this`descendants
      ensures Linked(c, below + {v}, anc, desc, chi, par)
    {
      parents := Grow(parents, v, {c});
      ancestors := Grow(ancestors, v, {c});
      ancestors := Grow(ancestors, v, At(ancestors, c));
      children := Grow(children, c, {v});
      descendants := Grow(descendants, c, {v});
    }

    /** First half of a pass: visits every group below `grp`, breadth first. */
    method QueueAll(grp: Name) returns (q: seq<Entry>)
      requires Valid() && grp in G
      modifies this`children, this`parents, this`ancestors, this`descendants
      ensures Forward(G, q, |q|, grp, scope, ancestors, descendants)
      ensures DirectExact(G, children, parents, scope + Processed(q, |q|))
      ensures |q| == Unrolled(G, grp, rank)
    {
      q := [Entry(grp, grp)];
      var cur := 0;
      assert scope + Processed(q, 0) == scope;
      while cur < |q|
        invariant cur <= |q| && Forward(G, q, cur, grp, scope, ancestors, descendants)
        invariant DirectExact(G, children, parents, scope + Processed(q, cur))
        invariant cur + Weight(G, q, cur, rank) == Unrolled(G, grp, rank)
        decreases Unrolled(G, grp, rank) - cur
      {
        var c := q[cur].me;
        ghost var q0, anc, desc := q, ancestors, descendants;
        q := VisitGroup(c, q);
        ForwardStep(G, q0, cur, grp, scope, anc, desc, ancestors, descendants, rank);
        VisitWeight(G, q0, cur, c, |G[c].subs|, rank);
        ProcessedStep(q0, q, cur);
        cur := cur + 1;
      }
    }

    /** Second half: hands the descendants of each queued group to the group it was queued for, last one first. */
    method MergeBack(q: seq<Entry>, ghost grp: Name)
      requires Ranked(G, rank) && Forward(G, q, |q|, grp, scope, ancestors, descendants)
      modifies this`descendants
      ensures Sound(G, ancestors, descendants, scope + Reached(G, grp))
      ensures forall g :: g in scope ==> DescComplete(G, descendants, g)
      ensures forall k :: 0 <= k < |q| ==> DescComplete(G, descendants, q[k].me)
    {
      var i := |q| - 1;
      while i > 0
        invariant 0 <= i < |q|
        invariant Sound(G, ancestors, descendants, scope + Reached(G, grp))
        invariant forall g :: g in scope ==> DescComplete(G, descendants, g)
        invariant forall k :: 0 <= k < |q| ==> DescDirect(G, descendants, q[k].me)
        invariant forall k :: i < k < |q| ==> Merged(G, descendants, q[k])
      {
        EntryComplete(G, q, descendants, i);
        MergeSound(G, q, i, grp, ancestors, descendants, scope);
        descendants := Grow(descendants, q[i].parent, At(descendants, q[i].me));
        i := i - 1;
      }
      forall k | 0 <= k < |q|
        ensures DescComplete(G, descendants, q[k].me)
      {
        EntryComplete(G, q, descendants, k);
      }
    }

    /** One pass over everything below `grp`. A subgroup is queued once for each way to it; `used` is the number of
        queue slots taken, so a queue of MAX_GROUPS slots suffices exactly if `Unrolled` does not exceed that. */
    method TraverseGroupTree(grp: Name) returns (used: nat)
      requires Valid() && grp in G
      modifies this
      ensures Valid() && scope == old(scope) + Reached(G, grp)
      ensures used == Unrolled(G, grp, rank)
    {
      var q := QueueAll(grp);
      MergeBack(q, grp);
      QueueExact(G, q, grp);
      scope := scope + Reached(G, grp);
      ReachedDown(G, grp);
      used := |q|;
    }

    /** The first loop: one pass for each group of the table that is not an "others" group. Afterwards ancestors and
        descendants are exactly reachability from the groups covered, and so inverse to each other. */
    method TraverseAll(table: seq<Name>)
      requires Valid() && scope == {}
      modifies this
      ensures forall g, v :: Has(descendants, g, v) <==> Covered(G, table, g) && Reaches(G, g, v)
      ensures forall g, v :: Has(ancestors, v, g) <==> Covered(G, table, g) && Reaches(G, g, v)
      ensures forall g, v :: Has(children, g, v) <==> Covered(G, table, g) && Edge(G, g, v)
      ensures forall g, v :: Has(parents, v, g) <==> Covered(G, table, g) && Edge(G, g, v)
    {
      for i := 0 to |table|
        invariant Valid()
        invariant forall g :: g in scope <==> Covered(G, table[..i], g)
      {
        CoveredStep(G, table, i);
        if table[i] in G && !IsOthers(table[i]) {
          var _ := TraverseGroupTree(table[i]);
        }
      }
      assert table[..|table|] == table;
      forall g, v
        ensures Has(descendants, g, v) <==> Covered(G, table, g) && Reaches(G, g, v)
        ensures Has(ancestors, v, g) <==> Covered(G, table, g) && Reaches(G, g, v)
      {
        ClosureExact(G, ancestors, descendants, scope, g, v);
      }
    }
  }

  /** The groups that some pass starts from or comes by. */
  ghost predicate Covered(G: Graph, table: seq<Name>, g: Name) {
    g in G && exists r :: r in table && r in G && !("others" <= r.text) && ReachesOrIs(G, r, g)
  }

  lemma CoveredStep(G: Graph, table: seq<Name>, i: nat)
    requires i < |table|
    ensures forall g :: Covered(G, table[..i + 1], g) <==>
              || Covered(G, table[..i], g)
              || (table[i] in G && !("others" <= table[i].text) && g in Reached(G, table[i]))
  {
    assert table[..i + 1] == table[..i] + [table[i]];
  }
}
