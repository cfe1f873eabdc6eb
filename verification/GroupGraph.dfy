/** User and host groups: who is reachable from a group, and the recursive tests and counts over groups. */
module GroupGraph {
  datatype Name = Name(text: string)

  /** The direct members of a group, in table order, and its subgroups. */
  datatype GData = GData(members: seq<Name>, subs: seq<Name>)

  type Graph = map<Name, GData>

  /** Subgroups are groups; members are users, not groups. */
  predicate Closed(G: Graph) {
    && (forall g, s :: g in G && s in G[g].subs ==> s in G)
    && (forall g, u :: g in G && u in G[g].members ==> u !in G)
  }

  /** No group contains itself, directly or not: `rank` goes down along subgroups. */
  ghost predicate Ranked(G: Graph, rank: Name -> nat) {
    Closed(G) && forall g, s :: g in G && s in G[g].subs ==> rank(s) < rank(g)
  }

  /** A group without members or subgroups stands for all users. */
  predicate Empty(G: Graph, g: Name)
    requires g in G
  {
    G[g].members == [] && G[g].subs == []
  }

  predicate Edge(G: Graph, g: Name, v: Name) {
    g in G && (v in G[g].members || v in G[g].subs)
  }

  // ----- Reachability -----

  ghost predicate Path(G: Graph, p: seq<Name>) {
    forall i :: 0 <= i < |p| - 1 ==> Edge(G, p[i], p[i + 1])
  }

  ghost predicate IsPath(G: Graph, p: seq<Name>, g: Name, v: Name) {
    |p| >= 1 && p[0] == g && p[|p| - 1] == v && Path(G, p)
  }

  ghost predicate Reaches(G: Graph, g: Name, v: Name) {
    exists p :: |p| >= 2 && IsPath(G, p, g, v)
  }

  ghost predicate ReachesOrIs(G: Graph, g: Name, v: Name) {
    g == v || Reaches(G, g, v)
  }

  lemma ReachStep(G: Graph, g: Name, s: Name, v: Name)
    requires Edge(G, g, s) && ReachesOrIs(G, s, v)
    ensures Reaches(G, g, v)
  {
    if s == v {
      assert IsPath(G, [g, v], g, v);
    } else {
      var p :| |p| >= 2 && IsPath(G, p, s, v);
      assert IsPath(G, [g] + p, g, v);
    }
  }

  lemma ReachSnoc(G: Graph, g: Name, s: Name, v: Name)
    requires ReachesOrIs(G, g, s) && Edge(G, s, v)
    ensures Reaches(G, g, v)
  {
    if g == s {
      assert IsPath(G, [g, v], g, v);
    } else {
      var p :| |p| >= 2 && IsPath(G, p, g, s);
      assert IsPath(G, p + [v], g, v);
    }
  }

  lemma ReachFirst(G: Graph, g: Name, v: Name) returns (s: Name)
    requires Reaches(G, g, v)
    ensures Edge(G, g, s) && ReachesOrIs(G, s, v)
  {
    var p :| |p| >= 2 && IsPath(G, p, g, v);
    s := p[1];
    if |p| > 2 {
      assert IsPath(G, p[1..], s, v);
    }
  }

  /** What a group reaches: its members and subgroups, and what the subgroups reach. */
  lemma ReachCases(G: Graph, g: Name, v: Name)
    requires g in G && Closed(G)
    ensures Reaches(G, g, v) <==>
            v in G[g].members || exists s :: s in G[g].subs && ReachesOrIs(G, s, v)
  {
    if Reaches(G, g, v) {
      var s := ReachFirst(G, g, v);
      if s in G[g].members && s != v {
        var w := ReachFirst(G, s, v);
        assert false;
      }
    }
    if v in G[g].members {
      ReachStep(G, g, v, v);
    }
    forall s | s in G[g].subs && ReachesOrIs(G, s, v)
      ensures Reaches(G, g, v)
    {
      ReachStep(G, g, s, v);
    }
  }

  /** The groups reachable from a group, itself included. */
  lemma GroupReachCases(G: Graph, g: Name, h: Name)
    requires g in G && Closed(G) && h in G
    ensures ReachesOrIs(G, g, h) <==> g == h || exists s :: s in G[g].subs && ReachesOrIs(G, s, h)
  {
    ReachCases(G, g, h);
  }

  // ----- Membership -----

  predicate GDirectMember(G: Graph, word: Name, g: Name)
    requires g in G
  {
    Empty(G, g) || word in G[g].members
  }

  predicate GMember(G: Graph, word: Name, g: Name, ghost rank: Name -> nat)
    requires g in G && Ranked(G, rank)
    decreases rank(g)
  {
    GDirectMember(G, word, g) || exists s :: s in G[g].subs && GMember(G, word, s, rank)
  }

  /** A word is a member exactly if some group within reach lists it, or has neither members nor subgroups. */
  lemma {:induction false} GMemberExactly(G: Graph, word: Name, g: Name, rank: Name -> nat)
    requires g in G && Ranked(G, rank)
    ensures GMember(G, word, g, rank) <==>
            exists h :: h in G && ReachesOrIs(G, g, h)
                        && (word in G[h].members || (G[h].members == [] && G[h].subs == []))
    decreases rank(g)
  {
    if GDirectMember(G, word, g) {
      assert ReachesOrIs(G, g, g);
    } else if GMember(G, word, g, rank) {
      var s :| s in G[g].subs && GMember(G, word, s, rank);
      GMemberExactly(G, word, s, rank);
      var h :| h in G && ReachesOrIs(G, s, h) && GDirectMember(G, word, h);
      GroupReachCases(G, g, h);
    }
    if h :| h in G && ReachesOrIs(G, g, h) && GDirectMember(G, word, h) {
      GroupReachCases(G, g, h);
      if g != h {
        var s :| s in G[g].subs && ReachesOrIs(G, s, h);
        GMemberExactly(G, word, s, rank);
      }
    }
  }

  // ----- Counting -----

  /** All member entries below a group, subgroups unrolled. */
  function Flatten(G: Graph, g: Name, ghost rank: Name -> nat): seq<Name>
    requires g in G && Ranked(G, rank)
    decreases rank(g), |G[g].subs| + 1
  {
    G[g].members + FlattenSubs(G, g, 0, rank)
  }

  function FlattenSubs(G: Graph, g: Name, i: nat, ghost rank: Name -> nat): seq<Name>
    requires g in G && Ranked(G, rank) && i <= |G[g].subs|
    decreases rank(g), |G[g].subs| - i
  {
    if i == |G[g].subs| then [] else Flatten(G, G[g].subs[i], rank) + FlattenSubs(G, g, i + 1, rank)
  }

  lemma {:induction false} FlattenExactly(G: Graph, g: Name, w: Name, rank: Name -> nat)
    requires g in G && Ranked(G, rank)
    ensures w in Flatten(G, g, rank) <==> exists h :: h in G && ReachesOrIs(G, g, h) && w in G[h].members
    decreases rank(g), |G[g].subs| + 1
  {
    FlattenSubsExactly(G, g, 0, w, rank);
    if w in G[g].members {
      assert ReachesOrIs(G, g, g);
    }
    if k :| 0 <= k < |G[g].subs| && w in Flatten(G, G[g].subs[k], rank) {
      FlattenExactly(G, G[g].subs[k], w, rank);
      var h :| h in G && ReachesOrIs(G, G[g].subs[k], h) && w in G[h].members;
      GroupReachCases(G, g, h);
    }
    if h :| h in G && ReachesOrIs(G, g, h) && w in G[h].members {
      GroupReachCases(G, g, h);
      if g != h {
        var s :| s in G[g].subs && ReachesOrIs(G, s, h);
        var k :| 0 <= k < |G[g].subs| && G[g].subs[k] == s;
        FlattenExactly(G, s, w, rank);
      }
    }
  }

  lemma {:induction false} FlattenSubsExactly(G: Graph, g: Name, i: nat, w: Name, rank: Name -> nat)
    requires g in G && Ranked(G, rank) && i <= |G[g].subs|
    ensures w in FlattenSubs(G, g, i, rank) <==>
            exists k :: i <= k < |G[g].subs| && w in Flatten(G, G[g].subs[k], rank)
    decreases rank(g), |G[g].subs| - i
  {
    if i < |G[g].subs| {
      FlattenSubsExactly(G, g, i + 1, w, rank);
    }
  }

  /** Whether some group within reach is empty. */
  predicate HasEmpty(G: Graph, g: Name, ghost rank: Name -> nat)
    requires g in G && Ranked(G, rank)
    decreases rank(g)
  {
    Empty(G, g) || exists s :: s in G[g].subs && HasEmpty(G, s, rank)
  }

  lemma {:induction false} HasEmptyExactly(G: Graph, g: Name, rank: Name -> nat)
    requires g in G && Ranked(G, rank)
    ensures HasEmpty(G, g, rank) <==>
            exists h :: h in G && ReachesOrIs(G, g, h) && G[h].members == [] && G[h].subs == []
    decreases rank(g)
  {
    if HasEmpty(G, g, rank) && !Empty(G, g) {
      var s :| s in G[g].subs && HasEmpty(G, s, rank);
      HasEmptyExactly(G, s, rank);
      var h :| h in G && ReachesOrIs(G, s, h) && Empty(G, h);
      GroupReachCases(G, g, h);
    }
    if h :| h in G && ReachesOrIs(G, g, h) && Empty(G, h) {
      GroupReachCases(G, g, h);
      if g != h {
        var s :| s in G[g].subs && ReachesOrIs(G, s, h);
        HasEmptyExactly(G, s, rank);
      }
    }
  }

  /** Without an empty group in reach there is at least one entry, so a zero count is never a miscount. */
  lemma {:induction false} FlattenNonEmpty(G: Graph, g: Name, rank: Name -> nat)
    requires g in G && Ranked(G, rank) && !HasEmpty(G, g, rank)
    ensures Flatten(G, g, rank) != []
    decreases rank(g)
  {
    if G[g].members == [] {
      FlattenNonEmpty(G, G[g].subs[0], rank);
    }
  }

  lemma {:induction false} NameBeyond(ns: seq<Name>) returns (n: Name)
    ensures forall k :: 0 <= k < |ns| ==> |ns[k].text| < |n.text|
  {
    if ns == [] {
      n := Name("");
    } else {
      var m := NameBeyond(ns[1..]);
      n := Name(if |ns[0].text| < |m.text| then m.text else ns[0].text + "x");
      assert forall k :: 1 <= k < |ns| ==> ns[k] == ns[1..][k - 1];
    }
  }

  /** Every word whatever is a member exactly if some group within reach is empty. */
  lemma EverybodyExactly(G: Graph, g: Name, rank: Name -> nat)
    requires g in G && Ranked(G, rank)
    ensures (forall w :: GMember(G, w, g, rank)) <==> HasEmpty(G, g, rank)
  {
    HasEmptyExactly(G, g, rank);
    var n := NameBeyond(Flatten(G, g, rank));
    GMemberExactly(G, n, g, rank);
    FlattenExactly(G, g, n, rank);
    if HasEmpty(G, g, rank) {
      forall w
        ensures GMember(G, w, g, rank)
      {
        GMemberExactly(G, w, g, rank);
      }
    }
  }

  /** A user is a member of a group exactly if the group reaches the user, or an empty group; and is among the group's
      unrolled entries exactly if the group reaches the user. */
  lemma MemberIsReach(G: Graph, g: Name, w: Name, rank: Name -> nat)
    requires g in G && Ranked(G, rank) && w !in G
    ensures GMember(G, w, g, rank) <==> Reaches(G, g, w) || HasEmpty(G, g, rank)
    ensures w in Flatten(G, g, rank) <==> Reaches(G, g, w)
  {
    GMemberExactly(G, w, g, rank);
    FlattenExactly(G, g, w, rank);
    HasEmptyExactly(G, g, rank);
    if Reaches(G, g, w) {
      var h := ReachLastGroup(G, g, w);
      assert GDirectMember(G, w, h);
    }
    if h :| h in G && ReachesOrIs(G, g, h) && w in G[h].members {
      ReachSnoc(G, g, h, w);
    }
  }

  lemma ReachLastGroup(G: Graph, g: Name, w: Name) returns (h: Name)
    requires Reaches(G, g, w) && w !in G && Closed(G)
    ensures h in G && ReachesOrIs(G, g, h) && w in G[h].members
  {
    var p :| |p| >= 2 && IsPath(G, p, g, w);
    h := p[|p| - 2];
    assert Edge(G, p[|p| - 2], p[|p| - 2 + 1]);
    if |p| > 2 {
      var p' := p[..|p| - 1];
      assert forall i :: 0 <= i < |p'| - 1 ==> Edge(G, p[i], p[i + 1]);
      assert IsPath(G, p', g, h);
    }
  }
}
