/** User groups that stand for all users: their descendant set is the set of all users itself, which the passes then
    hand on to every group above them. */
module GroupAll {
  import opened GroupGraph
  import opened GroupClosure

  /** Stands for the set of all users, where a descendant set includes it as a whole. */
  const ALL := Name("")

  /** `ALL` is neither a group nor a member of one. */
  predicate Fresh(G: Graph) {
    ALL !in G && forall g :: g in G ==> ALL !in G[g].members
  }

  /** The groups without members and subgroups, with all users as what is directly below them. */
  function WithAll(G: Graph): (H: Graph)
    ensures H.Keys == G.Keys
    ensures forall g :: g in G ==> H[g] == if Empty(G, g) then GData([ALL], []) else G[g]
  {
    map g | g in G :: if Empty(G, g) then GData([ALL], []) else G[g]
  }

  lemma WithAllRanked(G: Graph, rank: Name -> nat)
    requires Ranked(G, rank) && Fresh(G)
    ensures Ranked(WithAll(G), rank) && forall g :: g in WithAll(G) ==> !Empty(WithAll(G), g)
  {}

  lemma EdgeWithAll(G: Graph, g: Name, v: Name)
    requires Fresh(G) && Closed(G)
    ensures Edge(WithAll(G), g, v) <==> if v == ALL then g in G && Empty(G, g) else Edge(G, g, v)
  {}

  /** Some group that stands for all users is the group or reachable from it. */
  ghost predicate MeetsAll(G: Graph, g: Name) {
    exists h :: h in G && ReachesOrIs(G, g, h) && Empty(G, h)
  }

  /** What a group reaches is what it did, and all users if it meets a group that stands for them. */
  lemma ReachWithAll(G: Graph, g: Name, v: Name)
    requires Fresh(G) && Closed(G) && g in G
    ensures Reaches(WithAll(G), g, v) <==> if v == ALL then MeetsAll(G, g) else Reaches(G, g, v)
  {
    var H := WithAll(G);
    if v != ALL {
      if Reaches(H, g, v) {
        var p :| |p| >= 2 && IsPath(H, p, g, v);
        PathWithout(G, p, g, v);
      }
      if Reaches(G, g, v) {
        var p :| |p| >= 2 && IsPath(G, p, g, v);
        PathWith(G, p, g, v);
      }
    } else {
      if Reaches(H, g, v) {
        var p :| |p| >= 2 && IsPath(H, p, g, v);
        var q, h := p[..|p| - 1], p[|p| - 2];
        assert Edge(H, p[|p| - 2], p[|p| - 1]);
        EdgeWithAll(G, h, ALL);
        assert IsPath(H, q, g, h);
        if |q| >= 2 {
          PathWithout(G, q, g, h);
        }
        assert ReachesOrIs(G, g, h);
      }
      if MeetsAll(G, g) {
        var h :| h in G && ReachesOrIs(G, g, h) && Empty(G, h);
        EdgeWithAll(G, h, ALL);
        if g != h {
          var p :| |p| >= 2 && IsPath(G, p, g, h);
          assert h != ALL;
          PathWith(G, p, g, h);
        }
        ReachSnoc(H, g, h, ALL);
      }
    }
  }

  lemma PathWithout(G: Graph, p: seq<Name>, g: Name, v: Name)
    requires Fresh(G) && Closed(G) && |p| >= 2 && IsPath(WithAll(G), p, g, v) && v != ALL
    ensures IsPath(G, p, g, v)
  {
    forall i | 0 <= i < |p| - 1
      ensures Edge(G, p[i], p[i + 1])
    {
      assert Edge(WithAll(G), p[i], p[i + 1]);
      assert i + 1 < |p| - 1 ==> Edge(WithAll(G), p[i + 1], p[i + 2]);
      EdgeWithAll(G, p[i], p[i + 1]);
    }
  }

  lemma PathWith(G: Graph, p: seq<Name>, g: Name, v: Name)
    requires Fresh(G) && Closed(G) && |p| >= 2 && IsPath(G, p, g, v)
    ensures IsPath(WithAll(G), p, g, v)
  {
    forall i | 0 <= i < |p| - 1
      ensures Edge(WithAll(G), p[i], p[i + 1])
    {
      assert Edge(G, p[i], p[i + 1]);
      EdgeWithAll(G, p[i], p[i + 1]);
    }
  }

  lemma CoveredWithAll(G: Graph, table: seq<Name>, g: Name)
    requires Fresh(G) && Closed(G)
    ensures Covered(WithAll(G), table, g) <==> Covered(G, table, g)
  {
    forall r | r in G && g in G
      ensures ReachesOrIs(WithAll(G), r, g) <==> ReachesOrIs(G, r, g)
    {
      ReachWithAll(G, r, g);
    }
  }

  // ----- The second loop -----

  predicate HasAny(m: Rel, v: Name) { At(m, v) != {} }

  /** A user without any flag that has a set of parents gets more. */
  predicate Gains(table: seq<Name>, plain: set<Name>, parents: Rel, v: Name) {
    v in table && v in plain && HasAny(parents, v)
  }

  ghost predicate Gained(before: Rel, after: Rel, table: seq<Name>, plain: set<Name>, parents: Rel, all: set<Name>) {
    forall v, g :: Has(after, v, g) <==> Has(before, v, g) || (Gains(table, plain, parents, v) && g in all)
  }

  lemma GainedStep(before: Rel, after: Rel, table: seq<Name>, i: nat, plain: set<Name>, parents: Rel, all: set<Name>)
    requires i < |table| && Gained(before, after, table[..i], plain, parents, all)
    ensures var u := table[i];
            var more := if u in plain && HasAny(parents, u) then Grow(after, u, all) else after;
            Gained(before, more, table[..i + 1], plain, parents, all)
  {
    assert table[..i + 1] == table[..i] + [table[i]];
  }

  lemma GrowAny(m: Rel, u: Name, xs: set<Name>)
    requires HasAny(m, u)
    ensures forall v :: HasAny(Grow(m, u, xs), v) <==> HasAny(m, v)
  {}

  /** Adds the groups `all` to the parents and ancestors of plain users. */
  method AddAllGroups(t: UserTable, table: seq<Name>, plain: set<Name>, all: set<Name>)
    modifies t`parents, t`ancestors
    ensures Gained(old(t.ancestors), t.ancestors, table, plain, old(t.parents), all)
    ensures Gained(old(t.parents), t.parents, table, plain, old(t.parents), all)
  {
    for i := 0 to |table|
      invariant Gained(old(t.ancestors), t.ancestors, table[..i], plain, old(t.parents), all)
      invariant Gained(old(t.parents), t.parents, table[..i], plain, old(t.parents), all)
      invariant forall v :: HasAny(t.parents, v) <==> HasAny(old(t.parents), v)
    {
      var u := table[i];
      GainedStep(old(t.ancestors), t.ancestors, table, i, plain, old(t.parents), all);
      GainedStep(old(t.parents), t.parents, table, i, plain, old(t.parents), all);
      if u in plain && HasAny(t.parents, u) {
        GrowAny(t.parents, u, all);
        t.parents := Grow(t.parents, u, all);
        t.ancestors := Grow(t.ancestors, u, all);
      }
    }
    assert table[..|table|] == table;
  }

  // ----- Both -----

  /** What the descendant sets say in the end: `v` is below `g`, or `g` stands for all users, or meets a group that
      does. */
  ghost predicate Descends(G: Graph, table: seq<Name>, users: set<Name>, g: Name, v: Name) {
    || (Covered(G, table, g) && Reaches(G, g, v))
    || (v in users && g in G && (Empty(G, g) || (Covered(G, table, g) && MeetsAll(G, g))))
  }

  /** What the ancestor sets say: `v` is below `g`, or is a plain user in some group and `g` stands for all users. */
  ghost predicate Ascends(G: Graph, table: seq<Name>, plain: set<Name>, v: Name, g: Name) {
    || (Covered(G, table, g) && Reaches(G, g, v))
    || (g in G && Empty(G, g) && v in table && v in plain && InSomeGroup(G, table, v))
  }

  ghost predicate InSomeGroup(G: Graph, table: seq<Name>, v: Name) {
    exists g :: Covered(G, table, g) && Edge(G, g, v)
  }

  /** The descendants of a group: those listed, and all users if it stands for them or includes them as a whole. */
  predicate Listed(G: Graph, descendants: Rel, users: set<Name>, g: Name, v: Name) {
    Has(descendants, g, v) || (v in users && ((g in G && Empty(G, g)) || Has(descendants, g, ALL)))
  }

  /** Builds all sets of a user table; `plain` are the users without any flag. */
  method SetuDataCreate(G: Graph, table: seq<Name>, plain: set<Name>, ghost users: set<Name>, ghost rank: Name -> nat)
    returns (t: UserTable)
    requires Ranked(G, rank) && Fresh(G) && ALL !in plain && ALL !in users
    ensures forall g, v :: v != ALL ==>
              (Listed(G, t.descendants, users, g, v) <==> Descends(G, table, users, g, v))
    ensures forall g, v :: v != ALL ==> (Has(t.ancestors, v, g) <==> Ascends(G, table, plain, v, g))
  {
    WithAllRanked(G, rank);
    t := new UserTable(WithAll(G), rank);
    t.TraverseAll(table);
    ghost var anc, par := t.ancestors, t.parents;
    var all := set g | g in G && Empty(G, g);
    AddAllGroups(t, table, plain, all);
    forall g, v | v != ALL
      ensures Listed(G, t.descendants, users, g, v) <==> Descends(G, table, users, g, v)
      ensures Has(t.ancestors, v, g) <==> Ascends(G, table, plain, v, g)
    {
      SetsSay(G, table, plain, users, t.descendants, anc, par, all, t.ancestors, g, v);
    }
  }

  lemma SetsSay(G: Graph, table: seq<Name>, plain: set<Name>, users: set<Name>, desc: Rel, anc: Rel, par: Rel,
                all: set<Name>, anc': Rel, g: Name, v: Name)
    requires Fresh(G) && Closed(G) && v != ALL
    requires forall h :: h in all <==> h in G && Empty(G, h)
    requires forall h, x :: Has(desc, h, x) <==> Covered(WithAll(G), table, h) && Reaches(WithAll(G), h, x)
    requires forall h, x :: Has(anc, x, h) <==> Covered(WithAll(G), table, h) && Reaches(WithAll(G), h, x)
    requires forall h, x :: Has(par, x, h) <==> Covered(WithAll(G), table, h) && Edge(WithAll(G), h, x)
    requires Gained(anc, anc', table, plain, par, all)
    ensures Listed(G, desc, users, g, v) <==> Descends(G, table, users, g, v)
    ensures Has(anc', v, g) <==> Ascends(G, table, plain, v, g)
  {
    CoveredWithAll(G, table, g);
    if g in G {
      ReachWithAll(G, g, v);
      ReachWithAll(G, g, ALL);
    }
    ParentsSay(G, table, par, v);
  }

  lemma ParentsSay(G: Graph, table: seq<Name>, par: Rel, v: Name)
    requires Fresh(G) && Closed(G) && v != ALL
    requires forall h, x :: Has(par, x, h) <==> Covered(WithAll(G), table, h) && Edge(WithAll(G), h, x)
    ensures HasAny(par, v) <==> InSomeGroup(G, table, v)
  {
    if HasAny(par, v) {
      var h :| h in At(par, v);
      assert Has(par, v, h);
      CoveredWithAll(G, table, h);
      EdgeWithAll(G, h, v);
    }
    if InSomeGroup(G, table, v) {
      var h :| Covered(G, table, h) && Edge(G, h, v);
      CoveredWithAll(G, table, h);
      EdgeWithAll(G, h, v);
      assert Has(par, v, h);
    }
  }

  /** Without groups that stand for all users the two are inverse. */
  lemma InverseWithoutAll(G: Graph, table: seq<Name>, plain: set<Name>, users: set<Name>, g: Name, v: Name)
    requires forall h :: h in G ==> !Empty(G, h)
    ensures Descends(G, table, users, g, v) <==> Ascends(G, table, plain, v, g)
  {}

  /** With them they are not: a group above such a group has every user below it, and is above none of them. */
  lemma AboveAllNotAncestor(g: Name, h: Name, v: Name, plain: set<Name>, users: set<Name>)
    requires g != h && v != g && v != h && v in users && !("others" <= g.text)
    ensures var G := map[g := GData([], [h]), h := GData([], [])];
            && Closed(G) && Descends(G, [g], users, g, v) && !Ascends(G, [g], plain, v, g)
  {
    var G := map[g := GData([], [h]), h := GData([], [])];
    assert Edge(G, g, h);
    assert IsPath(G, [g, h], g, h);
    assert ReachesOrIs(G, g, h) && Empty(G, h);
    assert Covered(G, [g], g) by {
      assert g in [g];
    }
    forall p: seq<Name> | |p| >= 2 && p[|p| - 1] == v
      ensures !Path(G, p)
    {
      var i := |p| - 2;
      assert !Edge(G, p[i], p[i + 1]);
    }
  }
}
