/** The counting walks over groups, with the running totals they keep between calls. */
module GroupCounts {
  import opened GroupGraph

  /** `s` with `xs` written over it from position `at`. */
  ghost function Put(s: seq<Name>, at: nat, xs: seq<Name>): seq<Name>
    requires at + |xs| <= |s|
  {
    s[..at] + xs + s[at + |xs|..]
  }

  lemma PutPut(s: seq<Name>, at: nat, xs: seq<Name>, ys: seq<Name>)
    requires at + |xs| + |ys| <= |s|
    ensures Put(Put(s, at, xs), at + |xs|, ys) == Put(s, at, xs + ys)
  {}

  class Counters {
    var num: nat       // of SumMembers
    var entries: nat   // of CountEntries
    var mcnt: nat      // of FillMembers

    /** With `r`, zero tells that some group within reach is empty; any other result is the number of entries
        below the group. Without `r`, direct members and subgroups are counted. */
    method SumMembers(G: Graph, g: Name, r: bool, first: bool, ghost rank: Name -> nat) returns (n: nat)
      requires g in G && Ranked(G, rank)
      modifies this`num
      ensures r ==> (n == 0 <==> HasEmpty(G, g, rank))
      ensures r && n != 0 ==> n == num == (if first then 0 else old(num)) + |Flatten(G, g, rank)|
      ensures !r ==> n == num == (if first then 0 else old(num)) + |G[g].members| + |G[g].subs|
      decreases rank(g)
    {
      if first {
        num := 0;
      }
      ghost var base := num;
      if Empty(G, g) && r {
        return 0;
      }
      num := num + |G[g].members|;
      if !r {
        num := num + |G[g].subs|;
      } else {
        for i := 0 to |G[g].subs|
          invariant num + |FlattenSubs(G, g, i, rank)| == base + |Flatten(G, g, rank)|
          invariant forall k :: 0 <= k < i ==> !HasEmpty(G, G[g].subs[k], rank)
        {
          var m := SumMembers(G, G[g].subs[i], r, false, rank);
          if m == 0 {
            return 0;
          }
        }
        FlattenNonEmpty(G, g, rank);
      }
      n := num;
    }

    method CountEntries(G: Graph, g: Name, first: bool, ghost rank: Name -> nat) returns (n: nat)
      requires g in G && Ranked(G, rank)
      modifies this`entries
      ensures n == entries == (if first then 0 else old(entries)) + |Flatten(G, g, rank)|
      decreases rank(g)
    {
      if first {
        entries := 0;
      }
      ghost var base := entries;
      entries := entries + |G[g].members|;
      for i := 0 to |G[g].subs|
        invariant entries + |FlattenSubs(G, g, i, rank)| == base + |Flatten(G, g, rank)|
      {
        var _ := CountEntries(G, G[g].subs[i], false, rank);
      }
      n := entries;
    }

    method FillDirect(members: seq<Name>, tab: array<Name>)
      requires mcnt + |members| <= tab.Length
      modifies this`mcnt, tab
      ensures mcnt == old(mcnt) + |members| && tab[..] == Put(old(tab[..]), old(mcnt), members)
    {
      for j := 0 to |members|
        invariant mcnt == old(mcnt) + j
        invariant forall k :: 0 <= k < tab.Length && !(old(mcnt) <= k < mcnt) ==> tab[k] == old(tab[k])
        invariant forall k :: 0 <= k < j ==> tab[old(mcnt) + k] == members[k]
      {
        tab[mcnt] := members[j];
        mcnt := mcnt + 1;
      }
    }

    /** Writes exactly the entries below the group, from the running position on, and nothing else. */
    method FillMembers(G: Graph, g: Name, tab: array<Name>, first: bool, ghost rank: Name -> nat)
      requires g in G && Ranked(G, rank)
      requires (if first then 0 else mcnt) + |Flatten(G, g, rank)| <= tab.Length
      modifies this`mcnt, tab
      ensures mcnt == (if first then 0 else old(mcnt)) + |Flatten(G, g, rank)|
      ensures tab[..] == Put(old(tab[..]), if first then 0 else old(mcnt), Flatten(G, g, rank))
      decreases rank(g), 1
    {
      if first {
        mcnt := 0;
      }
      ghost var was, base := tab[..], mcnt;
      FillDirect(G[g].members, tab);
      FillSubs(G, g, tab, rank);
      PutPut(was, base, G[g].members, FlattenSubs(G, g, 0, rank));
    }

    method FillSubs(G: Graph, g: Name, tab: array<Name>, ghost rank: Name -> nat)
      requires g in G && Ranked(G, rank) && mcnt + |FlattenSubs(G, g, 0, rank)| <= tab.Length
      modifies this`mcnt, tab
      ensures mcnt == old(mcnt) + |FlattenSubs(G, g, 0, rank)|
      ensures tab[..] == Put(old(tab[..]), old(mcnt), FlattenSubs(G, g, 0, rank))
      decreases rank(g), 0
    {
      ghost var done, all := [], FlattenSubs(G, g, 0, rank);
      for i := 0 to |G[g].subs|
        invariant done + FlattenSubs(G, g, i, rank) == all
        invariant mcnt == old(mcnt) + |done| && tab[..] == Put(old(tab[..]), old(mcnt), done)
      {
        ghost var sub := Flatten(G, G[g].subs[i], rank);
        assert done + sub + FlattenSubs(G, g, i + 1, rank) == all;
        FillMembers(G, G[g].subs[i], tab, false, rank);
        PutPut(old(tab[..]), old(mcnt), done, sub);
        done := done + sub;
      }
      assert done == all;
    }

    /** The unrolled entries of a group, or the group's own name if there are none. */
    method ExpandGrp(G: Graph, g: Name, gName: Name, ghost rank: Name -> nat) returns (tab: array<Name>)
      requires g in G && Ranked(G, rank)
      modifies this`entries, this`mcnt
      ensures fresh(tab)
      ensures tab[..] == if Flatten(G, g, rank) == [] then [gName] else Flatten(G, g, rank)
    {
      var n := CountEntries(G, g, true, rank);
      if n == 0 {
        tab := new Name[1](_ => gName);
        return;
      }
      tab := new Name[n](_ => gName);
      FillMembers(G, g, tab, true, rank);
    }
  }
}
