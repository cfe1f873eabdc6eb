/** The fair-share tree of a queue: counters kept in step with dispatched jobs, and the choice of the next user. */
module FairShare {
  import opened Wrappers

  type Name = string

  /** A node with the counters of its user, or of all users below a group. `desc` is the group's table of users. */
  datatype Node = Node(name: Name, share: real, run: int, pend: int, active: bool, priority: real, desc: set<Name>,
                       kids: seq<Node>)

  const MAX_SHARE_VALUE := 100000.0

  function ComputePriority(share: real, active: bool, run: int): real {
    if !active then -1.0 else if run <= 0 then share * MAX_SHARE_VALUE else share / (run as real)
  }

  predicate IsLeaf(n: Node) { n.kids == [] }

  // ----- Starting or finishing jobs of a user -----

  /** Moves `num` jobs of a node from pending to running. */
  function Recount(n: Node, num: int): Node {
    var run, pend := n.run + num, n.pend - num;
    var active := if IsLeaf(n) && pend <= 0 then false else n.active;
    n.(run := run, pend := pend, active := active, priority := ComputePriority(n.share, active, run))
  }

  /** Whether a node counts the jobs of `user`: a leaf by its name, a group by its table. */
  predicate Counts(n: Node, user: Name) {
    if IsLeaf(n) then n.name == user else user in n.desc
  }

  /** The subtree after the traversal, children first. */
  function ChangeNode(n: Node, user: Name, num: int): Node {
    var m := n.(kids := ChangeAll(n.kids, user, num));
    if Counts(n, user) then Recount(m, num) else m
  }

  function ChangeAll(ns: seq<Node>, user: Name, num: int): (r: seq<Node>)
    ensures |r| == |ns|
    decreases ns
  {
    if ns == [] then [] else [ChangeNode(ns[0], user, num)] + ChangeAll(ns[1..], user, num)
  }

  /** Same tree, and run + pend is the same at every node. */
  predicate SameTotals(n: Node, m: Node) {
    m.name == n.name && m.desc == n.desc && m.run + m.pend == n.run + n.pend && SameTotalsAll(n.kids, m.kids)
  }

  predicate SameTotalsAll(ns: seq<Node>, ms: seq<Node>)
    decreases ns
  {
    |ns| == |ms| && (ns != [] ==> SameTotals(ns[0], ms[0]) && SameTotalsAll(ns[1..], ms[1..]))
  }

  lemma {:induction false} TotalsKept(n: Node, user: Name, num: int)
    ensures SameTotals(n, ChangeNode(n, user, num))
    decreases n
  {
    TotalsKeptAll(n.kids, user, num);
  }

  lemma {:induction false} TotalsKeptAll(ns: seq<Node>, user: Name, num: int)
    ensures SameTotalsAll(ns, ChangeAll(ns, user, num))
    decreases ns
  {
    if ns != [] {
      TotalsKept(ns[0], user, num);
      TotalsKeptAll(ns[1..], user, num);
    }
  }

  // ----- Groups add up -----

  function LeafRun(n: Node): int { if IsLeaf(n) then n.run else SumRun(n.kids) }
  function LeafPend(n: Node): int { if IsLeaf(n) then n.pend else SumPend(n.kids) }

  function SumRun(ns: seq<Node>): int
    decreases ns
  {
    if ns == [] then 0 else LeafRun(ns[0]) + SumRun(ns[1..])
  }

  function SumPend(ns: seq<Node>): int
    decreases ns
  {
    if ns == [] then 0 else LeafPend(ns[0]) + SumPend(ns[1..])
  }

  /** Every group counts what the leaves below it count. */
  predicate AddsUp(n: Node) {
    !IsLeaf(n) ==> n.run == SumRun(n.kids) && n.pend == SumPend(n.kids) && AllAddUp(n.kids)
  }

  predicate AllAddUp(ns: seq<Node>)
    decreases ns
  {
    ns != [] ==> AddsUp(ns[0]) && AllAddUp(ns[1..])
  }

  /** How many leaves below carry the user's name. */
  function Tally(n: Node, user: Name): nat {
    if IsLeaf(n) then (if n.name == user then 1 else 0) else TallyAll(n.kids, user)
  }

  function TallyAll(ns: seq<Node>, user: Name): nat
    decreases ns
  {
    if ns == [] then 0 else Tally(ns[0], user) + TallyAll(ns[1..], user)
  }

  lemma MulAdd(a: int, b: int, c: int)
    ensures (a + b) * c == a * c + b * c
  {}

  lemma {:induction false} LeavesMove(n: Node, user: Name, num: int)
    ensures LeafRun(ChangeNode(n, user, num)) == LeafRun(n) + Tally(n, user) * num
    ensures LeafPend(ChangeNode(n, user, num)) == LeafPend(n) - Tally(n, user) * num
    decreases n
  {
    if !IsLeaf(n) {
      AllLeavesMove(n.kids, user, num);
    }
  }

  lemma {:induction false} AllLeavesMove(ns: seq<Node>, user: Name, num: int)
    ensures SumRun(ChangeAll(ns, user, num)) == SumRun(ns) + TallyAll(ns, user) * num
    ensures SumPend(ChangeAll(ns, user, num)) == SumPend(ns) - TallyAll(ns, user) * num
    decreases ns
  {
    if ns != [] {
      LeavesMove(ns[0], user, num);
      AllLeavesMove(ns[1..], user, num);
      MulAdd(Tally(ns[0], user), TallyAll(ns[1..], user), num);
      var r := ChangeAll(ns, user, num);
      assert r[0] == ChangeNode(ns[0], user, num) && r[1..] == ChangeAll(ns[1..], user, num);
    }
  }

  /** Each group's table lists the user exactly if one leaf below is the user's, and no group has two. */
  predicate Listed(n: Node, user: Name) {
    !IsLeaf(n) ==> TallyAll(n.kids, user) == (if user in n.desc then 1 else 0) && AllListed(n.kids, user)
  }

  predicate AllListed(ns: seq<Node>, user: Name)
    decreases ns
  {
    ns != [] ==> Listed(ns[0], user) && AllListed(ns[1..], user)
  }

  lemma MulZero(a: int, b: int)
    ensures a * b == 0 <==> a == 0 || b == 0
  {}

  /** If the groups add up before a change, they add up after it exactly if nothing changes or every group lists the
      user exactly once. */
  lemma {:induction false} AddsUpExactly(n: Node, user: Name, num: int)
    requires AddsUp(n)
    ensures AddsUp(ChangeNode(n, user, num)) <==> num == 0 || Listed(n, user)
    decreases n
  {
    if !IsLeaf(n) {
      AllAddUpExactly(n.kids, user, num);
      AllLeavesMove(n.kids, user, num);
      var one := if user in n.desc then 1 else 0;
      MulZero(TallyAll(n.kids, user) - one, num);
      MulAdd(TallyAll(n.kids, user), -one, num);
    }
  }

  lemma {:induction false} AllAddUpExactly(ns: seq<Node>, user: Name, num: int)
    requires AllAddUp(ns)
    ensures AllAddUp(ChangeAll(ns, user, num)) <==> num == 0 || AllListed(ns, user)
    decreases ns
  {
    if ns != [] {
      AddsUpExactly(ns[0], user, num);
      AllAddUpExactly(ns[1..], user, num);
      var r := ChangeAll(ns, user, num);
      assert r[0] == ChangeNode(ns[0], user, num) && r[1..] == ChangeAll(ns[1..], user, num);
    }
  }

  function Idle(name: Name, desc: set<Name>, kids: seq<Node>): Node {
    Node(name, 1.0, 0, 0, true, 0.0, desc, kids)
  }

  /** A user in two subgroups of a group is counted once by the group, and twice below it. */
  lemma SharedUserMiscounted(user: Name)
    ensures var sub := Idle("sub", {user}, [Idle(user, {}, [])]);
            var n := Idle("group", {user}, [sub, sub]);
            && AddsUp(n) && !Listed(n, user) && !AddsUp(ChangeNode(n, user, 1))
            && ChangeNode(n, user, 1).run == 1 && LeafRun(ChangeNode(n, user, 1)) == 2
  {
    var leaf := Idle(user, {}, []);
    var sub := Idle("sub", {user}, [leaf]);
    var n := Idle("group", {user}, [sub, sub]);
    assert [leaf][1..] == [] && [sub, sub][1..] == [sub] && [sub][1..] == [];
    assert SumRun([leaf]) == 0 && SumPend([leaf]) == 0 && TallyAll([leaf], user) == 1;
    assert SumRun([sub]) == 0 && SumPend([sub]) == 0 && TallyAll([sub], user) == 1;
    assert SumRun([sub, sub]) == 0 && SumPend([sub, sub]) == 0 && TallyAll([sub, sub], user) == 2;
    assert AddsUp(leaf) && AllAddUp([leaf]);
    assert AddsUp(sub);
    assert AllAddUp([sub]);
    assert [sub, sub][1..] == [sub] && AllAddUp([sub, sub]);
    AddsUpExactly(n, user, 1);
    LeavesMove(n, user, 1);
  }

  // ----- Unique names and exact tables are enough -----

  function Leaves(n: Node): seq<Name> { if IsLeaf(n) then [n.name] else AllLeaves(n.kids) }

  function AllLeaves(ns: seq<Node>): seq<Name>
    decreases ns
  {
    if ns == [] then [] else Leaves(ns[0]) + AllLeaves(ns[1..])
  }

  predicate Unique(s: seq<Name>) {
    forall i, j :: 0 <= i < j < |s| ==> s[i] != s[j]
  }

  /** Each group has different users below it and a table of exactly those. */
  ghost predicate Sound(n: Node) {
    !IsLeaf(n) ==>
      && Unique(AllLeaves(n.kids)) && AllSound(n.kids)
      && forall u :: u in n.desc <==> u in AllLeaves(n.kids)
  }

  ghost predicate AllSound(ns: seq<Node>)
    decreases ns
  {
    ns != [] ==> Sound(ns[0]) && AllSound(ns[1..])
  }

  lemma {:induction false} TallyIsCount(n: Node, user: Name)
    ensures Tally(n, user) == multiset(Leaves(n))[user]
    decreases n
  {
    if !IsLeaf(n) {
      TallyAllIsCount(n.kids, user);
    }
  }

  lemma {:induction false} TallyAllIsCount(ns: seq<Node>, user: Name)
    ensures TallyAll(ns, user) == multiset(AllLeaves(ns))[user]
    decreases ns
  {
    if ns != [] {
      TallyIsCount(ns[0], user);
      TallyAllIsCount(ns[1..], user);
    }
  }

  lemma {:induction false} UniqueCount(s: seq<Name>, u: Name)
    requires Unique(s)
    ensures multiset(s)[u] == if u in s then 1 else 0
    decreases |s|
  {
    if s != [] {
      var front, x := s[..|s| - 1], s[|s| - 1];
      UniqueCount(front, u);
      assert s == front + [x];
      assert x !in front;
    }
  }

  lemma {:induction false} SoundIsListed(n: Node, user: Name)
    requires Sound(n)
    ensures Listed(n, user)
    decreases n
  {
    if !IsLeaf(n) {
      TallyAllIsCount(n.kids, user);
      UniqueCount(AllLeaves(n.kids), user);
      AllSoundIsListed(n.kids, user);
    }
  }

  lemma {:induction false} AllSoundIsListed(ns: seq<Node>, user: Name)
    requires AllSound(ns)
    ensures AllListed(ns, user)
    decreases ns
  {
    if ns != [] {
      SoundIsListed(ns[0], user);
      AllSoundIsListed(ns[1..], user);
    }
  }

  // ----- Priorities -----

  /** Every node has the priority of its share and its jobs: below zero if it is not active, the share per running job
      if it has any, and a large multiple of the share if it has none. */
  predicate Priced(n: Node) {
    PricedHere(n.priority, n.share, n.active, n.run) && AllPriced(n.kids)
  }

  predicate PricedHere(priority: real, share: real, active: bool, run: int) {
    && (!active ==> priority == -1.0)
    && (active && run <= 0 ==> priority == share * 100000.0)
    && (active && run > 0 ==> priority * (run as real) == share)
  }

  predicate AllPriced(ns: seq<Node>)
    decreases ns
  {
    ns != [] ==> Priced(ns[0]) && AllPriced(ns[1..])
  }

  /** Every active leaf has pending jobs. */
  predicate Settled(n: Node) {
    (IsLeaf(n) && n.active ==> n.pend > 0) && AllSettled(n.kids)
  }

  predicate AllSettled(ns: seq<Node>)
    decreases ns
  {
    ns != [] ==> Settled(ns[0]) && AllSettled(ns[1..])
  }

  /** Of two states of a tree: groups are as active as before, and so are leaves, except that a leaf of the user is not
      active any more if it has no pending job left. */
  predicate ActiveLeft(n: Node, m: Node, user: Name) {
    && (m.active <==> n.active && !(IsLeaf(n) && n.name == user && m.pend <= 0))
    && m.share == n.share && AllActiveLeft(n.kids, m.kids, user)
  }

  predicate AllActiveLeft(ns: seq<Node>, ms: seq<Node>, user: Name)
    decreases ns
  {
    |ns| == |ms| && (ns != [] ==> ActiveLeft(ns[0], ms[0], user) && AllActiveLeft(ns[1..], ms[1..], user))
  }

  lemma DivideBack(a: real, b: real)
    requires b > 0.0
    ensures (a / b) * b == a
  {}

  lemma RecountPriced(n: Node, num: int)
    requires AllPriced(n.kids)
    ensures Priced(Recount(n, num))
  {
    if n.run + num > 0 {
      DivideBack(n.share, (n.run + num) as real);
    }
  }

  lemma {:induction false} PricedKept(n: Node, user: Name, num: int)
    requires Priced(n)
    ensures Priced(ChangeNode(n, user, num))
    decreases n
  {
    AllPricedKept(n.kids, user, num);
    if Counts(n, user) {
      RecountPriced(n.(kids := ChangeAll(n.kids, user, num)), num);
    }
  }

  lemma {:induction false} AllPricedKept(ns: seq<Node>, user: Name, num: int)
    requires AllPriced(ns)
    ensures AllPriced(ChangeAll(ns, user, num))
    decreases ns
  {
    if ns != [] {
      PricedKept(ns[0], user, num);
      AllPricedKept(ns[1..], user, num);
      ChangeSplits(ns, user, num);
    }
  }

  lemma ChangeSplits(ns: seq<Node>, user: Name, num: int)
    requires ns != []
    ensures ChangeAll(ns, user, num)[0] == ChangeNode(ns[0], user, num)
    ensures ChangeAll(ns, user, num)[1..] == ChangeAll(ns[1..], user, num)
  {}

  lemma {:induction false} ActivityKept(n: Node, user: Name, num: int)
    requires Settled(n)
    ensures Settled(ChangeNode(n, user, num)) && ActiveLeft(n, ChangeNode(n, user, num), user)
    decreases n
  {
    AllActivityKept(n.kids, user, num);
  }

  lemma {:induction false} AllActivityKept(ns: seq<Node>, user: Name, num: int)
    requires AllSettled(ns)
    ensures AllSettled(ChangeAll(ns, user, num)) && AllActiveLeft(ns, ChangeAll(ns, user, num), user)
    decreases ns
  {
    if ns != [] {
      ActivityKept(ns[0], user, num);
      AllActivityKept(ns[1..], user, num);
      ChangeSplits(ns, user, num);
    }
  }

  /** What a change of a user's job number keeps in a sound tree. */
  lemma ChangeKeeps(ns: seq<Node>, user: Name, num: int)
    ensures SameTotalsAll(ns, ChangeAll(ns, user, num))
    ensures AllAddUp(ns) && AllSound(ns) ==> AllAddUp(ChangeAll(ns, user, num))
    ensures AllPriced(ns) ==> AllPriced(ChangeAll(ns, user, num))
    ensures AllSettled(ns) ==>
              AllSettled(ChangeAll(ns, user, num)) && AllActiveLeft(ns, ChangeAll(ns, user, num), user)
  {
    TotalsKeptAll(ns, user, num);
    if AllPriced(ns) {
      AllPricedKept(ns, user, num);
    }
    if AllSettled(ns) {
      AllActivityKept(ns, user, num);
    }
    if AllAddUp(ns) && AllSound(ns) {
      AllAddUpExactly(ns, user, num);
      AllSoundIsListed(ns, user);
    }
  }

  // ----- The tree of a queue -----

  /** A node of the tree: its first child and its next sibling, and the counters that are updated in place. */
  class GNode {
    const name: Name
    const share: real
    const desc: set<Name>
    var run: int
    var pend: int
    var active: bool
    var priority: real
    var children: GNode?
    var next: GNode?
    ghost var Repr: set<GNode>

    /** No node is shared between the subtree below this node, the siblings after it, and itself. */
    ghost predicate Valid()
      reads this, Repr
      decreases Repr
    {
      && this in Repr
      && (children != null ==>
            children in Repr && children.Repr <= Repr && this !in children.Repr && children.Valid())
      && (next != null ==> next in Repr && next.Repr <= Repr && this !in next.Repr && next.Valid())
      && (children != null && next != null ==> children.Repr !! next.Repr)
    }

    /** This node and the siblings after it, as a value. */
    ghost function Snap(): (s: seq<Node>)
      requires Valid()
      reads this, Repr
      ensures s != []
      decreases Repr, 2
    {
      [Head()] + Siblings()
    }

    ghost function Kids(): seq<Node>
      requires Valid()
      reads this, Repr
      decreases Repr, 0
    {
      if children == null then [] else children.Snap()
    }

    ghost function Siblings(): seq<Node>
      requires Valid()
      reads this, Repr
      decreases Repr, 0
    {
      if next == null then [] else next.Snap()
    }

    ghost function Head(): Node
      requires Valid()
      reads this, Repr
      decreases Repr, 1
    {
      Node(name, share, run, pend, active, priority, desc, Kids())
    }

    /** The traversal in post-order: what is below a node, the node itself, then its siblings. */
    method Traverse(user: Name, num: int)
      requires Valid()
      modifies Repr
      ensures Valid() && Repr == old(Repr) && Snap() == ChangeAll(old(Snap()), user, num)
      decreases Repr, 2
    {
      assert old(Snap()) == [old(Head())] + old(Siblings());
      assert ([old(Head())] + old(Siblings()))[1..] == old(Siblings());
      TraverseChildren(user, num);
      ChangeNodeJobNum(user, num);
      TraverseNext(user, num);
    }

    method TraverseChildren(user: Name, num: int)
      requires Valid()
      modifies if children == null then {} else children.Repr
      ensures Valid() && Repr == old(Repr) && children == old(children) && next == old(next)
      ensures Head() == old(Head()).(kids := ChangeAll(old(Kids()), user, num)) && Siblings() == old(Siblings())
      decreases Repr, 1
    {
      if children != null {
        children.Traverse(user, num);
      }
    }

    method ChangeNodeJobNum(user: Name, num: int)
      requires Valid()
      modifies this`run, this`pend, this`active, this`priority
      ensures Valid() && Siblings() == old(Siblings())
      ensures Head() == if Counts(old(Head()), user) then Recount(old(Head()), num) else old(Head())
    {
      if children == null {
        if name == user {
          run, pend := run + num, pend - num;
          if pend <= 0 {
            active := false;
          }
          priority := ComputePriority(share, active, run);
        }
      } else if user in desc {
        run, pend := run + num, pend - num;
        priority := ComputePriority(share, active, run);
      }
    }

    method TraverseNext(user: Name, num: int)
      requires Valid()
      modifies if next == null then {} else next.Repr
      ensures Valid() && Repr == old(Repr) && children == old(children) && next == old(next)
      ensures Head() == old(Head()) && Siblings() == ChangeAll(old(Siblings()), user, num)
      decreases Repr, 1
    {
      if next != null {
        next.Traverse(user, num);
      }
    }
  }

  /** Starts or ends `num` jobs of a user in a tree; `top` is the first child of the root, which counts nothing. */
  method ChangeJobNumOfUser(top: GNode, user: Name, num: int)
    requires top.Valid()
    modifies top.Repr
    ensures top.Valid() && top.Repr == old(top.Repr) && top.Snap() == ChangeAll(old(top.Snap()), user, num)
    ensures SameTotalsAll(old(top.Snap()), top.Snap())
    ensures old(AllAddUp(top.Snap())) && old(AllSound(top.Snap())) ==> AllAddUp(top.Snap())
    ensures old(AllPriced(top.Snap())) ==> AllPriced(top.Snap())
    ensures old(AllSettled(top.Snap())) ==> AllSettled(top.Snap()) && AllActiveLeft(old(top.Snap()), top.Snap(), user)
  {
    ChangeKeeps(top.Snap(), user, num);
    top.Traverse(user, num);
  }

  /** `w` is the first of the siblings with the greatest priority. */
  predicate FirstMaximal(ns: seq<Node>, w: nat) {
    && w < |ns|
    && (forall k :: 0 <= k < |ns| ==> ns[k].priority <= ns[w].priority)
    && (forall k :: 0 <= k < w ==> ns[k].priority < ns[w].priority)
  }

  /** Going down from siblings `ns` by `path`, always to the first maximal one, ends at leaf `n`. */
  predicate Descends(ns: seq<Node>, path: seq<nat>, n: Node)
    decreases path
  {
    path != [] && FirstMaximal(ns, path[0])
    && (if |path| == 1 then ns[path[0]] == n && IsLeaf(n) else Descends(ns[path[0]].kids, path[1..], n))
  }

  lemma {:induction false} PricedAt(ns: seq<Node>, k: nat)
    requires AllPriced(ns) && k < |ns|
    ensures Priced(ns[k])
    decreases ns
  {
    if k > 0 {
      PricedAt(ns[1..], k - 1);
    }
  }

  lemma {:induction false} SettledAt(ns: seq<Node>, k: nat)
    requires AllSettled(ns) && k < |ns|
    ensures Settled(ns[k])
    decreases ns
  {
    if k > 0 {
      SettledAt(ns[1..], k - 1);
    }
  }

  /** Node `b` has no smaller claim than `a`: `a` has not more share per running job. A node without running jobs
      counts as if it had a hundred-thousandth of a job. */
  predicate NoSmaller(a: Node, b: Node) {
    && (a.run > 0 && b.run > 0 ==> a.share * (b.run as real) <= b.share * (a.run as real))
    && (a.run <= 0 && b.run <= 0 ==> a.share <= b.share)
    && (a.run <= 0 && b.run > 0 ==> a.share * 100000.0 * (b.run as real) <= b.share)
    && (a.run > 0 && b.run <= 0 ==> a.share <= b.share * 100000.0 * (a.run as real))
  }

  lemma Scale(p: real, q: real, c: real)
    requires p <= q && c > 0.0
    ensures p * c <= q * c
  {}

  lemma Scaled(p: real, q: real, c: real, s: real, t: real)
    requires p <= q && c > 0.0 && p == s && q * c == t
    ensures s * c <= t
  {
    Scale(p, q, c);
  }

  lemma ScaledBack(p: real, q: real, c: real, s: real, t: real)
    requires p <= q && c > 0.0 && p * c == s && q == t
    ensures s <= t * c
  {
    Scale(p, q, c);
  }

  lemma CrossMultiply(p: real, q: real, c: real, d: real, s: real, t: real)
    requires p <= q && c > 0.0 && d > 0.0 && p * c == s && q * d == t
    ensures s * d <= t * c
  {
    Scale(p, q, c * d);
    Reorder(p, c, d);
    Reorder(q, d, c);
  }

  lemma Reorder(p: real, c: real, d: real)
    ensures (p * c) * d == p * (c * d) && c * d == d * c
  {}

  lemma NegativeTimes(p: real, c: real)
    requires p < 0.0 && c > 0.0
    ensures p * c < 0.0
  {}

  lemma ActiveNotBelowZero(priority: real, share: real, run: int)
    requires PricedHere(priority, share, true, run) && share >= 0.0
    ensures priority >= 0.0
  {
    if run > 0 && priority < 0.0 {
      NegativeTimes(priority, run as real);
    }
  }

  lemma GreaterClaim(a: Node, b: Node)
    requires PricedHere(a.priority, a.share, true, a.run) && PricedHere(b.priority, b.share, true, b.run)
    requires a.priority <= b.priority
    ensures NoSmaller(a, b)
  {
    if a.run > 0 && b.run > 0 {
      CrossMultiply(a.priority, b.priority, a.run as real, b.run as real, a.share, b.share);
    } else if b.run > 0 {
      Scaled(a.priority, b.priority, b.run as real, a.share * 100000.0, b.share);
    } else if a.run > 0 {
      ScaledBack(a.priority, b.priority, a.run as real, a.share, b.share * 100000.0);
    }
  }

  /** What the choice among siblings comes to: an active one is chosen if there is any, and no active one has a greater
      claim. */
  lemma ChoiceIsFair(ns: seq<Node>, w: nat, k: nat)
    requires AllPriced(ns) && FirstMaximal(ns, w) && k < |ns| && ns[k].active && ns[k].share >= 0.0
    ensures ns[w].active && NoSmaller(ns[k], ns[w])
  {
    PricedAt(ns, k);
    PricedAt(ns, w);
    ActiveNotBelowZero(ns[k].priority, ns[k].share, ns[k].run);
    GreaterClaim(ns[k], ns[w]);
  }

  /** The leaf chosen is active, and so has pending jobs, exactly if some sibling of it is active. */
  lemma WinnerActiveExactly(ms: seq<Node>, w: nat)
    requires AllPriced(ms) && AllSettled(ms) && FirstMaximal(ms, w) && IsLeaf(ms[w])
    requires forall k :: 0 <= k < |ms| ==> ms[k].share >= 0.0
    ensures ms[w].active <==> exists k :: 0 <= k < |ms| && ms[k].active
    ensures ms[w].active ==> ms[w].pend > 0
  {
    SettledAt(ms, w);
    if k :| 0 <= k < |ms| && ms[k].active {
      ChoiceIsFair(ms, w, k);
    }
  }

  /** A user before and after the last pending job is started, the user's group, and another user. */
  function UserOf(a: Name, started: bool): Node {
    if started then Node(a, 1.0, 1, 0, false, -1.0, {}, []) else Node(a, 1.0, 0, 1, true, 100000.0, {}, [])
  }

  function GroupOf(g: Name, a: Name, started: bool): Node {
    if started then Node(g, 1.0, 1, 0, true, 1.0, {a}, [UserOf(a, true)])
    else Node(g, 1.0, 0, 1, true, 100000.0, {a}, [UserOf(a, false)])
  }

  function Another(b: Name): Node { Node(b, 0.5, 1, 5, true, 0.5, {}, []) }

  lemma UserChosen(g: Name, a: Name, b: Name, started: bool)
    ensures AllPriced([GroupOf(g, a, started), Another(b)]) && AllSettled([GroupOf(g, a, started), Another(b)])
    ensures Descends([GroupOf(g, a, started), Another(b)], [0, 0], UserOf(a, started))
  {
    var u, n, m := UserOf(a, started), GroupOf(g, a, started), Another(b);
    assert [u][1..] == [] && [n, m][1..] == [m] && [m][1..] == [] && [0, 0][1..] == [0];
    assert Priced(u) && AllPriced([u]) && Priced(m) && AllPriced([m]);
    assert Settled(u) && AllSettled([u]) && Settled(m) && AllSettled([m]);
    assert FirstMaximal([n, m], 0) && FirstMaximal([u], 0);
    assert Descends([u], [0], u);
  }

  lemma ChangeOne(n: Node, user: Name, num: int)
    ensures ChangeAll([n], user, num) == [ChangeNode(n, user, num)]
  {
    assert [n][1..] == [];
  }

  lemma ChangeTwo(n: Node, m: Node, user: Name, num: int)
    ensures ChangeAll([n, m], user, num) == [ChangeNode(n, user, num), ChangeNode(m, user, num)]
  {
    assert [n, m][1..] == [m];
    ChangeOne(m, user, num);
  }

  lemma UserStarted(a: Name)
    ensures ChangeNode(UserOf(a, false), a, 1) == UserOf(a, true)
  {}

  lemma GroupStarted(g: Name, a: Name)
    ensures ChangeNode(GroupOf(g, a, false), a, 1) == GroupOf(g, a, true)
  {
    var m := GroupOf(g, a, false).(kids := [UserOf(a, true)]);
    ChangeOne(UserOf(a, false), a, 1);
    UserStarted(a);
    assert m == Node(g, 1.0, 0, 1, true, 100000.0, {a}, [UserOf(a, true)]);
    assert ChangeNode(GroupOf(g, a, false), a, 1) == Recount(m, 1);
    GroupRecounted(g, {a}, [UserOf(a, true)]);
    assert ComputePriority(1.0, true, 1) == 1.0;
  }

  lemma GroupRecounted(name: Name, desc: set<Name>, kids: seq<Node>)
    requires kids != []
    ensures Recount(Node(name, 1.0, 0, 1, true, 100000.0, desc, kids), 1)
         == Node(name, 1.0, 1, 0, true, ComputePriority(1.0, true, 1), desc, kids)
  {}

  lemma OtherLeft(b: Name, a: Name)
    requires a != b
    ensures ChangeNode(Another(b), a, 1) == Another(b)
  {
    assert Another(b).(kids := []) == Another(b);
  }

  /** A group stays active when its last pending job has been started. The next choice can then fall on its user, who
      has nothing pending, although another user has. */
  lemma IdleGroupChosen(g: Name, a: Name, b: Name)
    requires a != b
    ensures var top := [GroupOf(g, a, false), Another(b)];
            var top' := ChangeAll(top, a, 1);
            && AllPriced(top) && AllSettled(top) && Descends(top, [0, 0], UserOf(a, false))
            && Descends(top', [0, 0], UserOf(a, true)) && UserOf(a, true).pend == 0
            && top'[1] == Another(b) && Another(b).pend > 0
  {
    UserChosen(g, a, b, false);
    ChangeTwo(GroupOf(g, a, false), Another(b), a, 1);
    GroupStarted(g, a);
    OtherLeft(b, a);
    UserChosen(g, a, b, true);
  }

  function Height(ns: seq<Node>): nat
    decreases ns
  {
    if ns == [] then 0
    else
      var a, b := 1 + Height(ns[0].kids), Height(ns[1..]);
      if a < b then b else a
  }

  lemma {:induction false} HeightDown(ns: seq<Node>, w: nat)
    requires w < |ns|
    ensures Height(ns[w].kids) < Height(ns)
    decreases |ns|
  {
    if w > 0 {
      HeightDown(ns[1..], w - 1);
    }
  }

  lemma {:induction false} DescendsFurther(ns: seq<Node>, path: seq<nat>, ms: seq<Node>, w: nat)
    requires Leads(ns, path, ms) && FirstMaximal(ms, w)
    ensures IsLeaf(ms[w]) ==> Descends(ns, path + [w], ms[w])
    ensures Leads(ns, path + [w], ms[w].kids)
    decreases path
  {
    if path == [] {
      assert path + [w] == [w];
    } else {
      assert (path + [w])[1..] == path[1..] + [w];
      DescendsFurther(ns[path[0]].kids, path[1..], ms, w);
    }
  }

  /** Going down from `ns` by `path` leads to siblings `ms`. */
  predicate Leads(ns: seq<Node>, path: seq<nat>, ms: seq<Node>)
    decreases path
  {
    if path == [] then ns == ms
    else FirstMaximal(ns, path[0]) && Leads(ns[path[0]].kids, path[1..], ms)
  }

  /** The leaf to serve next, found by going down from the root; none if the tree is empty. */
  method Compete(top: seq<Node>) returns (winner: Option<Node>, ghost path: seq<nat>)
    ensures winner.None? <==> top == []
    ensures winner.Some? ==> Descends(top, path, winner.value)
  {
    var p := top;
    winner, path := None, [];
    while p != []
      invariant Leads(top, path, p)
      invariant if path == [] then winner.None? && p == top else winner.Some? && winner.value.kids == p
      invariant winner.Some? && IsLeaf(winner.value) ==> Descends(top, path, winner.value)
      decreases Height(p)
    {
      var w, c := 0, 1;
      while c < |p|
        invariant w < c <= |p| && FirstMaximal(p[..c], w)
      {
        if p[c].priority > p[w].priority {
          w := c;
        }
        c := c + 1;
      }
      assert p[..c] == p;
      DescendsFurther(top, path, p, w);
      HeightDown(p, w);
      winner, path, p := Some(p[w]), path + [w], p[w].kids;
    }
  }
}
