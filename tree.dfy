/**
 * The shape of a node arena: which indices form the subtree below a node,
 * and the post-order sequences that setAge produces from it (the terminal
 * nodes it collects and the modules a decay pass destroys).
 */
module NodeTree {
  import opened Options
  import opened BranchNode

  /**
   * The tree invariant of the arena. Each child is allocated after its
   * parent and links back to it, a children list has no repeats, and every
   * parent link names a node allocated earlier. (A parent link that no
   * children list mirrors is allowed: the copy made by deepCopy has one until
   * the caller adds it.)
   */
  ghost predicate Valid(ns: seq<Node>) {
    (forall i, k :: 0 <= i < |ns| && 0 <= k < |ns[i].children| ==>
       i < ns[i].children[k] < |ns| && ns[ns[i].children[k]].parent == Some(i))
    && (forall i, k1, k2 :: 0 <= i < |ns| && 0 <= k1 < k2 < |ns[i].children| ==>
          ns[i].children[k1] != ns[i].children[k2])
    && (forall i :: 0 <= i < |ns| && ns[i].parent.Some? ==> ns[i].parent.value < i)
  }

  /** The nodes reachable from x through children lists, x included. */
  ghost function Sub(ns: seq<Node>, x: nat): set<nat>
    requires Valid(ns) && x < |ns|
    decreases |ns| - x, 1
  {
    {x} + SubKids(ns, x, |ns[x].children|)
  }

  /** The subtrees of the first k children of x. */
  ghost function SubKids(ns: seq<Node>, x: nat, k: nat): set<nat>
    requires Valid(ns) && x < |ns| && k <= |ns[x].children|
    decreases |ns| - x, 0, k
  {
    if k == 0 then {} else SubKids(ns, x, k - 1) + Sub(ns, ns[x].children[k - 1])
  }

  /** A node setAge collects as terminal: it has no children and no modules. */
  predicate IsTip(n: Node) {
    n.children == [] && n.modules == []
  }

  /** The terminal nodes of the subtree of x, in post-order (children left to right, then x). */
  ghost function Leaves(ns: seq<Node>, x: nat): seq<nat>
    requires Valid(ns) && x < |ns|
    decreases |ns| - x, 1
  {
    LeavesKids(ns, x, |ns[x].children|) + (if IsTip(ns[x]) then [x] else [])
  }

  ghost function LeavesKids(ns: seq<Node>, x: nat, k: nat): seq<nat>
    requires Valid(ns) && x < |ns| && k <= |ns[x].children|
    decreases |ns| - x, 0, k
  {
    if k == 0 then [] else LeavesKids(ns, x, k - 1) + Leaves(ns, ns[x].children[k - 1])
  }

  /** The modules attached in the subtree of x, in post-order. */
  ghost function Mods(ns: seq<Node>, x: nat): seq<ModuleId>
    requires Valid(ns) && x < |ns|
    decreases |ns| - x, 1
  {
    ModsKids(ns, x, |ns[x].children|) + ns[x].modules
  }

  ghost function ModsKids(ns: seq<Node>, x: nat, k: nat): seq<ModuleId>
    requires Valid(ns) && x < |ns| && k <= |ns[x].children|
    decreases |ns| - x, 0, k
  {
    if k == 0 then [] else ModsKids(ns, x, k - 1) + Mods(ns, ns[x].children[k - 1])
  }

  // ---------------------------------------------------------------- subtree structure

  /**
   * Every node of the subtree of x lies at or after x in the arena, and every
   * node but x has its parent in the same subtree, allocated before it.
   */
  lemma {:induction false} SubFacts(ns: seq<Node>, x: nat)
    requires Valid(ns) && x < |ns|
    ensures forall j :: j in Sub(ns, x) ==> x <= j < |ns|
    ensures forall j :: j in Sub(ns, x) && j != x ==>
              ns[j].parent.Some? && ns[j].parent.value < j && ns[j].parent.value in Sub(ns, x)
    decreases |ns| - x, 1
  {
    SubKidsFacts(ns, x, |ns[x].children|);
  }

  lemma {:induction false} SubKidsFacts(ns: seq<Node>, x: nat, k: nat)
    requires Valid(ns) && x < |ns| && k <= |ns[x].children|
    ensures forall j :: j in SubKids(ns, x, k) ==> x < j < |ns|
    ensures forall j :: j in SubKids(ns, x, k) ==>
              ns[j].parent.Some? && ns[j].parent.value < j && ns[j].parent.value in {x} + SubKids(ns, x, k)
    decreases |ns| - x, 0, k
  {
    if k > 0 {
      var c := ns[x].children[k - 1];
      SubKidsFacts(ns, x, k - 1);
      SubFacts(ns, c);
    }
  }

  /** Two subtrees that share a node are nested: one root lies in the other's subtree. */
  lemma {:induction false} Nested(ns: seq<Node>, a: nat, b: nat, j: nat)
    requires Valid(ns) && a < |ns| && b < |ns|
    requires j in Sub(ns, a) && j in Sub(ns, b)
    ensures a in Sub(ns, b) || b in Sub(ns, a)
    decreases j
  {
    if j != a && j != b {
      SubFacts(ns, a);
      SubFacts(ns, b);
      Nested(ns, a, b, ns[j].parent.value);
    }
  }

  /** The subtrees of two different children of one node are disjoint. */
  lemma SiblingsDisjoint(ns: seq<Node>, x: nat, k1: nat, k2: nat)
    requires Valid(ns) && x < |ns| && k1 < |ns[x].children| && k2 < |ns[x].children| && k1 != k2
    ensures Sub(ns, ns[x].children[k1]) !! Sub(ns, ns[x].children[k2])
  {
    var a, b := ns[x].children[k1], ns[x].children[k2];
    assert a != b by {
      if k1 < k2 { assert ns[x].children[k1] != ns[x].children[k2]; }
      else { assert ns[x].children[k2] != ns[x].children[k1]; }
    }
    forall j | j in Sub(ns, a) && j in Sub(ns, b) ensures false {
      Nested(ns, a, b, j);
      SubFacts(ns, a);
      SubFacts(ns, b);
    }
  }

  /** A node of the first k children's subtrees lies in the subtree of one of those children. */
  lemma {:induction false} KidOf(ns: seq<Node>, x: nat, k: nat, j: nat) returns (m: nat)
    requires Valid(ns) && x < |ns| && k <= |ns[x].children|
    requires j in SubKids(ns, x, k)
    ensures m < k && j in Sub(ns, ns[x].children[m])
  {
    if j in Sub(ns, ns[x].children[k - 1]) {
      m := k - 1;
    } else {
      m := KidOf(ns, x, k - 1, j);
    }
  }

  /**
   * The subtree of the k-th child shares no node with x and the subtrees of
   * the children before it: the visit of each child touches fresh nodes.
   */
  lemma NextKidDisjoint(ns: seq<Node>, x: nat, k: nat)
    requires Valid(ns) && x < |ns| && k < |ns[x].children|
    ensures forall j :: j in Sub(ns, ns[x].children[k]) ==> j != x && j !in SubKids(ns, x, k)
  {
    var c := ns[x].children[k];
    SubFacts(ns, c);
    forall j | j in Sub(ns, c) && j in SubKids(ns, x, k) ensures false {
      var m := KidOf(ns, x, k, j);
      SiblingsDisjoint(ns, x, m, k);
    }
  }

  /** The subtree of a child lies inside the subtree of its parent. */
  lemma ChildSub(ns: seq<Node>, x: nat, k: nat)
    requires Valid(ns) && x < |ns| && k < |ns[x].children|
    ensures Sub(ns, ns[x].children[k]) <= SubKids(ns, x, k + 1) <= Sub(ns, x)
  {
    SubKidsGrow(ns, x, k + 1, |ns[x].children|);
  }

  /** The subtrees of more children include the subtrees of fewer. */
  lemma {:induction false} SubKidsGrow(ns: seq<Node>, x: nat, k1: nat, k2: nat)
    requires Valid(ns) && x < |ns| && k1 <= k2 <= |ns[x].children|
    ensures SubKids(ns, x, k1) <= SubKids(ns, x, k2)
    decreases k2
  {
    if k1 < k2 {
      SubKidsGrow(ns, x, k1, k2 - 1);
    }
  }

  /**
   * The subtree of x and what setAge collects from it depend only on the
   * children lists and module lists of its nodes: another valid arena that
   * agrees on those has the same subtree, terminal nodes and modules.
   */
  lemma {:induction false} Frame(ns1: seq<Node>, ns2: seq<Node>, x: nat)
    requires Valid(ns1) && Valid(ns2) && x < |ns1| <= |ns2|
    requires forall j :: 0 <= j < |ns1| && j in Sub(ns1, x) ==>
               ns2[j].children == ns1[j].children && ns2[j].modules == ns1[j].modules
    ensures Sub(ns2, x) == Sub(ns1, x)
    ensures Leaves(ns2, x) == Leaves(ns1, x)
    ensures Mods(ns2, x) == Mods(ns1, x)
    decreases |ns1| - x, 1
  {
    FrameKids(ns1, ns2, x, |ns1[x].children|);
  }

  lemma {:induction false} FrameKids(ns1: seq<Node>, ns2: seq<Node>, x: nat, k: nat)
    requires Valid(ns1) && Valid(ns2) && x < |ns1| <= |ns2| && k <= |ns1[x].children|
    requires ns2[x].children == ns1[x].children
    requires forall j :: 0 <= j < |ns1| && j in SubKids(ns1, x, k) ==>
               ns2[j].children == ns1[j].children && ns2[j].modules == ns1[j].modules
    ensures SubKids(ns2, x, k) == SubKids(ns1, x, k)
    ensures LeavesKids(ns2, x, k) == LeavesKids(ns1, x, k)
    ensures ModsKids(ns2, x, k) == ModsKids(ns1, x, k)
    decreases |ns1| - x, 0, k
  {
    if k > 0 {
      var c := ns1[x].children[k - 1];
      SubKidsGrow(ns1, x, k - 1, k);
      FrameKids(ns1, ns2, x, k - 1);
      Frame(ns1, ns2, c);
    }
  }

  /** The subtree of x depends only on the children lists of its nodes. */
  lemma {:induction false} SubFrame(ns1: seq<Node>, ns2: seq<Node>, x: nat)
    requires Valid(ns1) && Valid(ns2) && x < |ns1| <= |ns2|
    requires forall j :: 0 <= j < |ns1| && j in Sub(ns1, x) ==> ns2[j].children == ns1[j].children
    ensures Sub(ns2, x) == Sub(ns1, x)
    decreases |ns1| - x, 1
  {
    SubKidsFrame(ns1, ns2, x, |ns1[x].children|);
  }

  lemma {:induction false} SubKidsFrame(ns1: seq<Node>, ns2: seq<Node>, x: nat, k: nat)
    requires Valid(ns1) && Valid(ns2) && x < |ns1| <= |ns2| && k <= |ns1[x].children|
    requires ns2[x].children == ns1[x].children
    requires forall j :: 0 <= j < |ns1| && j in SubKids(ns1, x, k) ==> ns2[j].children == ns1[j].children
    ensures SubKids(ns2, x, k) == SubKids(ns1, x, k)
    decreases |ns1| - x, 0, k
  {
    if k > 0 {
      var c := ns1[x].children[k - 1];
      SubKidsGrow(ns1, x, k - 1, k);
      SubKidsFrame(ns1, ns2, x, k - 1);
      SubFrame(ns1, ns2, c);
    }
  }

  // ---------------------------------------------------------------- what setAge collects

  /** The terminal nodes are exactly the tips of the subtree, and none is listed twice. */
  lemma {:induction false} LeavesAreTips(ns: seq<Node>, x: nat)
    requires Valid(ns) && x < |ns|
    ensures forall j :: j in Leaves(ns, x) <==> j in Sub(ns, x) && j < |ns| && IsTip(ns[j])
    ensures forall p, q :: 0 <= p < q < |Leaves(ns, x)| ==> Leaves(ns, x)[p] != Leaves(ns, x)[q]
    decreases |ns| - x, 1
  {
    LeavesKidsAreTips(ns, x, |ns[x].children|);
    SubKidsFacts(ns, x, |ns[x].children|);
  }

  lemma {:induction false} LeavesKidsAreTips(ns: seq<Node>, x: nat, k: nat)
    requires Valid(ns) && x < |ns| && k <= |ns[x].children|
    ensures forall j :: j in LeavesKids(ns, x, k) <==> j in SubKids(ns, x, k) && j < |ns| && IsTip(ns[j])
    ensures forall p, q :: 0 <= p < q < |LeavesKids(ns, x, k)| ==> LeavesKids(ns, x, k)[p] != LeavesKids(ns, x, k)[q]
    decreases |ns| - x, 0, k
  {
    if k > 0 {
      var c := ns[x].children[k - 1];
      LeavesKidsAreTips(ns, x, k - 1);
      LeavesAreTips(ns, c);
      NextKidDisjoint(ns, x, k - 1);
      var front, back := LeavesKids(ns, x, k - 1), Leaves(ns, c);
      assert LeavesKids(ns, x, k) == front + back;
      DistinctConcat(front, back, SubKids(ns, x, k - 1), Sub(ns, c));
    }
  }

  /** Two lists without repeats whose elements come from disjoint sets join into a list without repeats. */
  lemma DistinctConcat(front: seq<nat>, back: seq<nat>, a: set<nat>, b: set<nat>)
    requires forall j :: j in front ==> j in a
    requires forall j :: j in back ==> j in b && j !in a
    requires forall p, q :: 0 <= p < q < |front| ==> front[p] != front[q]
    requires forall p, q :: 0 <= p < q < |back| ==> back[p] != back[q]
    ensures forall p, q :: 0 <= p < q < |front + back| ==> (front + back)[p] != (front + back)[q]
  {
    forall p, q | 0 <= p < q < |front + back| ensures (front + back)[p] != (front + back)[q] {
      if p < |front| && q >= |front| {
        assert (front + back)[p] in front && (front + back)[q] in back;
      }
    }
  }

  /** A module is destroyed by a decay pass exactly when it is attached somewhere in the subtree. */
  lemma {:induction false} ModsAreAttached(ns: seq<Node>, x: nat, m: ModuleId)
    requires Valid(ns) && x < |ns|
    ensures m in Mods(ns, x) <==> exists j :: j in Sub(ns, x) && j < |ns| && m in ns[j].modules
    decreases |ns| - x, 1
  {
    ModsKidsAreAttached(ns, x, |ns[x].children|, m);
    SubFacts(ns, x);
  }

  lemma {:induction false} ModsKidsAreAttached(ns: seq<Node>, x: nat, k: nat, m: ModuleId)
    requires Valid(ns) && x < |ns| && k <= |ns[x].children|
    ensures m in ModsKids(ns, x, k) <==> exists j :: j in SubKids(ns, x, k) && j < |ns| && m in ns[j].modules
    decreases |ns| - x, 0, k
  {
    SubKidsFacts(ns, x, k);
    if k > 0 {
      var c := ns[x].children[k - 1];
      ModsKidsAreAttached(ns, x, k - 1, m);
      ModsAreAttached(ns, c, m);
      SubFacts(ns, c);
    }
  }

  // ---------------------------------------------------------------- keeping the invariant

  /** Changing anything but the links keeps the tree invariant. */
  lemma SameLinksValid(ns1: seq<Node>, ns2: seq<Node>)
    requires Valid(ns1) && |ns2| == |ns1|
    requires forall j :: 0 <= j < |ns1| ==> ns2[j].children == ns1[j].children && ns2[j].parent == ns1[j].parent
    ensures Valid(ns2)
  {
    forall i, k | 0 <= i < |ns2| && 0 <= k < |ns2[i].children|
      ensures i < ns2[i].children[k] < |ns2| && ns2[ns2[i].children[k]].parent == Some(i)
    {
      assert ns2[i].children[k] == ns1[i].children[k];
    }
    forall i, k1, k2 | 0 <= i < |ns2| && 0 <= k1 < k2 < |ns2[i].children|
      ensures ns2[i].children[k1] != ns2[i].children[k2]
    {
      assert ns2[i].children == ns1[i].children;
    }
  }

  /** Appending a node without children whose parent link is in range keeps the tree invariant. */
  lemma AppendValid(ns: seq<Node>, n: Node)
    requires Valid(ns) && n.children == [] && (n.parent.Some? ==> n.parent.value < |ns|)
    ensures Valid(ns + [n])
  {
    var ns2 := ns + [n];
    forall i, k | 0 <= i < |ns2| && 0 <= k < |ns2[i].children|
      ensures i < ns2[i].children[k] < |ns2| && ns2[ns2[i].children[k]].parent == Some(i)
    {
      assert i < |ns| && ns2[i] == ns[i];
      assert ns2[ns[i].children[k]] == ns[ns[i].children[k]];
    }
  }
}
