/**
 * The plant skeleton as an arena of BNode records. The index of a node plays
 * the part of its shared pointer; `destroyed` records, in order, every call
 * of SOP_Branch::destroySelf that the nodes make on their attached modules.
 */
module Skeleton {
  import opened Options
  import opened Vectors
  import opened BranchNode
  import opened NodeTree
  import opened Passes

  class Arena {
    var nodes: seq<Node>
    var destroyed: seq<ModuleId>

    constructor ()
      ensures nodes == [] && destroyed == []
    {
      nodes := [];
      destroyed := [];
    }

    /** Allocates a node made by one of the BNode constructors. */
    method Insert(n: Node) returns (id: nat)
      requires Valid(nodes) && Detached(n)
      modifies this
      ensures Valid(nodes) && nodes == old(nodes) + [n] && id == old(|nodes|)
      ensures destroyed == old(destroyed)
    {
      AppendValid(nodes, n);
      id := |nodes|;
      nodes := nodes + [n];
    }

    // ------------------------------------------------------------ setters

    /**
     * setParent. To keep the tree invariant the new parent must have been
     * allocated before the node, and the node must not be listed as a child
     * of any node other than its new parent.
     */
    method SetParent(i: nat, par: Option<nat>)
      requires Valid(nodes) && i < |nodes| && (par.Some? ==> par.value < i)
      requires forall q :: 0 <= q < |nodes| && i in nodes[q].children ==> par == Some(q)
      modifies this
      ensures Valid(nodes) && nodes == old(nodes)[i := old(nodes)[i].(parent := par)]
      ensures destroyed == old(destroyed)
    {
      nodes := nodes[i := nodes[i].(parent := par)];
      forall q, k | 0 <= q < |nodes| && 0 <= k < |nodes[q].children|
        ensures q < nodes[q].children[k] < |nodes| && nodes[nodes[q].children[k]].parent == Some(q)
      {
        assert nodes[q].children == old(nodes)[q].children;
        if nodes[q].children[k] == i {
          assert i in old(nodes)[q].children;
        }
      }
    }

    /** setPlantVars. */
    method SetPlantVars(i: nat, vars: Option<PlantVars>)
      requires Valid(nodes) && i < |nodes|
      modifies this
      ensures Valid(nodes) && nodes == old(nodes)[i := old(nodes)[i].(vars := vars)]
      ensures destroyed == old(destroyed)
    {
      nodes := nodes[i := nodes[i].(vars := vars)];
      SameLinksValid(old(nodes), nodes);
    }

    /** setRigIndex. */
    method SetRigIndex(i: nat, idx: int)
      requires Valid(nodes) && i < |nodes|
      modifies this
      ensures Valid(nodes) && nodes == old(nodes)[i := old(nodes)[i].(rigIndex := idx)]
      ensures destroyed == old(destroyed)
    {
      nodes := nodes[i := nodes[i].(rigIndex := idx)];
      SameLinksValid(old(nodes), nodes);
    }

    /**
     * addChild: appends c to the children of p. The tree invariant demands
     * that c already links to p, is listed by no node, and was allocated after p.
     */
    method AddChild(p: nat, c: nat)
      requires Valid(nodes) && p < c < |nodes| && nodes[c].parent == Some(p)
      requires forall q :: 0 <= q < |nodes| ==> c !in nodes[q].children
      modifies this
      ensures Valid(nodes) && nodes == old(nodes)[p := old(nodes)[p].(children := old(nodes)[p].children + [c])]
      ensures destroyed == old(destroyed)
    {
      nodes := nodes[p := nodes[p].(children := nodes[p].children + [c])];
      forall q, k1, k2 | 0 <= q < |nodes| && 0 <= k1 < k2 < |nodes[q].children|
        ensures nodes[q].children[k1] != nodes[q].children[k2]
      {
        if q == p && k2 == |nodes[q].children| - 1 {
          assert nodes[q].children[k1] in old(nodes)[p].children;
        } else {
          assert nodes[q].children[k1] == old(nodes)[q].children[k1];
        }
      }
    }

    /** addModuleChild: attaches a module at the end of the node's module list. */
    method AddModuleChild(i: nat, m: ModuleId)
      requires Valid(nodes) && i < |nodes|
      modifies this
      ensures Valid(nodes) && nodes == old(nodes)[i := old(nodes)[i].(modules := old(nodes)[i].modules + [m])]
      ensures destroyed == old(destroyed)
    {
      nodes := nodes[i := nodes[i].(modules := nodes[i].modules + [m])];
      SameLinksValid(old(nodes), nodes);
    }

    // ------------------------------------------------------------ deepCopy

    /**
     * deepCopy(par) on node i: a copy of the node (the copy constructor),
     * linked to `par`, that gets a deep copy of each child in order, each
     * linked back to it. The ghost map `m` takes each node of the subtree to
     * its copy. The ghost `orig` is the arena as the outermost deepCopy found
     * it; the original nodes never move, so `|orig| - i` measures the recursion.
     */
    method DeepCopy(i: nat, par: Option<nat>, ghost orig: seq<Node>) returns (r: nat, ghost m: map<nat, nat>)
      requires Valid(nodes) && i < |nodes| && (par.Some? ==> par.value < |nodes|)
      requires Valid(orig) && i < |orig| <= |nodes| && nodes[..|orig|] == orig
      modifies this
      ensures Valid(nodes) && CopiedFrom(old(nodes), nodes, i, par, r, m)
      ensures destroyed == old(destroyed)
      decreases |orig| - i, 2
    {
      r := NewCopy(i, par);
      m := CopyKids(old(nodes), orig, i, par, r);
    }

    /** The loop of deepCopy on node i, whose copy is r: each child in turn is deep-copied below r. */
    method CopyKids(ghost before: seq<Node>, ghost orig: seq<Node>, i: nat, par: Option<nat>, r: nat)
      returns (ghost m: map<nat, nat>)
      requires Valid(before) && i < |before|
      requires Valid(orig) && i < |orig| <= |before| && before[..|orig|] == orig
      requires Valid(nodes) && CopyingKids(before, nodes, i, par, r, map[i := r], 0)
      modifies this
      ensures Valid(nodes) && CopiedFrom(before, nodes, i, par, r, m)
      ensures destroyed == old(destroyed)
      decreases |orig| - i, 1
    {
      var n := nodes[i];
      assert n == before[i];
      m := map[i := r];
      var k := 0;
      while k < |n.children|
        invariant k <= |n.children| && Valid(nodes) && CopyingKids(before, nodes, i, par, r, m, k)
        invariant destroyed == old(destroyed)
      {
        m := CopyChild(before, orig, i, n.children[k], par, r, m, k);
        k := k + 1;
      }
      assert k == |before[i].children|;
    }

    /** The first two steps of deepCopy on node i: the copy constructor, then setParent(par). */
    method NewCopy(i: nat, par: Option<nat>) returns (r: nat)
      requires Valid(nodes) && i < |nodes| && (par.Some? ==> par.value < |nodes|)
      modifies this
      ensures Valid(nodes) && CopyingKids(old(nodes), nodes, i, par, r, map[i := r], 0)
      ensures destroyed == old(destroyed)
    {
      ghost var before := nodes;
      FreshUnlisted(before, Copy(nodes[i]));
      r := Insert(Copy(nodes[i]));
      ghost var added := nodes;
      SetParent(r, par);
      CopyStart(before, added, nodes, i, par, r);
    }

    /**
     * One turn of the loop of deepCopy on node i: child k (which is c) is
     * deep-copied below r, the copy of i, and the copy is added to r's children.
     */
    method CopyChild(ghost before: seq<Node>, ghost orig: seq<Node>, i: nat, c: nat, par: Option<nat>, r: nat,
                     ghost m: map<nat, nat>, k: nat)
      returns (ghost m': map<nat, nat>)
      requires Valid(before) && i < |before| && k < |before[i].children| && c == before[i].children[k]
      requires Valid(orig) && i < |orig| <= |before| && before[..|orig|] == orig
      requires Valid(nodes) && CopyingKids(before, nodes, i, par, r, m, k)
      modifies this
      ensures Valid(nodes) && CopyingKids(before, nodes, i, par, r, m', k + 1)
      ensures destroyed == old(destroyed)
      decreases |orig| - i, 0
    {
      ghost var pre := nodes;
      CopyTurn(before, orig, pre, i, par, r, m, k);
      var rc;
      ghost var mc;
      rc, mc := DeepCopy(c, Some(r), orig);
      ghost var mid := nodes;
      CopyTurnDone(before, pre, mid, i, par, r, m, k, rc, mc);
      CopyTurnKeys(before, pre, i, m, k, mc);
      AddChild(r, rc);
      CopyTurnAdded(before, pre, mid, nodes, i, par, r, m, k, rc, mc);
      m' := m + mc;
    }

    // ------------------------------------------------------------ destructor

    /**
     * ~BNode: every child loses its parent link (it is not deleted) and every
     * attached module is told to destroy itself. The destructor only runs
     * once no node holds the node as a child; its slot stays in the arena
     * with no children and no modules.
     */
    method Destroy(i: nat)
      requires Valid(nodes) && i < |nodes|
      requires forall q :: 0 <= q < |nodes| ==> i !in nodes[q].children
      modifies this
      ensures Valid(nodes) && |nodes| == |old(nodes)|
      ensures nodes[i] == old(nodes)[i].(children := [], modules := [])
      ensures forall j :: 0 <= j < |nodes| && j != i ==>
                nodes[j] == if j in old(nodes)[i].children then old(nodes)[j].(parent := None) else old(nodes)[j]
      ensures destroyed == old(destroyed) + old(nodes)[i].modules
    {
      var n := nodes[i];
      var k := 0;
      while k < |n.children|
        invariant 0 <= k <= |n.children| && |nodes| == |old(nodes)|
        invariant nodes[i] == n && destroyed == old(destroyed)
        invariant forall j :: 0 <= j < |nodes| && j != i ==>
                    nodes[j] == if j in n.children[..k] then old(nodes)[j].(parent := None) else old(nodes)[j]
      {
        var c := n.children[k];
        assert i < c;
        nodes := nodes[c := nodes[c].(parent := None)];
        assert n.children[..k + 1] == n.children[..k] + [c];
        k := k + 1;
      }
      assert n.children[..k] == n.children;
      destroyed := destroyed + n.modules;
      nodes := nodes[i := n.(children := [], modules := [])];
      DestroyValid(old(nodes), nodes, i);
    }

    // ------------------------------------------------------------ setAge

    /**
     * setAge(d, terminalNodes, mature, decay) on node i. `terminals` and the
     * returned `terminals'` are the caller's vector before and after.
     */
    method SetAge(i: nat, d: real, terminals: seq<nat>, mature: bool, decay: bool, pow: Pow)
      returns (terminals': seq<nat>)
      requires Valid(nodes) && i < |nodes| && HasVars(nodes, i)
      modifies this
      ensures AgeState(nodes, terminals', destroyed)
              == AgeNode(AgeState(old(nodes), terminals, old(destroyed)), i, d, mature, decay, pow)
      decreases |nodes| - i, 1
    {
      ghost var before := nodes;
      var n := nodes[i];
      nodes := nodes[i := Grown(n, AnchorOf(nodes, n.parent), d, pow)];
      StartTree(before, nodes, i, d, pow);
      terminals' := AgeChildren(i, n.children, d, terminals, mature, decay, pow);
      if mature && nodes[i].children == [] && nodes[i].modules == [] {
        terminals' := terminals' + [i];
      } else if decay && nodes[i].modules != [] {
        destroyed := destroyed + nodes[i].modules;
        nodes := nodes[i := nodes[i].(modules := [])];
      }
    }

    /** The loop of setAge over `kids`, the children of node i. */
    method AgeChildren(i: nat, kids: seq<nat>, d: real, terminals: seq<nat>, mature: bool, decay: bool, pow: Pow)
      returns (terminals': seq<nat>)
      requires Valid(nodes) && i < |nodes| && HasVars(nodes, i) && kids == nodes[i].children
      modifies this
      ensures AgeState(nodes, terminals', destroyed)
              == AgeKids(AgeState(old(nodes), terminals, old(destroyed)), i, kids, d, mature, decay, pow)
      decreases |nodes| - i, 0
    {
      ghost var before := nodes;
      ghost var start := AgeState(nodes, terminals, destroyed);
      terminals' := terminals;
      var k := 0;
      while k < |kids|
        invariant k <= |kids| && Keeps(before, nodes)
        invariant AgeKids(start, i, kids, d, mature, decay, pow)
                  == AgeKids(AgeState(nodes, terminals', destroyed), i, kids[k..], d, mature, decay, pow)
      {
        var c := kids[k];
        KidTree(before, nodes, i, k);
        terminals' := SetAge(c, d, terminals', mature, decay, pow);
        assert kids[k..][1..] == kids[k + 1..];
        k := k + 1;
      }
    }

    // ------------------------------------------------------------ recTransformation

    /** recTransformation(ageDif, radiusMultiplier, lengthMultiplier, rotation) on node i. */
    method RecTransformation(i: nat, ageDif: real, radiusMul: real, lengthMul: real, rotation: Mat3)
      requires Valid(nodes) && i < |nodes|
      modifies this
      ensures Valid(nodes)
      ensures RetransformedFrom(old(nodes), nodes, i, ageDif, radiusMul, lengthMul, rotation)
      ensures destroyed == old(destroyed)
      decreases |nodes| - i
    {
      ghost var before := nodes;
      var n := nodes[i];
      nodes := nodes[i := Retransformed(n, ageDif, radiusMul, lengthMul, rotation)];
      TransformStart(before, nodes, i, ageDif, radiusMul, lengthMul, rotation);
      var k := 0;
      while k < |n.children|
        invariant k <= |n.children| && TransformingKids(before, nodes, i, k, ageDif, radiusMul, lengthMul, rotation)
        invariant destroyed == old(destroyed)
      {
        var c := n.children[k];
        ghost var pre := nodes;
        TransformTurn(before, pre, i, k, ageDif, radiusMul, lengthMul, rotation);
        RecTransformation(c, ageDif, radiusMul, lengthMul, rotation);
        TransformTurnDone(before, pre, nodes, i, k, ageDif, radiusMul, lengthMul, rotation);
        k := k + 1;
      }
      TransformEnd(before, nodes, i, ageDif, radiusMul, lengthMul, rotation);
    }
  }

  // ---------------------------------------------------------------- proof steps of the methods

  /** An arena with the same links keeps the tree invariant, and the subtree and coefficients of x. */
  lemma KeepsTree(ns1: seq<Node>, ns2: seq<Node>, x: nat)
    requires Valid(ns1) && x < |ns1| && HasVars(ns1, x) && Keeps(ns1, ns2)
    ensures Valid(ns2) && Sub(ns2, x) == Sub(ns1, x) && HasVars(ns2, x)
  {
    SameLinksValid(ns1, ns2);
    SubFrame(ns1, ns2, x);
  }

  /** No node of arena `before` + [x] lists the new node, when x has no children. */
  lemma FreshUnlisted(before: seq<Node>, x: Node)
    requires Valid(before) && x.children == []
    ensures forall q :: 0 <= q < |before + [x]| ==> |before| !in (before + [x])[q].children
  {
    ChildLinks(before);
  }

  /** deepCopy before its loop: the copy of node i is allocated and linked to `par`. */
  lemma CopyStart(before: seq<Node>, added: seq<Node>, ns: seq<Node>, i: nat, par: Option<nat>, r: nat)
    requires Valid(before) && i < |before| && r == |before|
    requires added == before + [Copy(before[i])]
    requires ns == added[r := added[r].(parent := par)]
    ensures CopyingKids(before, ns, i, par, r, map[i := r], 0)
  {
    var m := map[i := r];
    assert ns[..|before|] == before;
    assert m.Keys == {i} + SubKids(before, i, 0) == {i};
    assert CopiedAt(before, ns, i, m, i);
  }

  /**
   * Before the copy of child k in deepCopy: the child is an original node,
   * still at its place in `pre`, and its subtree is as it was.
   */
  lemma CopyTurn(before: seq<Node>, orig: seq<Node>, pre: seq<Node>, i: nat, par: Option<nat>, r: nat,
                 m: map<nat, nat>, k: nat)
    requires Valid(before) && i < |before| && k < |before[i].children|
    requires Valid(orig) && i < |orig| <= |before| && before[..|orig|] == orig
    requires Valid(pre) && |before| < |pre| && pre[..|before|] == before && r == |before|
    ensures var c := before[i].children[k];
            i < c < |orig| && |orig| <= |pre| && pre[..|orig|] == orig && r < |pre|
            && Sub(pre, c) == Sub(before, c)
  {
    var c := before[i].children[k];
    assert before[i] == before[..|orig|][i];
    assert pre[..|orig|] == pre[..|before|][..|orig|];
    ChildSub(before, i, k);
    SubFacts(before, c);
    forall j | 0 <= j < |before| && j in Sub(before, c)
      ensures pre[j].children == before[j].children
    {
      assert pre[j] == pre[..|before|][j];
    }
    SubFrame(before, pre, c);
  }

  /** After the copy of child k in deepCopy: its copy may be added as the next child of r. */
  lemma CopyTurnDone(before: seq<Node>, pre: seq<Node>, mid: seq<Node>, i: nat, par: Option<nat>, r: nat,
                     m: map<nat, nat>, k: nat, rc: nat, mc: map<nat, nat>)
    requires Valid(before) && i < |before| && k < |before[i].children|
    requires Valid(pre) && CopyingKids(before, pre, i, par, r, m, k)
    requires before[i].children[k] < |pre| && Sub(pre, before[i].children[k]) == Sub(before, before[i].children[k])
    requires Valid(mid) && CopiedFrom(pre, mid, before[i].children[k], Some(r), rc, mc)
    ensures r < rc < |mid| && mid[rc].parent == Some(r)
    ensures forall q :: 0 <= q < |mid| ==> rc !in mid[q].children
  {
    var c := before[i].children[k];
    SubFacts(pre, c);
    forall q | 0 <= q < |mid| ensures rc !in mid[q].children {
      if q < |pre| {
        assert mid[q] == mid[..|pre|][q];
        if q < |before| {
          assert pre[q] == pre[..|before|][q];
          ChildLinks(before);
        } else {
          assert q in m.Values;
          var j :| j in m && m[j] == q;
          assert CopiedAt(before, pre, i, m, j);
          forall t | 0 <= t < |pre[q].children| ensures pre[q].children[t] < |pre| {
            if j != i {
              assert CopiedAt(before, pre, i, m, before[j].children[t]);
            } else {
              assert CopiedAt(before, pre, i, m, before[i].children[t]);
            }
          }
        }
      } else {
        assert q in mc.Values;
        var j :| j in mc && mc[j] == q;
        assert CopiedAt(pre, mid, c, mc, j);
        forall t | 0 <= t < |mid[q].children| ensures mid[q].children[t] != rc {
          if j == c {
            assert mid[q].children[t] == mc[pre[c].children[t]];
          } else {
            assert mid[q].children[t] == mc[pre[j].children[t]];
          }
        }
      }
    }
  }

  /** After the copy of child k in deepCopy: which nodes the merged map has copied. */
  lemma CopyTurnKeys(before: seq<Node>, pre: seq<Node>, i: nat, m: map<nat, nat>, k: nat, mc: map<nat, nat>)
    requires Valid(before) && i < |before| && k < |before[i].children|
    requires i in m && m.Keys == {i} + SubKids(before, i, k)
    requires Valid(pre) && before[i].children[k] < |pre|
    requires Sub(pre, before[i].children[k]) == Sub(before, before[i].children[k])
    requires mc.Keys == Sub(pre, before[i].children[k])
    ensures (forall j :: j in mc ==> j < |before|) && m.Keys !! mc.Keys && i !in mc
    ensures (m + mc).Keys == {i} + SubKids(before, i, k + 1)
  {
    var c := before[i].children[k];
    NextKidDisjoint(before, i, k);
    assert mc.Keys == Sub(before, c);
    SubFacts(before, c);
  }

  /**
   * The state of deepCopy on node i right after the copy of child k was
   * added to r: `pre` is the arena before the child's copy, `mid` after it,
   * and `post` after addChild; the subtree of child k is what `mc` copied.
   */
  ghost predicate CopyAdding(before: seq<Node>, pre: seq<Node>, mid: seq<Node>, post: seq<Node>, i: nat,
                             par: Option<nat>, r: nat, m: map<nat, nat>, k: nat, rc: nat, mc: map<nat, nat>) {
    Valid(before) && i < |before| && k < |before[i].children|
    && Valid(pre) && CopyingLinks(before, pre, i, par, r, m, k)
    && before[i].children[k] < |pre|
    && Valid(mid) && CopyingLinks(pre, mid, before[i].children[k], Some(r), rc, mc, |pre[before[i].children[k]].children|)
    && r < |mid| && post == mid[r := mid[r].(children := mid[r].children + [rc])]
    && (forall j :: j in mc ==> j < |before|) && m.Keys !! mc.Keys && i !in mc
  }

  /** After child k's copy is added to r in deepCopy: the first k + 1 children are copied. */
  lemma CopyTurnAdded(before: seq<Node>, pre: seq<Node>, mid: seq<Node>, post: seq<Node>, i: nat, par: Option<nat>,
                      r: nat, m: map<nat, nat>, k: nat, rc: nat, mc: map<nat, nat>)
    requires CopyAdding(before, pre, mid, post, i, par, r, m, k, rc, mc)
    requires (m + mc).Keys == {i} + SubKids(before, i, k + 1)
    ensures CopyingKids(before, post, i, par, r, m + mc, k + 1)
  {
    CopyAddedFront(before, pre, mid, post, i, par, r, m, rc, mc);
    CopyAddedMaps(before, pre, mid, post, i, par, r, m, k, rc, mc);
    CopyAddedNodes(before, pre, mid, post, i, par, r, m, k, rc, mc);
    CopyAddedTop(before, pre, mid, post, i, par, r, m, k, rc, mc);
  }

  /** CopyTurnAdded for the old nodes and the copy r of node i. */
  lemma CopyAddedFront(before: seq<Node>, pre: seq<Node>, mid: seq<Node>, post: seq<Node>, i: nat, par: Option<nat>,
                       r: nat, m: map<nat, nat>, rc: nat, mc: map<nat, nat>)
    requires i in m && m[i] == r && i !in mc
    requires |before| < |pre| && pre[..|before|] == before && r == |before| && pre[r].parent == par
    requires |pre| <= |mid| && mid[..|pre|] == pre
    requires r < |mid| && post == mid[r := mid[r].(children := mid[r].children + [rc])]
    ensures i in m + mc && (m + mc)[i] == r
    ensures |before| < |post| && post[..|before|] == before && post[r].parent == par
  {
    assert post[..|before|] == before by {
      forall q | 0 <= q < |before| ensures post[q] == before[q] {
        assert mid[q] == mid[..|pre|][q] && pre[q] == pre[..|before|][q];
      }
    }
    assert mid[r] == mid[..|pre|][r];
  }

  /** CopyTurnAdded for the merged map: it is one to one onto the new nodes. */
  lemma CopyAddedMaps(before: seq<Node>, pre: seq<Node>, mid: seq<Node>, post: seq<Node>, i: nat, par: Option<nat>,
                      r: nat, m: map<nat, nat>, k: nat, rc: nat, mc: map<nat, nat>)
    requires CopyAdding(before, pre, mid, post, i, par, r, m, k, rc, mc)
    ensures |(m + mc).Keys| == |post| - |before|
    ensures forall q :: |before| <= q < |post| ==> q in (m + mc).Values
  {
    assert (m + mc).Keys == m.Keys + mc.Keys;
    forall q | |before| <= q < |post| ensures q in (m + mc).Values {
      if q < |pre| {
        assert q in m.Values;
        var j :| j in m && m[j] == q;
        assert (m + mc)[j] == q;
      } else {
        assert q in mc.Values;
        var j :| j in mc && mc[j] == q;
        assert (m + mc)[j] == q;
      }
    }
  }

  /** CopyTurnAdded at every node of the merged map. */
  lemma CopyAddedNodes(before: seq<Node>, pre: seq<Node>, mid: seq<Node>, post: seq<Node>, i: nat, par: Option<nat>,
                      r: nat, m: map<nat, nat>, k: nat, rc: nat, mc: map<nat, nat>)
    requires CopyAdding(before, pre, mid, post, i, par, r, m, k, rc, mc)
    ensures forall j :: j in m + mc ==> CopiedAt(before, post, i, m + mc, j)
  {
    forall j | j in m + mc ensures CopiedAt(before, post, i, m + mc, j) {
      CopyAddedAt(before, pre, mid, post, i, par, r, m, k, rc, mc, j);
    }
  }

  /** CopyTurnAdded at the copy r of node i: its children are the images of the first k + 1 children. */
  lemma CopyAddedTop(before: seq<Node>, pre: seq<Node>, mid: seq<Node>, post: seq<Node>, i: nat, par: Option<nat>,
                      r: nat, m: map<nat, nat>, k: nat, rc: nat, mc: map<nat, nat>)
    requires CopyAdding(before, pre, mid, post, i, par, r, m, k, rc, mc)
    ensures |post[r].children| == k + 1
    ensures forall t :: 0 <= t < k + 1 ==>
              before[i].children[t] in m + mc && post[r].children[t] == (m + mc)[before[i].children[t]]
  {
    assert mid[r] == mid[..|pre|][r];
    assert post[r].children == pre[r].children + [rc];
    AppendImage(before[i].children, pre[r].children, m, mc, k, rc);
  }

  /**
   * When the first k children map under m to the first k entries of a list,
   * child k maps to rc under mc and the keys of m and mc are disjoint, the
   * first k + 1 children map under m + mc to the list with rc appended.
   */
  lemma AppendImage(kids: seq<nat>, images: seq<nat>, m: map<nat, nat>, mc: map<nat, nat>, k: nat, rc: nat)
    requires k < |kids| && |images| == k
    requires forall t :: 0 <= t < k ==> kids[t] in m && images[t] == m[kids[t]]
    requires m.Keys !! mc.Keys && kids[k] in mc && mc[kids[k]] == rc
    ensures forall t :: 0 <= t < k + 1 ==> kids[t] in m + mc && (images + [rc])[t] == (m + mc)[kids[t]]
  {
    forall t | 0 <= t < k + 1 ensures kids[t] in m + mc && (images + [rc])[t] == (m + mc)[kids[t]] {
      if t < k {
        assert kids[t] in m && kids[t] !in mc;
      }
    }
  }

  /** The images of a copy in progress are new nodes. */
  lemma CopyRange(before: seq<Node>, after: seq<Node>, i: nat, par: Option<nat>, r: nat, m: map<nat, nat>, k: nat)
    requires Valid(before) && i < |before| && k <= |before[i].children|
    requires CopyingLinks(before, after, i, par, r, m, k)
    ensures forall j :: j in m ==> j < |before| && |before| <= m[j] < |after|
  {
    forall j | j in m ensures j < |before| && |before| <= m[j] < |after| {
      assert CopiedAt(before, after, i, m, j);
    }
  }

  /** CopyTurnAdded at node j. */
  lemma CopyAddedAt(before: seq<Node>, pre: seq<Node>, mid: seq<Node>, post: seq<Node>, i: nat, par: Option<nat>,
                    r: nat, m: map<nat, nat>, k: nat, rc: nat, mc: map<nat, nat>, j: nat)
    requires CopyAdding(before, pre, mid, post, i, par, r, m, k, rc, mc)
    requires j in m + mc
    ensures CopiedAt(before, post, i, m + mc, j)
  {
    var c := before[i].children[k];
    if j == c {
      assert CopiedAt(pre, mid, c, mc, c);
      assert before[c].parent == Some(i);
      CopyAddedKidTop(before, pre, mid, post, i, r, m, c, rc, mc);
    } else if j in mc {
      assert CopiedAt(pre, mid, c, mc, j);
      CopyAddedKidAt(before, pre, mid, post, i, r, m, c, rc, mc, j);
    } else {
      CopyAddedOldAt(before, pre, mid, post, i, r, m, rc, mc, j);
    }
  }

  /** The copy of child c of i, linked below r, is the copy of c. */
  lemma CopyAddedKidTop(before: seq<Node>, pre: seq<Node>, mid: seq<Node>, post: seq<Node>, i: nat,
                        r: nat, m: map<nat, nat>, c: nat, rc: nat, mc: map<nat, nat>)
    requires r == |before| < |pre| && pre[..|before|] == before && i in m && m[i] == r && i !in mc
    requires c < |before| && c != i && before[c].parent == Some(i)
    requires c in mc && mc[c] == rc && CopiedAt(pre, mid, c, mc, c)
    requires mid[rc].parent == Some(r) && |mid[rc].children| == |pre[c].children|
    requires forall t :: 0 <= t < |pre[c].children| ==> pre[c].children[t] in mc && mid[rc].children[t] == mc[pre[c].children[t]]
    requires r < |mid| && post == mid[r := mid[r].(children := mid[r].children + [rc])]
    ensures CopiedAt(before, post, i, m + mc, c)
  {
    var m' := m + mc;
    assert pre[c] == pre[..|before|][c];
    assert post[rc] == mid[rc];
    forall t | 0 <= t < |before[c].children|
      ensures before[c].children[t] in m' && post[m'[c]].children[t] == m'[before[c].children[t]]
    {
      assert before[c].children[t] in mc;
    }
  }

  /** A node below child c of i keeps its copy once the copy of c is linked below r. */
  lemma CopyAddedKidAt(before: seq<Node>, pre: seq<Node>, mid: seq<Node>, post: seq<Node>, i: nat,
                       r: nat, m: map<nat, nat>, c: nat, rc: nat, mc: map<nat, nat>, j: nat)
    requires r == |before| < |pre| && pre[..|before|] == before
    requires j in mc && j != c && j < |before| && CopiedAt(pre, mid, c, mc, j)
    requires r < |mid| && post == mid[r := mid[r].(children := mid[r].children + [rc])]
    ensures CopiedAt(before, post, i, m + mc, j)
  {
    var m' := m + mc;
    assert pre[j] == pre[..|before|][j];
    assert post[mc[j]] == mid[mc[j]];
    forall t | 0 <= t < |before[j].children|
      ensures before[j].children[t] in m' && post[m'[j]].children[t] == m'[before[j].children[t]]
    {
      assert before[j].children[t] in mc;
    }
  }

  /** A node copied before child k keeps its copy once the copy of child k is linked below r. */
  lemma CopyAddedOldAt(before: seq<Node>, pre: seq<Node>, mid: seq<Node>, post: seq<Node>, i: nat,
                       r: nat, m: map<nat, nat>, rc: nat, mc: map<nat, nat>, j: nat)
    requires Valid(pre) && r == |before| < |pre| && i in m && m[i] == r
    requires forall x :: x in m ==> CopiedAt(before, pre, i, m, x)
    requires |pre| <= |mid| && mid[..|pre|] == pre && m.Keys !! mc.Keys
    requires r < |mid| && post == mid[r := mid[r].(children := mid[r].children + [rc])]
    requires j in m
    ensures CopiedAt(before, post, i, m + mc, j)
  {
    var m' := m + mc;
    assert CopiedAt(before, pre, i, m, j);
    assert mid[m[j]] == mid[..|pre|][m[j]];
    if j != i {
      var p := before[j].parent.value;
      assert CopiedAt(before, pre, i, m, p);
      assert m[j] != r;
      assert p in m && m'[p] == m[p];
      forall t | 0 <= t < |before[j].children|
        ensures before[j].children[t] in m' && post[m'[j]].children[t] == m'[before[j].children[t]]
      {
        assert before[j].children[t] in m;
      }
    }
  }

  /** The first update of setAge keeps the links of the arena. */
  lemma StartTree(before: seq<Node>, ns: seq<Node>, i: nat, d: real, pow: Pow)
    requires Valid(before) && i < |before| && HasVars(before, i)
    requires ns == before[i := Grown(before[i], AnchorOf(before, before[i].parent), d, pow)]
    ensures Valid(ns) && HasVars(ns, i)
  {
    assert Keeps(before, ns);
    KeepsTree(before, ns, i);
  }

  /** Child k of i in an arena with the links of `before` may be visited by setAge. */
  lemma KidTree(before: seq<Node>, ns: seq<Node>, i: nat, k: nat)
    requires Valid(before) && i < |before| && HasVars(before, i) && k < |before[i].children|
    requires Keeps(before, ns)
    ensures var c := before[i].children[k];
            Valid(ns) && i < c < |ns| && HasVars(ns, c)
  {
    var c := before[i].children[k];
    ChildSub(before, i, k);
    SubFacts(before, c);
    assert HasVars(before, c);
    KeepsTree(before, ns, c);
  }

  /**
   * setAge on node x grows exactly the subtree of x: every node of the
   * subtree takes one Step reading its parent as updated, and nothing else
   * changes. The tree invariant is kept.
   */
  lemma {:induction false} AgeNodeShape(s: AgeState, x: nat, d: real, mature: bool, decay: bool, pow: Pow)
    requires Valid(s.nodes) && x < |s.nodes| && HasVars(s.nodes, x)
    ensures Valid(AgeNode(s, x, d, mature, decay, pow).nodes)
    ensures GrewFrom(s.nodes, AgeNode(s, x, d, mature, decay, pow).nodes, x, d, decay, pow)
    decreases |s.nodes| - x, 1
  {
    var before := s.nodes;
    var n := before[x];
    var base := before[x := Grown(n, AnchorOf(before, n.parent), d, pow)];
    GrowStart(before, base, x, d, decay, pow);
    var s1 := s.(nodes := base);
    assert n.children[0..] == n.children;
    AgeKidsShape(before, base, s1, x, 0, d, mature, decay, pow);
    var mid := AgeKids(s1, x, n.children, d, mature, decay, pow).nodes;
    var r := AgeNode(s, x, d, mature, decay, pow);
    FinishedNode(before, base, mid, r.nodes, x, d, decay, pow);
  }

  /** The loop of setAge from child k on, as the loop invariant GrowingKids describes it. */
  lemma {:induction false} AgeKidsShape(before: seq<Node>, base: seq<Node>, s: AgeState, x: nat, k: nat,
                                        d: real, mature: bool, decay: bool, pow: Pow)
    requires GrowingKids(before, base, s.nodes, x, k, d, decay, pow)
    ensures GrowingKids(before, base, AgeKids(s, x, before[x].children[k..], d, mature, decay, pow).nodes,
                        x, |before[x].children|, d, decay, pow)
    decreases |s.nodes| - x, 0, |before[x].children| - k
  {
    var ch := before[x].children;
    if k == |ch| {
      assert ch[k..] == [];
    } else {
      var c := ch[k];
      ChildTurn(before, base, s.nodes, x, k, d, decay, pow);
      AgeNodeShape(s, c, d, mature, decay, pow);
      var s1 := AgeNode(s, c, d, mature, decay, pow);
      ChildTurnDone(before, base, s.nodes, s1.nodes, x, k, d, decay, pow);
      assert ch[k..][1..] == ch[k + 1..];
      AgeKidsShape(before, base, s1, x, k + 1, d, mature, decay, pow);
    }
  }

  /**
   * setAge on node x appends to terminalNodes, in post-order, the nodes of
   * the subtree without children or modules when `mature`, and in a decay
   * pass destroys, in post-order, every module attached in the subtree.
   */
  lemma {:induction false} AgeNodeCollects(s: AgeState, x: nat, d: real, mature: bool, decay: bool, pow: Pow)
    requires Valid(s.nodes) && x < |s.nodes| && HasVars(s.nodes, x)
    ensures AgeNode(s, x, d, mature, decay, pow).terminals == s.terminals + if mature then Leaves(s.nodes, x) else []
    ensures AgeNode(s, x, d, mature, decay, pow).destroyed == s.destroyed + if decay then Mods(s.nodes, x) else []
    decreases |s.nodes| - x, 1
  {
    var before := s.nodes;
    var n := before[x];
    var base := before[x := Grown(n, AnchorOf(before, n.parent), d, pow)];
    GrowStart(before, base, x, d, decay, pow);
    var s1 := s.(nodes := base);
    assert n.children[0..] == n.children;
    assert s1.terminals == s.terminals + if mature then LeavesKids(before, x, 0) else [];
    assert s1.destroyed == s.destroyed + if decay then ModsKids(before, x, 0) else [];
    AgeKidsShape(before, base, s1, x, 0, d, mature, decay, pow);
    AgeKidsCollects(before, base, s1, x, 0, s.terminals, s.destroyed, d, mature, decay, pow);
    var s2 := AgeKids(s1, x, n.children, d, mature, decay, pow);
    var r := AgeNode(s, x, d, mature, decay, pow);
    CollectLast(before, x, s.terminals, s2.terminals, r.terminals, s.destroyed, s2.destroyed, r.destroyed, mature, decay);
  }

  /** The loop of setAge from child k on appends what the remaining children collect. */
  lemma {:induction false} AgeKidsCollects(before: seq<Node>, base: seq<Node>, s: AgeState, x: nat, k: nat,
                                           t: seq<nat>, m: seq<ModuleId>,
                                           d: real, mature: bool, decay: bool, pow: Pow)
    requires GrowingKids(before, base, s.nodes, x, k, d, decay, pow)
    requires s.terminals == t + if mature then LeavesKids(before, x, k) else []
    requires s.destroyed == m + if decay then ModsKids(before, x, k) else []
    ensures AgeKids(s, x, before[x].children[k..], d, mature, decay, pow).terminals
            == t + if mature then LeavesKids(before, x, |before[x].children|) else []
    ensures AgeKids(s, x, before[x].children[k..], d, mature, decay, pow).destroyed
            == m + if decay then ModsKids(before, x, |before[x].children|) else []
    decreases |s.nodes| - x, 0, |before[x].children| - k
  {
    var ch := before[x].children;
    if k == |ch| {
      assert ch[k..] == [];
    } else {
      var c := ch[k];
      ChildTurn(before, base, s.nodes, x, k, d, decay, pow);
      AgeNodeShape(s, c, d, mature, decay, pow);
      AgeNodeCollects(s, c, d, mature, decay, pow);
      var s1 := AgeNode(s, c, d, mature, decay, pow);
      ChildTurnDone(before, base, s.nodes, s1.nodes, x, k, d, decay, pow);
      CollectTurn(before, x, k, s.terminals, s1.terminals, s.destroyed, s1.destroyed, t, m, mature, decay);
      assert ch[k..][1..] == ch[k + 1..];
      AgeKidsCollects(before, base, s1, x, k + 1, t, m, d, mature, decay, pow);
    }
  }


  /** What one child of x collects extends what its earlier siblings collected. */
  lemma CollectTurn(before: seq<Node>, x: nat, k: nat, t0: seq<nat>, t1: seq<nat>, m0: seq<ModuleId>, m1: seq<ModuleId>,
                    t: seq<nat>, m: seq<ModuleId>, mature: bool, decay: bool)
    requires Valid(before) && x < |before| && k < |before[x].children|
    requires t0 == t + if mature then LeavesKids(before, x, k) else []
    requires m0 == m + if decay then ModsKids(before, x, k) else []
    requires t1 == t0 + if mature then Leaves(before, before[x].children[k]) else []
    requires m1 == m0 + if decay then Mods(before, before[x].children[k]) else []
    ensures t1 == t + if mature then LeavesKids(before, x, k + 1) else []
    ensures m1 == m + if decay then ModsKids(before, x, k + 1) else []
  {
    var c := before[x].children[k];
    Collect(t, t0, t1, if mature then LeavesKids(before, x, k) else [], if mature then Leaves(before, c) else []);
    Collect(m, m0, m1, if decay then ModsKids(before, x, k) else [], if decay then Mods(before, c) else []);
    CollectKid(before, x, k, mature, decay);
  }

  /** What node x collects itself, after its children, completes what its subtree collects. */
  lemma CollectLast(before: seq<Node>, x: nat, t0: seq<nat>, t1: seq<nat>, t2: seq<nat>,
                    m0: seq<ModuleId>, m1: seq<ModuleId>, m2: seq<ModuleId>, mature: bool, decay: bool)
    requires Valid(before) && x < |before|
    requires t1 == t0 + if mature then LeavesKids(before, x, |before[x].children|) else []
    requires m1 == m0 + if decay then ModsKids(before, x, |before[x].children|) else []
    requires t2 == t1 + if mature && IsTip(before[x]) then [x] else []
    requires m2 == m1 + if decay then before[x].modules else []
    ensures t2 == t0 + if mature then Leaves(before, x) else []
    ensures m2 == m0 + if decay then Mods(before, x) else []
  {
    var all := |before[x].children|;
    CollectOwn(before, x, mature, decay);
    Collect(t0, t1, t2, if mature then LeavesKids(before, x, all) else [], if mature && IsTip(before[x]) then [x] else []);
    Collect(m0, m1, m2, if decay then ModsKids(before, x, all) else [], if decay then before[x].modules else []);
  }

    /** After the destructor's updates no node lists a child that lost its link. */
  lemma DestroyValid(ns0: seq<Node>, ns1: seq<Node>, i: nat)
    requires Valid(ns0) && i < |ns0| && |ns1| == |ns0|
    requires ns1[i] == ns0[i].(children := [], modules := [])
    requires forall j :: 0 <= j < |ns1| && j != i ==>
               ns1[j] == if j in ns0[i].children then ns0[j].(parent := None) else ns0[j]
    ensures Valid(ns1)
  {
    forall q, k | 0 <= q < |ns1| && 0 <= k < |ns1[q].children|
      ensures q < ns1[q].children[k] < |ns1| && ns1[ns1[q].children[k]].parent == Some(q)
    {
      ChildLinks(ns0);
      assert q != i && ns1[q].children[k] == ns0[q].children[k];
    }
    forall q, k1, k2 | 0 <= q < |ns1| && 0 <= k1 < k2 < |ns1[q].children|
      ensures ns1[q].children[k1] != ns1[q].children[k2]
    {
      assert q != i && ns1[q].children == ns0[q].children;
    }
  }

  /**
   * SetAge on node i after the visit of its first k children: `base` is the
   * arena with only node i updated, and the subtrees of those children have
   * grown from it.
   */
  ghost predicate GrowingKids(before: seq<Node>, base: seq<Node>, ns: seq<Node>, i: nat, k: nat,
                              d: real, decay: bool, pow: Pow) {
    Valid(before) && i < |before| && HasVars(before, i) && k <= |before[i].children|
    && before[i].vars.Some?
    && base == before[i := Grown(before[i], AnchorOf(before, before[i].parent), d, pow)]
    && Valid(ns) && |ns| == |before| && ns[i] == base[i]
    && GrownOn(base, ns, SubKids(before, i, k), d, decay, pow)
  }

  /** The first step of SetAge on node i: only node i is updated, and the links are kept. */
  lemma GrowStart(before: seq<Node>, base: seq<Node>, i: nat, d: real, decay: bool, pow: Pow)
    requires Valid(before) && i < |before| && HasVars(before, i)
    requires before[i].vars.Some?
    requires base == before[i := Grown(before[i], AnchorOf(before, before[i].parent), d, pow)]
    ensures GrowingKids(before, base, base, i, 0, d, decay, pow)
  {
    SameLinksValid(before, base);
  }

  /**
   * Before the visit of child k in SetAge: the child's subtree is as it was,
   * so it is the same subtree, collects the same nodes and modules, and still
   * has its coefficients set.
   */
  lemma ChildTurn(before: seq<Node>, base: seq<Node>, pre: seq<Node>, i: nat, k: nat,
                  d: real, decay: bool, pow: Pow)
    requires GrowingKids(before, base, pre, i, k, d, decay, pow) && k < |before[i].children|
    ensures var c := before[i].children[k];
            Valid(pre) && i < c < |pre| && Sub(pre, c) == Sub(before, c) && HasVars(pre, c)
            && Leaves(pre, c) == Leaves(before, c) && Mods(pre, c) == Mods(before, c)
  {
    var c := before[i].children[k];
    NextKidDisjoint(before, i, k);
    ChildSub(before, i, k);
    SubFacts(before, c);
    forall j | 0 <= j < |before| && j in Sub(before, c)
      ensures pre[j] == before[j]
    {
      assert GrownAt(base, pre, SubKids(before, i, k), j, d, decay, pow);
    }
    Frame(before, pre, c);
  }

  /** After the visit of child k in SetAge: the subtrees of the first k + 1 children have grown. */
  lemma ChildTurnDone(before: seq<Node>, base: seq<Node>, pre: seq<Node>, post: seq<Node>, i: nat, k: nat,
                      d: real, decay: bool, pow: Pow)
    requires GrowingKids(before, base, pre, i, k, d, decay, pow) && k < |before[i].children|
    requires before[i].children[k] < |pre| && Sub(pre, before[i].children[k]) == Sub(before, before[i].children[k])
    requires GrewFrom(pre, post, before[i].children[k], d, decay, pow)
    ensures GrowingKids(before, base, post, i, k + 1, d, decay, pow)
  {
    var c := before[i].children[k];
    NextKidDisjoint(before, i, k);
    SubKidsFacts(before, i, k);
    GrowthKeepsShape(pre, post, c, d, decay, pow);
    forall j | 0 <= j < |base| && j in SubKids(before, i, k) && base[j].parent.Some?
      ensures base[j].parent.value !in Sub(before, c)
    {
      assert base[j] == before[j];
    }
    GrowthCompose(base, pre, post, SubKids(before, i, k), Sub(before, c), d, decay, pow);
    assert GrownAt(pre, post, Sub(before, c), i, d, decay, pow);
  }

  /** recTransformation on node i after the visit of its first k children. */
  ghost predicate TransformingKids(before: seq<Node>, ns: seq<Node>, i: nat, k: nat,
                                   ageDif: real, radiusMul: real, lengthMul: real, rotation: Mat3) {
    Valid(before) && i < |before| && k <= |before[i].children| && Valid(ns)
    && RetransformedOn(before, ns, {i} + SubKids(before, i, k), ageDif, radiusMul, lengthMul, rotation)
  }

  /**
   * Before the visit of child k in recTransformation: the child's subtree is
   * the same, and disjoint from what was transformed so far.
   */
  lemma TransformTurn(before: seq<Node>, pre: seq<Node>, i: nat, k: nat,
                      ageDif: real, radiusMul: real, lengthMul: real, rotation: Mat3)
    requires TransformingKids(before, pre, i, k, ageDif, radiusMul, lengthMul, rotation) && k < |before[i].children|
    ensures var c := before[i].children[k];
            Valid(pre) && i < c < |pre| == |before| && Sub(pre, c) == Sub(before, c)
  {
    var c := before[i].children[k];
    NextKidDisjoint(before, i, k);
    RetransformedLinks(before, pre, {i} + SubKids(before, i, k), ageDif, radiusMul, lengthMul, rotation);
    Frame(before, pre, c);
  }

  /** Appending to an accumulator twice appends the two parts in order. */
  lemma Collect<T>(start: seq<T>, acc: seq<T>, acc': seq<T>, done: seq<T>, next: seq<T>)
    requires acc == start + done && acc' == acc + next
    ensures acc' == start + (done + next)
  {
  }

  /** What setAge collects from the first k + 1 children. */
  lemma CollectKid(ns: seq<Node>, x: nat, k: nat, mature: bool, decay: bool)
    requires Valid(ns) && x < |ns| && k < |ns[x].children|
    ensures (if mature then LeavesKids(ns, x, k) else []) + (if mature then Leaves(ns, ns[x].children[k]) else [])
            == if mature then LeavesKids(ns, x, k + 1) else []
    ensures (if decay then ModsKids(ns, x, k) else []) + (if decay then Mods(ns, ns[x].children[k]) else [])
            == if decay then ModsKids(ns, x, k + 1) else []
  {
  }

  /** What setAge collects from the whole subtree of x. */
  lemma CollectOwn(ns: seq<Node>, x: nat, mature: bool, decay: bool)
    requires Valid(ns) && x < |ns|
    ensures (if mature then LeavesKids(ns, x, |ns[x].children|) else []) + (if mature && IsTip(ns[x]) then [x] else [])
            == if mature then Leaves(ns, x) else []
    ensures (if decay then ModsKids(ns, x, |ns[x].children|) else []) + (if decay then ns[x].modules else [])
            == if decay then Mods(ns, x) else []
  {
  }

  /** FinishedNode at node j. */
  lemma FinishedAt(before: seq<Node>, base: seq<Node>, mid: seq<Node>, ns: seq<Node>, i: nat,
                   d: real, decay: bool, pow: Pow, j: nat)
    requires i < |before| && GrowingKids(before, base, mid, i, |before[i].children|, d, decay, pow)
    requires ns == mid[i := mid[i].(modules := if decay then [] else before[i].modules)]
    requires j < |before|
    ensures GrownAt(before, ns, {i} + SubKids(before, i, |before[i].children|), j, d, decay, pow)
  {
    var kids := SubKids(before, i, |before[i].children|);
    SubKidsFacts(before, i, |before[i].children|);
    assert GrownAt(base, mid, kids, j, d, decay, pow);
    if j in kids {
      var p := before[j].parent;
      assert base[j] == before[j];
      assert AnchorOf(ns, p) == AnchorOf(mid, p);
    } else if j == i {
      var p := before[i].parent;
      if p.Some? {
        assert p.value < |before| by { assert i in Sub(before, i); }
        assert GrownAt(base, mid, kids, p.value, d, decay, pow);
      }
      assert AnchorOf(ns, p) == AnchorOf(before, p);
    }
  }

  /** Every child of a node links back to it. */
  lemma ChildLinks(ns: seq<Node>)
    requires Valid(ns)
    ensures forall q, c :: 0 <= q < |ns| && c in ns[q].children ==> c < |ns| && ns[c].parent == Some(q)
  {
    forall q, c | 0 <= q < |ns| && c in ns[q].children ensures c < |ns| && ns[c].parent == Some(q) {
      var t :| 0 <= t < |ns[q].children| && ns[q].children[t] == c;
    }
  }

  /** The first step of recTransformation on node i. */
  lemma TransformStart(before: seq<Node>, after: seq<Node>, i: nat,
                       ageDif: real, radiusMul: real, lengthMul: real, rotation: Mat3)
    requires Valid(before) && i < |before|
    requires after == before[i := Retransformed(before[i], ageDif, radiusMul, lengthMul, rotation)]
    ensures TransformingKids(before, after, i, 0, ageDif, radiusMul, lengthMul, rotation)
  {
    assert {i} + SubKids(before, i, 0) == {i};
    RetransformedLinks(before, after, {i}, ageDif, radiusMul, lengthMul, rotation);
    SameLinksValid(before, after);
  }

  /** After the visit of child k in recTransformation. */
  lemma TransformTurnDone(before: seq<Node>, pre: seq<Node>, post: seq<Node>, i: nat, k: nat,
                          ageDif: real, radiusMul: real, lengthMul: real, rotation: Mat3)
    requires TransformingKids(before, pre, i, k, ageDif, radiusMul, lengthMul, rotation) && k < |before[i].children|
    requires before[i].children[k] < |pre| && Sub(pre, before[i].children[k]) == Sub(before, before[i].children[k])
    requires RetransformedFrom(pre, post, before[i].children[k], ageDif, radiusMul, lengthMul, rotation)
    requires Valid(post)
    ensures TransformingKids(before, post, i, k + 1, ageDif, radiusMul, lengthMul, rotation)
  {
    var c := before[i].children[k];
    NextKidDisjoint(before, i, k);
    RetransformCompose(before, pre, post, {i} + SubKids(before, i, k), Sub(before, c),
                       ageDif, radiusMul, lengthMul, rotation);
    assert {i} + SubKids(before, i, k + 1) == {i} + SubKids(before, i, k) + Sub(before, c);
  }

  /** The last step of recTransformation: the children's subtrees and i make up the subtree of i. */
  lemma TransformEnd(before: seq<Node>, after: seq<Node>, i: nat,
                     ageDif: real, radiusMul: real, lengthMul: real, rotation: Mat3)
    requires i < |before| && TransformingKids(before, after, i, |before[i].children|, ageDif, radiusMul, lengthMul, rotation)
    ensures Valid(after)
    ensures RetransformedFrom(before, after, i, ageDif, radiusMul, lengthMul, rotation)
  {
  }

  /**
   * The last step of SetAge on node i: once its children are done and its
   * module list is settled, the whole subtree has grown.
   */
  lemma FinishedNode(before: seq<Node>, base: seq<Node>, mid: seq<Node>, ns: seq<Node>, i: nat,
                     d: real, decay: bool, pow: Pow)
    requires i < |before| && GrowingKids(before, base, mid, i, |before[i].children|, d, decay, pow)
    requires ns == mid[i := mid[i].(modules := if decay then [] else before[i].modules)]
    ensures GrewFrom(before, ns, i, d, decay, pow) && Valid(ns)
  {
    var kids := SubKids(before, i, |before[i].children|);
    SubKidsFacts(before, i, |before[i].children|);
    assert Sub(before, i) == {i} + kids;
    forall j | 0 <= j < |before| ensures GrownAt(before, ns, Sub(before, i), j, d, decay, pow) {
      FinishedAt(before, base, mid, ns, i, d, decay, pow, j);
    }
    GrowthKeepsShape(before, ns, i, d, decay, pow);
  }
}
