/**
 * What the three recursive passes of BNode do to a whole subtree of the
 * arena, stated as relations between the arena before and after:
 * setAge (GrewFrom), recTransformation (RetransformedFrom) and deepCopy
 * (CopiedFrom). The methods of Skeleton.Arena are proved to establish them;
 * the lemmas here state what they mean.
 */
module Passes {
  import opened Options
  import opened Vectors
  import opened BranchNode
  import opened NodeTree

  /** What the node at link `p` offers its children during setAge; None for no parent. */
  function AnchorOf(ns: seq<Node>, p: Option<nat>): Option<Anchor> {
    if p.Some? && p.value < |ns| then Some(Anchor(ns[p.value].pos, ns[p.value].thickness)) else None
  }

  /** Every node of the subtree has its species coefficients set, as setAge dereferences them. */
  ghost predicate HasVars(ns: seq<Node>, i: nat)
    requires Valid(ns) && i < |ns|
  {
    ns[i].vars.Some? && forall j :: 0 <= j < |ns| && j in Sub(ns, i) ==> ns[j].vars.Some?
  }

  // ---------------------------------------------------------------- setAge

  /**
   * What setAge works on: the arena, the caller's terminalNodes vector, and
   * the log of destroySelf calls.
   */
  datatype AgeState = AgeState(nodes: seq<Node>, terminals: seq<nat>, destroyed: seq<ModuleId>)

  /** The arenas have the same length, links and coefficients. */
  ghost predicate Keeps(ns1: seq<Node>, ns2: seq<Node>) {
    |ns2| == |ns1| && forall j :: 0 <= j < |ns1| ==>
      ns2[j].children == ns1[j].children && ns2[j].parent == ns1[j].parent && ns2[j].vars == ns1[j].vars
  }

  /**
   * setAge(d, terminalNodes, mature, decay) on node x, step by step as the
   * source takes it: update x from its parent, run setAge on each child in
   * order, then either push x as a terminal node or, in a decay pass, destroy
   * its modules and clear the list.
   */
  ghost function AgeNode(s: AgeState, x: nat, d: real, mature: bool, decay: bool, pow: Pow): (r: AgeState)
    requires x < |s.nodes| && s.nodes[x].vars.Some?
    ensures Keeps(s.nodes, r.nodes)
    decreases |s.nodes| - x, 1
  {
    var n := s.nodes[x];
    var s1 := s.(nodes := s.nodes[x := Grown(n, AnchorOf(s.nodes, n.parent), d, pow)]);
    Settle(AgeKids(s1, x, n.children, d, mature, decay, pow), x, mature, decay)
  }

  /**
   * The end of setAge on node x: a node without children and modules is
   * pushed as terminal when `mature`; otherwise a decay pass destroys the
   * node's modules in order and clears the list.
   */
  function Settle(s: AgeState, x: nat, mature: bool, decay: bool): (r: AgeState)
    requires x < |s.nodes|
    ensures r.terminals == s.terminals + if mature && IsTip(s.nodes[x]) then [x] else []
    ensures r.destroyed == s.destroyed + if decay then s.nodes[x].modules else []
    ensures r.nodes == s.nodes[x := s.nodes[x].(modules := if decay then [] else s.nodes[x].modules)]
  {
    var m := s.nodes[x];
    if mature && m.children == [] && m.modules == [] then s.(terminals := s.terminals + [x])
    else if decay && m.modules != [] then
      s.(destroyed := s.destroyed + m.modules, nodes := s.nodes[x := m.(modules := [])])
    else s
  }

  /**
   * The loop of setAge over `kids`, the children of x still to visit. A child
   * that the tree invariant would not allow is skipped; under Valid and
   * HasVars there is none.
   */
  ghost function AgeKids(s: AgeState, x: nat, kids: seq<nat>, d: real, mature: bool, decay: bool, pow: Pow): (r: AgeState)
    requires x < |s.nodes|
    ensures Keeps(s.nodes, r.nodes)
    decreases |s.nodes| - x, 0, |kids|
  {
    if kids == [] then s
    else
      var c := kids[0];
      var s1 := if x < c < |s.nodes| && s.nodes[c].vars.Some? then AgeNode(s, c, d, mature, decay, pow) else s;
      AgeKids(s1, x, kids[1..], d, mature, decay, pow)
  }

  /**
   * Every node of `s` took one setAge Step, reading its parent as the parent is in
   * `after`; every other node is as it was.
   */
  ghost predicate GrownOn(before: seq<Node>, after: seq<Node>, s: set<nat>, d: real, decay: bool, pow: Pow) {
    |after| == |before| && forall j :: 0 <= j < |before| ==> GrownAt(before, after, s, j, d, decay, pow)
  }

  /** Node j as GrownOn demands it. */
  ghost predicate GrownAt(before: seq<Node>, after: seq<Node>, s: set<nat>, j: nat, d: real, decay: bool, pow: Pow)
    requires j < |before| == |after|
  {
    if j in s then before[j].vars.Some? && after[j] == Step(before[j], AnchorOf(after, before[j].parent), d, decay, pow)
    else after[j] == before[j]
  }

  /**
   * `after` is `before` once setAge(d, …, decay) has run on node i: every node
   * of the subtree took one Step reading its parent as the parent is AFTER its
   * own update, and every other node is as it was.
   */
  ghost predicate GrewFrom(before: seq<Node>, after: seq<Node>, i: nat, d: real, decay: bool, pow: Pow)
    requires Valid(before) && i < |before|
  {
    GrownOn(before, after, Sub(before, i), d, decay, pow)
  }

  /**
   * Growing a set S and then a disjoint set T, where no node of S reads its
   * parent from T, grows S and T together.
   */
  lemma GrowthCompose(base: seq<Node>, pre: seq<Node>, post: seq<Node>, S: set<nat>, T: set<nat>,
                      d: real, decay: bool, pow: Pow)
    requires GrownOn(base, pre, S, d, decay, pow) && GrownOn(pre, post, T, d, decay, pow)
    requires S !! T
    requires forall j :: 0 <= j < |base| && j in S && base[j].parent.Some? ==> base[j].parent.value !in T
    ensures GrownOn(base, post, S + T, d, decay, pow)
  {
    forall j | 0 <= j < |base| ensures GrownAt(base, post, S + T, j, d, decay, pow) {
      assert GrownAt(base, pre, S, j, d, decay, pow) && GrownAt(pre, post, T, j, d, decay, pow);
      var p := base[j].parent;
      if j in S && p.Some? && p.value < |base| {
        assert GrownAt(pre, post, T, p.value, d, decay, pow);
      }
    }
  }

  /** A grown set keeps every link. */
  lemma GrownLinks(before: seq<Node>, after: seq<Node>, s: set<nat>, d: real, decay: bool, pow: Pow)
    requires GrownOn(before, after, s, d, decay, pow)
    ensures forall j :: 0 <= j < |after| ==>
              after[j].children == before[j].children && after[j].parent == before[j].parent
  {
    forall j | 0 <= j < |after|
      ensures after[j].children == before[j].children && after[j].parent == before[j].parent
    {
      assert GrownAt(before, after, s, j, d, decay, pow);
    }
  }

  /** setAge keeps the links, hence the tree invariant and the subtree. */
  lemma GrowthKeepsShape(before: seq<Node>, after: seq<Node>, i: nat, d: real, decay: bool, pow: Pow)
    requires Valid(before) && i < |before|
    requires GrewFrom(before, after, i, d, decay, pow)
    ensures Valid(after)
    ensures forall j :: 0 <= j < |after| ==>
              after[j].children == before[j].children && after[j].parent == before[j].parent
  {
    GrownLinks(before, after, Sub(before, i), d, decay, pow);
    SameLinksValid(before, after);
  }

  /**
   * The rules of setAge, node by node of the subtree: the age advances by
   * exactly d; a node without a parent keeps its position; a root segment
   * sits on its parent's updated position; an ordinary segment sits one
   * branch length (at most maxLength) out from its parent's updated position,
   * bent only vertically; module lists are emptied exactly by a decay pass.
   */
  lemma GrowthRules(before: seq<Node>, after: seq<Node>, i: nat, d: real, decay: bool, pow: Pow, j: nat)
    requires Valid(before) && i < |before|
    requires GrewFrom(before, after, i, d, decay, pow)
    requires j in Sub(before, i)
    ensures j < |after| && after[j].vars.Some? && (after[j].parent.Some? ==> after[j].parent.value < |after|)
    ensures after[j].age == before[j].age + d
    ensures after[j].modules == if decay then [] else before[j].modules
    ensures after[j].parent.None? ==> after[j].pos == before[j].pos
    ensures after[j].parent.Some? && after[j].root ==>
              after[j].pos == after[after[j].parent.value].pos
    ensures after[j].parent.Some? && !after[j].root ==>
              var p := after[after[j].parent.value];
              var v := after[j].vars.value;
              var len := BranchLength(after[j].age, after[j].maxLength, v);
              var bend := TropismOffset(after[j].age, v, pow);
              len <= after[j].maxLength && bend.x == 0.0 && bend.z == 0.0 &&
              Minus(after[j].pos, p.pos) == Scale(len, Add(after[j].dir, bend))
  {
    GrownNode(before, after, i, d, decay, pow, j);
    GrowthKeepsShape(before, after, i, d, decay, pow);
  }

  /** One node of the subtree after setAge. */
  lemma GrownNode(before: seq<Node>, after: seq<Node>, i: nat, d: real, decay: bool, pow: Pow, j: nat)
    requires Valid(before) && i < |before|
    requires GrewFrom(before, after, i, d, decay, pow)
    requires j in Sub(before, i)
    ensures j < |before| == |after| && before[j].vars.Some?
    ensures after[j] == Step(before[j], AnchorOf(after, before[j].parent), d, decay, pow)
  {
    SubFacts(before, i);
    assert GrownAt(before, after, Sub(before, i), j, d, decay, pow);
  }

  /**
   * After setAge every node of the subtree is at least MinThickness thick,
   * provided the node it started from does not inherit a thinner parent:
   * a root segment copies its parent's thickness, and every other node is
   * clamped to the floor.
   */
  lemma {:induction false} ThicknessFloor(before: seq<Node>, after: seq<Node>, i: nat, d: real, decay: bool, pow: Pow, j: nat)
    requires Valid(before) && i < |before|
    requires GrewFrom(before, after, i, d, decay, pow)
    requires before[i].root && before[i].parent.Some? ==> after[before[i].parent.value].thickness >= MinThickness
    requires j in Sub(before, i)
    ensures j < |after| && after[j].thickness >= MinThickness
    decreases j
  {
    SubFacts(before, i);
    GrownNode(before, after, i, d, decay, pow, j);
    var n := before[j];
    if j != i && n.root {
      var p := n.parent.value;
      ThicknessFloor(before, after, i, d, decay, pow, p);
    }
  }

  /** A root segment continues its parent's taper: it ends with the parent's updated thickness. */
  lemma RootSegmentThickness(before: seq<Node>, after: seq<Node>, i: nat, d: real, decay: bool, pow: Pow, j: nat)
    requires Valid(before) && i < |before|
    requires GrewFrom(before, after, i, d, decay, pow)
    requires j in Sub(before, i) && j < |before| && before[j].root && before[j].parent.Some?
    ensures j < |after| && after[j].thickness == after[before[j].parent.value].thickness
  {
    SubFacts(before, i);
    GrownNode(before, after, i, d, decay, pow, j);
  }

  // ---------------------------------------------------------------- recTransformation

  /** Every node of `s` took one recTransformation step; every other node is as it was. */
  ghost predicate RetransformedOn(before: seq<Node>, after: seq<Node>, s: set<nat>,
                                  ageDif: real, radiusMul: real, lengthMul: real, rotation: Mat3) {
    |after| == |before|
    && forall j :: 0 <= j < |before| ==> RetransformedAt(before, after, s, j, ageDif, radiusMul, lengthMul, rotation)
  }

  /** Node j as RetransformedOn demands it. */
  ghost predicate RetransformedAt(before: seq<Node>, after: seq<Node>, s: set<nat>, j: nat,
                                  ageDif: real, radiusMul: real, lengthMul: real, rotation: Mat3)
    requires j < |before| == |after|
  {
    after[j] == if j in s then Retransformed(before[j], ageDif, radiusMul, lengthMul, rotation) else before[j]
  }

  /**
   * `after` is `before` once recTransformation(ageDif, radiusMul, lengthMul,
   * rotation) has run on node i: the same update at every node of the
   * subtree, nothing else changed.
   */
  ghost predicate RetransformedFrom(before: seq<Node>, after: seq<Node>, i: nat,
                                    ageDif: real, radiusMul: real, lengthMul: real, rotation: Mat3)
    requires Valid(before) && i < |before|
  {
    RetransformedOn(before, after, Sub(before, i), ageDif, radiusMul, lengthMul, rotation)
  }

  /** Transforming a set S and then a disjoint set T transforms S and T together. */
  lemma RetransformCompose(before: seq<Node>, pre: seq<Node>, post: seq<Node>, S: set<nat>, T: set<nat>,
                           ageDif: real, radiusMul: real, lengthMul: real, rotation: Mat3)
    requires RetransformedOn(before, pre, S, ageDif, radiusMul, lengthMul, rotation)
    requires RetransformedOn(pre, post, T, ageDif, radiusMul, lengthMul, rotation)
    requires S !! T
    ensures RetransformedOn(before, post, S + T, ageDif, radiusMul, lengthMul, rotation)
  {
    forall j | 0 <= j < |before| ensures RetransformedAt(before, post, S + T, j, ageDif, radiusMul, lengthMul, rotation) {
      assert RetransformedAt(before, pre, S, j, ageDif, radiusMul, lengthMul, rotation);
      assert RetransformedAt(pre, post, T, j, ageDif, radiusMul, lengthMul, rotation);
    }
  }

  /** A transformed set keeps every link and every module list. */
  lemma RetransformedLinks(before: seq<Node>, after: seq<Node>, s: set<nat>,
                           ageDif: real, radiusMul: real, lengthMul: real, rotation: Mat3)
    requires RetransformedOn(before, after, s, ageDif, radiusMul, lengthMul, rotation)
    ensures forall j :: 0 <= j < |after| ==>
              after[j].children == before[j].children && after[j].parent == before[j].parent
              && after[j].modules == before[j].modules
  {
    forall j | 0 <= j < |after|
      ensures after[j].children == before[j].children && after[j].parent == before[j].parent
              && after[j].modules == before[j].modules
    {
      assert RetransformedAt(before, after, s, j, ageDif, radiusMul, lengthMul, rotation);
    }
  }

  /** recTransformation keeps the tree, the subtree and what a later setAge collects from it. */
  lemma RetransformKeepsShape(before: seq<Node>, after: seq<Node>, i: nat,
                              ageDif: real, radiusMul: real, lengthMul: real, rotation: Mat3)
    requires Valid(before) && i < |before|
    requires RetransformedFrom(before, after, i, ageDif, radiusMul, lengthMul, rotation)
    ensures Valid(after) && Sub(after, i) == Sub(before, i)
    ensures Leaves(after, i) == Leaves(before, i) && Mods(after, i) == Mods(before, i)
  {
    RetransformedLinks(before, after, Sub(before, i), ageDif, radiusMul, lengthMul, rotation);
    SameLinksValid(before, after);
    Frame(before, after, i);
  }

  // ---------------------------------------------------------------- deepCopy

  /** `c` is the copy-constructed image of `s`, whatever links it has been given since. */
  predicate CopyOf(c: Node, s: Node) {
    c == Copy(s).(parent := c.parent, children := c.children)
  }

  /**
   * deepCopy(par) on node i after the copy of its first k children: the old
   * nodes are untouched, and m maps i and the subtrees of those children onto
   * the new nodes, as many keys as new nodes (so one to one, by
   * OntoIsOneToOne), r being the image of i. The copy of i has `par` as
   * parent and the images of those k children as children.
   */
  ghost predicate CopyingKids(before: seq<Node>, after: seq<Node>, i: nat, par: Option<nat>, r: nat,
                              m: map<nat, nat>, k: nat)
    requires Valid(before) && i < |before| && k <= |before[i].children|
  {
    i in m && m.Keys == {i} + SubKids(before, i, k) && CopyingLinks(before, after, i, par, r, m, k)
  }

  /** CopyingKids without saying which nodes have been copied so far. */
  ghost predicate CopyingLinks(before: seq<Node>, after: seq<Node>, i: nat, par: Option<nat>, r: nat,
                               m: map<nat, nat>, k: nat)
    requires Valid(before) && i < |before| && k <= |before[i].children|
  {
    |before| < |after| && after[..|before|] == before && r == |before| && i in m && m[i] == r
    && |m.Keys| == |after| - |before|
    && (forall q :: |before| <= q < |after| ==> q in m.Values)
    && after[r].parent == par && |after[r].children| == k
    && (forall t :: 0 <= t < k ==> before[i].children[t] in m && after[r].children[t] == m[before[i].children[t]])
    && (forall j :: j in m ==> CopiedAt(before, after, i, m, j))
  }

  /**
   * The image of node j is a new node and a copy of j; unless j is the top
   * node i, its parent is the image of j's parent and its children are the
   * images of j's children, in the same order.
   */
  ghost predicate CopiedAt(before: seq<Node>, after: seq<Node>, i: nat, m: map<nat, nat>, j: nat)
    requires j in m
  {
    j < |before| && |before| <= m[j] < |after| && CopyOf(after[m[j]], before[j])
    && (j != i ==>
          before[j].parent.Some? && before[j].parent.value in m
          && after[m[j]].parent == Some(m[before[j].parent.value])
          && |after[m[j]].children| == |before[j].children|
          && forall t :: 0 <= t < |before[j].children| ==>
               before[j].children[t] in m && after[m[j]].children[t] == m[before[j].children[t]])
  }

  /** `after` is `before` once deepCopy(par) has run on node i and returned r. */
  ghost predicate CopiedFrom(before: seq<Node>, after: seq<Node>, i: nat, par: Option<nat>, r: nat, m: map<nat, nat>)
    requires Valid(before) && i < |before|
  {
    CopyingKids(before, after, i, par, r, m, |before[i].children|)
  }

  /**
   * Every node of the subtree is copied to a node of its own: m reaches all
   * the new nodes and has as many keys as there are new nodes.
   */
  lemma CopyOneToOne(before: seq<Node>, after: seq<Node>, i: nat, par: Option<nat>, r: nat, m: map<nat, nat>)
    requires Valid(before) && i < |before|
    requires CopiedFrom(before, after, i, par, r, m)
    ensures forall j1, j2 :: j1 in m && j2 in m && j1 != j2 ==> m[j1] != m[j2]
  {
    OntoIsOneToOne(m, |before|, |after|);
  }

  /** A map whose values include a range of as many numbers as it has keys is one to one. */
  lemma OntoIsOneToOne(m: map<nat, nat>, lo: nat, hi: nat)
    requires forall q :: lo <= q < hi ==> q in m.Values
    requires |m.Keys| == hi - lo
    ensures forall j1, j2 :: j1 in m && j2 in m && j1 != j2 ==> m[j1] != m[j2]
  {
    forall j1, j2 | j1 in m && j2 in m && j1 != j2 ensures m[j1] != m[j2] {
      if m[j1] == m[j2] {
        var rest := m - {j2};
        assert rest.Keys == m.Keys - {j2};
        var range := Range(lo, hi);
        RangeCard(lo, hi);
        forall q | q in range ensures q in rest.Values {
          assert q in m.Values;
          var j :| j in m && m[j] == q;
          if j == j2 {
            assert rest[j1] == q;
          } else {
            assert rest[j] == q;
          }
        }
        SubsetCard(range, rest.Values);
        ValuesCard(rest);
        assert false;
      }
    }
  }

  /** A map has no more values than keys. */
  lemma ValuesCard(m: map<nat, nat>)
    ensures |m.Values| <= |m.Keys|
    decreases |m.Keys|
  {
    if m.Keys != {} {
      var j :| j in m.Keys;
      var rest := m - {j};
      assert rest.Keys == m.Keys - {j};
      ValuesCard(rest);
      assert m.Values <= rest.Values + {m[j]} by {
        forall q | q in m.Values ensures q in rest.Values + {m[j]} {
          var x :| x in m && m[x] == q;
          if x != j {
            assert rest[x] == q;
          }
        }
      }
      SubsetCard(m.Values, rest.Values + {m[j]});
    }
  }

  /** The numbers from lo up to hi. */
  ghost function Range(lo: nat, hi: nat): set<nat>
    decreases hi - lo
  {
    if lo < hi then {lo} + Range(lo + 1, hi) else {}
  }

  lemma {:induction false} RangeCard(lo: nat, hi: nat)
    ensures forall q :: q in Range(lo, hi) <==> lo <= q < hi
    ensures lo <= hi ==> |Range(lo, hi)| == hi - lo
    decreases hi - lo
  {
    if lo < hi {
      RangeCard(lo + 1, hi);
    }
  }

  lemma SubsetCard(a: set<nat>, b: set<nat>)
    requires a <= b
    ensures |a| <= |b|
  {
    assert b == a + (b - a);
  }

  /**
   * The copy of a subtree has the same shape: every copy has as many
   * children as its original, the t-th child of a copy is the copy of the
   * t-th child, and its parent is the copy of the original's parent.
   * The copies carry no modules and have their base radius as thickness.
   */
  lemma CopyShape(before: seq<Node>, after: seq<Node>, i: nat, par: Option<nat>, r: nat, m: map<nat, nat>, j: nat)
    requires Valid(before) && i < |before|
    requires CopiedFrom(before, after, i, par, r, m)
    requires j in Sub(before, i)
    ensures j < |before| && m[j] < |after|
    ensures var c := after[m[j]];
            c.modules == [] && c.thickness == before[j].baseRadius && c.pos == before[j].pos
            && c.dir == before[j].dir && c.age == before[j].age && c.maxLength == before[j].maxLength
            && c.baseRadius == before[j].baseRadius && c.rigIndex == before[j].rigIndex
            && c.vars == before[j].vars && c.root == before[j].root
            && |c.children| == |before[j].children|
            && (forall t :: 0 <= t < |c.children| ==> c.children[t] == m[before[j].children[t]])
    ensures j != i ==> after[m[j]].parent == Some(m[before[j].parent.value])
  {
    assert j in m && CopiedAt(before, after, i, m, j);
    var c := after[m[j]];
    assert CopyOf(c, before[j]);
  }
}
