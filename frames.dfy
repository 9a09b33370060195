/**
 * BNode::getWorldTransform: the rotation and the translation a node of the
 * skeleton hands to the rig. The rotation is the dihedral rotation taking the
 * up axis onto a direction chosen from the node and up to three ancestors;
 * the translation is the node's own position. The rotation matrix itself is
 * kept symbolic.
 */
module Frames {
  import opened Options
  import opened Vectors
  import opened BranchNode
  import opened NodeTree
  import opened Passes

  /** UT_Matrix3::dihedral(from, onto, …): the rotation taking `from` onto `onto`. */
  datatype Rotation = Dihedral(from: Vec3, onto: Vec3)

  /** The 4x4 world transform: a rotation, then the translation set by setTranslates. */
  datatype Transform = Transform(rotation: Rotation, translate: Vec3)

  /**
   * The direction a root segment takes from its parent p: the parent's own
   * segment when p is an ordinary node with a parent; when p is itself a root
   * segment with two ancestors, the segment from the great-grandparent (the
   * grandparent is the terminal node at the same place as p); otherwise p's dir.
   */
  function ParentDirection(ns: seq<Node>, p: nat): (d: Vec3)
    requires Valid(ns) && p < |ns|
    ensures !ns[p].root && ns[p].parent.Some? ==> d == Minus(ns[p].pos, ns[ns[p].parent.value].pos)
    ensures ns[p].root && ns[p].parent.Some? && ns[ns[p].parent.value].parent.Some? ==>
              d == Minus(ns[p].pos, ns[ns[ns[p].parent.value].parent.value].pos)
    ensures ns[p].parent.None? || (ns[p].root && ns[ns[p].parent.value].parent.None?) ==> d == ns[p].dir
  {
    var n := ns[p];
    if !n.root && n.parent.Some? then Minus(n.pos, ns[n.parent.value].pos)
    else if n.root && n.parent.Some? && ns[n.parent.value].parent.Some? then
      Minus(n.pos, ns[ns[n.parent.value].parent.value].pos)
    else n.dir
  }

  /**
   * The world transform of node i: the up axis is rotated onto the node's dir
   * when it has no parent, onto ParentDirection for a root segment, and onto
   * the segment from its parent for an ordinary node; it is translated to the
   * node's position in every case.
   */
  function WorldTransform(ns: seq<Node>, i: nat): (t: Transform)
    requires Valid(ns) && i < |ns|
    ensures t.translate == ns[i].pos && t.rotation.from == Up
    ensures ns[i].parent.None? ==> t.rotation.onto == ns[i].dir
    ensures ns[i].parent.Some? && ns[i].root ==> t.rotation.onto == ParentDirection(ns, ns[i].parent.value)
    ensures ns[i].parent.Some? && !ns[i].root ==> t.rotation.onto == Minus(ns[i].pos, ns[ns[i].parent.value].pos)
  {
    var n := ns[i];
    var onto := match n.parent
      case None => n.dir
      case Some(p) => if n.root then ParentDirection(ns, p) else Minus(n.pos, ns[p].pos);
    Transform(Dihedral(Up, onto), n.pos)
  }

  /**
   * After setAge, an ordinary node of the subtree is rotated onto its grown
   * segment, one branch length along dir bent by the tropism offset; a root
   * segment is translated to its parent's position; a node without a parent
   * keeps the transform it had.
   */
  lemma GrownFrame(before: seq<Node>, after: seq<Node>, i: nat, d: real, decay: bool, pow: Pow, j: nat)
    requires Valid(before) && i < |before|
    requires GrewFrom(before, after, i, d, decay, pow)
    requires j in Sub(before, i)
    ensures Valid(after) && j < |after| == |before| && after[j].vars.Some?
    ensures after[j].parent.Some? && !after[j].root ==>
              var v := after[j].vars.value;
              var len := BranchLength(after[j].age, after[j].maxLength, v);
              WorldTransform(after, j).rotation.onto
                == Scale(len, Add(after[j].dir, TropismOffset(after[j].age, v, pow)))
    ensures after[j].parent.Some? && after[j].root ==>
              WorldTransform(after, j).translate == after[after[j].parent.value].pos
    ensures after[j].parent.None? ==> WorldTransform(after, j) == WorldTransform(before, j)
  {
    GrowthKeepsShape(before, after, i, d, decay, pow);
    GrowthRules(before, after, i, d, decay, pow, j);
    GrownNode(before, after, i, d, decay, pow, j);
  }

  /**
   * recTransformation moves no node: every translation stays, an ordinary
   * node keeps its whole transform, and a node of the subtree without a
   * parent is rotated onto its rotated dir.
   */
  lemma RetransformedFrame(before: seq<Node>, after: seq<Node>, i: nat,
                           ageDif: real, radiusMul: real, lengthMul: real, rotation: Mat3, j: nat)
    requires Valid(before) && i < |before|
    requires RetransformedFrom(before, after, i, ageDif, radiusMul, lengthMul, rotation)
    requires j < |before|
    ensures Valid(after) && j < |after|
    ensures WorldTransform(after, j).translate == WorldTransform(before, j).translate
    ensures before[j].parent.Some? && !before[j].root ==> WorldTransform(after, j) == WorldTransform(before, j)
    ensures j in Sub(before, i) && before[j].parent.None? ==>
              WorldTransform(after, j).rotation.onto == RowVecMult(before[j].dir, rotation)
  {
    RetransformKeepsShape(before, after, i, ageDif, radiusMul, lengthMul, rotation);
    assert RetransformedAt(before, after, Sub(before, i), j, ageDif, radiusMul, lengthMul, rotation);
    if before[j].parent.Some? {
      var p := before[j].parent.value;
      assert RetransformedAt(before, after, Sub(before, i), p, ageDif, radiusMul, lengthMul, rotation);
    }
  }

  /**
   * deepCopy places every copy where its original is, and below the top
   * copy an ordinary node's copy has the original's whole transform.
   */
  lemma CopiedFrame(before: seq<Node>, after: seq<Node>, i: nat, par: Option<nat>, r: nat, m: map<nat, nat>, j: nat)
    requires Valid(before) && i < |before| && Valid(after)
    requires CopiedFrom(before, after, i, par, r, m)
    requires j in Sub(before, i)
    ensures j < |before| && j in m && m[j] < |after|
    ensures WorldTransform(after, m[j]).translate == WorldTransform(before, j).translate
    ensures j != i && !before[j].root ==> WorldTransform(after, m[j]) == WorldTransform(before, j)
  {
    CopyShape(before, after, i, par, r, m, j);
    if j != i && !before[j].root {
      assert CopiedAt(before, after, i, m, j);
      var p := before[j].parent.value;
      assert p in m;
      assert p in Sub(before, i);
      CopyShape(before, after, i, par, r, m, p);
    }
  }
}
