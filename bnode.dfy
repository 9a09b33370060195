/**
 * One node of the plant skeleton (BNode) as a value, with the per-node rules
 * of its constructors, its copy constructor, one step of setAge and one step
 * of recTransformation. The links `parent` and `children` are indices into
 * the arena of module Skeleton, which stands in for the shared pointers.
 */
module BranchNode {
  import opened Options
  import opened Vectors

  /** An attached SOP_Branch module; the node only ever tells it to destroy itself. */
  type ModuleId = nat

  /** The species coefficients read by setAge: getBeta, getG1, getG2 and getTC. */
  datatype PlantVars = PlantVars(beta: real, g1: real, g2: real, tc: real)

  datatype Node = Node(
    pos: Vec3,
    dir: Vec3,
    age: real,
    maxLength: real,
    thickness: real,
    baseRadius: real,
    root: bool,
    rigIndex: int,
    vars: Option<PlantVars>,
    parent: Option<nat>,
    children: seq<nat>,
    modules: seq<ModuleId>)

  /** What a child reads from its parent during setAge: getPos and getThickness. */
  datatype Anchor = Anchor(pos: Vec3, thickness: real)

  /** pow(base, exponent) of the C library, left uninterpreted. */
  type Pow = (real, real) -> real

  /** UT_Vector3::normalize, left uninterpreted. */
  type Normalize = Vec3 -> Vec3

  const DefaultMaxLength: real := 3.0
  const DefaultThickness: real := 0.1
  const NoRigIndex: int := -1
  /** Squared length below which a (start, end) pair counts as degenerate. */
  const DegenerateLength2: real := 0.000001
  /** The floor on a grown node's thickness. */
  const MinThickness: real := 0.015
  /** The floor on the divisor of the tropism offset. */
  const MinTropismDivisor: real := 0.05
  /** The base of the tropism decay pow(0.95, age * g1). */
  const TropismBase: real := 0.95
  /** The gravity direction of the tropism offset. */
  const Gravity: Vec3 := Vec3(0.0, -1.0, 0.0)

  function Min(a: real, b: real): real { if b < a then b else a }
  function Max(a: real, b: real): real { if a < b then b else a }

  /** A node that no other node links to and that links to nothing, as each constructor leaves it. */
  predicate Detached(n: Node) {
    n.parent == None && n.children == [] && n.modules == []
  }

  // ---------------------------------------------------------------- constructors

  /**
   * BNode(): the default constructor. It leaves unitDir, baseRadius and root
   * uninitialised; whatever they hold is passed in as `dir`, `radius` and `isRoot`.
   */
  function Default(dir: Vec3, radius: real, isRoot: bool): (n: Node)
    ensures Detached(n)
    ensures n.pos == Zero && n.age == 0.0
    ensures n.maxLength == DefaultMaxLength && n.thickness == DefaultThickness
    ensures n.rigIndex == NoRigIndex && n.vars == None
  {
    Node(Zero, dir, 0.0, DefaultMaxLength, DefaultThickness, radius, isRoot, NoRigIndex, None, None, [], [])
  }

  /** BNode(pos, dir, age, length, thick, isRoot): the direction is normalised. */
  function Make(pos: Vec3, dir: Vec3, branchAge: real, length: real, thick: real, isRoot: bool,
                normalize: Normalize): (n: Node)
    ensures Detached(n)
    ensures n.pos == pos && n.dir == normalize(dir) && n.age == branchAge && n.maxLength == length
    ensures n.thickness == thick && n.baseRadius == thick && n.root == isRoot
    ensures n.rigIndex == NoRigIndex && n.vars == None
  {
    Node(pos, normalize(dir), branchAge, length, thick, thick, isRoot, NoRigIndex, None, None, [], [])
  }

  /** The direction from `start` to `end`, or Up when the two points (nearly) coincide. */
  function SegmentDirection(start: Vec3, end: Vec3): (d: Vec3)
    ensures LengthSquared(Minus(end, start)) < DegenerateLength2 ==> d == Up
    ensures LengthSquared(Minus(end, start)) >= DegenerateLength2 ==> d == Minus(end, start)
    ensures LengthSquared(d) >= DegenerateLength2 || d == Up
  {
    var d := Minus(end, start);
    if LengthSquared(d) < DegenerateLength2 then Up else d
  }

  /** BNode(start, end, age, length, thick, isRoot): the node sits at `end`. */
  function FromEndpoints(start: Vec3, end: Vec3, branchAge: real, length: real, thick: real, isRoot: bool,
                         normalize: Normalize): (n: Node)
    ensures Detached(n)
    ensures n.pos == end && n.dir == normalize(SegmentDirection(start, end))
    ensures n.age == branchAge && n.maxLength == length
    ensures n.thickness == thick && n.baseRadius == thick && n.root == isRoot
    ensures n.rigIndex == NoRigIndex && n.vars == None
  {
    Node(end, normalize(SegmentDirection(start, end)), branchAge, length, thick, thick, isRoot,
         NoRigIndex, None, None, [], [])
  }

  /** Coincident endpoints give the normalised up direction, wherever they are. */
  lemma DegenerateEndpoints(p: Vec3, q: Vec3, age: real, length: real, thick: real, isRoot: bool,
                            normalize: Normalize)
    requires LengthSquared(Minus(q, p)) < DegenerateLength2
    ensures FromEndpoints(p, q, age, length, thick, isRoot, normalize).dir == normalize(Up)
  {
  }

  /**
   * BNode(BNode* other): the copy constructor. It copies the scalar state,
   * takes the thickness from the source's base radius, and starts with no links.
   */
  function Copy(s: Node): (c: Node)
    ensures Detached(c)
    ensures c.pos == s.pos && c.dir == s.dir && c.age == s.age && c.maxLength == s.maxLength
    ensures c.baseRadius == s.baseRadius && c.thickness == s.baseRadius
    ensures c.rigIndex == s.rigIndex && c.vars == s.vars && c.root == s.root
  {
    Node(s.pos, s.dir, s.age, s.maxLength, s.baseRadius, s.baseRadius, s.root, s.rigIndex, s.vars,
         None, [], [])
  }

  // ---------------------------------------------------------------- setAge, one node

  /** The grown length of a segment: its age times the species rate, capped by maxLength. */
  function BranchLength(age: real, maxLength: real, v: PlantVars): (len: real)
    ensures len <= maxLength && len <= age * v.beta
    ensures len == maxLength || len == age * v.beta
  {
    Min(maxLength, age * v.beta)
  }

  /** g1 = pow(0.95, age * G1): the tropism weight, which decays as the branch ages. */
  function TropismDecay(age: real, v: PlantVars, pow: Pow): real {
    pow(TropismBase, age * v.g1)
  }

  /** The gravity-tropism offset per unit of branch length. */
  function TropismOffset(age: real, v: PlantVars, pow: Pow): (o: Vec3)
    ensures o.x == 0.0 && o.z == 0.0
  {
    var g1 := TropismDecay(age, v, pow);
    var g2 := -v.g2;
    Div(Scale(g1 * g2, Gravity), Max(age + g1, MinTropismDivisor))
  }

  /**
   * The vertical tropism component is pow(0.95, age * g1) * G2 over the
   * clamped divisor: the two negations (of G2 and of the gravity vector)
   * cancel, so it has the sign of g1 * G2.
   */
  lemma TropismSign(age: real, v: PlantVars, pow: Pow)
    ensures var g1 := TropismDecay(age, v, pow);
            var o := TropismOffset(age, v, pow);
            (g1 * v.g2 > 0.0 ==> o.y > 0.0) && (g1 * v.g2 < 0.0 ==> o.y < 0.0) && (g1 * v.g2 == 0.0 ==> o.y == 0.0)
  {
    var g1 := TropismDecay(age, v, pow);
    var m := Max(age + g1, MinTropismDivisor);
    assert TropismOffset(age, v, pow).y == ((g1 * -v.g2) * -1.0) / m;
    assert (g1 * -v.g2) * -1.0 == g1 * v.g2;
    assert m > 0.0;
  }

  /** The position an ordinary segment grows to from its parent's updated position. */
  function GrownPos(parentPos: Vec3, age: real, n: Node, v: PlantVars, pow: Pow): Vec3 {
    var len := BranchLength(age, n.maxLength, v);
    Add(Add(parentPos, Scale(len, n.dir)), Scale(len, TropismOffset(age, v, pow)))
  }

  /**
   * The update setAge makes to a node before it visits the children: `parent`
   * is what the node reads from its parent after the parent was updated (None
   * when it has no parent).
   */
  function Grown(n: Node, parent: Option<Anchor>, d: real, pow: Pow): (r: Node)
    requires n.vars.Some?
    ensures r.age == n.age + d
    ensures r.dir == n.dir && r.maxLength == n.maxLength && r.baseRadius == n.baseRadius
    ensures r.root == n.root && r.rigIndex == n.rigIndex && r.vars == n.vars
    ensures r.parent == n.parent && r.children == n.children && r.modules == n.modules
    ensures parent.None? ==> r.pos == n.pos
    ensures parent.Some? && n.root ==> r.pos == parent.value.pos && r.thickness == parent.value.thickness
    ensures parent.Some? && !n.root ==>
              var len := BranchLength(r.age, n.maxLength, n.vars.value);
              Minus(r.pos, parent.value.pos) == Scale(len, Add(n.dir, TropismOffset(r.age, n.vars.value, pow)))
    ensures !(parent.Some? && n.root) ==>
              r.thickness == Max(MinThickness, r.age * n.baseRadius * n.vars.value.tc) && r.thickness >= MinThickness
  {
    var v := n.vars.value;
    var age := n.age + d;
    var pos := match parent
      case None => n.pos
      case Some(p) => if n.root then p.pos else GrownPos(p.pos, age, n, v, pow);
    var thickness := if parent.Some? && n.root then parent.value.thickness
                     else Max(MinThickness, age * n.baseRadius * v.tc);
    n.(age := age, pos := pos, thickness := thickness)
  }

  /** One node of setAge(d, terminalNodes, mature, decay): Grown, and a decay pass clears the module list. */
  function Step(n: Node, parent: Option<Anchor>, d: real, decay: bool, pow: Pow): (r: Node)
    requires n.vars.Some?
    ensures r == Grown(n, parent, d, pow).(modules := r.modules)
    ensures r.modules == if decay then [] else n.modules
  {
    Grown(n, parent, d, pow).(modules := if decay then [] else n.modules)
  }

  // ---------------------------------------------------------------- recTransformation, one node

  /** One node of recTransformation(ageDif, radiusMultiplier, lengthMultiplier, rotation). */
  function Retransformed(n: Node, ageDif: real, radiusMul: real, lengthMul: real, rotation: Mat3): (t: Node)
    ensures t.age == n.age + ageDif && t.baseRadius == n.baseRadius * radiusMul
    ensures t.maxLength == n.maxLength * lengthMul && t.dir == RowVecMult(n.dir, rotation)
    ensures t.pos == n.pos && t.thickness == n.thickness
    ensures t.root == n.root && t.rigIndex == n.rigIndex && t.vars == n.vars
    ensures t.parent == n.parent && t.children == n.children && t.modules == n.modules
  {
    n.(age := n.age + ageDif, baseRadius := n.baseRadius * radiusMul,
       maxLength := n.maxLength * lengthMul, dir := RowVecMult(n.dir, rotation))
  }
}
