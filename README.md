# EcosystemCreator plant skeleton and age clock, in Dafny

This project models the core of EcosystemCreator's procedural plants.

The first part is the branch-node tree of `BNode.cpp`. Each `BNode` is one segment of a plant skeleton. It has:
- a position, a unit direction, an age, a maximum length, a thickness and a base radius;
- a root-segment flag, a rig index and a pointer to the species coefficients;
- an optional parent, an ordered list of children, and a list of attached `SOP_Branch` modules.

The model covers:
- the constructors and the copy constructor;
- the destructor;
- the setters;
- `deepCopy`;
- the aging pass `setAge`;
- the bulk rescale and rotation `recTransformation`;
- the frame selection of `getWorldTransform`.

The second part is the age clock of `SOP_Plant.C`:
- a plant is born at an ecosystem time;
- it ages at its species' growth rate, capped at the species' maximum age;
- `getChangeInAge` reports how much a cook ages it.

Layout:
- `options.dfy`: the `Option` type.
- `vectors.dfy`: `UT_Vector3` and `UT_Matrix3` over the reals, and `rowVecMult`.
- `bnode.dfy` (module `BranchNode`): one node as a value.
  - The constructors.
  - The rules of one `setAge` step: branch length, tropism offset, position and thickness.
  - One `recTransformation` step.
- `tree.dfy` (module `NodeTree`): the tree invariant `Valid` of an arena of nodes.
  - The subtree of a node, `Sub`.
  - Its post-order terminal nodes, `Leaves`, and its post-order attached modules, `Mods`.
  - The structural lemmas about these.
- `passes.dfy` (module `Passes`): what the three recursive passes do to an arena.
  - setAge is specified by the functions `AgeNode`, `AgeKids` and `Settle`. They act on the nodes, the caller's `terminalNodes` vector and the log of `destroySelf` calls. The per-node predicate behind them is `GrewFrom`.
  - recTransformation is specified by `RetransformedFrom`.
  - deepCopy is specified by `CopiedFrom`.
- `arena.dfy` (module `Skeleton`): class `Arena`, which holds the nodes as a sequence indexed by node id.
  - Its methods are the source's in-place operations, with their loops over `children`.
  - Each method is proved against the specification in `Passes`.
  - The lemmas after the class carry those proofs.
- `frames.dfy` (module `Frames`): `getWorldTransform`, and what it gives after each pass.
- `plant.dfy` (module `PlantClock`): the age clock.
  - Functions for `calcWeightedAge`, the cook's clamp and `getChangeInAge`.
  - Class `Plant`, with the fields the clock assigns.

Shared pointers are replaced by indices into the arena:
- A node's id is its position in `Arena.nodes`.
- The tree invariant `NodeTree.Valid` says that every child of node i has a larger id than i and links back to i.
- It also says that no children list repeats an entry, and that every parent has a smaller id than its child.
- An `SOP_Branch` module is a `ModuleId`. Its `destroySelf` is recorded by appending the id to `Arena.destroyed`.

Inputs from outside the model become parameters:
- `pow` and `normalize` are function-valued parameters.
- `UT_Matrix3::dihedral` is kept as the symbolic `Frames.Rotation`.
- For the clock, the ecosystem's age, the species' growth rate and its maximum age are passed in.

Some notes on the code as written:
- **Copy-constructed thickness.** The copy constructor (`BNode.cpp:12-18`) gives the copy the source's *base radius* as thickness. It does not copy the current thickness. The model follows that code.
- **Tropism sign.** The tropism offset is `(g1 * -G2 * (0, -1, 0)) / max(age + g1, 0.05)`. The two negations cancel, so the vertical component has the sign of `g1 * G2`. A positive G2 bends a branch upwards (`BranchNode.TropismSign`).
- **setAge is not idempotent.** `setAge(0, …)` recomputes every position and thickness from the age. It leaves them unchanged only when they already agree with those formulas. No lemma claims otherwise.
- **Thickness floor.** Every node setAge visits ends at least 0.015 thick (`Passes.ThicknessFloor`), with one exception. When the starting node is a root segment, it copies its parent's thickness, and that parent is outside the pass. So the lemma requires that this parent already meets the floor.
- **Each node is visited once, parents first.** Each node of the subtree takes exactly one step of the rule. That step reads the parent's position and thickness after the parent's own step (`Passes.GrownNode`).

## Model

| member | source | states |
|---|---|---|
| BranchNode.Default | EcosystemCreator/BNode.cpp:7-10 | the default node is at the origin with age 0, maximum length 3, thickness 0.1, rig index -1, no species coefficients and no links; its direction, base radius and root flag are whatever the caller supplies |
| BranchNode.Make | EcosystemCreator/BNode.cpp:20-27 | the (pos, dir, age, length, thick, isRoot) constructor keeps its arguments, normalises the direction, and sets base radius = thickness = thick with no links and rig index -1 |
| BranchNode.SegmentDirection | EcosystemCreator/BNode.cpp:39-47 | the segment direction is up (0,1,0) when end - start has squared length below 0.000001, and end - start otherwise |
| BranchNode.FromEndpoints | EcosystemCreator/BNode.cpp:29-49 | the (start, end, …) constructor puts the node at `end`, with the normalised segment direction and the scalar arguments, and no links |
| BranchNode.DegenerateEndpoints | EcosystemCreator/BNode.cpp:43-48 | coincident endpoints give the normalised up direction wherever they are |
| BranchNode.Copy | EcosystemCreator/BNode.cpp:12-18 | a copy has the original's position, direction, age, maximum length, base radius, rig index, coefficients and root flag, its base radius as thickness, and no parent, children or modules |
| BranchNode.BranchLength | EcosystemCreator/BNode.cpp:103 | the grown length never exceeds maxLength or age * beta and equals one of them |
| BranchNode.TropismOffset | EcosystemCreator/BNode.cpp:107-112 | the tropism offset has zero x and z components |
| BranchNode.TropismSign | EcosystemCreator/BNode.cpp:108-112 | the vertical tropism component is positive, negative or zero exactly as g1 * G2 is |
| BranchNode.Grown | EcosystemCreator/BNode.cpp:96-121 | one node of setAge: the age grows by d; without a parent the position stays; a root segment takes its parent's updated position and thickness; an ordinary segment sits L * (dir + offset) from its parent's updated position with L = min(maxLength, age * beta); every other thickness is max(0.015, age * baseRadius * TC), hence at least 0.015; direction, radii, flags and links are unchanged |
| BranchNode.Step | EcosystemCreator/BNode.cpp:96-137 | a node's own step of setAge is Grown, and its module list ends empty exactly in a decay pass |
| BranchNode.Retransformed | EcosystemCreator/BNode.cpp:236-239 | one node of recTransformation adds ageDif to the age, multiplies baseRadius and maxLength, rotates the direction by rowVecMult, and changes nothing else |
| NodeTree.LeavesAreTips | EcosystemCreator/BNode.cpp:124-130 | the post-order terminal list of a subtree holds exactly its nodes with no children and no modules, each once |
| NodeTree.ModsAreAttached | EcosystemCreator/BNode.cpp:128-137 | a module is in the post-order module list of a subtree exactly when it is attached to a node of the subtree |
| Passes.AgeNode | EcosystemCreator/BNode.cpp:94-138 | the pass changes no node's links or coefficients and keeps the arena's size |
| Passes.AgeKids | EcosystemCreator/BNode.cpp:124-126 | the loop over the children changes no node's links or coefficients |
| Passes.Settle | EcosystemCreator/BNode.cpp:128-137 | after its children, a node is appended to terminalNodes exactly when mature and it has no children and no modules; in a decay pass its modules are appended to the destroy log and its list is cleared; otherwise nothing changes |
| Passes.GrowthKeepsShape | EcosystemCreator/BNode.cpp:94-138 | setAge changes no parent or children link, so the tree invariant holds afterwards |
| Passes.GrowthRules | EcosystemCreator/BNode.cpp:96-137 | at every node of the subtree after setAge: the age grew by exactly d; with no parent the position is unchanged; a root segment sits on its parent's updated position; an ordinary segment sits L * (dir + offset) from its parent's updated position with L <= maxLength and the offset vertical; the module list is empty in a decay pass and untouched otherwise |
| Passes.GrownNode | EcosystemCreator/BNode.cpp:94-126 | every node of the subtree took exactly one step, reading its parent's state after the parent's own step |
| Passes.ThicknessFloor | EcosystemCreator/BNode.cpp:118-121 | after setAge every node of the subtree is at least 0.015 thick, provided a root-segment start inherits from a parent that is |
| Passes.RootSegmentThickness | EcosystemCreator/BNode.cpp:121 | a root segment with a parent ends with exactly its parent's updated thickness |
| Passes.RetransformKeepsShape | EcosystemCreator/BNode.cpp:234-245 | recTransformation keeps the tree invariant, the subtree, its terminal nodes and its modules |
| Passes.CopyShape | EcosystemCreator/BNode.cpp:63-72 | every node of the copied subtree has a copy with the same scalar state, its base radius as thickness, no modules, as many children, the t-th being the copy of the t-th child, and below the top the copy of its parent as parent |
| Skeleton.AgeNodeShape | EcosystemCreator/BNode.cpp:94-126 | the setAge specification grows exactly the subtree by the per-node rule and keeps the tree invariant |
| Skeleton.AgeNodeCollects | EcosystemCreator/BNode.cpp:124-137 | setAge keeps the entries already in terminalNodes and appends the subtree's terminal nodes in post-order when mature, nothing otherwise; a decay pass destroys every module attached in the subtree once, in post-order, and no other pass destroys any |
| Skeleton.Arena.SetParent | EcosystemCreator/BNode.cpp:75-78 | only the node's parent link changes |
| Skeleton.Arena.SetPlantVars | EcosystemCreator/BNode.cpp:80-82 | only the node's coefficients change |
| Skeleton.Arena.SetRigIndex | EcosystemCreator/BNode.cpp:192-195 | only the node's rig index changes |
| Skeleton.Arena.AddChild | EcosystemCreator/BNode.cpp:84-87 | the child is appended at the end of the parent's children and nothing else changes |
| Skeleton.Arena.AddModuleChild | EcosystemCreator/BNode.cpp:89-91 | the module is appended at the end of the node's module list and nothing else changes |
| Skeleton.Arena.Destroy | EcosystemCreator/BNode.cpp:51-61 | every child loses its parent link and nothing else about it changes; every attached module is destroyed once, in order; the tree invariant holds afterwards |
| Skeleton.Arena.DeepCopy | EcosystemCreator/BNode.cpp:63-72 | the existing nodes are untouched; the new nodes are one-to-one copies of the subtree with the same shape and child order; the top copy has parent `par` |
| Skeleton.Arena.NewCopy | EcosystemCreator/BNode.cpp:64-65 | a copy of node i, with parent `par` and no children yet, is appended as the new last node; the existing nodes are untouched |
| Skeleton.Arena.CopyChild | EcosystemCreator/BNode.cpp:67-70 | one turn of the loop: the subtree of the next child is deep-copied and its copy appended to the new node's children, so the partial copy now covers one more child |
| Skeleton.Arena.CopyKids | EcosystemCreator/BNode.cpp:67-71 | after the loop over the children the arena holds the copy of the whole subtree, as DeepCopy states |
| Passes.CopyOneToOne | EcosystemCreator/BNode.cpp:63-72 | deepCopy gives distinct nodes of the subtree distinct copies |
| Skeleton.Arena.SetAge | EcosystemCreator/BNode.cpp:94-138 | the new nodes, terminal list and destroy log are those of the setAge specification AgeNode |
| Skeleton.Arena.AgeChildren | EcosystemCreator/BNode.cpp:123-126 | the loop over the children leaves exactly the state the specification AgeKids gives |
| Skeleton.Arena.RecTransformation | EcosystemCreator/BNode.cpp:234-245 | every node of the subtree took one Retransformed step, every other node is unchanged, and the tree invariant holds |
| Frames.ParentDirection | EcosystemCreator/BNode.cpp:207-216 | a root segment's direction is its parent's segment when the parent is an ordinary node with a parent; the segment from the great-grandparent when the parent is a root segment with two ancestors; the parent's dir otherwise |
| Frames.WorldTransform | EcosystemCreator/BNode.cpp:197-231 | the translation is the node's position; the up axis is rotated onto dir without a parent, onto ParentDirection for a root segment, and onto pos - parent.pos for an ordinary node |
| Frames.GrownFrame | EcosystemCreator/BNode.cpp:197-231 | after setAge an ordinary node is rotated onto L * (dir + offset), a root segment is translated to its parent's position, and a node without a parent keeps its transform |
| Frames.RetransformedFrame | EcosystemCreator/BNode.cpp:234-245 | recTransformation keeps every translation and every ordinary node's transform, and rotates a parentless subtree node onto its rotated dir |
| Frames.CopiedFrame | EcosystemCreator/BNode.cpp:63-72 | every copy has its original's translation, and below the top an ordinary copy has the original's whole world transform |
| PlantClock.WeightedAge | EcosystemCreator/SOP_Plant.C:269-271 | the weighted age is zero on the birthday and, for a non-negative rate, non-negative from then on |
| PlantClock.WeightedAgeMonotone | EcosystemCreator/SOP_Plant.C:269-271 | the weighted age grows by the rate times the elapsed time and never falls for a non-negative rate |
| PlantClock.CookedAge | EcosystemCreator/SOP_Plant.C:172-174 | the cooked age is 0 before the birthday; from the birthday on it is the weighted age or maxAge, whichever is smaller |
| PlantClock.CookedAgeBounds | EcosystemCreator/SOP_Plant.C:172-174 | with non-negative rate and maximum, the cooked age lies in [0, maxAge] |
| PlantClock.ChangeInAge | EcosystemCreator/SOP_Plant.C:274-284 | from the birthday on, the change as written takes the previous age to the cooked age when the cap applies or the rate is 1 |
| PlantClock.ChangeInAgeBeforeBirth | EcosystemCreator/SOP_Plant.C:275-277 | an input before the birthday where the change as written is +3 while the cook moves the age by -2 |
| PlantClock.ChangeInAgeIgnoresRate | EcosystemCreator/SOP_Plant.C:282-283 | an uncapped input with rate 2 where the change as written is 1 while the cook moves the age by 2 |
| PlantClock.IntendedChangeInAge | EcosystemCreator/SOP_Plant.C:274-284 | the corrected change always takes the previous age exactly to the cooked age |
| PlantClock.IntendedChangeAgrees | EcosystemCreator/SOP_Plant.C:274-284 | the corrected change equals the as-written one wherever the latter is right |
| PlantClock.CookStep | EcosystemCreator/SOP_Plant.C:274-284 | asked during a cook before the age update, a plant's corrected change is exactly the step the update then takes; its getChangeInAge as written equals that step from the birthday on when the cap applies or the rate is 1, and misses it before any non-zero birthday |
| PlantClock.ChangeInAgeBeforeBirthAlwaysOff | EcosystemCreator/SOP_Plant.C:275-277 | on every input before a non-zero birthday, the change as written takes the age to the birthday instead of to the cooked age 0 |
| PlantClock.ChangeInAgeIgnoresRateAlwaysOff | EcosystemCreator/SOP_Plant.C:282-283 | on every uncapped input after the birthday with a rate other than 1, the change as written adds the elapsed time rather than the weighted age, and misses the cooked age |
| PlantClock.Plant.constructor | EcosystemCreator/SOP_Plant.C:109-118 | a new plant has age 0, birthday 0 and no ecosystem or species |
| PlantClock.Plant.InitPlant | EcosystemCreator/SOP_Plant.C:207-211 | the birthday becomes worldTime and the ecosystem becomes eco; the species changes only when one is given |
| PlantClock.Plant.CookAge | EcosystemCreator/SOP_Plant.C:172-174 | the age becomes the cooked age of the plant's birthday; nothing else changes |
| PlantClock.Plant.SetPosition | EcosystemCreator/SOP_Plant.C:250-256 | getPosition afterwards returns the value passed in, and the clock fields are unchanged |

## Left out

- Houdini glue in `SOP_Plant.C` is not modelled: the operator table, parameters, merge and output nodes, geometry merging and labels. It is host-application I/O and graph management. `EcosystemCreator/PrototypeAgentPtr.h` is not part of this model: it only declares agent and rig builders.
- The part of `initPlant` that destroys the old root module and builds the merger is left out, because it is Houdini graph management.
- `getAge`, `getBirthTime`, `getPosition`, `calcWeightedAge` and `getChangeInAge` are also written as `Plant` member functions. They carry no contract of their own, because each only reads a field or calls the module-level function. `Plant.GetChangeInAge` is the as-written `ChangeInAge`. The extra member `Plant.GetIntendedChangeInAge` is the corrected `IntendedChangeInAge` (see Findings).
- Floating point is modelled as real arithmetic, with no rounding and no 32-bit limits.
- `pow`, `normalize` and `UT_Matrix3::dihedral` are uninterpreted. `pow` and `normalize` are function parameters, and `dihedral` is the symbolic `Frames.Rotation(from, onto)`. The model proves which vectors feed them, not what they compute.
- `rowVecMult` is a concrete row-vector-times-matrix product. No property of rotations is assumed.
- `shared_ptr` mechanics are modelled by the arena: reference counts, `shared_from_this` and deallocation. A destroyed node keeps its slot, with no children and no modules.
- `SOP_Branch::destroySelf` has effects outside this code. Each call is recorded as an entry of the `destroyed` log.
- Skeleton.Arena.SetParent and Skeleton.Arena.AddChild require more than the source, whose setters accept any pointers. The tree invariant `NodeTree.Valid` requires every listed child to link back to the node that lists it, and every parent to have a smaller id than its child. So each setter may only be called in a way that keeps this invariant:
  - `SetParent(i, par)` needs `par` to have a smaller id than `i`. It cannot be called on a node some other node still lists as a child, unless `par` is that node. In particular it cannot clear the parent of a child that is still listed.
  - `AddChild(p, c)` needs `c` to link to `p` already, to have a larger id than `p`, and to be listed by no node. This holds at the source's only call site: deepCopy sets the copy's parent at `EcosystemCreator/BNode.cpp:65` before adding it at line 69.
  - The destructor (`EcosystemCreator/BNode.cpp:54-55`) calls `setParent(nullptr)` on each child while the child is still listed. SetParent refuses that call. So Skeleton.Arena.Destroy's loop writes each child's parent field directly instead of calling SetParent. The invariant is broken inside that loop and holds again once the node's own children list is cleared after it.
- Skeleton.Arena.SetAge requires every node of the subtree to have species coefficients, because the source dereferences them unconditionally.
- Passes.AgeKids skips a child index out of range or without coefficients. Such a child cannot occur under the tree invariant and that precondition.
- Skeleton.Arena.DeepCopy returns the map from each original to its copy as a ghost value. The source returns only the new top node.
- Skeleton.Arena.DeepCopy also takes a ghost argument `orig`, the arena before the outermost call. It only bounds the recursion and adds no requirement the source lacks.

## Findings

| source | as written | input that shows it | evidently intended | confidence | as-written member | corrected member |
|---|---|---|---|---|---|---|
| EcosystemCreator/SOP_Plant.C:275-277 | before the birthday, getChangeInAge returns plantBirthday - plantAge | birthday 5, previous age 2, ecosystem age 3: it returns 3, but the cook sets the age to 0, a change of -2 | the change the cook makes, new age minus previous age, which is -plantAge here | medium, not executed | PlantClock.ChangeInAgeBeforeBirth | PlantClock.IntendedChangeInAge |
| EcosystemCreator/SOP_Plant.C:282-283 | below the cap, getChangeInAge returns ecoAge - (plantAge + plantBirthday), ignoring the growth rate | birthday 0, previous age 0, ecosystem age 1, rate 2, maximum 10: it returns 1, but the cook sets the age to 2 | weightedAge - plantAge, consistent with the capped branch and the cook at lines 172-174 | medium, not executed | PlantClock.ChangeInAgeIgnoresRate | PlantClock.IntendedChangeInAge |

Why this reading: the source documents the function as valid only during a cook, and at lines 162-164 it notes that the branches cook before `plantAge` is set. So the branches ask for it while `plantAge` still holds the previous cook's value. Its capped branch returns exactly new age minus old age, and the other two branches evidently should as well. `PlantClock.ChangeInAge` is the as-written definition. `PlantClock.IntendedChangeInAge` is the corrected one, proved to take the previous age exactly to the cooked age.
