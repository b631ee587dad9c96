/** The part of modeler.js that works on one loaded model: the scene graph
    as a tree value, the skeleton helpers `findFirstSkeleton` and
    `buildBoneMap`, and `rebindToBaseSkeleton`, which re-points every skinned
    mesh of a part at the base character's bones by name. */
module Scene {
  import opened Options
  import opened Seqs

  /** An opaque 4x4 matrix: bind matrices and inverse bind matrices are only
      carried around, never computed with. */
  datatype Matrix = Matrix(id: nat)

  /** A bone: its name and its object identity. */
  datatype Bone = Bone(name: string, id: nat)

  /** `THREE.Skeleton`: the bones in order, and the inverse bind matrices passed with them. */
  datatype Skeleton = Skeleton(bones: seq<Bone>, boneInverses: seq<Matrix>)

  datatype Vec3 = Vec3(x: real, y: real, z: real)

  datatype Transform = Transform(position: Vec3, rotation: Vec3, scale: Vec3)

  /** Position (0,0,0), rotation (0,0,0), scale (1,1,1). */
  const Identity := Transform(Vec3(0.0, 0.0, 0.0), Vec3(0.0, 0.0, 0.0), Vec3(1.0, 1.0, 1.0))

  datatype Material = Material(id: nat, skinning: bool, needsUpdate: bool)

  /** An `Object3D` of the scene graph. Only skinned meshes carry a skeleton
      and a bind matrix that matter; a plain node has `isSkinnedMesh == false`. */
  datatype Node = Node(
    name: string,
    isSkinnedMesh: bool,
    skeleton: Option<Skeleton>,
    bindMatrix: Matrix,
    transform: Transform,
    frustumCulled: bool,
    material: Option<Material>,
    children: seq<Node>)

  /** `o.isSkinnedMesh && o.skeleton`: the nodes both helpers act on. */
  predicate IsBound(o: Node) {
    o.isSkinnedMesh && o.skeleton.Some?
  }

  // ---------- Traversal ----------

  /** The order in which `Object3D.traverse` visits a tree: a node, then each
      child's subtree from the first child to the last. */
  function PreOrder(n: Node): (r: seq<Node>)
    ensures r != [] && r[0] == n
  {
    [n] + PreOrderForest(n.children)
  }

  function PreOrderForest(ns: seq<Node>): seq<Node>
  {
    if ns == [] then [] else PreOrder(ns[0]) + PreOrderForest(ns[1..])
  }

  /** Reference definition: the skeleton of the first bound node of a visit order. */
  function FirstBound(s: seq<Node>): (r: Option<Skeleton>)
    ensures r.None? <==> forall i :: 0 <= i < |s| ==> !IsBound(s[i])
    ensures r.Some? ==> exists i :: 0 <= i < |s| && IsBound(s[i]) && s[i].skeleton == r
                                  && forall j :: 0 <= j < i ==> !IsBound(s[j])
  {
    if s == [] then None
    else if IsBound(s[0]) then s[0].skeleton
    else
      var r := FirstBound(s[1..]);
      assert r.Some? ==> exists i :: 1 <= i < |s| && IsBound(s[i]) && s[i].skeleton == r
                                    && forall j :: 0 <= j < i ==> !IsBound(s[j]) by {
        if r.Some? {
          var i :| 0 <= i < |s[1..]| && IsBound(s[1..][i]) && s[1..][i].skeleton == r
                   && forall j :: 0 <= j < i ==> !IsBound(s[1..][j]);
          assert forall j :: 1 <= j < i + 1 ==> !IsBound(s[j]) by {
            forall j | 1 <= j < i + 1 ensures !IsBound(s[j]) {
              assert s[j] == s[1..][j - 1];
            }
          }
        }
      }
      r
  }

  lemma {:induction false} FirstBoundAppend(a: seq<Node>, b: seq<Node>)
    ensures FirstBound(a + b) == if FirstBound(a).Some? then FirstBound(a) else FirstBound(b)
  {
    if a == [] {
      assert a + b == b;
    } else {
      assert (a + b)[1..] == a[1..] + b;
      FirstBoundAppend(a[1..], b);
    }
  }

  /** `findFirstSkeleton`: once a skeleton is found, the rest of the traversal is skipped. */
  function FindFirstSkeleton(root: Node): Option<Skeleton>
  {
    if IsBound(root) then root.skeleton else FindFirstInForest(root.children)
  }

  function FindFirstInForest(ns: seq<Node>): Option<Skeleton>
  {
    if ns == [] then None
    else
      match FindFirstSkeleton(ns[0])
      case Some(s) => Some(s)
      case None => FindFirstInForest(ns[1..])
  }

  /** `findFirstSkeleton` returns the skeleton of the first bound node in
      traversal order, and `null` when no node is bound. */
  lemma {:induction false} FindFirstSkeletonIsFirstInPreOrder(root: Node)
    ensures FindFirstSkeleton(root) == FirstBound(PreOrder(root))
  {
    FirstBoundAppend([root], PreOrderForest(root.children));
    FindFirstInForestIsFirstInPreOrder(root.children);
  }

  lemma {:induction false} FindFirstInForestIsFirstInPreOrder(ns: seq<Node>)
    ensures FindFirstInForest(ns) == FirstBound(PreOrderForest(ns))
  {
    if ns != [] {
      FindFirstSkeletonIsFirstInPreOrder(ns[0]);
      FindFirstInForestIsFirstInPreOrder(ns[1..]);
      FirstBoundAppend(PreOrder(ns[0]), PreOrderForest(ns[1..]));
    }
  }

  // ---------- Bone map ----------

  /** The names of a bone list. */
  function NameSet(bones: seq<Bone>): set<string> {
    set i | 0 <= i < |bones| :: bones[i].name
  }

  /** The map `buildBoneMap` fills: bones are set in list order, so a later
      bone overwrites an earlier one of the same name. */
  function BoneMapOf(bones: seq<Bone>): (m: map<string, Bone>)
    ensures m.Keys == NameSet(bones)
    ensures forall k :: k in m ==> m[k].name == k && m[k] in bones
  {
    if bones == [] then map[]
    else
      var init := bones[..|bones| - 1];
      var last := bones[|bones| - 1];
      assert forall i :: 0 <= i < |init| ==> init[i] == bones[i];
      assert NameSet(bones) == NameSet(init) + {last.name} by {
        forall k | k in NameSet(bones) ensures k in NameSet(init) + {last.name} {
          var i :| 0 <= i < |bones| && bones[i].name == k;
          if i < |init| { assert init[i].name == k; }
        }
      }
      BoneMapOf(init)[last.name := last]
  }

  /** Of several bones sharing a name, the map keeps the one with the highest index. */
  lemma {:induction false} BoneMapLastWins(bones: seq<Bone>, i: nat)
    requires i < |bones|
    requires forall j :: i < j < |bones| ==> bones[j].name != bones[i].name
    ensures bones[i].name in BoneMapOf(bones) && BoneMapOf(bones)[bones[i].name] == bones[i]
  {
    if i < |bones| - 1 {
      var init := bones[..|bones| - 1];
      assert forall j :: i < j < |init| ==> init[j] == bones[j];
      BoneMapLastWins(init, i);
    }
  }

  /** `buildBoneMap(skeleton)`: `skeleton.bones.forEach(b => map.set(b.name, b))`. */
  method BuildBoneMap(skeleton: Skeleton) returns (m: map<string, Bone>)
    ensures m == BoneMapOf(skeleton.bones)
    ensures m.Keys == NameSet(skeleton.bones)
  {
    var bones := skeleton.bones;
    m := map[];
    for i := 0 to |bones|
      invariant m == BoneMapOf(bones[..i])
    {
      assert bones[..i + 1][..i] == bones[..i];
      m := m[bones[i].name := bones[i]];
    }
    assert bones[..|bones|] == bones;
  }

  // ---------- Rebinding ----------

  function Names(bones: seq<Bone>): seq<string>
  {
    seq(|bones|, i requires 0 <= i < |bones| => bones[i].name)
  }

  /** `bones.map(b => baseMap.get(b.name)).filter(Boolean)`: each part bone
      replaced by the base bone of its name, unmatched names dropped. */
  function RemapBones(bones: seq<Bone>, baseMap: map<string, Bone>): (r: seq<Bone>)
    ensures |r| <= |bones|
    ensures |r| == |bones| <==> forall i :: 0 <= i < |bones| ==> bones[i].name in baseMap
    ensures forall k :: 0 <= k < |r| ==> r[k] in baseMap.Values
  {
    if bones == [] then []
    else
      var b := bones[0];
      (if b.name in baseMap then [baseMap[b.name]] else []) + RemapBones(bones[1..], baseMap)
  }

  /** Looks up each name in turn. */
  function LookUp(names: seq<string>, baseMap: map<string, Bone>): (r: seq<Bone>)
    requires forall i :: 0 <= i < |names| ==> names[i] in baseMap
    ensures |r| == |names|
    ensures forall i :: 0 <= i < |names| ==> r[i] == baseMap[names[i]]
  {
    if names == [] then [] else [baseMap[names[0]]] + LookUp(names[1..], baseMap)
  }

  predicate Matched(baseMap: map<string, Bone>, name: string) {
    name in baseMap
  }

  /** The remapped list is the lookup of the matched part names, in the part's
      order; those names are a subsequence of the part's names. */
  lemma {:induction false} RemapIsLookupOfMatchedNames(bones: seq<Bone>, baseMap: map<string, Bone>)
    ensures RemapBones(bones, baseMap) == LookUp(Filter(n => Matched(baseMap, n), Names(bones)), baseMap)
    ensures IsSubsequence(Filter(n => Matched(baseMap, n), Names(bones)), Names(bones))
  {
    FilterIsSubsequence(n => Matched(baseMap, n), Names(bones));
    if bones != [] {
      RemapIsLookupOfMatchedNames(bones[1..], baseMap);
      assert Names(bones)[1..] == Names(bones[1..]);
    }
  }

  /** Each unmatched name removes exactly one position from the bone list. */
  lemma {:induction false} RemapCountsUnmatched(bones: seq<Bone>, baseMap: map<string, Bone>)
    ensures |RemapBones(bones, baseMap)| == |bones| - |Filter(n => !Matched(baseMap, n), Names(bones))|
  {
    if bones != [] {
      RemapCountsUnmatched(bones[1..], baseMap);
      assert Names(bones)[1..] == Names(bones[1..]);
    }
  }

  /** Against a map that files each bone under its own name, the rebound
      names are the part's matched names, in order. */
  lemma {:induction false} RemapKeepsNames(bones: seq<Bone>, m: map<string, Bone>)
    requires forall k :: k in m ==> m[k].name == k
    ensures Names(RemapBones(bones, m)) == Filter(n => Matched(m, n), Names(bones))
  {
    if bones != [] {
      RemapKeepsNames(bones[1..], m);
      assert Names(bones)[1..] == Names(bones[1..]);
      var head := if bones[0].name in m then [m[bones[0].name]] else [];
      assert RemapBones(bones, m) == head + RemapBones(bones[1..], m);
      NamesAppend(head, RemapBones(bones[1..], m));
    }
  }

  /** Against the base character's own bone map, the rebound bones are base
      bones and carry the part's matched names in the part's order. */
  lemma RemapAgainstBaseKeepsNames(bones: seq<Bone>, baseBones: seq<Bone>)
    ensures forall k :: 0 <= k < |RemapBones(bones, BoneMapOf(baseBones))| ==>
              RemapBones(bones, BoneMapOf(baseBones))[k] in baseBones
    ensures Names(RemapBones(bones, BoneMapOf(baseBones)))
         == Filter(n => Matched(BoneMapOf(baseBones), n), Names(bones))
  {
    var m := BoneMapOf(baseBones);
    var r := RemapBones(bones, m);
    forall k | 0 <= k < |r|
      ensures r[k] in baseBones
    {
      assert r[k] in m.Values;
      var key :| key in m && m[key] == r[k];
    }
    RemapKeepsNames(bones, m);
  }


  lemma NamesAppend(a: seq<Bone>, b: seq<Bone>)
    ensures Names(a + b) == Names(a) + Names(b)
  {
    assert forall i :: 0 <= i < |a + b| ==> Names(a + b)[i] == (Names(a) + Names(b))[i];
  }

  /** One visited node (lines 157-178): a bound node gets a new skeleton of the
      remapped bones with its old inverses, keeps its bind matrix, stops being
      frustum-culled and has its material flagged for skinning; any other node
      is left as it is. */
  function RebindNode(o: Node, baseMap: map<string, Bone>): (r: Node)
    ensures !IsBound(o) ==> r == o
    ensures IsBound(o) ==>
      && r.skeleton == Some(Skeleton(RemapBones(o.skeleton.value.bones, baseMap), o.skeleton.value.boneInverses))
      && r.bindMatrix == o.bindMatrix
      && r.isSkinnedMesh && r.name == o.name && r.transform == o.transform && r.children == o.children
      && !r.frustumCulled
      && (r.material.Some? <==> o.material.Some?)
      && (o.material.Some? ==> r.material.value == o.material.value.(skinning := true, needsUpdate := true))
  {
    if !IsBound(o) then o
    else
      var skel := o.skeleton.value;
      var newSkeleton := Skeleton(RemapBones(skel.bones, baseMap), skel.boneInverses);
      var material := if o.material.Some?
        then Some(o.material.value.(skinning := true, needsUpdate := true)) else None;
      o.(skeleton := Some(newSkeleton), frustumCulled := false, material := material)
  }

  /** The `traverse` of line 156 applied to every node of the tree. */
  function RebindTree(n: Node, baseMap: map<string, Bone>): Node
  {
    RebindNode(n, baseMap).(children := RebindForest(n.children, baseMap))
  }

  function RebindForest(ns: seq<Node>, baseMap: map<string, Bone>): (r: seq<Node>)
    ensures |r| == |ns|
  {
    if ns == [] then [] else [RebindTree(ns[0], baseMap)] + RebindForest(ns[1..], baseMap)
  }

  /** The test of line 162: the remapped list is shorter than the part's own. */
  predicate Mismatch(o: Node, baseMap: map<string, Bone>) {
    IsBound(o) && |RemapBones(o.skeleton.value.bones, baseMap)| != |o.skeleton.value.bones|
  }

  /** The `console.warn` of line 164: one warning, naming the mesh, per mismatched mesh. */
  function Warnings(n: Node, baseMap: map<string, Bone>): seq<string>
  {
    (if Mismatch(n, baseMap) then [n.name] else []) + WarningsForest(n.children, baseMap)
  }

  function WarningsForest(ns: seq<Node>, baseMap: map<string, Bone>): seq<string>
  {
    if ns == [] then [] else Warnings(ns[0], baseMap) + WarningsForest(ns[1..], baseMap)
  }

  /** The rebound part and the warnings emitted on the way. */
  datatype Rebound = Rebound(root: Node, warnings: seq<string>)

  /** `rebindToBaseSkeleton(partRoot, baseSkel, baseMap)`: every node rebound,
      then the root's transform reset. */
  function RebindToBaseSkeleton(partRoot: Node, baseMap: map<string, Bone>): (r: Rebound)
    ensures r.root.transform == Identity
    ensures r.root.name == partRoot.name && |r.root.children| == |partRoot.children|
  {
    Rebound(RebindTree(partRoot, baseMap).(transform := Identity), Warnings(partRoot, baseMap))
  }

  // ---------- What rebinding does to every node ----------

  /** A node without its subtree. */
  function Strip(o: Node): Node {
    o.(children := [])
  }

  function Heads(s: seq<Node>): (r: seq<Node>)
    ensures |r| == |s|
    ensures forall i :: 0 <= i < |s| ==> r[i] == Strip(s[i])
  {
    if s == [] then [] else [Strip(s[0])] + Heads(s[1..])
  }

  function RebindHeads(s: seq<Node>, baseMap: map<string, Bone>): (r: seq<Node>)
    ensures |r| == |s|
    ensures forall i :: 0 <= i < |s| ==> r[i] == RebindNode(Strip(s[i]), baseMap)
  {
    if s == [] then [] else [RebindNode(Strip(s[0]), baseMap)] + RebindHeads(s[1..], baseMap)
  }

  /** Visited in traversal order, the rebound tree shows, node for node, the
      original nodes each rebound on its own. */
  lemma {:induction false} RebindTreeNodeByNode(n: Node, baseMap: map<string, Bone>)
    ensures Heads(PreOrder(RebindTree(n, baseMap))) == RebindHeads(PreOrder(n), baseMap)
  {
    RebindForestNodeByNode(n.children, baseMap);
    var r := RebindTree(n, baseMap);
    assert Strip(r) == RebindNode(Strip(n), baseMap);
    assert PreOrder(r) == [r] + PreOrderForest(RebindForest(n.children, baseMap));
  }

  lemma {:induction false} RebindForestNodeByNode(ns: seq<Node>, baseMap: map<string, Bone>)
    ensures Heads(PreOrderForest(RebindForest(ns, baseMap))) == RebindHeads(PreOrderForest(ns), baseMap)
  {
    if ns != [] {
      RebindTreeNodeByNode(ns[0], baseMap);
      RebindForestNodeByNode(ns[1..], baseMap);
      assert RebindForest(ns, baseMap)[1..] == RebindForest(ns[1..], baseMap);
    }
  }

  /** For the i-th node in traversal order: bound nodes get the remapped bones
      with their own inverses and keep their bind matrix; other nodes keep their
      own fields. The tree keeps its shape. */
  lemma RebindAtVisit(n: Node, baseMap: map<string, Bone>, i: nat)
    requires i < |PreOrder(n)|
    ensures |PreOrder(RebindTree(n, baseMap))| == |PreOrder(n)|
    ensures var o, r := PreOrder(n)[i], PreOrder(RebindTree(n, baseMap))[i];
      && Strip(r) == RebindNode(Strip(o), baseMap)
      && |r.children| == |o.children|
      && (!IsBound(o) ==> Strip(r) == Strip(o))
      && (IsBound(o) ==>
            && r.skeleton == Some(Skeleton(RemapBones(o.skeleton.value.bones, baseMap), o.skeleton.value.boneInverses))
            && r.bindMatrix == o.bindMatrix)
  {
    RebindTreeNodeByNode(n, baseMap);
    assert |Heads(PreOrder(RebindTree(n, baseMap)))| == |PreOrder(n)|;
    ChildCountAtVisit(n, baseMap, i);
  }

  lemma ChildCountAtVisit(n: Node, baseMap: map<string, Bone>, i: nat)
    requires i < |PreOrder(n)| && i < |PreOrder(RebindTree(n, baseMap))|
    ensures |PreOrder(RebindTree(n, baseMap))[i].children| == |PreOrder(n)[i].children|
  {
    SubtreesAtVisit(n, baseMap);
  }

  /** In traversal order, the i-th node of the rebound tree is the rebound i-th subtree. */
  lemma {:induction false} SubtreesAtVisit(n: Node, baseMap: map<string, Bone>)
    ensures |PreOrder(RebindTree(n, baseMap))| == |PreOrder(n)|
    ensures forall i :: 0 <= i < |PreOrder(n)| ==>
              PreOrder(RebindTree(n, baseMap))[i] == RebindTree(PreOrder(n)[i], baseMap)
  {
    SubtreesAtVisitForest(n.children, baseMap);
  }

  lemma {:induction false} SubtreesAtVisitForest(ns: seq<Node>, baseMap: map<string, Bone>)
    ensures |PreOrderForest(RebindForest(ns, baseMap))| == |PreOrderForest(ns)|
    ensures forall i :: 0 <= i < |PreOrderForest(ns)| ==>
              PreOrderForest(RebindForest(ns, baseMap))[i] == RebindTree(PreOrderForest(ns)[i], baseMap)
  {
    if ns != [] {
      SubtreesAtVisit(ns[0], baseMap);
      SubtreesAtVisitForest(ns[1..], baseMap);
      assert RebindForest(ns, baseMap)[1..] == RebindForest(ns[1..], baseMap);
    }
  }

  // ---------- Warnings ----------

  /** The names of the mismatched nodes of a visit order, in that order. */
  function MismatchNames(s: seq<Node>, baseMap: map<string, Bone>): seq<string>
  {
    if s == [] then [] else (if Mismatch(s[0], baseMap) then [s[0].name] else []) + MismatchNames(s[1..], baseMap)
  }

  lemma {:induction false} MismatchNamesAppend(a: seq<Node>, b: seq<Node>, baseMap: map<string, Bone>)
    ensures MismatchNames(a + b, baseMap) == MismatchNames(a, baseMap) + MismatchNames(b, baseMap)
  {
    if a == [] {
      assert a + b == b;
    } else {
      assert (a + b)[1..] == a[1..] + b;
      MismatchNamesAppend(a[1..], b, baseMap);
    }
  }

  /** One warning per mismatched mesh, in traversal order; none for a mesh
      whose bone names all match. */
  lemma {:induction false} WarningsAreMismatchesInPreOrder(n: Node, baseMap: map<string, Bone>)
    ensures Warnings(n, baseMap) == MismatchNames(PreOrder(n), baseMap)
  {
    WarningsForestAreMismatches(n.children, baseMap);
    MismatchNamesAppend([n], PreOrderForest(n.children), baseMap);
  }

  lemma {:induction false} WarningsForestAreMismatches(ns: seq<Node>, baseMap: map<string, Bone>)
    ensures WarningsForest(ns, baseMap) == MismatchNames(PreOrderForest(ns), baseMap)
  {
    if ns != [] {
      WarningsAreMismatchesInPreOrder(ns[0], baseMap);
      WarningsForestAreMismatches(ns[1..], baseMap);
      MismatchNamesAppend(PreOrder(ns[0]), PreOrderForest(ns[1..]), baseMap);
    }
  }

  /** A mesh warns exactly when one of its bone names has no base bone. */
  lemma MismatchIffUnmatchedName(o: Node, baseMap: map<string, Bone>)
    requires IsBound(o)
    ensures Mismatch(o, baseMap) <==>
      exists i :: 0 <= i < |o.skeleton.value.bones| && o.skeleton.value.bones[i].name !in baseMap
  {
  }

  // ---------- Rebound parts hold only base bones ----------

  /** Every bound node of the tree binds only bones drawn from `pool`. */
  predicate BonesWithin(n: Node, pool: set<Bone>) {
    && (IsBound(n) ==> forall k :: 0 <= k < |n.skeleton.value.bones| ==> n.skeleton.value.bones[k] in pool)
    && forall c :: 0 <= c < |n.children| ==> BonesWithin(n.children[c], pool)
  }

  /** After rebinding, no skinned mesh of the part references a bone that is
      not one of the base map's bones. */
  lemma {:induction false} RebindUsesBaseBones(n: Node, baseMap: map<string, Bone>)
    ensures BonesWithin(RebindTree(n, baseMap), baseMap.Values)
  {
    var r := RebindTree(n, baseMap);
    forall c | 0 <= c < |r.children| ensures BonesWithin(r.children[c], baseMap.Values) {
      RebindForestAt(n.children, baseMap, c);
      RebindUsesBaseBones(n.children[c], baseMap);
    }
  }

  lemma {:induction false} RebindForestAt(ns: seq<Node>, baseMap: map<string, Bone>, c: nat)
    requires c < |ns|
    ensures RebindForest(ns, baseMap)[c] == RebindTree(ns[c], baseMap)
  {
    if c > 0 {
      RebindForestAt(ns[1..], baseMap, c - 1);
    }
  }

  /** A part rebound against the base character's bone map binds only bones of the base skeleton. */
  lemma RebindToBaseSkeletonUsesBaseBones(partRoot: Node, base: Skeleton)
    ensures BonesWithin(RebindToBaseSkeleton(partRoot, BoneMapOf(base.bones)).root, set b | b in base.bones)
  {
    var m := BoneMapOf(base.bones);
    RebindUsesBaseBones(partRoot, m);
    BonesWithinWider(RebindTree(partRoot, m), m.Values, set b | b in base.bones);
  }

  lemma {:induction false} BonesWithinWider(n: Node, pool: set<Bone>, wider: set<Bone>)
    requires BonesWithin(n, pool) && pool <= wider
    ensures BonesWithin(n.(transform := Identity), wider)
    ensures BonesWithin(n, wider)
  {
    forall c | 0 <= c < |n.children| ensures BonesWithin(n.children[c], wider) {
      BonesWithinWider(n.children[c], pool, wider);
    }
  }
}
