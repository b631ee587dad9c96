/** The character assembler of modeler.js: the module-level state
    `baseModel`, `baseSkeleton`, `baseBoneMap` and the fixed `slots` table of
    groups, and the operations `clearSlot`, `setSlotFromUrl` and `loadBase`
    that change it. Loading a file is an oracle: the caller passes in what
    `loadFBX` followed by `SkeletonUtils.clone` would have produced. */
module Modeler {
  import opened Options
  import opened Scene
  import opened Text

  /** The result of `await loadFBX(url)` then `SkeletonUtils.clone(raw)`:
      the cloned fragment, or the rejection of the load promise. */
  datatype LoadResult = Loaded(fragment: Node) | LoadError

  /** How `setSlotFromUrl` ended. `UnknownSlot` is the `TypeError` that
      `clearSlot` throws for a name that is not a key of `slots`. */
  datatype SlotOutcome = UnknownSlot | Cleared | NoBase | PartFailed | Attached(warnings: seq<string>)

  /** How `loadBase` ended: a blank path, a failed load (the "Base failed"
      status), a base with no skinned mesh (the error thrown at line 262), or Ready. */
  datatype BaseOutcome = BlankPath | BaseFailed | NoSkeleton | Ready

  /** The keys of `slots`, in the order `Object.keys` lists them. */
  const SlotNames: seq<string> := ["shirt", "pants", "shoes", "helmet", "mask", "backpack"]

  /** The scale every freshly loaded part and base is given (lines 222, 254). */
  const ImportScale := Vec3(0.01, 0.01, 0.01)

  /** The part as it is handed to `rebindToBaseSkeleton` at line 224. */
  function ScaledPart(raw: Node): Node {
    raw.(transform := raw.transform.(scale := ImportScale))
  }

  /** The base as it is attached at line 258: scale 0.01, position and rotation zero. */
  function PlacedBase(raw: Node): Node {
    raw.(transform := Transform(Vec3(0.0, 0.0, 0.0), Vec3(0.0, 0.0, 0.0), ImportScale))
  }

  /** The 0.01 import scale set just before rebinding never reaches the slot:
      rebinding resets the root transform, so the attached part is the same
      whatever transform the loaded fragment had. */
  lemma ImportScaleIsOverridden(raw: Node, baseMap: map<string, Bone>)
    ensures RebindToBaseSkeleton(ScaledPart(raw), baseMap).root.transform == Identity
    ensures RebindToBaseSkeleton(ScaledPart(raw), baseMap) == RebindToBaseSkeleton(raw, baseMap)
  {
  }

  /** A slot holds at most one part, and a held part binds only bones of the
      current base skeleton. */
  ghost predicate SlotOk(children: seq<Node>, baseSkeleton: Option<Skeleton>) {
    && |children| <= 1
    && (children != [] ==>
          baseSkeleton.Some? && BonesWithin(children[0], set b | b in baseSkeleton.value.bones))
  }

  /** `clearSlot` and `setSlotFromUrl` remove the first occurrence of a child,
      as `Object3D.remove` does. */
  function RemoveFirst(s: seq<Node>, x: Node): (r: seq<Node>)
    ensures |r| == if x in s then |s| - 1 else |s|
    ensures multiset(r) == multiset(s) - multiset{x}
  {
    if s == [] then []
    else
      assert s == [s[0]] + s[1..];
      if s[0] == x then s[1..] else [s[0]] + RemoveFirst(s[1..], x)
  }

  /** A `THREE.Group`: an attachment point whose children list changes in place. */
  class Group {
    var children: seq<Node>

    constructor ()
      ensures children == []
    {
      children := [];
    }

    /** `Object3D.add` of an object that has no parent yet. */
    method Add(n: Node)
      modifies this
      ensures children == old(children) + [n]
    {
      children := children + [n];
    }

    /** `Object3D.remove`. */
    method Remove(n: Node)
      modifies this
      ensures children == RemoveFirst(old(children), n)
    {
      children := RemoveFirst(children, n);
    }
  }

  /** The module state of modeler.js. */
  class Character {
    const slots: map<string, Group>
    var baseModel: Option<Node>
    var baseSkeleton: Option<Skeleton>
    var baseBoneMap: Option<map<string, Bone>>

    /** The slot table is fixed: six keys, each with a group of its own. */
    ghost predicate WellFormed() {
      && slots.Keys == set k | k in SlotNames
      && forall a, b :: a in slots && b in slots && a != b ==> slots[a] != slots[b]
    }

    /** The base fields agree with each other: a skeleton exists only with a
        model, it is the model's first skeleton, and the bone map is built from
        it. Every slot satisfies `SlotOk`. */
    ghost predicate Valid()
      reads this, slots.Values
    {
      && WellFormed()
      && (baseModel.None? ==> baseSkeleton.None?)
      && (baseModel.Some? ==> baseSkeleton == FindFirstSkeleton(baseModel.value))
      && (baseSkeleton.None? <==> baseBoneMap.None?)
      && (baseSkeleton.Some? ==> baseBoneMap.value == BoneMapOf(baseSkeleton.value.bones))
      && forall s :: s in slots ==> SlotOk(slots[s].children, baseSkeleton)
    }

    /** The state at module load: no base, one fresh empty group per slot name. */
    constructor ()
      ensures Valid() && fresh(slots.Values)
      ensures baseModel.None? && baseSkeleton.None? && baseBoneMap.None?
      ensures forall s :: s in slots ==> slots[s].children == []
    {
      var table: map<string, Group> := map[];
      for i := 0 to |SlotNames|
        invariant table.Keys == set k | k in SlotNames[..i]
        invariant forall a, b :: a in table && b in table && a != b ==> table[a] != table[b]
        invariant forall a :: a in table ==> fresh(table[a]) && table[a].children == []
      {
        var g := new Group();
        table := table[SlotNames[i] := g];
      }
      assert SlotNames[..|SlotNames|] == SlotNames;
      slots := table;
      baseModel, baseSkeleton, baseBoneMap := None, None, None;
    }

    /** `clearSlot(slotName)`: removes the first child until none is left.
        An unknown name is the `TypeError` on `undefined.children`, which changes nothing. */
    method ClearSlot(slotName: string) returns (known: bool)
      requires WellFormed()
      modifies slots.Values
      ensures known == (slotName in slots)
      ensures known ==> slots[slotName].children == []
      ensures forall s :: s in slots && s != slotName ==> slots[s].children == old(slots[s].children)
      ensures !known ==> forall s :: s in slots ==> slots[s].children == old(slots[s].children)
      ensures old(Valid()) ==> Valid()
    {
      if slotName !in slots {
        return false;
      }
      known := true;
      var g := slots[slotName];
      while |g.children| > 0
        modifies g
        invariant old(Valid()) ==> SlotOk(g.children, baseSkeleton)
        decreases |g.children|
      {
        g.Remove(g.children[0]);
      }
      assert forall s :: s in slots && s != slotName ==> slots[s] != g;
    }

    /** `setSlotFromUrl(slotName, url)`: the slot is cleared before anything
        is checked, so a refused request or a failed load leaves it empty; on
        success it holds exactly the rebound part. Base state never changes. */
    method SetSlotFromUrl(slotName: string, url: string, fetched: LoadResult) returns (outcome: SlotOutcome)
      requires Valid()
      modifies slots.Values
      ensures Valid()
      ensures outcome.UnknownSlot? <==> slotName !in slots
      ensures forall s :: s in slots && s != slotName ==> slots[s].children == old(slots[s].children)
      ensures
        slotName in slots ==>
          outcome == (
            if url == "" then Cleared
            else if baseSkeleton.None? || baseBoneMap.None? then NoBase
            else if fetched.LoadError? then PartFailed
            else Attached(RebindToBaseSkeleton(ScaledPart(fetched.fragment), baseBoneMap.value).warnings))
      ensures
        slotName in slots ==>
          slots[slotName].children == (
            if outcome.Attached? then [RebindToBaseSkeleton(ScaledPart(fetched.fragment), baseBoneMap.value).root]
            else [])
    {
      var known := ClearSlot(slotName);
      if !known {
        return UnknownSlot;
      }
      if url == "" {
        return Cleared;
      }
      if baseSkeleton.None? || baseBoneMap.None? {
        return NoBase;
      }
      if fetched.LoadError? {
        return PartFailed;
      }
      var part := ScaledPart(fetched.fragment);
      var rebound := RebindToBaseSkeleton(part, baseBoneMap.value);
      RebindToBaseSkeletonUsesBaseBones(part, baseSkeleton.value);
      var g := slots[slotName];
      g.Add(rebound.root);
      assert forall s :: s in slots && s != slotName ==> slots[s] != g;
      outcome := Attached(rebound.warnings);
    }

    /** `Object.keys(slots).forEach(clearSlot)`. */
    method ClearAllSlots()
      requires WellFormed()
      modifies slots.Values
      ensures forall s :: s in slots ==> slots[s].children == []
    {
      for i := 0 to |SlotNames|
        invariant forall k :: 0 <= k < i ==> slots[SlotNames[k]].children == []
      {
        var _ := ClearSlot(SlotNames[i]);
      }
      forall s | s in slots ensures slots[s].children == [] {
        var k :| 0 <= k < |SlotNames| && SlotNames[k] == s;
      }
    }

    /** `loadBase()` with the trimmed path field: a blank path changes
        nothing; otherwise the old base is dropped and every slot emptied
        before the load, and what the load produced decides the new base. */
    method LoadBase(path: string, fetched: LoadResult) returns (outcome: BaseOutcome)
      requires Valid()
      modifies this, slots.Values
      ensures Valid()
      ensures Trim(path) == "" ==>
        && outcome == BlankPath
        && baseModel == old(baseModel) && baseSkeleton == old(baseSkeleton) && baseBoneMap == old(baseBoneMap)
        && forall s :: s in slots ==> slots[s].children == old(slots[s].children)
      ensures Trim(path) != "" ==> forall s :: s in slots ==> slots[s].children == []
      ensures Trim(path) != "" && fetched.LoadError? ==>
        outcome == BaseFailed && baseModel.None? && baseSkeleton.None? && baseBoneMap.None?
      ensures Trim(path) != "" && fetched.Loaded? ==>
        && baseModel == Some(PlacedBase(fetched.fragment))
        && baseSkeleton == FindFirstSkeleton(PlacedBase(fetched.fragment))
        && outcome == (if baseSkeleton.None? then NoSkeleton else Ready)
      ensures outcome == Ready ==> baseBoneMap == Some(BoneMapOf(baseSkeleton.value.bones))
      ensures outcome == NoSkeleton ==> baseSkeleton.None? && baseBoneMap.None?
    {
      var url := Trim(path);
      if url == "" {
        return BlankPath;
      }
      DropBase();
      ClearAllSlots();
      if fetched.LoadError? {
        return BaseFailed;
      }
      outcome := InstallBase(fetched.fragment);
    }

    /** Lines 241-246: the previous base model, skeleton and bone map are let go. */
    method DropBase()
      requires Valid()
      modifies this
      ensures WellFormed()
      ensures baseModel.None? && baseSkeleton.None? && baseBoneMap.None?
    {
      if baseModel.Some? {
        baseModel, baseSkeleton, baseBoneMap := None, None, None;
      }
    }

    /** Lines 251-263: the cloned base is placed and becomes the base model,
        its first skeleton the base skeleton, and, when it has one, its bone
        map the base bone map; with none, the error of line 262 leaves the
        model in place without a skeleton. */
    method InstallBase(raw: Node) returns (outcome: BaseOutcome)
      requires WellFormed() && baseSkeleton.None? && baseBoneMap.None?
      requires forall s :: s in slots ==> slots[s].children == []
      modifies this
      ensures Valid()
      ensures baseModel == Some(PlacedBase(raw))
      ensures baseSkeleton == FindFirstSkeleton(PlacedBase(raw))
      ensures outcome == (if baseSkeleton.None? then NoSkeleton else Ready)
      ensures baseSkeleton.None? ==> baseBoneMap.None?
      ensures baseSkeleton.Some? ==> baseBoneMap == Some(BoneMapOf(baseSkeleton.value.bones))
    {
      baseModel := Some(PlacedBase(raw));
      baseSkeleton := FindFirstSkeleton(baseModel.value);
      if baseSkeleton.None? {
        return NoSkeleton;
      }
      var boneMap := BuildBoneMap(baseSkeleton.value);
      baseBoneMap := Some(boneMap);
      outcome := Ready;
    }
  }

  /** Before any base is loaded, a part request is refused and its slot stays empty. */
  method PartBeforeBaseIsRefused(slotName: string, url: string, fetched: LoadResult)
    returns (outcome: SlotOutcome, children: seq<Node>)
    requires slotName in SlotNames && url != ""
    ensures outcome == NoBase && children == []
  {
    var c := new Character();
    outcome := c.SetSlotFromUrl(slotName, url, fetched);
    children := c.slots[slotName].children;
  }

  /** After a base without a skinned mesh, every part request is refused. */
  method BaseWithoutSkeletonRefusesParts(c: Character, path: string, raw: Node, slotName: string, url: string, part: LoadResult)
    returns (base: BaseOutcome, outcome: SlotOutcome)
    requires c.Valid()
    requires Trim(path) != "" && FindFirstSkeleton(PlacedBase(raw)).None?
    requires slotName in c.slots && url != ""
    modifies c, c.slots.Values
    ensures c.Valid()
    ensures base == NoSkeleton && outcome == NoBase
    ensures c.slots[slotName].children == []
  {
    base := c.LoadBase(path, Loaded(raw));
    outcome := c.SetSlotFromUrl(slotName, url, part);
  }

  /** Setting the same slot twice leaves exactly one part in it, the second. */
  method SetTwiceKeepsOne(c: Character, slotName: string, url: string, first: Node, second: Node)
    requires c.Valid() && slotName in c.slots && url != "" && c.baseSkeleton.Some?
    modifies c.slots.Values
    ensures c.Valid()
    ensures |c.slots[slotName].children| == 1
    ensures c.slots[slotName].children[0] == RebindToBaseSkeleton(ScaledPart(second), c.baseBoneMap.value).root
  {
    var a := c.SetSlotFromUrl(slotName, url, Loaded(first));
    var b := c.SetSlotFromUrl(slotName, url, Loaded(second));
  }
}
