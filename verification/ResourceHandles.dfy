/** Reference-counted handles to resources, and the manager that finds or makes their control blocks. */
module ResourceHandles {
  import opened Wrappers

  /** A control block; one that is not lazy cannot load its resource again. Resources are numbered as they are made. */
  datatype Block = Block(id: nat, kind: nat, isLazy: bool, refs: int, resource: Option<nat>)

  /** What a handle refers to: the shared sentinel, or the block at a position of the manager's list. */
  datatype Target = Invalid | To(block: nat)

  /** The blocks, the live handles, the sentinel's count, and the resources made and deleted so far. */
  datatype World = World(blocks: seq<Block>, handles: map<nat, Target>, sentinel: int, made: nat, deleted: seq<nat>)

  const START := World([], map[], 0, 0, [])

  // ----- Counting

  function AddRef(w: World, t: Target): World
    requires t.To? ==> t.block < |w.blocks|
  {
    match t
    case Invalid => w.(sentinel := w.sentinel + 1)
    case To(b) => w.(blocks := w.blocks[b := w.blocks[b].(refs := w.blocks[b].refs + 1)])
  }

  /** At zero the resource is deleted, but the block stays; the sentinel does nothing at zero. */
  function RemoveRef(w: World, t: Target): World
    requires t.To? ==> t.block < |w.blocks|
  {
    match t
    case Invalid => w.(sentinel := w.sentinel - 1)
    case To(b) =>
      var block := w.blocks[b];
      if block.refs - 1 != 0 then w.(blocks := w.blocks[b := block.(refs := block.refs - 1)])
      else
        w.(blocks := w.blocks[b := block.(refs := 0, resource := None)],
           deleted := w.deleted + match block.resource { case None => [] case Some(r) => [r] })
  }

  // ----- The operations

  datatype Op =
    | Default(h: nat)
    | Copy(h: nat, from: nat)
    | Move(h: nat, from: nat)
    | Destroy(h: nat)
    | CopyAssign(h: nat, from: nat)
    | MoveAssign(h: nat, from: nat)
    | Reset(h: nat)
    | Get(h: nat, loads: bool)
    | LazyResource(h: nat, id: nat, kind: nat, canLoad: bool)
    | LoadResourceDirectly(h: nat, id: nat, kind: nat, loads: bool)
    | TakeOwnership(h: nat, kind: nat)

  /** The handle an operation makes is new, and those it works on are alive. */
  predicate Allowed(w: World, op: Op)
  {
    match op
    case Default(h) => h !in w.handles
    case Copy(h, from) => h !in w.handles && from in w.handles
    case Move(h, from) => h !in w.handles && from in w.handles
    case Destroy(h) => h in w.handles
    case CopyAssign(h, from) => h in w.handles && from in w.handles
    case MoveAssign(h, from) => h in w.handles && from in w.handles
    case Reset(h) => h in w.handles
    case Get(h, _) => h in w.handles
    case LazyResource(h, _, _, _) => h !in w.handles
    case LoadResourceDirectly(h, _, _, _) => h !in w.handles
    case TakeOwnership(h, _) => h !in w.handles
  }

  predicate InBounds(w: World) { forall h :: h in w.handles && w.handles[h].To? ==> w.handles[h].block < |w.blocks| }

  /** The first block with an id and a type. */
  function FindKnown(blocks: seq<Block>, id: nat, kind: nat): (r: Option<nat>)
    ensures r.Some? ==> r.value < |blocks| && blocks[r.value].id == id && blocks[r.value].kind == kind
    ensures r.Some? ==> forall k :: 0 <= k < r.value ==> blocks[k].id != id || blocks[k].kind != kind
    ensures r.None? ==> forall k :: 0 <= k < |blocks| ==> blocks[k].id != id || blocks[k].kind != kind
  {
    FindFrom(blocks, id, kind, 0)
  }

  function FindFrom(blocks: seq<Block>, id: nat, kind: nat, i: nat): (r: Option<nat>)
    requires i <= |blocks|
    ensures r.Some? ==> i <= r.value < |blocks| && blocks[r.value].id == id && blocks[r.value].kind == kind
    ensures r.Some? ==> forall k :: i <= k < r.value ==> blocks[k].id != id || blocks[k].kind != kind
    ensures r.None? ==> forall k :: i <= k < |blocks| ==> blocks[k].id != id || blocks[k].kind != kind
    decreases |blocks| - i
  {
    if i == |blocks| then None
    else if blocks[i].kind == kind && blocks[i].id == id then Some(i)
    else FindFrom(blocks, id, kind, i + 1)
  }

  /** A new handle to a block. */
  function Attach(w: World, h: nat, t: Target): World
    requires t.To? ==> t.block < |w.blocks|
  {
    AddRef(w.(handles := w.handles[h := t]), t)
  }

  /** A new block that already has its resource, as `MakeMemoryContainer` makes it, and a handle to it. */
  function AttachMade(w: World, h: nat, id: nat, kind: nat): World
  {
    var made := w.(blocks := w.blocks + [Block(id, kind, false, 0, Some(w.made))], made := w.made + 1);
    Attach(made, h, To(|w.blocks|))
  }

  function Step(w: World, op: Op): World
    requires InBounds(w) && Allowed(w, op)
  {
    match op
    case Default(h) => w.(handles := w.handles[h := Invalid])
    case Copy(h, from) => Attach(w, h, w.handles[from])
    case Move(h, from) => w.(handles := w.handles[h := w.handles[from]][from := Invalid])
    case Destroy(h) => RemoveRef(w.(handles := w.handles - {h}), w.handles[h])
    case CopyAssign(h, from) =>
      if h == from then w else Attach(RemoveRef(w, w.handles[h]), h, w.handles[from])
    case MoveAssign(h, from) =>
      if h == from then w
      else RemoveRef(w, w.handles[h]).(handles := w.handles[h := w.handles[from]][from := Invalid])
    case Reset(h) => RemoveRef(w, w.handles[h]).(handles := w.handles[h := Invalid])
    case Get(h, loads) =>
      if w.handles[h].To? && w.blocks[w.handles[h].block].resource.None? && w.blocks[w.handles[h].block].isLazy && loads
      then
        var b := w.handles[h].block;
        w.(blocks := w.blocks[b := w.blocks[b].(resource := Some(w.made))], made := w.made + 1)
      else w
    case LazyResource(h, id, kind, canLoad) =>
      (match FindKnown(w.blocks, id, kind)
       case Some(b) => Attach(w, h, To(b))
       case None =>
         if !canLoad then w.(handles := w.handles[h := Invalid])
         else Attach(w.(blocks := w.blocks + [Block(id, kind, true, 0, None)]), h, To(|w.blocks|)))
    case LoadResourceDirectly(h, id, kind, loads) =>
      (match FindKnown(w.blocks, id, kind)
       case Some(b) => Attach(w, h, To(b))
       case None => if !loads then w.(handles := w.handles[h := Invalid]) else AttachMade(w, h, id, kind))
    case TakeOwnership(h, kind) => AttachMade(w, h, 0, kind)
  }

  // ----- The invariant

  ghost function Holders(handles: map<nat, Target>, b: nat): set<nat>
  {
    set h | h in handles && handles[h] == To(b)
  }

  ghost function Count(w: World, b: nat): nat { |Holders(w.handles, b)| }

  /** Moving one handle changes the counts by one each. */
  lemma Repoint(handles: map<nat, Target>, h: nat, t: Target, b: nat)
    ensures |Holders(handles[h := t], b)|
         == |Holders(handles, b)| - (if h in handles && handles[h] == To(b) then 1 else 0) + (if t == To(b) then 1 else 0)
  {
    HoldersAfter(handles, h, t, b);
    SizeWithout(Holders(handles, b), h);
  }

  lemma HoldersAfter(handles: map<nat, Target>, h: nat, t: Target, b: nat)
    ensures Holders(handles[h := t], b) == Holders(handles, b) - {h} + (if t == To(b) then {h} else {})
    ensures h in Holders(handles, b) <==> h in handles && handles[h] == To(b)
  {
  }

  lemma SizeWithout(s: set<nat>, h: nat)
    ensures |s - {h}| == if h in s then |s| - 1 else |s|
  {
    if h !in s {
      assert s - {h} == s;
    }
  }

  lemma Unpoint(handles: map<nat, Target>, h: nat, b: nat)
    requires h in handles
    ensures |Holders(handles - {h}, b)| == |Holders(handles, b)| - (if handles[h] == To(b) then 1 else 0)
  {
    SizeWithout(Holders(handles, b), h);
    assert Holders(handles - {h}, b) == Holders(handles, b) - {h};
  }

  /** Moving one handle's target to another handle. */
  lemma Handover(handles: map<nat, Target>, h: nat, from: nat, b: nat)
    requires from in handles && h != from
    ensures |Holders(handles[h := handles[from]][from := Invalid], b)|
         == |Holders(handles, b)| - (if h in handles && handles[h] == To(b) then 1 else 0)
  {
    Repoint(handles, h, handles[from], b);
    Repoint(handles[h := handles[from]], from, Invalid, b);
  }

  /** Every block counts its handles, and one without handles has no resource. */
  ghost predicate Counted(w: World)
  {
    forall b: nat :: b < |w.blocks| ==>
      w.blocks[b].refs == Count(w, b) && (w.blocks[b].resource.Some? ==> w.blocks[b].refs > 0)
  }

  /** Resources are numbered once, belong to one block, and are gone once they are deleted. */
  ghost predicate Owned(w: World)
  {
    && (forall b: nat :: b < |w.blocks| && w.blocks[b].resource.Some? ==>
          w.blocks[b].resource.value < w.made && w.blocks[b].resource.value !in w.deleted)
    && (forall r :: r in w.deleted ==> r < w.made)
    && (forall b: nat, c: nat :: b < c < |w.blocks| && w.blocks[b].resource.Some? ==>
          w.blocks[b].resource != w.blocks[c].resource)
    && (forall i, j :: 0 <= i < j < |w.deleted| ==> w.deleted[i] != w.deleted[j])
  }

  /** No two blocks share a non-zero id and a type. */
  ghost predicate Distinct(w: World)
  {
    forall b: nat, c: nat :: b < c < |w.blocks| && w.blocks[b].id == w.blocks[c].id && w.blocks[b].kind == w.blocks[c].kind
                             ==> w.blocks[b].id == 0
  }

  ghost predicate Held(w: World, r: nat) { exists b: nat :: b < |w.blocks| && w.blocks[b].resource == Some(r) }

  /** Every resource ever made is held by a block or has been deleted. */
  ghost predicate Accounted(w: World)
  {
    forall r: nat :: r < w.made ==> r in w.deleted || Held(w, r)
  }

  ghost predicate Inv(w: World) { InBounds(w) && Counted(w) && Owned(w) && Distinct(w) && Accounted(w) }

  // ----- Every operation keeps it

  lemma RemoveRefKeepsOwned(w: World, t: Target)
    requires t.To? ==> t.block < |w.blocks|
    requires Owned(w)
    ensures Owned(RemoveRef(w, t))
  {
  }

  /** Counting up, and moving handles about, touches no resource. */
  lemma AttachKeepsOwned(w: World, h: nat, t: Target)
    requires (t.To? ==> t.block < |w.blocks|) && Owned(w)
    ensures Owned(Attach(w, h, t))
  {
  }

  lemma AttachMadeKeepsOwned(w: World, h: nat, id: nat, kind: nat)
    requires Owned(w)
    ensures Owned(AttachMade(w, h, id, kind))
  {
    var made := w.(blocks := w.blocks + [Block(id, kind, false, 0, Some(w.made))], made := w.made + 1);
    assert Owned(made);
    AttachKeepsOwned(made, h, To(|w.blocks|));
  }

  lemma LazyKeepsOwned(w: World, h: nat, id: nat, kind: nat)
    requires Owned(w)
    ensures Owned(Attach(w.(blocks := w.blocks + [Block(id, kind, true, 0, None)]), h, To(|w.blocks|)))
  {
    AttachKeepsOwned(w.(blocks := w.blocks + [Block(id, kind, true, 0, None)]), h, To(|w.blocks|));
  }

  lemma StepKeepsOwned(w: World, op: Op)
    requires Inv(w) && Allowed(w, op)
    ensures Owned(Step(w, op))
  {
    match op
    case Copy(h, from) => AttachKeepsOwned(w, h, w.handles[from]);
    case Destroy(h) => RemoveRefKeepsOwned(w.(handles := w.handles - {h}), w.handles[h]);
    case CopyAssign(h, from) =>
      RemoveRefKeepsOwned(w, w.handles[h]);
      AttachKeepsOwned(RemoveRef(w, w.handles[h]), h, w.handles[from]);
    case MoveAssign(h, from) => RemoveRefKeepsOwned(w, w.handles[h]);
    case Reset(h) => RemoveRefKeepsOwned(w, w.handles[h]);
    case LazyResource(h, id, kind, canLoad) =>
      var known := FindKnown(w.blocks, id, kind);
      if known.Some? {
        AttachKeepsOwned(w, h, To(known.value));
      } else {
        LazyKeepsOwned(w, h, id, kind);
      }
    case LoadResourceDirectly(h, id, kind, loads) =>
      var known := FindKnown(w.blocks, id, kind);
      if known.Some? {
        AttachKeepsOwned(w, h, To(known.value));
      } else {
        AttachMadeKeepsOwned(w, h, id, kind);
      }
    case TakeOwnership(h, kind) => AttachMadeKeepsOwned(w, h, 0, kind);
    case _ =>
  }

  /** A block in the same place with the same id, type and way to load. */
  ghost predicate SameBlock(w: World, after: World, b: nat)
  {
    && b < |w.blocks| && b < |after.blocks|
    && after.blocks[b].id == w.blocks[b].id && after.blocks[b].kind == w.blocks[b].kind
    && after.blocks[b].isLazy == w.blocks[b].isLazy
  }

  lemma RemoveRefSameBlock(w: World, t: Target, b: nat)
    requires (t.To? ==> t.block < |w.blocks|) && b < |w.blocks|
    ensures SameBlock(w, RemoveRef(w, t), b) && |RemoveRef(w, t).blocks| == |w.blocks|
  {
  }

  lemma AttachSameBlock(w: World, h: nat, t: Target, b: nat)
    requires (t.To? ==> t.block < |w.blocks|) && b < |w.blocks|
    ensures SameBlock(w, Attach(w, h, t), b) && |Attach(w, h, t).blocks| == |w.blocks|
  {
  }

  lemma AttachMadeSameBlock(w: World, h: nat, id: nat, kind: nat, b: nat)
    requires b < |w.blocks|
    ensures SameBlock(w, AttachMade(w, h, id, kind), b)
  {
  }

  lemma LookUpSameBlock(w: World, op: Op, b: nat)
    requires InBounds(w) && Allowed(w, op) && b < |w.blocks| && (op.LazyResource? || op.LoadResourceDirectly?)
    ensures SameBlock(w, Step(w, op), b)
  {
  }

  /** Blocks stay where they are, with their id and type, however many handles come and go. */
  lemma BlocksStay(w: World, op: Op, b: nat)
    requires InBounds(w) && Allowed(w, op) && b < |w.blocks|
    ensures SameBlock(w, Step(w, op), b)
  {
    match op
    case Copy(h, from) => AttachSameBlock(w, h, w.handles[from], b);
    case Destroy(h) => RemoveRefSameBlock(w.(handles := w.handles - {h}), w.handles[h], b);
    case CopyAssign(h, from) =>
      RemoveRefSameBlock(w, w.handles[h], b);
      AttachSameBlock(RemoveRef(w, w.handles[h]), h, w.handles[from], b);
    case MoveAssign(h, from) => RemoveRefSameBlock(w, w.handles[h], b);
    case Reset(h) => RemoveRefSameBlock(w, w.handles[h], b);
    case LazyResource(h, id, kind, canLoad) => LookUpSameBlock(w, op, b);
    case LoadResourceDirectly(h, id, kind, loads) => LookUpSameBlock(w, op, b);
    case TakeOwnership(h, kind) => AttachMadeSameBlock(w, h, 0, kind, b);
    case _ =>
  }

  lemma KeysDiffer(w: World, b: nat, c: nat)
    requires Inv(w) && b < |w.blocks| && c < |w.blocks|
    ensures b == c || w.blocks[b].id != w.blocks[c].id || w.blocks[b].kind != w.blocks[c].kind || w.blocks[b].id == 0
  {
  }

  lemma StepKeepsDistinct(w: World, op: Op)
    requires Inv(w) && Allowed(w, op)
    ensures Distinct(Step(w, op))
  {
    var after := Step(w, op);
    forall b: nat, c: nat | b < c < |after.blocks| && SameKey(after.blocks[b], after.blocks[c])
      ensures after.blocks[b].id == 0
    {
      BlocksStay(w, op, b);
      if c < |w.blocks| {
        BlocksStay(w, op, c);
        KeysDiffer(w, b, c);
      } else {
        NewKey(w, op, b);
      }
    }
  }

  predicate SameKey(b: Block, c: Block) { b.id == c.id && b.kind == c.kind }

  /** A block is only added for a key that has none, or for id zero. */
  lemma NewKey(w: World, op: Op, b: nat)
    requires Inv(w) && Allowed(w, op) && b < |w.blocks| < |Step(w, op).blocks|
    ensures |Step(w, op).blocks| == |w.blocks| + 1
    ensures SameKey(w.blocks[b], Step(w, op).blocks[|w.blocks|]) ==> Step(w, op).blocks[|w.blocks|].id == 0
  {
  }

  /** A handle to a block with one holder is that holder. */
  lemma OneHolder(w: World, h: nat, from: nat, b: nat)
    requires h in w.handles && from in w.handles && h != from && w.handles[h] == w.handles[from] == To(b)
    ensures Count(w, b) >= 2
  {
    assert {h, from} <= Holders(w.handles, b);
    Larger({h, from}, Holders(w.handles, b));
  }

  lemma Larger(a: set<nat>, b: set<nat>)
    requires a <= b
    ensures |a| <= |b|
  {
    assert b == a + (b - a);
  }

  lemma AttachKeepsCounted(w: World, h: nat, t: Target)
    requires InBounds(w) && Counted(w) && h !in w.handles && (t.To? ==> t.block < |w.blocks|)
    ensures InBounds(Attach(w, h, t)) && Counted(Attach(w, h, t))
  {
    forall b: nat | b < |w.blocks| {
      Repoint(w.handles, h, t, b);
    }
  }

  /** A new block has no handles yet. */
  lemma NewBlock(w: World, block: Block)
    requires InBounds(w) && Counted(w) && block.refs == 0 && block.resource.None?
    ensures InBounds(w.(blocks := w.blocks + [block])) && Counted(w.(blocks := w.blocks + [block]))
  {
    assert Holders(w.handles, |w.blocks|) == {};
  }

  lemma AttachMadeKeepsCounted(w: World, h: nat, id: nat, kind: nat)
    requires InBounds(w) && Counted(w) && h !in w.handles
    ensures InBounds(AttachMade(w, h, id, kind)) && Counted(AttachMade(w, h, id, kind))
  {
    var t := To(|w.blocks|);
    assert Holders(w.handles, |w.blocks|) == {};
    forall b: nat | b <= |w.blocks| {
      Repoint(w.handles, h, t, b);
    }
  }

  lemma CopyAssignKeepsCounted(w: World, h: nat, from: nat)
    requires Inv(w) && h in w.handles && from in w.handles && h != from
    ensures InBounds(Step(w, CopyAssign(h, from))) && Counted(Step(w, CopyAssign(h, from)))
  {
    if w.handles[h].To? && w.handles[h] == w.handles[from] {
      OneHolder(w, h, from, w.handles[h].block);
    }
    forall b: nat | b < |w.blocks| { Repoint(w.handles, h, w.handles[from], b); }
  }

  lemma MoveAssignKeepsCounted(w: World, h: nat, from: nat)
    requires Inv(w) && h in w.handles && from in w.handles && h != from
    ensures InBounds(Step(w, MoveAssign(h, from))) && Counted(Step(w, MoveAssign(h, from)))
  {
    forall b: nat | b < |w.blocks| { Handover(w.handles, h, from, b); }
  }

  lemma StepKeepsCounted(w: World, op: Op)
    requires Inv(w) && Allowed(w, op)
    ensures InBounds(Step(w, op)) && Counted(Step(w, op))
  {
    match op
    case Default(h) => forall b: nat | b < |w.blocks| { Repoint(w.handles, h, Invalid, b); }
    case Copy(h, from) => AttachKeepsCounted(w, h, w.handles[from]);
    case Move(h, from) => forall b: nat | b < |w.blocks| { Handover(w.handles, h, from, b); }
    case Destroy(h) => forall b: nat | b < |w.blocks| { Unpoint(w.handles, h, b); }
    case CopyAssign(h, from) => if h != from { CopyAssignKeepsCounted(w, h, from); }
    case MoveAssign(h, from) => if h != from { MoveAssignKeepsCounted(w, h, from); }
    case Reset(h) => forall b: nat | b < |w.blocks| { Repoint(w.handles, h, Invalid, b); }
    case Get(h, loads) =>
      if w.handles[h].To? {
        assert h in Holders(w.handles, w.handles[h].block);
      }
    case LazyResource(h, id, kind, canLoad) =>
      var known := FindKnown(w.blocks, id, kind);
      if known.Some? {
        AttachKeepsCounted(w, h, To(known.value));
      } else if canLoad {
        NewBlock(w, Block(id, kind, true, 0, None));
        AttachKeepsCounted(w.(blocks := w.blocks + [Block(id, kind, true, 0, None)]), h, To(|w.blocks|));
      } else {
        forall b: nat | b < |w.blocks| { Repoint(w.handles, h, Invalid, b); }
      }
    case LoadResourceDirectly(h, id, kind, loads) =>
      var known := FindKnown(w.blocks, id, kind);
      if known.Some? {
        AttachKeepsCounted(w, h, To(known.value));
      } else if loads {
        AttachMadeKeepsCounted(w, h, id, kind);
      } else {
        forall b: nat | b < |w.blocks| { Repoint(w.handles, h, Invalid, b); }
      }
    case TakeOwnership(h, kind) => AttachMadeKeepsCounted(w, h, 0, kind);
  }

  /** Resource `r` of block `b` is still there, or has been deleted because the block has no handle any more. */
  ghost predicate KeptOrDeleted(after: World, b: nat, r: nat)
  {
    && b < |after.blocks|
    && (|| (after.blocks[b].resource == Some(r) && r !in after.deleted)
        || (after.blocks[b].resource == None && r in after.deleted && after.blocks[b].refs == 0))
  }

  lemma RemoveRefKeepsOrDeletes(w: World, t: Target, b: nat)
    requires (t.To? ==> t.block < |w.blocks|) && Owned(w) && b < |w.blocks| && w.blocks[b].resource.Some?
    ensures KeptOrDeleted(RemoveRef(w, t), b, w.blocks[b].resource.value)
    ensures RemoveRef(w, t).blocks[b].resource == None ==> t == To(b) && w.blocks[b].refs == 1
  {
  }

  lemma AttachKeeps(w: World, h: nat, t: Target, b: nat, r: nat)
    requires (t.To? ==> t.block < |w.blocks|) && KeptOrDeleted(w, b, r) && t != To(b)
    ensures KeptOrDeleted(Attach(w, h, t), b, r)
  {
  }

  lemma CopyAssignKeepsOrDeletes(w: World, h: nat, from: nat, b: nat)
    requires Inv(w) && h in w.handles && from in w.handles && h != from && b < |w.blocks| && w.blocks[b].resource.Some?
    ensures KeptOrDeleted(Step(w, CopyAssign(h, from)), b, w.blocks[b].resource.value)
  {
    var less := RemoveRef(w, w.handles[h]);
    RemoveRefKeepsOrDeletes(w, w.handles[h], b);
    if w.handles[from] != To(b) {
      AttachKeeps(less, h, w.handles[from], b, w.blocks[b].resource.value);
    } else if w.handles[h] == To(b) {
      OneHolder(w, h, from, b);
    }
  }

  lemma MoveAssignKeepsOrDeletes(w: World, h: nat, from: nat, b: nat)
    requires Inv(w) && h in w.handles && from in w.handles && h != from && b < |w.blocks| && w.blocks[b].resource.Some?
    ensures KeptOrDeleted(Step(w, MoveAssign(h, from)), b, w.blocks[b].resource.value)
  {
    RemoveRefKeepsOrDeletes(w, w.handles[h], b);
  }

  lemma LookUpKeeps(w: World, op: Op, b: nat)
    requires Inv(w) && Allowed(w, op) && b < |w.blocks| && w.blocks[b].resource.Some?
    requires op.LazyResource? || op.LoadResourceDirectly? || op.TakeOwnership?
    ensures KeptOrDeleted(Step(w, op), b, w.blocks[b].resource.value)
  {
  }

  lemma ResourceKeptOrDeleted(w: World, op: Op, b: nat)
    requires Inv(w) && Allowed(w, op) && b < |w.blocks| && w.blocks[b].resource.Some?
    ensures KeptOrDeleted(Step(w, op), b, w.blocks[b].resource.value)
  {
    match op
    case Destroy(h) => RemoveRefKeepsOrDeletes(w.(handles := w.handles - {h}), w.handles[h], b);
    case CopyAssign(h, from) =>
      if h != from {
        CopyAssignKeepsOrDeletes(w, h, from, b);
      }
    case MoveAssign(h, from) =>
      if h != from {
        MoveAssignKeepsOrDeletes(w, h, from, b);
      }
    case Reset(h) => RemoveRefKeepsOrDeletes(w, w.handles[h], b);
    case LazyResource(_, _, _, _) => LookUpKeeps(w, op, b);
    case LoadResourceDirectly(_, _, _, _) => LookUpKeeps(w, op, b);
    case TakeOwnership(_, _) => LookUpKeeps(w, op, b);
    case _ =>
  }

  lemma HeldAt(w: World, b: nat, r: nat)
    requires b < |w.blocks| && w.blocks[b].resource == Some(r)
    ensures Held(w, r)
  {
  }

  lemma StepKeepsAccounted(w: World, op: Op)
    requires Inv(w) && Allowed(w, op)
    ensures Accounted(Step(w, op))
  {
    var after := Step(w, op);
    forall r: nat | r < after.made
      ensures r in after.deleted || Held(after, r)
    {
      if r == w.made {
        MadeIsHeld(w, op);
      } else if r in w.deleted {
        DeletedStays(w, op, r);
      } else {
        var b: nat :| b < |w.blocks| && w.blocks[b].resource == Some(r);
        ResourceKeptOrDeleted(w, op, b);
        if r !in after.deleted {
          HeldAt(after, b, r);
        }
      }
    }
  }

  lemma DeletedStays(w: World, op: Op, r: nat)
    requires Inv(w) && Allowed(w, op)
    ensures w.made <= Step(w, op).made <= w.made + 1
    ensures r in w.deleted ==> r in Step(w, op).deleted
  {
  }

  lemma MadeIsHeld(w: World, op: Op)
    requires Inv(w) && Allowed(w, op) && Step(w, op).made > w.made
    ensures Held(Step(w, op), w.made)
  {
    match op
    case Get(h, loads) => HeldAt(Step(w, op), w.handles[h].block, w.made);
    case LoadResourceDirectly(h, id, kind, loads) => HeldAt(Step(w, op), |w.blocks|, w.made);
    case TakeOwnership(h, kind) => HeldAt(Step(w, op), |w.blocks|, w.made);
    case _ =>
  }

  // ----- Runs

  predicate AllAllowed(w: World, ops: seq<Op>)
    requires InBounds(w)
    decreases ops
  {
    ops == [] || (Allowed(w, ops[0]) && InBounds(Step(w, ops[0])) && AllAllowed(Step(w, ops[0]), ops[1..]))
  }

  function Run(w: World, ops: seq<Op>): World
    requires InBounds(w) && AllAllowed(w, ops)
    decreases ops
  {
    if ops == [] then w else Run(Step(w, ops[0]), ops[1..])
  }

  lemma StepKeepsInv(w: World, op: Op)
    requires Inv(w) && Allowed(w, op)
    ensures Inv(Step(w, op))
  {
    StepKeepsCounted(w, op);
    StepKeepsOwned(w, op);
    StepKeepsDistinct(w, op);
    StepKeepsAccounted(w, op);
  }

  /** After any run every count is the number of handles, and nothing is deleted twice or while it is in use. */
  lemma {:induction false} RunKeepsInv(w: World, ops: seq<Op>)
    requires Inv(w) && AllAllowed(w, ops)
    ensures Inv(Run(w, ops))
    decreases ops
  {
    if ops != [] {
      StepKeepsInv(w, ops[0]);
      RunKeepsInv(Step(w, ops[0]), ops[1..]);
    }
  }

  lemma StartHasInv()
    ensures Inv(START)
  {
  }

  /**
   A resource stays as long as its block has a handle after the step, and is
   deleted in the step that takes the last one. That holds also for an
   assignment between two handles of one block, which drops the count before
   it raises it again.
   */
  lemma DeletedWithLastHandle(w: World, op: Op, b: nat)
    requires Inv(w) && Allowed(w, op) && b < |w.blocks| && w.blocks[b].resource.Some?
    ensures b < |Step(w, op).blocks|
    ensures var r := w.blocks[b].resource.value;
      if Count(Step(w, op), b) > 0 then Step(w, op).blocks[b].resource == Some(r) && r !in Step(w, op).deleted
      else Step(w, op).blocks[b].resource == None && r in Step(w, op).deleted
  {
    StepKeepsInv(w, op);
    BlocksStay(w, op, b);
    ResourceKeptOrDeleted(w, op, b);
  }

  /** When no handle refers to a block any more, every resource ever made has been deleted, once. */
  lemma NothingLeft(w: World, r: nat)
    requires Inv(w) && r < w.made && forall h :: h in w.handles ==> w.handles[h].Invalid?
    ensures r in w.deleted
  {
    forall b: nat | b < |w.blocks|
      ensures w.blocks[b].resource.None?
    {
      assert Holders(w.handles, b) == {};
    }
  }

  /** Worlds that differ in the sentinel's count at most. */
  predicate Alike(v: World, w: World) { v.(sentinel := 0) == w.(sentinel := 0) }

  lemma RemoveRefAlike(v: World, w: World, t: Target)
    requires Alike(v, w) && (t.To? ==> t.block < |w.blocks|)
    ensures Alike(RemoveRef(v, t), RemoveRef(w, t))
  {
  }

  lemma AttachAlike(v: World, w: World, h: nat, t: Target)
    requires Alike(v, w) && (t.To? ==> t.block < |w.blocks|)
    ensures Alike(Attach(v, h, t), Attach(w, h, t))
  {
  }

  lemma LookUpAlike(v: World, w: World, op: Op)
    requires Alike(v, w) && InBounds(v) && InBounds(w) && Allowed(v, op) && Allowed(w, op)
    requires op.LazyResource? || op.LoadResourceDirectly? || op.TakeOwnership?
    ensures Alike(Step(v, op), Step(w, op))
  {
  }

  /** What the uncounted sentinel counts makes no difference to anything else. */
  lemma SentinelIsHarmless(v: World, w: World, op: Op)
    requires Alike(v, w) && InBounds(w) && Allowed(w, op)
    ensures InBounds(v) && Allowed(v, op) && Alike(Step(v, op), Step(w, op))
  {
    match op
    case Copy(h, from) => AttachAlike(v, w, h, w.handles[from]);
    case Destroy(h) => RemoveRefAlike(v.(handles := v.handles - {h}), w.(handles := w.handles - {h}), w.handles[h]);
    case CopyAssign(h, from) =>
      RemoveRefAlike(v, w, w.handles[h]);
      AttachAlike(RemoveRef(v, w.handles[h]), RemoveRef(w, w.handles[h]), h, w.handles[from]);
    case MoveAssign(h, from) => RemoveRefAlike(v, w, w.handles[h]);
    case Reset(h) => RemoveRefAlike(v, w, w.handles[h]);
    case LazyResource(_, _, _, _) => LookUpAlike(v, w, op);
    case LoadResourceDirectly(_, _, _, _) => LookUpAlike(v, w, op);
    case TakeOwnership(_, _) => LookUpAlike(v, w, op);
    case _ =>
  }

  // ----- What handles refer to

  /** The handles that an operation makes, destroys or lets refer to something else. */
  function Changed(op: Op): set<nat>
  {
    match op
    case Default(h) => {h}
    case Copy(h, _) => {h}
    case Move(h, from) => {h, from}
    case Destroy(h) => {h}
    case CopyAssign(h, _) => {h}
    case MoveAssign(h, from) => {h, from}
    case Reset(h) => {h}
    case Get(_, _) => {}
    case LazyResource(h, _, _, _) => {h}
    case LoadResourceDirectly(h, _, _, _) => {h}
    case TakeOwnership(h, _) => {h}
  }

  /** The handle lives and refers to that. */
  predicate RefersTo(w: World, h: nat, t: Target) { h in w.handles && w.handles[h] == t }

  /** All other handles stay, and refer to what they did. */
  lemma OthersStay(w: World, op: Op, g: nat)
    requires InBounds(w) && Allowed(w, op) && g !in Changed(op)
    ensures g in Step(w, op).handles <==> g in w.handles
    ensures g in w.handles ==> RefersTo(Step(w, op), g, w.handles[g])
  {
  }

  /** What each operation on handles lets them refer to, in terms of what they referred to before. */
  lemma TargetsAfter(w: World, op: Op)
    requires InBounds(w) && Allowed(w, op)
    ensures var after := Step(w, op);
      match op
      case Default(h) => RefersTo(after, h, Invalid)
      case Copy(h, from) => RefersTo(after, h, w.handles[from]) && RefersTo(after, from, w.handles[from])
      case Move(h, from) => RefersTo(after, h, w.handles[from]) && RefersTo(after, from, Invalid)
      case Destroy(h) => h !in after.handles
      case CopyAssign(h, from) => RefersTo(after, h, w.handles[from]) && RefersTo(after, from, w.handles[from])
      case MoveAssign(h, from) => RefersTo(after, h, w.handles[from]) && (h != from ==> RefersTo(after, from, Invalid))
      case Reset(h) => RefersTo(after, h, Invalid)
      case Get(h, _) => RefersTo(after, h, w.handles[h])
      case LazyResource(h, _, _, _) => h in after.handles
      case LoadResourceDirectly(h, _, _, _) => h in after.handles
      case TakeOwnership(h, _) => RefersTo(after, h, To(|w.blocks|))
  {
  }

  /** The resource that a handle gives, if it is there. */
  function ResourceOf(w: World, h: nat): Option<nat>
  {
    if h in w.handles && w.handles[h].To? && w.handles[h].block < |w.blocks| then w.blocks[w.handles[h].block].resource
    else None
  }

  /** No operation of the run makes, destroys or redirects the handle. */
  predicate LeftAlone(ops: seq<Op>, c: nat) { forall op :: op in ops ==> c !in Changed(op) }

  /** A handle that is left alone keeps its resource, whatever else happens to the others of its block. */
  lemma {:induction false} KeepsResource(w: World, ops: seq<Op>, c: nat)
    requires Inv(w) && AllAllowed(w, ops) && LeftAlone(ops, c) && ResourceOf(w, c).Some?
    ensures ResourceOf(Run(w, ops), c) == ResourceOf(w, c)
    decreases ops
  {
    if ops != [] {
      OthersStay(w, ops[0], c);
      StepKeepsInv(w, ops[0]);
      HeldResourceStays(w, ops[0], c);
      KeepsResource(Step(w, ops[0]), ops[1..], c);
    }
  }

  lemma HeldResourceStays(w: World, op: Op, c: nat)
    requires Inv(w) && Allowed(w, op) && c !in Changed(op) && ResourceOf(w, c).Some?
    ensures ResourceOf(Step(w, op), c) == ResourceOf(w, c)
  {
    var b := w.handles[c].block;
    OthersStay(w, op, c);
    DeletedWithLastHandle(w, op, b);
    assert c in Holders(Step(w, op).handles, b);
  }

  /**
   What is got through a handle is got through every copy of it for as long as
   the copy lives, also when the first handle is gone.
   */
  lemma CopyHasResource(w: World, h: nat, c: nat, ops: seq<Op>)
    requires Inv(w) && h in w.handles && c !in w.handles && ResourceOf(w, h).Some?
    requires InBounds(Step(w, Copy(c, h))) && AllAllowed(Step(w, Copy(c, h)), ops) && LeftAlone(ops, c)
    ensures ResourceOf(Step(w, Copy(c, h)), h) == ResourceOf(w, h)
    ensures ResourceOf(Run(Step(w, Copy(c, h)), ops), c) == ResourceOf(w, h)
  {
    var copied := Step(w, Copy(c, h));
    TargetsAfter(w, Copy(c, h));
    StepKeepsInv(w, Copy(c, h));
    HeldResourceStays(w, Copy(c, h), h);
    KeepsResource(copied, ops, c);
  }

  /** Getting a resource gives the one that is there, or else a new one if the block is lazy and the loader has it. */
  lemma GetYields(w: World, h: nat, loads: bool)
    requires InBounds(w) && h in w.handles
    ensures ResourceOf(Step(w, Get(h, loads)), h)
         == if ResourceOf(w, h).Some? then ResourceOf(w, h)
            else if w.handles[h].To? && w.blocks[w.handles[h].block].isLazy && loads then Some(w.made)
            else None
  {
  }

  /** A resource that is given to the manager is got through the handle to it. */
  lemma OwnedIsThere(w: World, h: nat, kind: nat)
    requires InBounds(w) && h !in w.handles
    ensures ResourceOf(Step(w, TakeOwnership(h, kind)), h) == Some(w.made)
  {
  }

  // ----- Sharing

  /** Live handles whose blocks have the same non-zero id and type share one block. */
  lemma SameKeySameBlock(w: World, g: nat, h: nat)
    requires Inv(w) && g in w.handles && h in w.handles && w.handles[g].To? && w.handles[h].To?
    requires var b, c := w.blocks[w.handles[g].block], w.blocks[w.handles[h].block];
      b.id == c.id != 0 && b.kind == c.kind
    ensures w.handles[g] == w.handles[h]
  {
    KeysDiffer(w, w.handles[g].block, w.handles[h].block);
  }

  /** A look-up gives a handle to a block with the key, or to the sentinel. */
  lemma LookUpHasKey(w: World, op: Op)
    requires Inv(w) && Allowed(w, op) && (op.LazyResource? || op.LoadResourceDirectly?)
    ensures op.h in Step(w, op).handles
    ensures var t := Step(w, op).handles[op.h];
      t.Invalid? || (t.block < |Step(w, op).blocks| && Step(w, op).blocks[t.block].id == op.id
                     && Step(w, op).blocks[t.block].kind == op.kind)
  {
  }

  /** So a look-up of a key that some handle has gives a handle to the same block. */
  lemma LookUpShares(w: World, op: Op, g: nat)
    requires Inv(w) && Allowed(w, op) && (op.LazyResource? || op.LoadResourceDirectly?) && op.id != 0
    requires g in w.handles && w.handles[g].To?
    requires w.blocks[w.handles[g].block].id == op.id && w.blocks[w.handles[g].block].kind == op.kind
    ensures op.h in Step(w, op).handles && g in Step(w, op).handles
    ensures Step(w, op).handles[op.h] == Step(w, op).handles[g] == w.handles[g]
  {
    var b := w.handles[g].block;
    var known := FindKnown(w.blocks, op.id, op.kind);
    assert known.Some?;
    KeysDiffer(w, b, known.value);
  }

  /** The blocks of the resources that a run gives to the manager. */
  ghost function Given(w: World, ops: seq<Op>): set<nat>
    requires InBounds(w) && AllAllowed(w, ops)
    decreases ops
  {
    if ops == [] then {}
    else (if ops[0].TakeOwnership? then {|w.blocks|} else {}) + Given(Step(w, ops[0]), ops[1..])
  }

  lemma {:induction false} BlocksStayInRun(w: World, ops: seq<Op>, b: nat)
    requires InBounds(w) && AllAllowed(w, ops) && b < |w.blocks|
    ensures SameBlock(w, Run(w, ops), b)
    decreases ops
  {
    if ops != [] {
      BlocksStay(w, ops[0], b);
      BlocksStayInRun(Step(w, ops[0]), ops[1..], b);
    }
  }

  /** They have id zero. */
  lemma {:induction false} GivenHasNoId(w: World, ops: seq<Op>, b: nat)
    requires InBounds(w) && AllAllowed(w, ops) && b in Given(w, ops)
    ensures b < |Run(w, ops).blocks| && Run(w, ops).blocks[b].id == 0
    decreases ops
  {
    var after := Step(w, ops[0]);
    if ops[0].TakeOwnership? && b == |w.blocks| {
      assert after.blocks[b].id == 0;
      BlocksStayInRun(after, ops[1..], b);
    } else {
      GivenHasNoId(after, ops[1..], b);
    }
  }

  /** What a look-up gives: the first block with the key, or a block that was not there before, or none. */
  lemma LookUpTarget(w: World, op: Op)
    requires InBounds(w) && Allowed(w, op) && (op.LazyResource? || op.LoadResourceDirectly?)
    ensures op.h in Step(w, op).handles
    ensures match FindKnown(w.blocks, op.id, op.kind)
      case Some(b) => Step(w, op).handles[op.h] == To(b)
      case None => Step(w, op).handles[op.h] == Invalid || Step(w, op).handles[op.h] == To(|w.blocks|)
  {
  }

  /**
   A look-up hands out a resource that was given to the manager exactly if its
   id is zero and the first block of its type with id zero is one of those. So
   look-ups with other ids never do.
   */
  lemma GivenIsHandedOut(ops: seq<Op>, op: Op)
    requires AllAllowed(START, ops) && InBounds(Run(START, ops)) && Allowed(Run(START, ops), op)
    requires op.LazyResource? || op.LoadResourceDirectly?
    ensures var w := Run(START, ops);
      var known := FindKnown(w.blocks, op.id, op.kind);
      && op.h in Step(w, op).handles
      && ((exists b :: b in Given(START, ops) && Step(w, op).handles[op.h] == To(b))
          <==> op.id == 0 && known.Some? && known.value in Given(START, ops))
  {
    var w := Run(START, ops);
    LookUpTarget(w, op);
    var known := FindKnown(w.blocks, op.id, op.kind);
    forall b | b in Given(START, ops) && Step(w, op).handles[op.h] == To(b)
      ensures op.id == 0 && known == Some(b)
    {
      GivenHasNoId(START, ops, b);
    }
  }

  /** It happens: a resource is given to the manager, and one with id zero looked up. */
  lemma ZeroIdIsShared()
    ensures AllAllowed(START, [TakeOwnership(1, 7), LazyResource(2, 0, 7, true)])
    ensures Run(START, [TakeOwnership(1, 7), LazyResource(2, 0, 7, true)]).handles == map[1 := To(0), 2 := To(0)]
  {
    var ops := [TakeOwnership(1, 7), LazyResource(2, 0, 7, true)];
    var w1 := Step(START, ops[0]);
    assert ops[1..] == [LazyResource(2, 0, 7, true)];
    assert w1.blocks == [Block(0, 7, false, 1, Some(0))] && w1.handles == map[1 := To(0)];
    assert FindKnown(w1.blocks, 0, 7) == Some(0);
    var w2 := Step(w1, ops[1..][0]);
    assert w2.handles == map[1 := To(0), 2 := To(0)];
  }

  // ----- Blocks that cannot load again

  /** A block that is not lazy stays without a resource once it has lost it. */
  lemma {:induction false} DeadStaysDead(w: World, ops: seq<Op>, b: nat)
    requires Inv(w) && AllAllowed(w, ops) && b < |w.blocks|
    requires !w.blocks[b].isLazy && w.blocks[b].resource == None
    ensures b < |Run(w, ops).blocks| && Run(w, ops).blocks[b].resource == None
    decreases ops
  {
    if ops != [] {
      StepKeepsInv(w, ops[0]);
      BlocksStay(w, ops[0], b);
      StaysEmpty(w, ops[0], b);
      DeadStaysDead(Step(w, ops[0]), ops[1..], b);
    }
  }

  lemma StaysEmpty(w: World, op: Op, b: nat)
    requires Inv(w) && Allowed(w, op) && b < |w.blocks| && !w.blocks[b].isLazy && w.blocks[b].resource == None
    ensures b < |Step(w, op).blocks| && Step(w, op).blocks[b].resource == None
  {
  }

  /** The key's block has no resource and cannot load one: it was made with its resource, and its handles are gone. */
  predicate Dead(w: World, id: nat, kind: nat)
  {
    var known := FindKnown(w.blocks, id, kind);
    known.Some? && !w.blocks[known.value].isLazy && w.blocks[known.value].resource == None
  }

  predicate HasResource(w: World, h: nat)
  {
    h in w.handles && w.handles[h].To? && w.handles[h].block < |w.blocks| && w.blocks[w.handles[h].block].resource.Some?
  }

  /**
   Loading a resource directly and getting it: the resource is there exactly
   if its key is not dead and, where no block has the key, the loader has it. A
   block that is known, empty and lazy is loaded when it is got.
   */
  lemma DirectLoadYields(w: World, h: nat, id: nat, kind: nat, loads: bool)
    requires Inv(w) && h !in w.handles
    ensures var loaded := Step(w, LoadResourceDirectly(h, id, kind, loads));
      && Inv(loaded) && Allowed(loaded, Get(h, true))
      && (HasResource(Step(loaded, Get(h, true)), h)
          <==> !Dead(w, id, kind) && (FindKnown(w.blocks, id, kind).Some? || loads))
  {
    StepKeepsInv(w, LoadResourceDirectly(h, id, kind, loads));
    LookUpTarget(w, LoadResourceDirectly(h, id, kind, loads));
  }

  /**
   So it is for a lazy look-up and a get, where the resource is loaded by the
   get: it is there exactly if its key is not dead and, where no block has the
   key, the loader can load it.
   */
  lemma LazyYields(w: World, h: nat, id: nat, kind: nat, canLoad: bool)
    requires Inv(w) && h !in w.handles
    ensures var known := Step(w, LazyResource(h, id, kind, canLoad));
      && Inv(known) && Allowed(known, Get(h, true))
      && (FindKnown(w.blocks, id, kind).None? ==> ResourceOf(known, h) == None)
      && (HasResource(Step(known, Get(h, true)), h)
          <==> !Dead(w, id, kind) && (FindKnown(w.blocks, id, kind).Some? || canLoad))
  {
    StepKeepsInv(w, LazyResource(h, id, kind, canLoad));
    LookUpTarget(w, LazyResource(h, id, kind, canLoad));
  }

  lemma FirstStaysFirst(w: World, op: Op, id: nat, kind: nat)
    requires InBounds(w) && Allowed(w, op) && FindKnown(w.blocks, id, kind).Some?
    ensures FindKnown(Step(w, op).blocks, id, kind) == FindKnown(w.blocks, id, kind)
  {
    var b := FindKnown(w.blocks, id, kind).value;
    forall k: nat | k <= b
      ensures SameBlock(w, Step(w, op), k)
    {
      BlocksStay(w, op, k);
    }
    var known := FindKnown(Step(w, op).blocks, id, kind);
    assert Step(w, op).blocks[b].id == id && Step(w, op).blocks[b].kind == kind;
    assert known.Some? && known.value <= b;
    assert SameBlock(w, Step(w, op), known.value);
  }

  /** A dead key is dead for ever: after any run, direct loads of it yield nothing. */
  lemma {:induction false} DeadForEver(w: World, ops: seq<Op>, id: nat, kind: nat)
    requires Inv(w) && AllAllowed(w, ops) && Dead(w, id, kind)
    ensures Dead(Run(w, ops), id, kind)
    decreases ops
  {
    if ops != [] {
      var b := FindKnown(w.blocks, id, kind).value;
      StepKeepsInv(w, ops[0]);
      FirstStaysFirst(w, ops[0], id, kind);
      BlocksStay(w, ops[0], b);
      StaysEmpty(w, ops[0], b);
      DeadForEver(Step(w, ops[0]), ops[1..], id, kind);
    }
  }

  /** A resource that is loaded directly, dropped, and loaded directly again is not there. */
  lemma LoadedAgain(id: nat, kind: nat)
    ensures var ops := [LoadResourceDirectly(1, id, kind, true), Destroy(1), LoadResourceDirectly(2, id, kind, true)];
      && AllAllowed(START, ops)
      && Run(START, ops).handles == map[2 := To(0)] && Run(START, ops).blocks == [Block(id, kind, false, 1, None)]
  {
    var ops := [LoadResourceDirectly(1, id, kind, true), Destroy(1), LoadResourceDirectly(2, id, kind, true)];
    var w1 := Step(START, ops[0]);
    assert w1.blocks == [Block(id, kind, false, 1, Some(0))] && w1.handles == map[1 := To(0)];
    var w2 := Step(w1, ops[1..][0]);
    assert w2.blocks == [Block(id, kind, false, 0, None)] && w2.handles == map[];
    assert FindKnown(w2.blocks, id, kind) == Some(0);
    var w3 := Step(w2, ops[1..][1..][0]);
    assert w3.blocks == [Block(id, kind, false, 1, None)] && w3.handles == map[2 := To(0)];
    assert ops[1..][1..][1..] == [];
    assert AllAllowed(w3, []) && Run(w3, []) == w3;
    assert AllAllowed(w2, ops[1..][1..]) && Run(w2, ops[1..][1..]) == w3;
    assert AllAllowed(w1, ops[1..]) && Run(w1, ops[1..]) == w3;
  }
}
