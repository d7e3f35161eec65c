/** The handle operations and the manager's look-ups, statement by statement. */
module ResourceManager {
  import opened Wrappers
  import opened ResourceHandles

  class Manager {
    var blocks: seq<Block>
    var handles: map<nat, Target>
    var sentinel: int
    var made: nat
    var deleted: seq<nat>

    ghost function State(): World
      reads this
    {
      World(blocks, handles, sentinel, made, deleted)
    }

    constructor ()
      ensures State() == START
    {
      blocks, handles, sentinel, made, deleted := [], map[], 0, 0, [];
    }

    method AddStrongRef(t: Target)
      requires t.To? ==> t.block < |blocks|
      modifies this
      ensures State() == AddRef(old(State()), t)
    {
      match t {
        case Invalid => sentinel := sentinel + 1;
        case To(b) => blocks := blocks[b := blocks[b].(refs := blocks[b].refs + 1)];
      }
    }

    method OnZeroShared(b: nat)
      requires b < |blocks|
      modifies this
      ensures State() == old(State()).(blocks := old(blocks)[b := old(blocks[b]).(resource := None)],
                                       deleted := old(deleted) + match old(blocks[b]).resource { case None => [] case Some(r) => [r] })
    {
      match blocks[b].resource {
        case None =>
        case Some(r) => deleted := deleted + [r];
      }
      blocks := blocks[b := blocks[b].(resource := None)];
    }

    method RemoveStrongRef(t: Target)
      requires t.To? ==> t.block < |blocks|
      modifies this
      ensures State() == RemoveRef(old(State()), t)
    {
      match t {
        case Invalid => sentinel := sentinel - 1;
        case To(b) =>
          blocks := blocks[b := blocks[b].(refs := blocks[b].refs - 1)];
          if blocks[b].refs == 0 {
            OnZeroShared(b);
          }
      }
    }

    // ----- Handles

    method DefaultHandle(h: nat)
      requires InBounds(State()) && Allowed(State(), Default(h))
      modifies this
      ensures State() == Step(old(State()), Default(h))
    {
      handles := handles[h := Invalid];
    }

    method CopyHandle(h: nat, from: nat)
      requires InBounds(State()) && Allowed(State(), Copy(h, from))
      modifies this
      ensures State() == Step(old(State()), Copy(h, from))
    {
      handles := handles[h := handles[from]];
      AddStrongRef(handles[h]);
    }

    method MoveHandle(h: nat, from: nat)
      requires InBounds(State()) && Allowed(State(), Move(h, from))
      modifies this
      ensures State() == Step(old(State()), Move(h, from))
    {
      handles := handles[h := handles[from]];
      handles := handles[from := Invalid];
    }

    method DestroyHandle(h: nat)
      requires InBounds(State()) && Allowed(State(), Destroy(h))
      modifies this
      ensures State() == Step(old(State()), Destroy(h))
    {
      RemoveStrongRef(handles[h]);
      handles := handles - {h};
    }

    method AssignCopy(h: nat, from: nat)
      requires InBounds(State()) && Allowed(State(), CopyAssign(h, from))
      modifies this
      ensures State() == Step(old(State()), CopyAssign(h, from))
    {
      if h != from {
        RemoveStrongRef(handles[h]);
        handles := handles[h := handles[from]];
        AddStrongRef(handles[h]);
      }
    }

    method AssignMove(h: nat, from: nat)
      requires InBounds(State()) && Allowed(State(), MoveAssign(h, from))
      modifies this
      ensures State() == Step(old(State()), MoveAssign(h, from))
    {
      if h != from {
        RemoveStrongRef(handles[h]);
        handles := handles[h := handles[from]];
        handles := handles[from := Invalid];
      }
    }

    method AssignNull(h: nat)
      requires InBounds(State()) && Allowed(State(), Reset(h))
      modifies this
      ensures State() == Step(old(State()), Reset(h))
    {
      RemoveStrongRef(handles[h]);
      handles := handles[h := Invalid];
    }

    /** The resource of a handle, loaded now if need be and if its block can. */
    method GetResource(h: nat, loads: bool) returns (r: Option<nat>)
      requires InBounds(State()) && Allowed(State(), Get(h, loads))
      modifies this
      ensures State() == Step(old(State()), Get(h, loads))
      ensures r == if handles[h].To? then blocks[handles[h].block].resource else None
    {
      match handles[h] {
        case Invalid => return None;
        case To(b) =>
          if blocks[b].resource.None? && blocks[b].isLazy && loads {
            blocks := blocks[b := blocks[b].(resource := Some(made))];
            made := made + 1;
          }
          return blocks[b].resource;
      }
    }

    // ----- Look-ups

    method FindKnownControlBlockFor(id: nat, kind: nat) returns (r: Option<nat>)
      ensures r == FindKnown(blocks, id, kind)
    {
      for i := 0 to |blocks|
        invariant FindKnown(blocks, id, kind) == FindFrom(blocks, id, kind, i)
      {
        if blocks[i].kind == kind && blocks[i].id == id {
          return Some(i);
        }
      }
      r := None;
    }

    method MakeMemoryContainer(id: nat, kind: nat) returns (b: nat)
      modifies this
      ensures b == |old(blocks)|
      ensures State() == old(State()).(blocks := old(blocks) + [Block(id, kind, false, 0, Some(old(made)))], made := old(made) + 1)
    {
      b := |blocks|;
      blocks := blocks + [Block(id, kind, false, 0, Some(made))];
      made := made + 1;
    }

    /** A new handle to a block, or to the sentinel. */
    method NewHandle(h: nat, t: Target)
      requires t.To? ==> t.block < |blocks|
      modifies this
      ensures State() == Attach(old(State()), h, t)
    {
      handles := handles[h := t];
      AddStrongRef(t);
    }

    method Lazy(h: nat, id: nat, kind: nat, canLoad: bool)
      requires InBounds(State()) && Allowed(State(), LazyResource(h, id, kind, canLoad))
      modifies this
      ensures State() == Step(old(State()), LazyResource(h, id, kind, canLoad))
    {
      var known := FindKnownControlBlockFor(id, kind);
      if known.Some? {
        NewHandle(h, To(known.value));
        return;
      }
      if !canLoad {
        handles := handles[h := Invalid];
        return;
      }
      blocks := blocks + [Block(id, kind, true, 0, None)];
      NewHandle(h, To(|blocks| - 1));
    }

    method LoadDirectly(h: nat, id: nat, kind: nat, loads: bool)
      requires InBounds(State()) && Allowed(State(), LoadResourceDirectly(h, id, kind, loads))
      modifies this
      ensures State() == Step(old(State()), LoadResourceDirectly(h, id, kind, loads))
    {
      var known := FindKnownControlBlockFor(id, kind);
      if known.Some? {
        NewHandle(h, To(known.value));
        return;
      }
      if !loads {
        handles := handles[h := Invalid];
        return;
      }
      var b := MakeMemoryContainer(id, kind);
      NewHandle(h, To(b));
    }

    method Own(h: nat, kind: nat)
      requires InBounds(State()) && Allowed(State(), TakeOwnership(h, kind))
      modifies this
      ensures State() == Step(old(State()), TakeOwnership(h, kind))
    {
      var b := MakeMemoryContainer(0, kind);
      NewHandle(h, To(b));
    }
  }
}
