/** What becomes of the table in one slot, whatever else happens: deletions delete it, and nothing but a creation
    or deletion in its slot touches it. */
module TableTheorems {
  import opened DataTables

  lemma {:induction false} ExecAllJoins(s: Store, a: seq<Op>, b: seq<Op>)
    ensures ExecAll(s, a + b) == ExecAll(ExecAll(s, a), b)
    decreases |a|
  {
    hide Exec;
    if a == [] {
      assert a + b == b;
    } else {
      assert (a + b)[0] == a[0] && (a + b)[1..] == a[1..] + b;
      ExecAllJoins(Exec(s, a[0]), a[1..], b);
    }
  }

  lemma {:induction false} AllInRangeJoins(a: seq<Op>, b: seq<Op>)
    ensures AllInRange(a + b) <==> AllInRange(a) && AllInRange(b)
  {
    hide InRange;
    if a == [] {
      assert a + b == b;
    } else {
      assert (a + b)[0] == a[0] && (a + b)[1..] == a[1..] + b;
      AllInRangeJoins(a[1..], b);
    }
  }

  // ---------------------------------------------------------------- deletions

  /** A deletion that goes through, by whichever wrapper. */
  predicate Deletes(op: Op, slot: Slot) {
    match op
    case HookedDelete(of, _, refused, _, _) => of == slot && !refused
    case LuaRemove(of, _) => of == slot
    case _ => false
  }

  /** What happens while it is on its way. */
  function OnTheWay(op: Op): seq<Op> {
    match op
    case HookedDelete(_, pre, _, engine, post) => pre + engine + post
    case LuaRemove(_, engine) => engine
    case _ => []
  }

  /** A table that has left its slot has been deleted, once. */
  lemma GoneIsFreed(u: Store, t: Store, slot: Slot)
    requires Sound(u) && Sound(t) && OnlyNewer(u, t) && slot in u.slots && slot !in t.slots
    ensures u.frees[u.slots[slot]] == 0 && t.frees[u.slots[slot]] == 1
  {
    assert forall other :: other in t.slots ==> t.slots[other] != u.slots[slot];
  }

  lemma DeletionClears(s: Store, op: Op, slot: Slot)
    requires Sound(s) && InRange(op) && Deletes(op, slot)
    ensures AllInRange(OnTheWay(op)) && slot !in Exec(s, op).slots
    ensures Sound(ExecAll(s, OnTheWay(op))) && OnlyNewer(ExecAll(s, OnTheWay(op)), Exec(s, op))
  {
    hide Sound, OnlyNewer, Clear;
    if op.HookedDelete? {
      AllInRangeJoins(op.pre, op.engine);
      AllInRangeJoins(op.pre + op.engine, op.post);
      ExecAllJoins(s, op.pre, op.engine);
      ExecAllJoins(s, op.pre + op.engine, op.post);
    }
    ExecAllKeeps(s, OnTheWay(op));
    ClearKeeps(ExecAll(s, OnTheWay(op)), slot);
  }

  /** When a deletion returns, the slot is empty, and every table it held at any time on the way has been deleted
      exactly once: what the hooks attach to the entity, before or after, does not outlive it. */
  lemma DeletedIsGone(s: Store, op: Op, slot: Slot)
    requires Sound(s) && InRange(op) && Deletes(op, slot)
    ensures slot !in Exec(s, op).slots
    ensures forall i :: 0 <= i <= |OnTheWay(op)| ==>
      var u := ExecAll(s, OnTheWay(op)[..i]);
      slot in u.slots ==> Exec(s, op).frees[u.slots[slot]] == 1
  {
    hide Sound, OnlyNewer, Exec, ExecAll, Deletes, OnTheWay, AllInRange;
    var all := OnTheWay(op);
    DeletionClears(s, op, slot);
    ExecKeeps(s, op);
    forall i | 0 <= i <= |all|
      ensures var u := ExecAll(s, all[..i]);
        slot in u.slots ==> Exec(s, op).frees[u.slots[slot]] == 1
    {
      var before, after := all[..i], all[i..];
      assert all == before + after;
      AllInRangeJoins(before, after);
      ExecAllJoins(s, before, after);
      ExecAllKeeps(s, before);
      var u := ExecAll(s, before);
      ExecAllKeeps(u, after);
      OnlyNewerChains(u, ExecAll(s, all), Exec(s, op));
      if slot in u.slots { GoneIsFreed(u, Exec(s, op), slot); }
    }
  }

  // ---------------------------------------------------------------- what reaches a slot

  /** A script asks for the slot's table, or a wrapper deletes it. */
  datatype Access = Get(slot: Slot) | Drop(slot: Slot)

  /** The accesses an operation makes, in order. */
  function Accesses(op: Op): seq<Access>
    decreases op, 1
  {
    match op
    case GetData(slot) => [Get(slot)]
    case HookedCreate(kind, pre, refused, engine, id, post) =>
      if refused then AccessesOf(pre)
      else if id == -1 then AccessesOf(pre) + AccessesOf(engine)
      else if id < 0 then []
      else if kind == Item then AccessesOf(pre) + AccessesOf(engine) + AccessesOf(post) + [Drop(Slot(kind, id))]
      else AccessesOf(pre) + AccessesOf(engine) + [Drop(Slot(kind, id))] + AccessesOf(post)
    case HookedDelete(slot, pre, refused, engine, post) =>
      if refused then AccessesOf(pre)
      else AccessesOf(pre) + AccessesOf(engine) + AccessesOf(post) + [Drop(slot)]
    case LuaCreate(kind, engine, id) =>
      AccessesOf(engine) + if id < 0 then [] else [Drop(Slot(kind, id))]
    case LuaRemove(slot, engine) => AccessesOf(engine) + [Drop(slot)]
  }

  function AccessesOf(ops: seq<Op>): seq<Access>
    decreases ops, 0
  {
    if ops == [] then [] else Accesses(ops[0]) + AccessesOf(ops[1..])
  }

  function Replay(s: Store, accesses: seq<Access>): Store {
    if accesses == [] then s
    else
      var before := Replay(s, accesses[..|accesses| - 1]);
      match accesses[|accesses| - 1]
      case Get(slot) => Fetch(before, slot)
      case Drop(slot) => Clear(before, slot)
  }

  lemma {:induction false} ReplayJoins(s: Store, a: seq<Access>, b: seq<Access>)
    ensures Replay(s, a + b) == Replay(Replay(s, a), b)
    decreases |b|
  {
    hide Fetch, Clear;
    if b == [] {
      assert a + b == a;
    } else {
      ReplayJoins(s, a, b[..|b| - 1]);
      assert (a + b)[..|a + b| - 1] == a + b[..|b| - 1];
    }
  }

  lemma ReplayOne(s: Store, slot: Slot)
    ensures Replay(s, [Get(slot)]) == Fetch(s, slot) && Replay(s, [Drop(slot)]) == Clear(s, slot)
  {
    assert [Get(slot)][..0] == [] && [Drop(slot)][..0] == [];
  }

  /** An operation does to the tables what its accesses do one after the other, and nothing else. */
  lemma {:induction false} ExecReplays(s: Store, op: Op)
    requires InRange(op)
    ensures Exec(s, op) == Replay(s, Accesses(op))
    decreases op, 1
  {
    hide Replay, Fetch, Clear;
    match op {
      case GetData(slot) => ReplayOne(s, slot);
      case HookedCreate(kind, pre, refused, engine, id, post) =>
        ExecAllReplays(s, pre);
        if !refused {
          var asked := ExecAll(s, pre);
          ExecAllReplays(asked, engine);
          ReplayJoins(s, AccessesOf(pre), AccessesOf(engine));
          if id >= 0 {
            CreationReplays(s, kind, AccessesOf(pre) + AccessesOf(engine), id, post, ExecAll(asked, engine));
          }
        }
      case HookedDelete(slot, pre, refused, engine, post) =>
        ExecAllReplays(s, pre);
        if !refused {
          var asked := ExecAll(s, pre);
          var gone := ExecAll(asked, engine);
          ExecAllReplays(asked, engine);
          ReplayJoins(s, AccessesOf(pre), AccessesOf(engine));
          ExecAllReplays(gone, post);
          ReplayJoins(s, AccessesOf(pre) + AccessesOf(engine), AccessesOf(post));
          ReplayJoins(s, AccessesOf(pre) + AccessesOf(engine) + AccessesOf(post), [Drop(slot)]);
          ReplayOne(ExecAll(gone, post), slot);
        }
      case LuaCreate(kind, engine, id) =>
        ExecAllReplays(s, engine);
        if id >= 0 {
          ReplayJoins(s, AccessesOf(engine), [Drop(Slot(kind, id))]);
          ReplayOne(ExecAll(s, engine), Slot(kind, id));
        } else {
          assert AccessesOf(engine) + [] == AccessesOf(engine);
        }
      case LuaRemove(slot, engine) =>
        ExecAllReplays(s, engine);
        ReplayJoins(s, AccessesOf(engine), [Drop(slot)]);
        ReplayOne(ExecAll(s, engine), slot);
    }
  }

  /** The two orders in which a new entity's slot is cleared and the hook after its creation runs. */
  lemma {:induction false} CreationReplays(s: Store, kind: Kind, accesses: seq<Access>, id: nat, post: seq<Op>,
      made: Store)
    requires AllInRange(post) && made == Replay(s, accesses)
    ensures var slot := Slot(kind, id);
      && Clear(ExecAll(made, post), slot) == Replay(s, accesses + AccessesOf(post) + [Drop(slot)])
      && ExecAll(Clear(made, slot), post) == Replay(s, accesses + [Drop(slot)] + AccessesOf(post))
    decreases post, 1
  {
    hide Replay, Fetch, Clear, Exec;
    var slot := Slot(kind, id);
    ExecAllReplays(made, post);
    ReplayJoins(s, accesses, AccessesOf(post));
    ReplayJoins(s, accesses + AccessesOf(post), [Drop(slot)]);
    ReplayOne(ExecAll(made, post), slot);
    ReplayOne(made, slot);
    ReplayJoins(s, accesses, [Drop(slot)]);
    ExecAllReplays(Clear(made, slot), post);
    ReplayJoins(s, accesses + [Drop(slot)], AccessesOf(post));
  }

  lemma {:induction false} ExecAllReplays(s: Store, ops: seq<Op>)
    requires AllInRange(ops)
    ensures ExecAll(s, ops) == Replay(s, AccessesOf(ops))
    decreases ops, 0
  {
    hide Fetch, Clear;
    if ops != [] {
      ExecReplays(s, ops[0]);
      ExecAllReplays(Exec(s, ops[0]), ops[1..]);
      ReplayJoins(s, Accesses(ops[0]), AccessesOf(ops[1..]));
    }
  }

  // ---------------------------------------------------------------- what follows for one slot

  /** A slot ends up filled exactly if the last access to it was a script's, or it had a table and none was made. */
  ghost predicate EndsFilled(filled: bool, accesses: seq<Access>, slot: Slot) {
    if accesses == [] then filled
    else
      var last := accesses[|accesses| - 1];
      if last.slot == slot then last.Get? else EndsFilled(filled, accesses[..|accesses| - 1], slot)
  }

  lemma {:induction false} FilledIff(s: Store, accesses: seq<Access>, slot: Slot)
    ensures slot in Replay(s, accesses).slots <==> EndsFilled(slot in s.slots, accesses, slot)
    decreases |accesses|
  {
    if accesses != [] { FilledIff(s, accesses[..|accesses| - 1], slot); }
  }

  /** So of an operation, however it nests. */
  lemma FilledAfterIff(s: Store, op: Op, slot: Slot)
    requires InRange(op)
    ensures slot in Exec(s, op).slots <==> EndsFilled(slot in s.slots, Accesses(op), slot)
  {
    ExecReplays(s, op);
    FilledIff(s, Accesses(op), slot);
  }

  lemma {:induction false} KeptUnlessDropped(s: Store, accesses: seq<Access>, slot: Slot)
    requires slot in s.slots && Drop(slot) !in accesses
    ensures var t := Replay(s, accesses);
      slot in t.slots && t.slots[slot] == s.slots[slot]
    decreases |accesses|
  {
    if accesses != [] {
      var before, last := accesses[..|accesses| - 1], accesses[|accesses| - 1];
      assert accesses == before + [last];
      KeptUnlessDropped(s, before, slot);
    }
  }

  /** A script that asks twice gets the same table, whatever happens in between that neither creates nor deletes in
      that slot, and the second time allocates none. */
  lemma SecondFetchFindsTable(s: Store, slot: Slot, ops: seq<Op>)
    requires AllInRange(ops) && Drop(slot) !in AccessesOf(ops)
    ensures var first := Exec(s, GetData(slot));
      var later := ExecAll(first, ops);
      && slot in first.slots && slot in later.slots && later.slots[slot] == first.slots[slot]
      && Exec(later, GetData(slot)) == later
  {
    hide AccessesOf, Replay, ExecAll;
    ExecAllReplays(Fetch(s, slot), ops);
    KeptUnlessDropped(Fetch(s, slot), AccessesOf(ops), slot);
  }

  /** What a hook refuses does not happen, and what the engine could not create has no hook after it. */
  lemma RefusedOrFailed(s: Store, kind: Kind, slot: Slot, pre: seq<Op>, engine: seq<Op>, id: int, post: seq<Op>)
    ensures Exec(s, HookedCreate(kind, pre, true, engine, id, post)) == ExecAll(s, pre)
    ensures Exec(s, HookedDelete(slot, pre, true, engine, post)) == ExecAll(s, pre)
    ensures Exec(s, HookedCreate(kind, pre, false, engine, -1, post)) == ExecAll(s, pre + engine)
  {
    ExecAllJoins(s, pre, engine);
  }

  /** The hook after a deletion still finds the table the entity had: it allocates none, and that table is the one
      then deleted. */
  lemma DeleteHookFindsTable(s: Store, slot: Slot, pre: seq<Op>, engine: seq<Op>)
    requires Sound(s) && slot.Valid() && AllInRange(pre) && AllInRange(engine) && slot in s.slots
    requires Drop(slot) !in AccessesOf(pre) && Drop(slot) !in AccessesOf(engine)
    ensures var t := Exec(s, HookedDelete(slot, pre, false, engine, [GetData(slot)]));
      && t.next == ExecAll(s, pre + engine).next
      && slot !in t.slots && t.frees[s.slots[slot]] == 1
  {
    hide AccessesOf, Replay, Sound, Fetch, ExecAll;
    var op := HookedDelete(slot, pre, false, engine, [GetData(slot)]);
    ExecAllReplays(s, pre);
    KeptUnlessDropped(s, AccessesOf(pre), slot);
    ExecAllReplays(ExecAll(s, pre), engine);
    KeptUnlessDropped(ExecAll(s, pre), AccessesOf(engine), slot);
    ExecAllJoins(s, pre, engine);
    var gone := ExecAll(ExecAll(s, pre), engine);
    OneFetch(gone, slot);
    assert Fetch(gone, slot) == gone by { FilledFetch(gone, slot); }
    OneInRange(slot);
    assert OnTheWay(op)[..0] == [];
    DeletedIsGone(s, op, slot);
    NoOperation(s);
  }

  lemma FilledFetch(s: Store, slot: Slot)
    requires slot in s.slots
    ensures Fetch(s, slot) == s
  {}

  lemma NoOperation(s: Store)
    ensures ExecAll(s, []) == s
  {}

  lemma OneInRange(slot: Slot)
    requires slot.Valid()
    ensures AllInRange([GetData(slot)])
  {
    assert [GetData(slot)][1..] == [];
  }
}
