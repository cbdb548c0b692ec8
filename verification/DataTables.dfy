/** The Lua tables that scripts attach to accounts, players, humans, items, vehicles and bodies: allocated
    on first use, freed by the create and delete wrappers, and all swept when the Lua state is replaced.

    This module has the specification: what each operation does to the table slots, including whatever
    hooks and the engine do in between, and what holds of every run. */
module DataTables {

  datatype Kind = Account | Player | Human | Item | Vehicle | Body

  function Count(kind: Kind): nat {
    match kind
    case Account => 32768
    case Player => 256
    case Human => 256
    case Item => 1024
    case Vehicle => 512
    case Body => 8192
  }

  datatype Slot = Slot(kind: Kind, index: nat) {
    predicate Valid() { index < Count(kind) }
  }

  /** Tables are numbered in the order of their allocation. `frees` counts how often each was deleted, and
      `owner` gives the Lua state each was allocated in. An absent slot is a null pointer. */
  datatype Store = Store(slots: map<Slot, nat>, next: nat, frees: multiset<nat>, owner: map<nat, nat>, lua: nat)

  /** What may happen to the tables. Lists of operations stand for whatever a Lua hook or an engine call does
      in between. An id of -1 is the engine's failure. */
  datatype Op =
    | GetData(slot: Slot)
    // the hooked engine functions: hook before, whether it refused, the engine, hook after
    | HookedCreate(kind: Kind, pre: seq<Op>, refused: bool, engine: seq<Op>, id: int, post: seq<Op>)
    | HookedDelete(slot: Slot, pre: seq<Op>, refused: bool, engine: seq<Op>, post: seq<Op>)
    // the functions scripts call; for humans `engine` includes deleting the player's old human
    | LuaCreate(kind: Kind, engine: seq<Op>, id: int)
    | LuaRemove(slot: Slot, engine: seq<Op>)

  /** Ids the engine and the scripts use are in range. */
  predicate InRange(op: Op)
    decreases op, 1
  {
    match op
    case GetData(slot) => slot.Valid()
    case HookedCreate(kind, pre, _, engine, id, post) =>
      -1 <= id < Count(kind) && AllInRange(pre) && AllInRange(engine) && AllInRange(post)
    case HookedDelete(slot, pre, _, engine, post) =>
      slot.Valid() && AllInRange(pre) && AllInRange(engine) && AllInRange(post)
    case LuaCreate(kind, engine, id) => -1 <= id < Count(kind) && AllInRange(engine)
    case LuaRemove(slot, engine) => slot.Valid() && AllInRange(engine)
  }

  predicate AllInRange(ops: seq<Op>)
    decreases ops, 0
  {
    ops == [] || (InRange(ops[0]) && AllInRange(ops[1..]))
  }

  function Fetch(s: Store, slot: Slot): Store {
    if slot in s.slots then s
    else s.(slots := s.slots[slot := s.next], owner := s.owner[s.next := s.lua], next := s.next + 1)
  }

  function Clear(s: Store, slot: Slot): Store {
    if slot in s.slots then s.(slots := s.slots - {slot}, frees := s.frees + multiset{s.slots[slot]}) else s
  }

  function ClearNew(s: Store, kind: Kind, id: int): Store {
    if id < 0 then s else Clear(s, Slot(kind, id))
  }

  function Exec(s: Store, op: Op): Store
    decreases op, 1
  {
    match op
    case GetData(slot) => Fetch(s, slot)
    case HookedCreate(kind, pre, refused, engine, id, post) =>
      var asked := ExecAll(s, pre);
      if refused then asked
      else if kind.Item? then ClearNew(ExecPost(ExecAll(asked, engine), id, post), kind, id)
      else ExecPost(ClearNew(ExecAll(asked, engine), kind, id), id, post)
    case HookedDelete(slot, pre, refused, engine, post) =>
      var asked := ExecAll(s, pre);
      if refused then asked else Clear(ExecAll(ExecAll(asked, engine), post), slot)
    case LuaCreate(kind, engine, id) => ClearNew(ExecAll(s, engine), kind, id)
    case LuaRemove(slot, engine) => Clear(ExecAll(s, engine), slot)
  }

  /** The hook after a creation runs only if there was one. */
  function ExecPost(s: Store, id: int, post: seq<Op>): Store
    decreases post, 1
  {
    if id == -1 then s else ExecAll(s, post)
  }

  function ExecAll(s: Store, ops: seq<Op>): Store
    decreases ops, 0
  {
    if ops == [] then s else ExecAll(Exec(s, ops[0]), ops[1..])
  }

  /** Deletes the first `n` tables of one array. */
  function Sweep(s: Store, kind: Kind, n: nat): Store {
    if n == 0 then s else Clear(Sweep(s, kind, n - 1), Slot(kind, n - 1))
  }

  /** `luaInit`: all six arrays are swept before the Lua state is replaced. */
  function Reset(s: Store): Store {
    var swept := Sweep(Sweep(Sweep(Sweep(Sweep(Sweep(s, Account, Count(Account)), Player, Count(Player)),
      Human, Count(Human)), Item, Count(Item)), Vehicle, Count(Vehicle)), Body, Count(Body));
    swept.(lua := swept.lua + 1)
  }

  datatype Event = Do(op: Op) | LuaReset

  const START := Store(map[], 0, multiset{}, map[], 0)

  function Run(events: seq<Event>): Store {
    if events == [] then START
    else
      var before := Run(events[..|events| - 1]);
      match events[|events| - 1]
      case Do(op) => Exec(before, op)
      case LuaReset => Reset(before)
  }

  ghost predicate EventsInRange(events: seq<Event>) {
    forall event :: event in events && event.Do? ==> InRange(event.op)
  }

  // ---------------------------------------------------------------- what every operation keeps

  /** The table `id` is in some slot. */
  ghost predicate Live(s: Store, id: nat) {
    exists slot :: slot in s.slots && s.slots[slot] == id
  }

  /** Each allocated table is either live, in exactly one slot, and never deleted, or deleted once; live
      tables belong to the current Lua state. */
  ghost predicate Sound(s: Store) {
    && (forall slot :: slot in s.slots ==> slot.Valid() && s.slots[slot] < s.next && s.frees[s.slots[slot]] == 0)
    && (forall a, b :: a in s.slots && b in s.slots && s.slots[a] == s.slots[b] ==> a == b)
    && (forall id :: s.frees[id] > 0 ==> id < s.next)
    && (forall id :: 0 <= id < s.next ==> Live(s, id) || s.frees[id] == 1)
    && (forall slot :: slot in s.slots ==> s.slots[slot] in s.owner && s.owner[s.slots[slot]] == s.lua)
  }

  /** Nothing that was in a slot before is replaced but by a table allocated since. */
  ghost predicate OnlyNewer(s: Store, t: Store) {
    && s.next <= t.next && s.lua == t.lua
    && forall slot :: slot in t.slots ==> t.slots[slot] >= s.next || (slot in s.slots && s.slots[slot] == t.slots[slot])
  }

  lemma FetchKeepsAccount(s: Store, slot: Slot, id: nat)
    requires slot !in s.slots && (id < s.next ==> Live(s, id) || s.frees[id] == 1)
    ensures var t := Fetch(s, slot);
      id < t.next ==> Live(t, id) || t.frees[id] == 1
  {
    var t := Fetch(s, slot);
    if id == s.next {
      assert t.slots[slot] == id;
    } else if Live(s, id) {
      var other :| other in s.slots && s.slots[other] == id;
      assert t.slots[other] == id;
    }
  }

  lemma FetchKeeps(s: Store, slot: Slot)
    requires Sound(s) && slot.Valid()
    ensures Sound(Fetch(s, slot)) && OnlyNewer(s, Fetch(s, slot))
  {
    hide Live;
    if slot !in s.slots {
      var t := Fetch(s, slot);
      forall id | 0 <= id < t.next
        ensures Live(t, id) || t.frees[id] == 1
      {
        FetchKeepsAccount(s, slot, id);
      }
    }
  }

  lemma ClearKeeps(s: Store, slot: Slot)
    requires Sound(s)
    ensures Sound(Clear(s, slot)) && OnlyNewer(s, Clear(s, slot))
    ensures slot !in Clear(s, slot).slots
  {
    var t := Clear(s, slot);
    if slot in s.slots {
      forall id | 0 <= id < t.next
        ensures Live(t, id) || t.frees[id] == 1
      {
        if Live(s, id) {
          var other :| other in s.slots && s.slots[other] == id;
          if other != slot { assert t.slots[other] == id; }
        }
      }
    }
  }

  lemma OnlyNewerChains(s: Store, t: Store, u: Store)
    requires OnlyNewer(s, t) && OnlyNewer(t, u)
    ensures OnlyNewer(s, u)
  {}

  lemma {:induction false} ExecKeeps(s: Store, op: Op)
    requires Sound(s) && InRange(op)
    ensures Sound(Exec(s, op)) && OnlyNewer(s, Exec(s, op))
    decreases op, 1
  {
    hide Sound, OnlyNewer, Fetch, Clear;
    match op {
      case GetData(slot) => FetchKeeps(s, slot);
      case HookedCreate(kind, pre, refused, engine, id, post) =>
        ExecAllKeeps(s, pre);
        var asked := ExecAll(s, pre);
        if !refused {
          ExecAllKeeps(asked, engine);
          var made := ExecAll(asked, engine);
          OnlyNewerChains(s, asked, made);
          var next := if kind.Item? then ExecPost(made, id, post) else ClearNew(made, kind, id);
          if kind.Item? { ExecPostKeeps(made, id, post); } else { ClearNewKeeps(made, kind, id); }
          OnlyNewerChains(s, made, next);
          if kind.Item? { ClearNewKeeps(next, kind, id); } else { ExecPostKeeps(next, id, post); }
          OnlyNewerChains(s, next, Exec(s, op));
        }
      case HookedDelete(slot, pre, refused, engine, post) =>
        ExecAllKeeps(s, pre);
        var asked := ExecAll(s, pre);
        if !refused {
          ExecAllKeeps(asked, engine);
          var gone := ExecAll(asked, engine);
          OnlyNewerChains(s, asked, gone);
          ExecAllKeeps(gone, post);
          OnlyNewerChains(s, gone, ExecAll(gone, post));
          ClearKeeps(ExecAll(gone, post), slot);
          OnlyNewerChains(s, ExecAll(gone, post), Exec(s, op));
        }
      case LuaCreate(kind, engine, id) =>
        ExecAllKeeps(s, engine);
        ClearNewKeeps(ExecAll(s, engine), kind, id);
        OnlyNewerChains(s, ExecAll(s, engine), Exec(s, op));
      case LuaRemove(slot, engine) =>
        ExecAllKeeps(s, engine);
        ClearKeeps(ExecAll(s, engine), slot);
        OnlyNewerChains(s, ExecAll(s, engine), Exec(s, op));
    }
  }

  lemma ClearNewKeeps(s: Store, kind: Kind, id: int)
    requires Sound(s)
    ensures Sound(ClearNew(s, kind, id)) && OnlyNewer(s, ClearNew(s, kind, id))
    ensures id >= 0 ==> Slot(kind, id) !in ClearNew(s, kind, id).slots
  {
    if id >= 0 { ClearKeeps(s, Slot(kind, id)); }
  }

  lemma {:induction false} ExecPostKeeps(s: Store, id: int, post: seq<Op>)
    requires Sound(s) && AllInRange(post)
    ensures Sound(ExecPost(s, id, post)) && OnlyNewer(s, ExecPost(s, id, post))
    decreases post, 2
  {
    if id != -1 { ExecAllKeeps(s, post); }
  }

  lemma {:induction false} ExecAllKeeps(s: Store, ops: seq<Op>)
    requires Sound(s) && AllInRange(ops)
    ensures Sound(ExecAll(s, ops)) && OnlyNewer(s, ExecAll(s, ops))
    decreases ops, 0
  {
    if ops != [] {
      ExecKeeps(s, ops[0]);
      ExecAllKeeps(Exec(s, ops[0]), ops[1..]);
      OnlyNewerChains(s, Exec(s, ops[0]), ExecAll(s, ops));
    }
  }

  // ---------------------------------------------------------------- resets

  lemma ClearOthers(s: Store, slot: Slot)
    ensures Clear(s, slot).next == s.next && Clear(s, slot).lua == s.lua
    ensures forall other :: other in Clear(s, slot).slots <==> other in s.slots && other != slot
  {}

  lemma {:induction false} SweepClears(s: Store, kind: Kind, n: nat)
    requires Sound(s)
    ensures Sound(Sweep(s, kind, n)) && Sweep(s, kind, n).next == s.next && Sweep(s, kind, n).lua == s.lua
    ensures forall slot ::
      slot in Sweep(s, kind, n).slots <==> slot in s.slots && (slot.kind == kind ==> slot.index >= n)
  {
    hide Sound, Clear, OnlyNewer;
    if n > 0 {
      SweepClears(s, kind, n - 1);
      ClearKeeps(Sweep(s, kind, n - 1), Slot(kind, n - 1));
      ClearOthers(Sweep(s, kind, n - 1), Slot(kind, n - 1));
    }
  }

  /** Sweeping a whole array leaves none of its slots filled. */
  lemma SweepEmpties(s: Store, kind: Kind)
    requires Sound(s)
    ensures var t := Sweep(s, kind, Count(kind));
      Sound(t) && t.next == s.next && t.lua == s.lua
      && forall slot :: slot in t.slots ==> slot in s.slots && slot.kind != kind
  {
    hide Sweep, Live, Count;
    SweepClears(s, kind, Count(kind));
  }

  /** A reset leaves no table behind: every slot is empty, and each table ever allocated has been deleted
      exactly once, before its Lua state goes. */
  lemma ResetFreesEverything(s: Store)
    requires Sound(s)
    ensures var t := Reset(s);
      Sound(t) && t.slots == map[] && t.next == s.next && t.lua == s.lua + 1
      && forall id :: 0 <= id < t.next ==> t.frees[id] == 1
  {
    hide Sweep, Count, Sound;
    var a := Sweep(s, Account, Count(Account));
    SweepEmpties(s, Account);
    var b := Sweep(a, Player, Count(Player));
    SweepEmpties(a, Player);
    var c := Sweep(b, Human, Count(Human));
    SweepEmpties(b, Human);
    var d := Sweep(c, Item, Count(Item));
    SweepEmpties(c, Item);
    var e := Sweep(d, Vehicle, Count(Vehicle));
    SweepEmpties(d, Vehicle);
    var f := Sweep(e, Body, Count(Body));
    SweepEmpties(e, Body);
    forall slot ensures slot !in f.slots {
      assert slot in f.slots ==> slot in e.slots;
      assert slot in e.slots ==> slot in d.slots;
      assert slot in d.slots ==> slot in c.slots;
      assert slot in c.slots ==> slot in b.slots;
      assert slot in b.slots ==> slot in a.slots;
    }
    EmptyMeansFreed(f);
  }

  lemma EmptyMeansFreed(f: Store)
    requires Sound(f) && forall slot :: slot !in f.slots
    ensures f.slots == map[] && Sound(f.(lua := f.lua + 1))
    ensures forall id :: 0 <= id < f.next ==> f.frees[id] == 1
  {
    forall id | 0 <= id < f.next
      ensures f.frees[id] == 1 && !Live(f, id)
    {
      assert !Live(f, id);
    }
  }

  /** In every run, however hooks nest: no table is deleted twice, none is lost, none is in two slots, and
      scripts only ever reach tables of the current Lua state. */
  lemma {:induction false} RunIsSound(events: seq<Event>)
    requires EventsInRange(events)
    ensures Sound(Run(events))
    decreases |events|
  {
    hide Exec, Reset, Sound;
    if events == [] {
      StartIsSound();
    } else {
      var before, last := events[..|events| - 1], events[|events| - 1];
      assert last in events && forall event :: event in before ==> event in events;
      RunIsSound(before);
      match last {
        case Do(op) => ExecKeeps(Run(before), op);
        case LuaReset => ResetFreesEverything(Run(before));
      }
    }
  }

  lemma StartIsSound()
    ensures Sound(START)
  {}

  // ---------------------------------------------------------------- creation

  /** A creation that went through, by whichever wrapper. */
  predicate Creates(op: Op, slot: Slot) {
    (op.HookedCreate? && !op.refused && op.id >= 0 && slot == Slot(op.kind, op.id))
    || (op.LuaCreate? && op.id >= 0 && slot == Slot(op.kind, op.id))
  }

  /** When a creation returns, the new entity's table is null or was allocated since the call began: it never
      inherits the table of an earlier entity in the same slot, not even where that one was deleted without
      clearing its slot. */
  lemma CreatedIsFresh(s: Store, op: Op, slot: Slot)
    requires Sound(s) && InRange(op) && Creates(op, slot)
    ensures slot in Exec(s, op).slots ==> Exec(s, op).slots[slot] >= s.next
  {
    hide Sound;
    if op.LuaCreate? {
      ExecAllKeeps(s, op.engine);
      ClearNewKeeps(ExecAll(s, op.engine), op.kind, op.id);
    } else {
      ExecAllKeeps(s, op.pre);
      ExecAllKeeps(ExecAll(s, op.pre), op.engine);
      var made := ExecAll(ExecAll(s, op.pre), op.engine);
      if op.kind.Item? {
        ExecPostKeeps(made, op.id, op.post);
        ClearNewKeeps(ExecPost(made, op.id, op.post), op.kind, op.id);
      } else {
        ClearNewKeeps(made, op.kind, op.id);
        ExecPostKeeps(ClearNew(made, op.kind, op.id), op.id, op.post);
      }
    }
  }

  /** What the hook after a creation finds. */
  function SeenByPost(s: Store, op: Op): Store
    requires op.HookedCreate?
  {
    var made := ExecAll(ExecAll(s, op.pre), op.engine);
    if op.kind.Item? then made else ClearNew(made, op.kind, op.id)
  }

  lemma LiveUnlessFreed(s: Store, t: Store, slot: Slot)
    requires Sound(s) && Sound(t) && OnlyNewer(s, t) && slot in s.slots
    ensures slot in t.slots && t.slots[slot] < s.next <==> t.frees[s.slots[slot]] == 0
  {
    var id := s.slots[slot];
    if t.frees[id] == 0 {
      assert Live(t, id);
      var other :| other in t.slots && t.slots[other] == id;
      assert other == slot;
    }
  }

  /** The hook after a creation finds a table from before the call exactly when the entity is an item, its slot
      held a table when the call began, and nothing on the way deleted that table: for items alone the slot is
      cleared only after the hook. */
  lemma PostHookFindsOlderTableIff(s: Store, op: Op)
    requires Sound(s) && InRange(op) && op.HookedCreate? && !op.refused && op.id >= 0
    ensures var slot, made, seen := Slot(op.kind, op.id), ExecAll(ExecAll(s, op.pre), op.engine), SeenByPost(s, op);
      slot in seen.slots && seen.slots[slot] < s.next
      <==> op.kind.Item? && slot in s.slots && made.frees[s.slots[slot]] == 0
  {
    hide Sound, ClearNew;
    var slot, asked := Slot(op.kind, op.id), ExecAll(s, op.pre);
    var made := ExecAll(asked, op.engine);
    ExecAllKeeps(s, op.pre);
    ExecAllKeeps(asked, op.engine);
    OnlyNewerChains(s, asked, made);
    ClearNewKeeps(made, op.kind, op.id);
    if slot in s.slots { LiveUnlessFreed(s, made, slot); }
  }

  /** Where nothing else touches tables on the way, that can be told before the call: an item, and its slot filled. */
  lemma QuietPostHookFindsOlderTableIff(s: Store, kind: Kind, id: int, post: seq<Op>)
    requires Sound(s) && 0 <= id < Count(kind) && AllInRange(post)
    ensures var slot, seen := Slot(kind, id), SeenByPost(s, HookedCreate(kind, [], false, [], id, post));
      slot in seen.slots && seen.slots[slot] < s.next <==> kind.Item? && slot in s.slots
  {
    hide Sound;
    PostHookFindsOlderTableIff(s, HookedCreate(kind, [], false, [], id, post));
    assert ExecAll(ExecAll(s, []), []) == s;
    if Slot(kind, id) in s.slots { NotFreed(s, Slot(kind, id)); }
  }

  lemma NotFreed(s: Store, slot: Slot)
    requires Sound(s) && slot in s.slots
    ensures s.frees[s.slots[slot]] == 0
  {}

  /** It happens: a script uses the table of item 0, and item 0 is created anew without having been deleted by
      a wrapper. The hook then finds table 0. */
  lemma StaleItemTableIsReached(post: seq<Op>)
    ensures var s := Run([Do(GetData(Slot(Item, 0)))]);
      var seen := SeenByPost(s, HookedCreate(Item, [], false, [], 0, post));
      Slot(Item, 0) in seen.slots && seen.slots[Slot(Item, 0)] == 0 < s.next
  {
    var s := Run([Do(GetData(Slot(Item, 0)))]);
    assert [Do(GetData(Slot(Item, 0)))][..0] == [];
    assert s == Fetch(START, Slot(Item, 0));
    assert ExecAll(ExecAll(s, []), []) == s;
  }

  /** A table that hook attaches to the new entity survives the creation exactly when it is no item. */
  lemma PostHookDataSurvivesIff(s: Store, kind: Kind, pre: seq<Op>, engine: seq<Op>, id: int)
    requires Sound(s) && 0 <= id < Count(kind) && AllInRange(pre) && AllInRange(engine)
    ensures var op := HookedCreate(kind, pre, false, engine, id, [GetData(Slot(kind, id))]);
      Slot(kind, id) in Exec(s, op).slots <==> !kind.Item?
  {
    hide Sound, OnlyNewer;
    var slot := Slot(kind, id);
    var post := [GetData(slot)];
    var made := ExecAll(ExecAll(s, pre), engine);
    ExecAllKeeps(s, pre);
    ExecAllKeeps(ExecAll(s, pre), engine);
    assert AllInRange(post) by { assert post[1..] == [] && InRange(post[0]); }
    var seen := if kind.Item? then made else ClearNew(made, kind, id);
    ClearNewKeeps(made, kind, id);
    OneFetch(seen, slot);
    ExecPostKeeps(made, id, post);
    ClearNewKeeps(ExecPost(made, id, post), kind, id);
  }

  lemma OneFetch(s: Store, slot: Slot)
    ensures ExecAll(s, [GetData(slot)]) == Fetch(s, slot)
  {
    assert [GetData(slot)][1..] == [];
    assert ExecAll(Fetch(s, slot), []) == Fetch(s, slot);
  }
}
