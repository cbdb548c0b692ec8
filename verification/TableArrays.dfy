/** The six global arrays of table pointers, and the wrappers that free and null their entries. Each method
    is proved to do to the arrays what `DataTables` says of the slots. */
module TableArrays {
  import opened DataTables

  datatype Pointer = Null | To(table: nat)

  class Tables {
    const accounts: array<Pointer>
    const players: array<Pointer>
    const humans: array<Pointer>
    const items: array<Pointer>
    const vehicles: array<Pointer>
    const bodies: array<Pointer>
    var nextTable: nat
    var lua: nat
    ghost var store: Store

    function Of(kind: Kind): array<Pointer> {
      match kind
      case Account => accounts
      case Player => players
      case Human => humans
      case Item => items
      case Vehicle => vehicles
      case Body => bodies
    }

    /** Six different arrays of the right sizes. */
    ghost predicate Laid() {
      && (forall kind {:trigger Of(kind)} :: Of(kind).Length == Count(kind))
      && (forall a, b {:trigger Of(a), Of(b)} :: Of(a) == Of(b) ==> a == b)
    }

    ghost predicate Holds(s: Store, slot: Slot)
      requires Laid() && slot.Valid()
      reads Of(slot.kind)
    {
      Of(slot.kind)[slot.index] == if slot in s.slots then To(s.slots[slot]) else Null
    }

    ghost predicate Valid()
      reads this, accounts, players, humans, items, vehicles, bodies
    {
      && Laid()
      && (forall slot: Slot {:trigger Holds(store, slot)} :: slot.Valid() ==> Holds(store, slot))
      && nextTable == store.next && lua == store.lua
      && Sound(store)
    }

    /** No table is in two entries of the arrays, and every entry belongs to the current Lua state. */
    lemma EntriesAreSound()
      requires Valid()
      ensures forall a: Slot, b: Slot {:trigger a.Valid(), b.Valid()} ::
        a.Valid() && b.Valid() && Of(a.kind)[a.index] != Null && Of(a.kind)[a.index] == Of(b.kind)[b.index] ==> a == b
      ensures forall a: Slot :: a.Valid() && Of(a.kind)[a.index] != Null ==>
        var table := Of(a.kind)[a.index].table;
        table < nextTable && store.frees[table] == 0 && table in store.owner && store.owner[table] == lua
    {
      forall a: Slot | a.Valid() && Of(a.kind)[a.index] != Null
        ensures a in store.slots && Of(a.kind)[a.index] == To(store.slots[a])
      {
        assert Holds(store, a);
      }
    }

    constructor ()
      ensures Valid() && store == START
    {
      accounts := new Pointer[Count(Account)](_ => Null);
      players := new Pointer[Count(Player)](_ => Null);
      humans := new Pointer[Count(Human)](_ => Null);
      items := new Pointer[Count(Item)](_ => Null);
      vehicles := new Pointer[Count(Vehicle)](_ => Null);
      bodies := new Pointer[Count(Body)](_ => Null);
      nextTable, lua, store := 0, 0, START;
      new;
      StartIsSound();
      hide Count, Sound;
      assert Laid();
      forall slot: Slot | slot.Valid() ensures Holds(store, slot) {
        assert Of(slot.kind)[slot.index] == Null;
      }
    }

    method GetDataTable(slot: Slot) returns (table: nat)
      requires Valid() && slot.Valid()
      modifies this, accounts, players, humans, items, vehicles, bodies
      ensures Valid() && store == Fetch(old(store), slot)
      ensures slot in store.slots && table == store.slots[slot]
    {
      FetchKeeps(store, slot);
      hide Sound, OnlyNewer, Count;
      var tables := Of(slot.kind);
      assert Holds(store, slot);
      if tables[slot.index] == Null {
        tables[slot.index] := To(nextTable);
        nextTable := nextTable + 1;
        store := Fetch(store, slot);
        assert Holds(store, slot);
        forall other: Slot | other.Valid() && other != slot ensures Holds(store, other) {
          assert old(Holds(store, other));
        }
      }
      table := tables[slot.index].table;
    }

    /** Deletes the slot's table, if there is one, and nulls the pointer. */
    method Free(slot: Slot)
      requires Valid() && slot.Valid()
      modifies this, accounts, players, humans, items, vehicles, bodies
      ensures Valid() && store == Clear(old(store), slot)
    {
      ClearKeeps(store, slot);
      hide Sound, OnlyNewer, Count;
      var tables := Of(slot.kind);
      assert Holds(store, slot);
      if tables[slot.index] != Null {
        tables[slot.index] := Null;
        store := Clear(store, slot);
        assert Holds(store, slot);
        forall other: Slot | other.Valid() && other != slot ensures Holds(store, other) {
          assert old(Holds(store, other));
        }
      }
    }

    method SweepArray(kind: Kind)
      requires Valid()
      modifies this, accounts, players, humans, items, vehicles, bodies
      ensures Valid() && store == Sweep(old(store), kind, Count(kind))
    {
      hide Valid, Clear, Count;
      for i := 0 to Count(kind)
        invariant Valid() && store == Sweep(old(store), kind, i)
      {
        assert Slot(kind, i).Valid();
        Free(Slot(kind, i));
      }
    }

    /** Every entry is null by then. */
    method ReplaceState()
      requires Valid() && store.slots == map[] && Sound(store.(lua := store.lua + 1))
      modifies this`lua, this`store
      ensures Valid() && store == old(store).(lua := old(store).lua + 1)
    {
      hide Sound, Count;
      lua := lua + 1;
      store := store.(lua := store.lua + 1);
      forall slot: Slot | slot.Valid() ensures Holds(store, slot) {
        assert old(Holds(store, slot));
      }
    }

    method LuaInit()
      requires Valid()
      modifies this, accounts, players, humans, items, vehicles, bodies
      ensures Valid() && store == Reset(old(store))
    {
      assert Sound(Reset(store)) && Reset(store).slots == map[] by { ResetFreesEverything(store); }
      hide Sweep, Count, Sound, Valid;
      SweepArray(Account);
      SweepArray(Player);
      SweepArray(Human);
      SweepArray(Item);
      SweepArray(Vehicle);
      SweepArray(Body);
      assert Reset(old(store)) == store.(lua := store.lua + 1);
      ReplaceState();
    }

    /** The new entity's slot, unless the engine could not create one. */
    method FreeNew(kind: Kind, id: int)
      requires Valid() && -1 <= id < Count(kind)
      modifies this, accounts, players, humans, items, vehicles, bodies
      ensures Valid() && store == ClearNew(old(store), kind, id)
    {
      if id != -1 { Free(Slot(kind, id)); }
    }

    method Perform(op: Op)
      requires Valid() && InRange(op)
      modifies this, accounts, players, humans, items, vehicles, bodies
      ensures Valid() && store == Exec(old(store), op)
      decreases op, 1
    {
      hide Valid, Fetch, Clear, ClearNew;
      match op {
        case GetData(slot) =>
          var _ := GetDataTable(slot);
        case HookedCreate(kind, pre, refused, engine, id, post) =>
          PerformAll(pre);
          if refused { return; }
          PerformAll(engine);
          if kind != Item { FreeNew(kind, id); }
          if id != -1 { PerformAll(post); }
          if kind == Item { FreeNew(kind, id); }
        case HookedDelete(slot, pre, refused, engine, post) =>
          PerformAll(pre);
          if refused { return; }
          PerformAll(engine);
          PerformAll(post);
          Free(slot);
        case LuaCreate(kind, engine, id) =>
          PerformAll(engine);
          FreeNew(kind, id);
        case LuaRemove(slot, engine) =>
          PerformAll(engine);
          Free(slot);
      }
    }

    method PerformAll(ops: seq<Op>)
      requires Valid() && AllInRange(ops)
      modifies this, accounts, players, humans, items, vehicles, bodies
      ensures Valid() && store == ExecAll(old(store), ops)
      decreases ops, 0
    {
      hide Valid, Exec;
      if ops != [] {
        Perform(ops[0]);
        PerformAll(ops[1..]);
      }
    }
  }
}
