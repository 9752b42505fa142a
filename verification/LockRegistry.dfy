/** The table-lock registry of src/engine_lock.c: a fixed array filled from the front, searched by name. */
module LockRegistry {

  const MAX_TABLES: nat := 64
  const NAME_SIZE: nat := 64

  /** What strncmp with the size of the name field sees of a name. */
  function Seen(name: string): string {
    if |name| <= NAME_SIZE then name else name[..NAME_SIZE]
  }

  /** What strncpy and the final NUL leave in the name field. */
  function Stored(name: string): string {
    if |name| < NAME_SIZE then name else name[..NAME_SIZE - 1]
  }

  predicate SameName(stored: string, name: string) {
    Seen(stored) == Seen(name)
  }

  /** Names that fit in the table field of a statement. */
  predicate IsName(name: string) {
    |name| < NAME_SIZE
  }

  /** The registered names in slot order. */
  ghost predicate WellFormed(names: seq<string>) {
    && |names| <= MAX_TABLES
    && (forall i | 0 <= i < |names| :: IsName(names[i]))
    && (forall i, j | 0 <= i < j < |names| :: names[i] != names[j])
  }

  /** The slot of a name, or -1. */
  ghost function Lookup(names: seq<string>, name: string): (r: int)
    ensures if r < 0 then r == -1 && name !in names else r < |names| && names[r] == name
  {
    if name in names then
      var i :| 0 <= i < |names| && names[i] == name;
      i
    else -1
  }

  ghost function Registered(names: seq<string>, name: string): seq<string> {
    if name in names || |names| >= MAX_TABLES then names else names + [name]
  }

  lemma RegisteredWellFormed(names: seq<string>, name: string)
    requires WellFormed(names) && IsName(name)
    ensures WellFormed(Registered(names, name)) && names <= Registered(names, name)
    ensures name in Registered(names, name) || |Registered(names, name)| == MAX_TABLES
  {
  }

  class Registry {
    const name: array<string>
    const used: array<bool>

    ghost predicate Valid()
      reads this, name, used
    {
      && name.Length == used.Length == MAX_TABLES
      && (forall i, j | 0 <= i < j < MAX_TABLES && used[j] :: used[i])
      && WellFormed(Names())
    }

    /** The names in the used slots, which come first. */
    ghost function Names(): seq<string>
      reads this, name, used
      requires name.Length == used.Length == MAX_TABLES
    {
      UsedNames(name[..], used[..])
    }

    constructor ()
      ensures Valid() && Names() == [] && fresh(name) && fresh(used)
    {
      name := new string[MAX_TABLES](_ => "");
      used := new bool[MAX_TABLES](_ => false);
    }

    /** registry_find_locked */
    method Find(table: string) returns (slot: int)
      requires Valid() && IsName(table)
      ensures slot == Lookup(Names(), table)
    {
      UsedPrefix(name[..], used[..]);
      for i := 0 to MAX_TABLES
        invariant forall j | 0 <= j < i :: !(used[j] && SameName(name[j], table))
      {
        if used[i] && SameName(name[i], table) {
          return i;
        }
      }
      return -1;
    }

    /** registry_get_or_create_locked: -1 for a NULL result. */
    method GetOrCreate(table: string) returns (slot: int)
      requires Valid() && IsName(table)
      modifies name, used
      ensures Valid() && Names() == Registered(old(Names()), table)
      ensures slot == Lookup(Names(), table)
    {
      slot := Find(table);
      if slot >= 0 {
        return;
      }
      UsedPrefix(name[..], used[..]);
      for i := 0 to MAX_TABLES
        invariant forall j | 0 <= j < i :: used[j]
      {
        if !used[i] {
          Fill(i, table);
          return i;
        }
      }
      assert used[..][MAX_TABLES - 1];
    }

    /** Takes the first free slot. */
    method Fill(i: nat, table: string)
      requires Valid() && IsName(table) && table !in Names() && i < MAX_TABLES
      requires !used[i] && forall j | 0 <= j < i :: used[j]
      modifies name, used
      ensures Valid() && Names() == old(Names()) + [table] && i == |old(Names())|
    {
      UsedPrefix(name[..], used[..]);
      ghost var before, n := name[..], |Names()|;
      assert n == i by {
        assert !used[..][i] && (i > 0 ==> used[..][i - 1]);
      }
      name[i] := Stored(table);
      used[i] := true;
      UsedPrefix(name[..], used[..]);
      ghost var n' := |Names()|;
      assert n' == i + 1 by {
        assert used[..][i] && (i + 1 < MAX_TABLES ==> !used[..][i + 1]);
      }
      assert name[..][..i + 1] == before[..i] + [table];
    }
  }

  function UsedNames(name: seq<string>, used: seq<bool>): seq<string>
    requires |name| == |used|
  {
    if name == [] || !used[0] then [] else [name[0]] + UsedNames(name[1..], used[1..])
  }

  /** With the used slots first, the used names are a prefix of the array. */
  lemma {:induction false} UsedPrefix(name: seq<string>, used: seq<bool>)
    requires |name| == |used| && forall i, j | 0 <= i < j < |used| && used[j] :: used[i]
    ensures
      var n := |UsedNames(name, used)|;
      && n <= |name| && UsedNames(name, used) == name[..n]
      && (forall i | 0 <= i < |used| :: used[i] <==> i < n)
  {
    if name != [] && used[0] {
      UsedPrefix(name[1..], used[1..]);
    }
  }
}
