/**
 * Role seeding (src/modules/seeders/seeder/seeder.service.ts): for each entry
 * of a fixed list, insert a role with that name unless one already exists.
 * The role table is in-memory state of `SeederService`; its `name` column
 * carries no uniqueness constraint, so the check in the loop is the only thing
 * that keeps names from repeating.
 */
module Seeder {
  import opened Common

  /** A stored role (src/modules/users/entities/user-role.entity.ts); the
      nullable `description` column is optional. */
  datatype Role = Role(id: int, name: string, code: string, description: Option<string>)

  /** One entry of the list the seeder walks. */
  datatype RoleSeed = RoleSeed(name: string, description: string, code: string)

  const DefaultRoles: seq<RoleSeed> := [
    RoleSeed("Admin", "...", "654NGHE"),
    RoleSeed("User", "...", "678AMSX")
  ]

  /** The role rows together with the id the database assigns next. */
  datatype RoleTable = RoleTable(rows: seq<Role>, nextId: int)

  ghost predicate HasRoleNamed(rows: seq<Role>, name: string) {
    exists r :: r in rows && r.name == name
  }

  /** No two stored roles share a name. */
  ghost predicate NamesUnique(rows: seq<Role>) {
    forall i, j :: 0 <= i < j < |rows| ==> rows[i].name != rows[j].name
  }

  /** Every stored id lies below the next id the auto-increment key assigns,
      so a new role never reuses a stored id. */
  ghost predicate IdsBelow(rows: seq<Role>, nextId: int) {
    forall r :: r in rows ==> r.id < nextId
  }

  /** `findOne({ where: { name } })`: the first role with that name, if any. */
  function FindRoleByName(rows: seq<Role>, name: string): (r: Option<Role>)
    ensures r.Some? <==> HasRoleNamed(rows, name)
    ensures r.Some? ==> r.value in rows && r.value.name == name
  {
    if rows == [] then None
    else if rows[0].name == name then Some(rows[0])
    else
      var rest := FindRoleByName(rows[1..], name);
      assert forall r :: r in rows <==> r == rows[0] || r in rows[1..];
      rest
  }

  /** `create(role)` saved under the next id. */
  function NewRole(id: int, s: RoleSeed): (r: Role)
    ensures r.id == id && r.name == s.name && r.code == s.code && r.description == Some(s.description)
  {
    Role(id, s.name, s.code, Some(s.description))
  }

  /** One iteration of the loop: insert `s` unless its name is already stored. */
  function SeedOne(t: RoleTable, s: RoleSeed): (t': RoleTable)
    ensures HasRoleNamed(t.rows, s.name) ==> t' == t
    ensures !HasRoleNamed(t.rows, s.name) ==>
      t' == RoleTable(t.rows + [NewRole(t.nextId, s)], t.nextId + 1)
  {
    if FindRoleByName(t.rows, s.name).Some? then t
    else RoleTable(t.rows + [NewRole(t.nextId, s)], t.nextId + 1)
  }

  /** The table after the loop has handled the seeds in order. */
  function SeedAll(t: RoleTable, seeds: seq<RoleSeed>): (t': RoleTable)
  {
    if seeds == [] then t
    else SeedOne(SeedAll(t, seeds[..|seeds| - 1]), seeds[|seeds| - 1])
  }

  /** Seeding only appends: earlier rows, and so their codes and descriptions,
      are kept; at most one row per seed is added; ids only grow. */
  lemma {:induction false} SeedAllAppends(t: RoleTable, seeds: seq<RoleSeed>)
    ensures t.rows <= SeedAll(t, seeds).rows
    ensures |SeedAll(t, seeds).rows| <= |t.rows| + |seeds|
    ensures SeedAll(t, seeds).nextId - t.nextId == |SeedAll(t, seeds).rows| - |t.rows|
  {
    if seeds != [] {
      SeedAllAppends(t, seeds[..|seeds| - 1]);
    }
  }

  /** Once a name is stored it stays stored. */
  lemma {:induction false} SeedAllKeepsNames(t: RoleTable, seeds: seq<RoleSeed>, name: string)
    requires HasRoleNamed(t.rows, name)
    ensures HasRoleNamed(SeedAll(t, seeds).rows, name)
  {
    SeedAllAppends(t, seeds);
    var r :| r in t.rows && r.name == name;
    var i :| 0 <= i < |t.rows| && t.rows[i] == r;
    assert SeedAll(t, seeds).rows[i] == r;
  }

  /** After seeding, every seed's name is stored. */
  lemma {:induction false} SeedAllCovers(t: RoleTable, seeds: seq<RoleSeed>)
    ensures forall s :: s in seeds ==> HasRoleNamed(SeedAll(t, seeds).rows, s.name)
  {
    if seeds != [] {
      var init := seeds[..|seeds| - 1];
      var last := seeds[|seeds| - 1];
      var mid := SeedAll(t, init);
      SeedAllCovers(t, init);
      var r := SeedOne(mid, last);
      forall s | s in seeds ensures HasRoleNamed(r.rows, s.name) {
        if s == last {
          if !HasRoleNamed(mid.rows, last.name) {
            assert r.rows[|r.rows| - 1] == NewRole(mid.nextId, last);
          }
        } else {
          assert s in init;
          SeedAllKeepsNames(mid, [last], s.name);
          assert SeedAll(mid, [last]) == r by {
            assert [last][..0] == [];
          }
        }
      }
    }
  }

  /** A table that already stores every seed's name is left as it is. */
  lemma {:induction false} SeedAllNoop(t: RoleTable, seeds: seq<RoleSeed>)
    requires forall s :: s in seeds ==> HasRoleNamed(t.rows, s.name)
    ensures SeedAll(t, seeds) == t
  {
    if seeds != [] {
      SeedAllNoop(t, seeds[..|seeds| - 1]);
    }
  }

  /** Seeding twice stores the same table as seeding once. */
  lemma SeedAllIdempotent(t: RoleTable, seeds: seq<RoleSeed>)
    ensures SeedAll(SeedAll(t, seeds), seeds) == SeedAll(t, seeds)
  {
    SeedAllCovers(t, seeds);
    SeedAllNoop(SeedAll(t, seeds), seeds);
  }

  /** The name check alone keeps stored names distinct, whatever the seeds. */
  lemma {:induction false} SeedAllKeepsNamesUnique(t: RoleTable, seeds: seq<RoleSeed>)
    requires NamesUnique(t.rows)
    ensures NamesUnique(SeedAll(t, seeds).rows)
  {
    if seeds != [] {
      var mid := SeedAll(t, seeds[..|seeds| - 1]);
      SeedAllKeepsNamesUnique(t, seeds[..|seeds| - 1]);
      var last := seeds[|seeds| - 1];
      if !HasRoleNamed(mid.rows, last.name) {
        var rows := mid.rows + [NewRole(mid.nextId, last)];
        forall i, j | 0 <= i < j < |rows| ensures rows[i].name != rows[j].name {
          if j == |mid.rows| {
            assert rows[i] in mid.rows;
          }
        }
      }
    }
  }

  /** Seeding keeps every stored id below the next id. */
  lemma {:induction false} SeedAllKeepsIdsBelow(t: RoleTable, seeds: seq<RoleSeed>)
    requires IdsBelow(t.rows, t.nextId)
    ensures IdsBelow(SeedAll(t, seeds).rows, SeedAll(t, seeds).nextId)
  {
    if seeds != [] {
      var mid := SeedAll(t, seeds[..|seeds| - 1]);
      SeedAllKeepsIdsBelow(t, seeds[..|seeds| - 1]);
      var last := seeds[|seeds| - 1];
      if !HasRoleNamed(mid.rows, last.name) {
        forall r | r in mid.rows + [NewRole(mid.nextId, last)] ensures r.id < mid.nextId + 1 {
          assert r in mid.rows || r == NewRole(mid.nextId, last);
        }
      }
    }
  }

  /** From an empty table the two default roles are stored, in list order. */
  lemma SeedDefaultsFromEmpty(nextId: int)
    ensures SeedAll(RoleTable([], nextId), DefaultRoles) == RoleTable([
      Role(nextId, "Admin", "654NGHE", Some("...")),
      Role(nextId + 1, "User", "678AMSX", Some("..."))], nextId + 2)
  {
    var admin := Role(nextId, "Admin", "654NGHE", Some("..."));
    assert DefaultRoles[..1] == [DefaultRoles[0]];
    assert DefaultRoles[..1][..0] == [];
    assert SeedAll(RoleTable([], nextId), DefaultRoles[..1]) == RoleTable([admin], nextId + 1);
    assert !HasRoleNamed([admin], "User");
  }

  class SeederService {
    /** The `users-role` table, in insertion order. */
    var roles: seq<Role>
    /** The id the database assigns to the next inserted role. */
    var nextRoleId: int

    function Table(): (t: RoleTable)
      reads this
    {
      RoleTable(roles, nextRoleId)
    }

    ghost predicate Valid()
      reads this
    {
      IdsBelow(roles, nextRoleId)
    }

    constructor (roles: seq<Role>, nextRoleId: int)
      requires IdsBelow(roles, nextRoleId)
      ensures Valid() && this.roles == roles && this.nextRoleId == nextRoleId
    {
      this.roles := roles;
      this.nextRoleId := nextRoleId;
    }

    /** `seedRole`: for each default role, look its name up and save it only
        when absent. */
    method SeedRole()
      requires Valid()
      modifies this
      ensures Valid()
      ensures Table() == SeedAll(old(Table()), DefaultRoles)
      ensures old(roles) <= roles && |roles| <= |old(roles)| + 2
      ensures HasRoleNamed(roles, "Admin") && HasRoleNamed(roles, "User")
      ensures NamesUnique(old(roles)) ==> NamesUnique(roles)
    {
      for i := 0 to |DefaultRoles|
        invariant Table() == SeedAll(old(Table()), DefaultRoles[..i])
      {
        var role := DefaultRoles[i];
        var existing := FindRoleByName(roles, role.name);
        if existing.None? {
          roles := roles + [NewRole(nextRoleId, role)];
          nextRoleId := nextRoleId + 1;
        }
        assert DefaultRoles[..i + 1][..i] == DefaultRoles[..i];
      }
      assert DefaultRoles[..|DefaultRoles|] == DefaultRoles;
      SeedAllAppends(old(Table()), DefaultRoles);
      SeedAllCovers(old(Table()), DefaultRoles);
      SeedAllKeepsIdsBelow(old(Table()), DefaultRoles);
      assert DefaultRoles[0] in DefaultRoles && DefaultRoles[1] in DefaultRoles;
      assert NamesUnique(old(roles)) ==> NamesUnique(roles) by {
        if NamesUnique(old(roles)) {
          SeedAllKeepsNamesUnique(old(Table()), DefaultRoles);
        }
      }
    }

    /** `seed`: run the role seeding (the completion log line is not modelled). */
    method Seed()
      requires Valid()
      modifies this
      ensures Valid()
      ensures Table() == SeedAll(old(Table()), DefaultRoles)
      ensures HasRoleNamed(roles, "Admin") && HasRoleNamed(roles, "User")
    {
      SeedRole();
    }
  }
}
