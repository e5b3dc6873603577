/**
 * The generic in-memory repository: one ordered list of entities, owned by the
 * repository object and changed in place by its operations.
 */
module Repositories {
  import opened Wrappers
  import opened Entities
  import opened EntityLists

  /** The two failures the repository reports (both thrown as `InvalidOperationException`). */
  datatype RepoError = DuplicateKey | NotFound

  class InMemoryRepository<P> {
    /** The backing list (`_data`), in insertion order. */
    var data: seq<Entity<P>>

    /** Copies the initial entities, keeping their order; identifiers are not checked. */
    constructor (init: seq<Entity<P>>)
      ensures data == init
    {
      data := init;
    }

    /** Every stored entity, in order. */
    method GetAll() returns (r: seq<Entity<P>>)
      ensures r == data
    {
      r := data;
    }

    /** The first stored entity carrying `id`, or none. */
    method GetById(id: Guid) returns (r: Option<Entity<P>>)
      ensures r == FirstWithId(data, id)
      ensures r.Some? <==> HasId(data, id)
    {
      var i := 0;
      while i < |data|
        invariant 0 <= i <= |data|
        invariant forall j :: 0 <= j < i ==> data[j].id != id
      {
        if data[i].id == id {
          FirstWithIdIsFirst(data, id, i);
          return Some(data[i]);
        }
        i := i + 1;
      }
      return None;
    }

    /** Whether some stored entity carries `id`. */
    method AnyWithId(id: Guid) returns (b: bool)
      ensures b <==> HasId(data, id)
    {
      b := false;
      var i := 0;
      while i < |data| && !b
        invariant 0 <= i <= |data|
        invariant b ==> HasId(data, id)
        invariant !b ==> forall j :: 0 <= j < i ==> data[j].id != id
      {
        b := data[i].id == id;
        i := i + 1;
      }
    }

    /**
     * Appends `value` unless its identifier is already stored, in which case it
     * fails with `DuplicateKey` and the list is left as it was.
     */
    method Add(value: Entity<P>) returns (r: Result<Entity<P>, RepoError>)
      modifies this
      ensures HasId(old(data), value.id) ==> r == Failure(DuplicateKey) && data == old(data)
      ensures !HasId(old(data), value.id) ==> r == Success(value) && data == old(data) + [value]
      ensures r.Success? ==> FirstWithId(data, value.id) == Some(value)
      ensures UniqueIds(old(data)) ==> UniqueIds(data)
    {
      var taken := AnyWithId(value.id);
      if taken {
        return Failure(DuplicateKey);
      }
      FirstWithIdAfterAppend(data, value);
      if UniqueIds(data) {
        AppendKeepsUnique(data, value);
      }
      data := data + [value];
      return Success(value);
    }

    /**
     * The update as written: fails with `NotFound` when the identifier is not
     * stored; otherwise it only rebinds a local to `value`. It has no `modifies`
     * clause, so the stored list cannot change.
     */
    method Update(value: Entity<P>) returns (r: Outcome<RepoError>)
      ensures r == if HasId(data, value.id) then Pass else Fail(NotFound)
    {
      var found := GetById(value.id);
      if found.Some? {
        var item := found.value;
        item := value;
        return Pass;
      } else {
        return Fail(NotFound);
      }
    }

    /**
     * The update as intended: fails with `NotFound` when the identifier is not
     * stored; otherwise replaces the first entity carrying it by `value`.
     */
    method UpdateReplacing(value: Entity<P>) returns (r: Outcome<RepoError>)
      modifies this
      ensures r == if HasId(old(data), value.id) then Pass else Fail(NotFound)
      ensures data == if r.Pass? then ReplaceFirst(old(data), value) else old(data)
      ensures r.Pass? ==> FirstWithId(data, value.id) == Some(value)
      ensures UniqueIds(old(data)) ==> UniqueIds(data)
    {
      var i := 0;
      while i < |data|
        invariant 0 <= i <= |data|
        invariant forall j :: 0 <= j < i ==> data[j].id != value.id
      {
        if data[i].id == value.id {
          ReplaceFirstAt(data, value, i);
          ReplaceFirstFound(data, value, i);
          if UniqueIds(data) {
            ReplaceFirstKeepsUnique(data, value, i);
          }
          data := data[i := value];
          return Pass;
        }
        i := i + 1;
      }
      return Fail(NotFound);
    }

    /** Removes every entity carrying `value.id`, keeping the others in order; never fails. */
    method Delete(value: Entity<P>)
      modifies this
      ensures data == WithoutId(old(data), value.id)
      ensures !HasId(data, value.id)
      ensures UniqueIds(old(data)) ==> UniqueIds(data)
    {
      var s := data;
      var kept: seq<Entity<P>> := [];
      var i := 0;
      while i < |s|
        invariant 0 <= i <= |s|
        invariant kept == WithoutId(s[..i], value.id)
      {
        assert s[..i + 1] == s[..i] + [s[i]];
        WithoutIdConcat(s[..i], [s[i]], value.id);
        assert [s[i]][1..] == [];
        if s[i].id != value.id {
          kept := kept + [s[i]];
        }
        i := i + 1;
      }
      assert s[..i] == s;
      if UniqueIds(s) {
        WithoutIdKeepsUnique(s, value.id);
      }
      data := kept;
    }
  }

  /**
   * The update as written, followed by a lookup, on any repository: when the
   * identifier is stored and the new value differs from every stored entity,
   * the update reports success and the lookup still does not return the new value.
   */
  method StaleLookupAfterUpdate<P>(repo: InMemoryRepository<P>, v: Entity<P>)
    returns (u: Outcome<RepoError>, found: Option<Entity<P>>)
    requires HasId(repo.data, v.id) && v !in repo.data
    ensures u == Pass
    ensures found.Some? && found.value.id == v.id && found != Some(v)
  {
    u := repo.Update(v);
    found := repo.GetById(v.id);
    StaleAfterUpdate(repo.data, v);
  }

  /** Two employees added, the first deleted: only the second remains, and the first is gone. */
  method ScenarioAddAddDelete(alice: Employee, bob: Employee)
  {
    var repo := new InMemoryRepository<Employee>([]);
    var a := Entity(1, alice);
    var b := Entity(2, bob);
    var ra := repo.Add(a);
    var all := repo.GetAll();
    assert ra == Success(a) && all == [a];
    var rb := repo.Add(b);
    all := repo.GetAll();
    assert rb == Success(b) && all == [a, b];
    repo.Delete(a);
    all := repo.GetAll();
    assert all == [b];
    var found := repo.GetById(1);
    assert found == None;
  }

  /** Adding the same identifier twice: the second add fails and one copy remains. */
  method ScenarioDuplicateAdd(first: Employee, second: Employee)
  {
    var repo := new InMemoryRepository<Employee>([]);
    var r1 := repo.Add(Entity(5, first));
    var r2 := repo.Add(Entity(5, second));
    var all := repo.GetAll();
    assert r1.Success? && r2 == Failure(DuplicateKey);
    assert all == [Entity(5, first)];
  }

  /** Updating an absent identifier fails and changes nothing; deleting it is a silent no-op. */
  method ScenarioAbsentId(e: Employee)
  {
    var repo := new InMemoryRepository<Employee>([Entity(7, e)]);
    var u := repo.Update(Entity(8, e));
    assert u == Fail(NotFound);
    repo.Delete(Entity(8, e));
    var all := repo.GetAll();
    assert all == [Entity(7, e)];
  }

  /** The update as written reports success, yet the lookup still returns the stored value. */
  method ScenarioUpdateIsLost(before: Employee, after: Employee)
  {
    var repo := new InMemoryRepository<Employee>([Entity(3, before)]);
    var u := repo.Update(Entity(3, after));
    var found := repo.GetById(3);
    assert u == Pass && found == Some(Entity(3, before));
    var w := repo.UpdateReplacing(Entity(3, after));
    found := repo.GetById(3);
    assert w == Pass && found == Some(Entity(3, after));
  }
}
