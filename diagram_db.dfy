/** The diagram store: a wrapper object holding one optional handle to the
    browser's durable database, with create / read / update / delete over
    its one collection, `diagrams`, keyed by `id`. Each asynchronous
    request is a synchronous method here; a request the browser rejects is
    a boolean parameter, and the state is then left as it was. */
module DiagramDatabase {
  import opened Wrappers
  import opened DiagramStore

  /** The name the database is opened under. The model holds the one
      database of that name as a `Database` object, so nothing reads this;
      it is kept as documentation. */
  const DbName: string := "MermaidDiagramsDB"
  const DbVersion: nat := 1
  const StoreName: string := "diagrams"

  /** The upgrade step run when the database is opened at a newer version
      than it has: create the `diagrams` collection only when the database
      does not have it yet. */
  function CreateStoreIfAbsent(storeNames: set<string>): (r: set<string>)
    ensures StoreName in r
    ensures r - {StoreName} == storeNames - {StoreName}
  {
    if StoreName in storeNames then storeNames else storeNames + {StoreName}
  }

  /** Running the upgrade step twice is the same as running it once. */
  lemma UpgradeIdempotent(storeNames: set<string>)
    ensures CreateStoreIfAbsent(CreateStoreIfAbsent(storeNames)) == CreateStoreIfAbsent(storeNames)
  {
  }

  /** Records in some order, each exactly once: every entry is the stored
      record under its own id, every stored record is listed, and no id is
      listed twice. */
  ghost predicate Enumerates(records: seq<Diagram>, m: map<string, Diagram>) {
    && (forall i :: 0 <= i < |records| ==>
          records[i].id.Some? && records[i].id.value in m && m[records[i].id.value] == records[i])
    && (forall k :: k in m ==> m[k] in records)
    && (forall i, j :: 0 <= i < j < |records| ==> records[i].id != records[j].id)
  }

  /** A listing of a collection keyed by id has one entry per record. */
  lemma {:induction false} EnumerationSize(records: seq<Diagram>, m: map<string, Diagram>)
    requires KeyedById(m) && Enumerates(records, m)
    ensures |records| == |m|
    decreases |records|
  {
    if records != [] {
      var n := |records| - 1;
      var k := records[n].id.value;
      var rest := records[..n];
      var m' := m - {k};
      forall i | 0 <= i < |rest|
        ensures rest[i].id.Some? && rest[i].id.value in m' && m'[rest[i].id.value] == rest[i]
      {
        assert rest[i] == records[i];
        assert records[i].id != records[n].id;
      }
      forall k' | k' in m' ensures m'[k'] in rest {
        var i :| 0 <= i < |records| && records[i] == m[k'];
        assert records[i].id == Some(k');
        assert i != n;
        assert rest[i] == records[i];
      }
      assert Enumerates(rest, m');
      EnumerationSize(rest, m');
      assert |m'| == |m| - 1;
    }
  }

  /** The durable database named `DbName`, as it persists between page
      loads. A `version` of 0 stands for a database that does not exist
      yet; `storeNames` are its collections and `diagrams` the contents of
      the `diagrams` collection. */
  class Database {
    var version: nat
    var storeNames: set<string>
    var diagrams: map<string, Diagram>

    /** The collection is keyed by `id`, holds nothing while it does not
        exist, and exists once the database is at this program's version. */
    ghost predicate Valid()
      reads this
    {
      && KeyedById(diagrams)
      && (StoreName !in storeNames ==> diagrams == map[])
      && (version == DbVersion ==> StoreName in storeNames)
    }

    /** A browser profile in which the database was never created. */
    constructor Absent()
      ensures Valid()
      ensures version == 0 && storeNames == {} && diagrams == map[]
    {
      version := 0;
      storeNames := {};
      diagrams := map[];
    }
  }

  /** `DiagramDB`: usable once `Init` has set its database handle. */
  class DiagramDB {
    var db: Database?

    ghost predicate Valid()
      reads this, db
    {
      db != null ==> db.Valid() && StoreName in db.storeNames
    }

    constructor()
      ensures Valid() && db == null
    {
      db := null;
    }

    /** `init`: opens the database at version `DbVersion`. Opening fails
        when the browser rejects the request or when the database is
        already at a later version; otherwise a database behind this
        version is upgraded first (creating the collection only when it is
        absent), and the handle is kept. */
    method Init(database: Database, openFails: bool) returns (r: Outcome<DbError>)
      requires Valid() && database.Valid()
      modifies this, database
      ensures Valid()
      ensures r == if openFails || DbVersion < old(database.version) then Fail(OpenFailed) else Pass
      ensures r.Fail? ==> db == old(db) && unchanged(database)
      ensures r.Pass? ==> db == database && database.version == DbVersion
      ensures r.Pass? ==> database.diagrams == old(database.diagrams)
      ensures r.Pass? ==>
        database.storeNames ==
          if old(database.version) < DbVersion then CreateStoreIfAbsent(old(database.storeNames))
          else old(database.storeNames)
    {
      if openFails || DbVersion < database.version {
        return Fail(OpenFailed);
      }
      if database.version < DbVersion {
        database.storeNames := CreateStoreIfAbsent(database.storeNames);
        database.version := DbVersion;
      }
      db := database;
      r := Pass;
    }

    /** `ensureDB`: the handle, or `NotInitialized` before `Init` has
        succeeded. */
    function EnsureDB(): (r: Result<Database, DbError>)
      reads this
      ensures r.Success? <==> db != null
      ensures r.Success? ==> r.value == db
      ensures r.Failure? ==> r.error == NotInitialized
    {
      if db == null then Failure(NotInitialized) else Success(db)
    }

    /** `create`: adds the record under the id `newId` (the freshly
        generated identifier) and resolves with it. The add is rejected
        when the write fails or when the key is already present, so a
        create that succeeds always used an id that was not a key. */
    method Create(diagram: Diagram, newId: string, writeFails: bool) returns (r: Result<string, DbError>)
      requires Valid()
      modifies db
      ensures Valid()
      ensures db == null ==> r == Failure(NotInitialized)
      ensures db != null ==>
        r == (if writeFails || newId in old(db.diagrams) then Failure(CreateFailed) else Success(newId))
      ensures db != null ==>
        db.diagrams ==
          if r.Success? then old(db.diagrams)[newId := WithId(diagram, newId)] else old(db.diagrams)
      ensures db != null ==> db.version == old(db.version) && db.storeNames == old(db.storeNames)
    {
      var handle := EnsureDB();
      if handle.Failure? {
        return Failure(handle.error);
      }
      var database := handle.value;
      if writeFails || newId in database.diagrams {
        return Failure(CreateFailed);
      }
      database.diagrams := database.diagrams[newId := WithId(diagram, newId)];
      r := Success(newId);
    }

    /** `getAll`: every stored record, each once. */
    method GetAll(readFails: bool) returns (r: Result<seq<Diagram>, DbError>)
      requires Valid()
      ensures db == null ==> r == Failure(NotInitialized)
      ensures db != null && readFails ==> r == Failure(GetAllFailed)
      ensures db != null && !readFails ==> r.Success? && Enumerates(r.value, db.diagrams)
      ensures db != null && !readFails ==> |r.value| == |db.diagrams|
    {
      var handle := EnsureDB();
      if handle.Failure? {
        return Failure(handle.error);
      }
      if readFails {
        return Failure(GetAllFailed);
      }
      var m := handle.value.diagrams;
      var keys := m.Keys;
      var records: seq<Diagram> := [];
      while keys != {}
        invariant keys <= m.Keys
        invariant forall i :: 0 <= i < |records| ==>
          records[i].id.Some? && records[i].id.value in m && records[i].id.value !in keys
          && m[records[i].id.value] == records[i]
        invariant forall k :: k in m && k !in keys ==> m[k] in records
        invariant forall i, j :: 0 <= i < j < |records| ==> records[i].id != records[j].id
        decreases keys
      {
        var k :| k in keys;
        records := records + [m[k]];
        keys := keys - {k};
      }
      EnumerationSize(records, m);
      r := Success(records);
    }

    /** `getById`: the stored record, or an explicit absence (not an
        error) when the id is not a key. */
    method GetById(id: string, readFails: bool) returns (r: Result<Option<Diagram>, DbError>)
      requires Valid()
      ensures db == null ==> r == Failure(NotInitialized)
      ensures db != null && readFails ==> r == Failure(GetFailed)
      ensures db != null && !readFails ==>
        r == Success(if id in db.diagrams then Some(db.diagrams[id]) else None)
    {
      var handle := EnsureDB();
      if handle.Failure? {
        return Failure(handle.error);
      }
      if readFails {
        return Failure(GetFailed);
      }
      var m := handle.value.diagrams;
      r := Success(if id in m then Some(m[id]) else None);
    }

    /** `update`: reads the record, rejects with `NotFound` when there is
        none, and otherwise writes back the merge of the patch over it,
        with the id forced to `id` and the update time set to `now`. */
    method Update(id: string, patch: Patch, now: Time, readFails: bool, writeFails: bool)
      returns (r: Outcome<DbError>)
      requires Valid()
      modifies db
      ensures Valid()
      ensures db == null ==> r == Fail(NotInitialized)
      ensures db != null ==>
        r == if readFails then Fail(GetForUpdateFailed)
             else if id !in old(db.diagrams) then Fail(NotFound)
             else if writeFails then Fail(UpdateFailed)
             else Pass
      ensures db != null ==>
        db.diagrams ==
          if r.Pass? then old(db.diagrams)[id := Merge(old(db.diagrams)[id], patch, id, now)]
          else old(db.diagrams)
      ensures db != null ==> db.version == old(db.version) && db.storeNames == old(db.storeNames)
    {
      var handle := EnsureDB();
      if handle.Failure? {
        return Fail(handle.error);
      }
      var database := handle.value;
      if readFails {
        return Fail(GetForUpdateFailed);
      }
      if id !in database.diagrams {
        return Fail(NotFound);
      }
      var existing := database.diagrams[id];
      if writeFails {
        return Fail(UpdateFailed);
      }
      database.diagrams := database.diagrams[id := Merge(existing, patch, id, now)];
      r := Pass;
    }

    /** `delete`: removes the key; an absent key is not an error. */
    method Delete(id: string, writeFails: bool) returns (r: Outcome<DbError>)
      requires Valid()
      modifies db
      ensures Valid()
      ensures db == null ==> r == Fail(NotInitialized)
      ensures db != null ==> r == if writeFails then Fail(DeleteFailed) else Pass
      ensures db != null ==>
        db.diagrams == (if r.Pass? then old(db.diagrams) - {id} else old(db.diagrams))
      ensures db != null ==> db.version == old(db.version) && db.storeNames == old(db.storeNames)
    {
      var handle := EnsureDB();
      if handle.Failure? {
        return Fail(handle.error);
      }
      var database := handle.value;
      if writeFails {
        return Fail(DeleteFailed);
      }
      database.diagrams := database.diagrams - {id};
      r := Pass;
    }
  }

  /** Before `Init` every operation rejects with `NotInitialized`. */
  method UseBeforeInit(d: Diagram, patch: Patch, now: Time)
  {
    var store := new DiagramDB();
    var created := store.Create(d, "a", false);
    var all := store.GetAll(false);
    var one := store.GetById("a", false);
    var updated := store.Update("a", patch, now, false, false);
    var deleted := store.Delete("a", false);
    assert created == Failure(NotInitialized) && all == Failure(NotInitialized);
    assert one == Failure(NotInitialized);
    assert updated == Fail(NotInitialized) && deleted == Fail(NotInitialized);
  }

  /** A session on a fresh browser profile creates a diagram; a second
      session over the same database (a page reload) lists it, reads it
      back, renames it without touching its source text, deletes it twice
      without error, and can then neither read nor update it. */
  method ReloadScenario()
  {
    var database := new Database.Absent();
    var first := new DiagramDB();
    var status := first.Init(database, false);
    assert status == Pass && database.diagrams == map[];
    var flow := Diagram(None, "Flow", "graph TD\n A-->B", 10, 10);
    var created := first.Create(flow, "k1", false);
    assert created == Success("k1");
    var stored := WithId(flow, "k1");

    var second := new DiagramDB();
    status := second.Init(database, false);
    assert status == Pass && database.diagrams == map["k1" := stored];
    var all := second.GetAll(false);
    assert all.Success? && stored in all.value;
    var got := second.GetById("k1", false);
    assert got == Success(Some(stored));

    var renamed := second.Update("k1", NoFields.(name := Some("Flow 2")), 20, false, false);
    assert renamed == Pass;
    got := second.GetById("k1", false);
    assert got.value.value.code == "graph TD\n A-->B" && got.value.value.name == "Flow 2";
    assert got.value.value.updatedAt == 20 && got.value.value.createdAt == 10;

    var deleted := second.Delete("k1", false);
    var deletedAgain := second.Delete("k1", false);
    assert deleted == Pass && deletedAgain == Pass;
    got := second.GetById("k1", false);
    assert got == Success(None);
    var missing := second.Update("k1", NoFields, 30, false, false);
    assert missing == Fail(NotFound);
  }
}
