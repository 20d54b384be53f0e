/** The request handlers and the file reconciliation of the parameter controller:
    list, create, bulk delete with its rewrite of the mirror file, and one
    reconciliation cycle of the mirror file against the store. */
module Controller {
  import opened Text
  import opened Store
  import opened Sync

  /** The `name` field of a create request body, as JavaScript sees it. */
  datatype NameField =
    | Absent                     // undefined or null
    | Str(s: string)
    | NonString(truthy: bool)    // a number, boolean, object, ...

  /** The `ids` field of a delete request body. */
  datatype IdsField = NotArray | IdArray(ids: seq<Id>)

  /** An HTTP response: status code with its JSON body. */
  datatype Response =
    | Listed(params: seq<Parameter>)
    | Created(param: Parameter)
    | Deleted(message: string)
    | BadRequest(error: string)
    | ServerError(error: string)
  {
    function Status(): int {
      match this
      case Listed(_) => 200
      case Created(_) => 201
      case Deleted(_) => 200
      case BadRequest(_) => 400
      case ServerError(_) => 500
    }
  }

  const NameRequired := "Parameter name is required"
  const AlreadyExists := "Parameter already exists"
  const AddFailed := "Error adding parameter"
  const IdsRequired := "At least one parameter ID is required"
  const DeletedOk := "Parameters deleted successfully"

  /** JavaScript's `!name`: missing, the empty string, or a falsy non-string. */
  predicate Falsy(name: NameField) {
    name.Absent? || (name.Str? && name.s == "") || (name.NonString? && !name.truthy)
  }

  /** An accepted create keeps stored names distinct ignoring case; only the
      import pass of a sync can break that (see `ImportAdmitsNamesDifferingInCase`). */
  lemma AcceptedCreateKeepsNamesDistinctIgnoringCase(docs: Docs, id: Id, name: string, now: Timestamp)
    requires NamesDistinctIgnoringCase(docs)
    requires id !in docs && !NameTakenIgnoringCase(docs, name)
    ensures NamesDistinctIgnoringCase(docs[id := Parameter(id, name, now)])
  {
  }

  function SetOf(ids: seq<Id>): set<Id> {
    set id | id in ids
  }

  /** The server: the database collection and the mirror file `Parameters.json`. */
  class Server {
    const store: Collection
    var mirror: MirrorFile

    constructor (store: Collection, mirror: MirrorFile)
      ensures this.store == store && this.mirror == mirror
    {
      this.store := store;
      this.mirror := mirror;
    }

    /** GET /parameter/fetch: all stored records. */
    method GetParameters() returns (res: Response)
      requires store.Valid()
      ensures res.Listed? && res.Status() == 200
      ensures IsListing(res.params, store.docs)
    {
      var ps := store.Find();
      res := Listed(ps);
    }

    /** POST /parameter/create. A blank name is refused; a name equal, ignoring
        case, to a stored name is refused; otherwise one record with that name, a
        fresh id and the current time is stored and returned. The mirror file is
        not rewritten. `freshId` and `now` stand for the id and the timestamp the
        database assigns. */
    method CreateParameter(name: NameField, freshId: Id, now: Timestamp) returns (res: Response)
      requires store.Valid()
      requires freshId !in store.docs
      modifies store
      ensures store.Valid()
      ensures res == BadRequest(NameRequired) <==>
        Falsy(name) || (name.Str? && AllWhitespace(name.s))
      ensures res == ServerError(AddFailed) <==> name == NonString(true)
      ensures res == BadRequest(AlreadyExists) <==>
        name.Str? && !AllWhitespace(name.s) && NameTakenIgnoringCase(old(store.docs), name.s)
      ensures res.Created? <==>
        name.Str? && !AllWhitespace(name.s) && !NameTakenIgnoringCase(old(store.docs), name.s)
      ensures res.Created? ==> res.param == Parameter(freshId, name.s, now) && res.Status() == 201
      ensures store.docs == if res.Created? then old(store.docs)[freshId := res.param] else old(store.docs)
    {
      if Falsy(name) {
        return BadRequest(NameRequired);
      }
      if name.NonString? {
        // `name.trim` is not a function: the TypeError lands in the catch
        return ServerError(AddFailed);
      }
      var s := name.s;
      var blank := IsBlank(s);
      if blank {
        return BadRequest(NameRequired);
      }
      if exists id | id in store.docs :: SameIgnoringCase(store.docs[id].name, s) {
        return BadRequest(AlreadyExists);
      }
      var p := Parameter(freshId, s, now);
      NameTakenImpliesTakenIgnoringCase(store.docs, s);
      var saved := store.Save(p);
      assert saved;
      res := Created(p);
    }

    /** DELETE /parameter/delete. Without a non-empty `ids` array nothing changes;
        otherwise every record whose id is listed is removed (unknown ids are
        ignored) and the mirror file is rewritten with the remaining store. */
    method DeleteParameter(ids: IdsField) returns (res: Response)
      requires store.Valid()
      modifies this, store
      ensures store.Valid()
      ensures (ids.NotArray? || ids.ids == []) ==>
        res == BadRequest(IdsRequired) && store.docs == old(store.docs) && mirror == old(mirror)
      ensures (ids.IdArray? && ids.ids != []) ==>
        && res == Deleted(DeletedOk)
        && store.docs == old(store.docs) - SetOf(ids.ids)
        && mirror.Records? && IsListing(mirror.recs, store.docs)
        && FileMap(mirror.recs) == store.docs
    {
      if ids.NotArray? || ids.ids == [] {
        return BadRequest(IdsRequired);
      }
      store.DeleteMany(SetOf(ids.ids));
      UpdateParametersFile();
      res := Deleted(DeletedOk);
    }

    /** `updateParametersFile`: overwrites the mirror file with the whole store, so
        that the file's id-to-record map is the store itself. */
    method UpdateParametersFile()
      requires store.Valid()
      modifies this
      ensures mirror.Records? && IsListing(mirror.recs, store.docs)
      ensures FileMap(mirror.recs) == store.docs
    {
      var ps := store.Find();
      mirror := Records(ps);
      FileMapOfListing(ps, store.docs);
    }

    /** `syncParametersFromFile`: one reconciliation cycle, as `SyncStep` states it.
        The file is read, never written. */
    method SyncParametersFromFile() returns (report: SyncReport)
      requires store.Valid()
      modifies store
      ensures store.Valid()
      ensures SyncResult(store.docs, report) == SyncStep(old(store.docs), mirror)
    {
      if mirror.Missing? {
        return Skipped;
      }
      if mirror.Malformed? {
        return ParseFailed;
      }
      var recs := mirror.recs;
      var snapshot := store.Find();
      var fileMap := FileMap(recs);
      var inserted, ok, at := ImportRecords(recs);
      if !ok {
        return Aborted(inserted, recs[at]);
      }
      var deleted := PruneMissing(snapshot, fileMap.Keys);
      report := Completed(inserted, deleted);
    }

    /** The import pass: every file record whose id the store lacks is saved, and
        the first rejected save ends the pass (`ok` false, `at` its index). */
    method ImportRecords(recs: seq<Parameter>) returns (inserted: seq<Id>, ok: bool, at: nat)
      requires store.Valid()
      modifies store
      ensures store.Valid()
      ensures Import(old(store.docs), recs, 0, []) ==
        if ok then Imported(store.docs, inserted) else Failed(store.docs, inserted, at)
    {
      inserted, ok, at := [], true, 0;
      var i := 0;
      while i < |recs|
        invariant 0 <= i <= |recs|
        invariant store.Valid()
        invariant Import(store.docs, recs, i, inserted) == Import(old(store.docs), recs, 0, [])
      {
        var p := recs[i];
        if p.id !in store.docs {   // findOne({_id: p._id}) found nothing
          var saved := store.Save(p);
          if !saved {
            return inserted, false, i;
          }
          inserted := inserted + [p.id];
        }
        i := i + 1;
      }
    }

    /** The prune pass: deletes every snapshot record whose id is not in `keep`. */
    method PruneMissing(snapshot: seq<Parameter>, keep: set<Id>) returns (deleted: set<Id>)
      requires store.Valid()
      modifies store
      ensures store.Valid()
      ensures deleted == Ids(snapshot) - keep
      ensures store.docs == old(store.docs) - deleted
    {
      deleted := {};
      var j := 0;
      while j < |snapshot|
        invariant 0 <= j <= |snapshot|
        invariant store.Valid()
        invariant deleted == Ids(snapshot[..j]) - keep
        invariant store.docs == old(store.docs) - deleted
      {
        var p := snapshot[j];
        assert snapshot[..j + 1] == snapshot[..j] + [p];
        IdsSnoc(snapshot[..j], p);
        if p.id !in keep {
          store.DeleteOne(p.id);
          deleted := deleted + {p.id};
        }
        j := j + 1;
      }
      assert snapshot[..|snapshot|] == snapshot;
    }
  }
}
