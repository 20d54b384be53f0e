/** The reconciliation of the mirror file against the store
    (`syncParametersFromFile`), stated as functions of the store's contents and
    the file's contents, and the properties of one and of two cycles. */
module Sync {
  import opened Text
  import opened Store

  /** What `Parameters.json` holds when the cycle reads it. */
  datatype MirrorFile =
    | Missing                          // `fs.existsSync` is false
    | Malformed                        // `JSON.parse` throws
    | Records(recs: seq<Parameter>)    // an array of parameter records

  /** `i` is the last position in `recs` at which `recs[i].id` occurs. */
  predicate LastOccurrence(recs: seq<Parameter>, i: nat)
    requires i < |recs|
  {
    forall j :: i < j < |recs| ==> recs[j].id != recs[i].id
  }

  /** `new Map(recs.map(p => [p._id, p]))`: every id of the file maps to the
      record at its last occurrence, since later entries overwrite earlier ones. */
  function FileMap(recs: seq<Parameter>): (m: map<Id, Parameter>)
    ensures forall k :: 0 <= k < |recs| && LastOccurrence(recs, k) ==>
      recs[k].id in m && m[recs[k].id] == recs[k]
    decreases |recs|
  {
    if recs == [] then map[]
    else
      var init := recs[..|recs| - 1];
      assert forall k :: 0 <= k < |init| ==> init[k] == recs[k];
      FileMap(init)[recs[|recs| - 1].id := recs[|recs| - 1]]
  }

  /** Outcome of the import pass: the store after it, the ids inserted (in file
      order), and, when a `save` rejected a record, the index of that record. */
  datatype ImportOutcome =
    | Imported(docs: Docs, inserted: seq<Id>)
    | Failed(docs: Docs, inserted: seq<Id>, at: nat)

  /** The import pass from file index `i` on: a record whose id the store already
      holds is skipped; any other record is saved with all its fields, and the
      first rejected save stops the pass. */
  function Import(docs: Docs, recs: seq<Parameter>, i: nat, inserted: seq<Id>): (r: ImportOutcome)
    requires i <= |recs|
    ensures r.Failed? ==> i <= r.at < |recs|
    decreases |recs| - i
  {
    if i == |recs| then Imported(docs, inserted)
    else if recs[i].id in docs then Import(docs, recs, i + 1, inserted)
    else if !Admissible(docs, recs[i]) then Failed(docs, inserted, i)
    else Import(docs[recs[i].id := recs[i]], recs, i + 1, inserted + [recs[i].id])
  }

  /** What one cycle reports, in place of its log lines. */
  datatype SyncReport =
    | Skipped                                        // no mirror file
    | ParseFailed                                    // caught parse error
    | Aborted(inserted: seq<Id>, failed: Parameter)  // caught save error; no prune
    | Completed(inserted: seq<Id>, deleted: set<Id>)

  datatype SyncResult = SyncResult(docs: Docs, report: SyncReport)

  /** One reconciliation cycle: check the file, parse it, snapshot the store,
      import, then prune every snapshot record whose id the file lacks. An
      unreadable file changes nothing; a completed cycle leaves exactly the
      file's ids, having deleted the stored ids the file lacks; an aborted one
      names a file record the store does not hold. */
  function SyncStep(docs: Docs, file: MirrorFile): (r: SyncResult)
    ensures !file.Records? ==> r.docs == docs
    ensures r.report.Completed? ==>
      && file.Records?
      && r.docs.Keys == Ids(file.recs) && r.report.deleted == docs.Keys - Ids(file.recs)
    ensures r.report.Aborted? ==>
      && file.Records?
      && r.report.failed in file.recs && r.report.failed.id !in r.docs
  {
    match file
    case Missing => SyncResult(docs, Skipped)
    case Malformed => SyncResult(docs, ParseFailed)
    case Records(recs) =>
      ImportKeys(docs, recs, 0, []);
      FileMapKeys(recs);
      assert recs[0..|recs|] == recs;
      match Import(docs, recs, 0, [])
      case Failed(d, ins, k) => SyncResult(d, Aborted(ins, recs[k]))
      case Imported(d, ins) =>
        var gone := docs.Keys - FileMap(recs).Keys;
        SyncResult(d - gone, Completed(ins, gone))
  }

  /** `i` is the first position in `recs` at which `recs[i].id` occurs, looking
      from `from` on. */
  predicate FirstFrom(recs: seq<Parameter>, from: nat, i: nat)
    requires i < |recs|
  {
    forall j :: from <= j < i ==> recs[j].id != recs[i].id
  }

  predicate Distinct(s: seq<Id>) {
    forall i, j :: 0 <= i < j < |s| ==> s[i] != s[j]
  }

  /** Where the import pass stopped. */
  function End(r: ImportOutcome, recs: seq<Parameter>): nat {
    if r.Imported? then |recs| else r.at
  }

  // ---------------------------------------------------------------------------
  // The file's map

  lemma {:induction false} FileMapKeys(recs: seq<Parameter>)
    ensures FileMap(recs).Keys == Ids(recs)
    decreases |recs|
  {
    if recs != [] {
      var init := recs[..|recs| - 1];
      FileMapKeys(init);
      assert recs == init + [recs[|recs| - 1]];
      assert forall p :: p in recs <==> p in init || p == recs[|recs| - 1];
    }
  }

  /** The map built from a listing of the store is the store itself: the mirror
      file written after a delete holds exactly the store's records. */
  lemma {:induction false} FileMapOfListing(ps: seq<Parameter>, docs: Docs)
    requires IsListing(ps, docs)
    ensures FileMap(ps) == docs
    decreases |ps|
  {
    if ps == [] {
      assert docs.Keys == {};
    } else {
      var last := ps[|ps| - 1];
      ListingInit(ps, docs);
      RemoveThenRestore(docs, last.id);
      FileMapOfListing(ps[..|ps| - 1], docs - {last.id});
    }
  }

  /** Dropping the last entry of a listing gives a listing of the store without
      that record. */
  lemma ListingInit(ps: seq<Parameter>, docs: Docs)
    requires IsListing(ps, docs) && ps != []
    ensures var last := ps[|ps| - 1];
      IsListing(ps[..|ps| - 1], docs - {last.id})
  {
    var init := ps[..|ps| - 1];
    var last := ps[|ps| - 1];
    ListingInitEntries(ps, docs);
    LastIdFresh(ps);
    assert ps == init + [last];
    IdsSnoc(init, last);
    assert Ids(init) == (docs - {last.id}).Keys;
  }

  lemma ListingInitEntries(ps: seq<Parameter>, docs: Docs)
    requires DistinctIds(ps) && ps != []
    requires forall i :: 0 <= i < |ps| ==> ps[i].id in docs && docs[ps[i].id] == ps[i]
    ensures var init, rest := ps[..|ps| - 1], docs - {ps[|ps| - 1].id};
      && DistinctIds(init)
      && forall i :: 0 <= i < |init| ==> init[i].id in rest && rest[init[i].id] == init[i]
  {
    var init, rest := ps[..|ps| - 1], docs - {ps[|ps| - 1].id};
    forall i | 0 <= i < |init| ensures init[i].id in rest && rest[init[i].id] == init[i] {
      assert init[i] == ps[i];
      assert ps[i].id != ps[|ps| - 1].id;
    }
  }

  /** The last entry's id does not occur earlier in a sequence of distinct ids. */
  lemma LastIdFresh(ps: seq<Parameter>)
    requires DistinctIds(ps) && ps != []
    ensures ps[|ps| - 1].id !in Ids(ps[..|ps| - 1])
  {
    var init := ps[..|ps| - 1];
    forall p | p in init ensures p.id != ps[|ps| - 1].id {
      var k :| 0 <= k < |init| && init[k] == p;
      assert ps[k] == p;
    }
  }

  lemma RemoveThenRestore(docs: Docs, id: Id)
    requires id in docs
    ensures docs == (docs - {id})[id := docs[id]]
  {
    var d := (docs - {id})[id := docs[id]];
    assert d.Keys == docs.Keys;
    assert forall k :: k in docs ==> d[k] == docs[k];
  }

  // ---------------------------------------------------------------------------
  // The import pass

  /** The import pass never changes or removes a record the store already held. */
  lemma {:induction false} ImportPreserves(docs: Docs, recs: seq<Parameter>, i: nat, inserted: seq<Id>)
    requires i <= |recs|
    ensures var r := Import(docs, recs, i, inserted);
      forall id :: id in docs ==> id in r.docs && r.docs[id] == docs[id]
    decreases |recs| - i
  {
    if i < |recs| {
      if recs[i].id in docs {
        ImportPreserves(docs, recs, i + 1, inserted);
      } else if Admissible(docs, recs[i]) {
        ImportPreserves(docs[recs[i].id := recs[i]], recs, i + 1, inserted + [recs[i].id]);
      }
    }
  }

  /** The store after the import pass holds the old ids plus the ids of the file
      records the pass got through; a failure is a record whose id is new and
      whose save the store rejects. */
  lemma ImportKeys(docs: Docs, recs: seq<Parameter>, i: nat, inserted: seq<Id>)
    requires i <= |recs|
    ensures var r := Import(docs, recs, i, inserted);
      && i <= End(r, recs) <= |recs|
      && r.docs.Keys == docs.Keys + Ids(recs[i..End(r, recs)])
      && (r.Failed? ==> recs[r.at].id !in r.docs && !Admissible(r.docs, recs[r.at]))
  {
    ImportGains(docs, recs, i, inserted);
    ImportFailsAtRejected(docs, recs, i, inserted);
  }

  lemma {:induction false} ImportGains(docs: Docs, recs: seq<Parameter>, i: nat, inserted: seq<Id>)
    requires i <= |recs|
    ensures var r := Import(docs, recs, i, inserted);
      r.docs.Keys == docs.Keys + Ids(recs[i..End(r, recs)])
    decreases |recs| - i
  {
    var r := Import(docs, recs, i, inserted);
    if i == |recs| {
      assert recs[i..i] == [];
    } else if recs[i].id in docs {
      assert r == Import(docs, recs, i + 1, inserted);
      ImportGains(docs, recs, i + 1, inserted);
      IdsCons(recs, i, End(r, recs));
    } else if !Admissible(docs, recs[i]) {
      assert recs[i..i] == [];
    } else {
      var d' := docs[recs[i].id := recs[i]];
      assert r == Import(d', recs, i + 1, inserted + [recs[i].id]);
      assert d'.Keys == docs.Keys + {recs[i].id};
      ImportGains(d', recs, i + 1, inserted + [recs[i].id]);
      IdsCons(recs, i, End(r, recs));
    }
  }

  lemma {:induction false} ImportFailsAtRejected(docs: Docs, recs: seq<Parameter>, i: nat, inserted: seq<Id>)
    requires i <= |recs|
    ensures var r := Import(docs, recs, i, inserted);
      r.Failed? ==> recs[r.at].id !in r.docs && !Admissible(r.docs, recs[r.at])
    decreases |recs| - i
  {
    if i < |recs| {
      if recs[i].id in docs {
        ImportFailsAtRejected(docs, recs, i + 1, inserted);
      } else if Admissible(docs, recs[i]) {
        ImportFailsAtRejected(docs[recs[i].id := recs[i]], recs, i + 1, inserted + [recs[i].id]);
      }
    }
  }

  lemma IdsCons(recs: seq<Parameter>, i: nat, j: nat)
    requires i < j <= |recs|
    ensures Ids(recs[i..j]) == {recs[i].id} + Ids(recs[i + 1..j])
  {
    assert recs[i..j] == [recs[i]] + recs[i + 1..j];
    assert forall p :: p in recs[i..j] <==> p == recs[i] || p in recs[i + 1..j];
  }

  /** A file record whose id is new to the store and occurs there for the first
      time is stored verbatim: original id, name and timestamp. */
  lemma {:induction false} ImportKeepsFields(docs: Docs, recs: seq<Parameter>, i: nat, inserted: seq<Id>, k: nat)
    requires i <= k < |recs|
    requires recs[k].id !in docs && FirstFrom(recs, i, k)
    requires k < End(Import(docs, recs, i, inserted), recs)
    ensures var r := Import(docs, recs, i, inserted);
      recs[k].id in r.docs && r.docs[recs[k].id] == recs[k]
    decreases |recs| - i
  {
    var d' := docs[recs[i].id := recs[i]];
    var ins' := inserted + [recs[i].id];
    if recs[i].id in docs {
      ImportKeepsFields(docs, recs, i + 1, inserted, k);
    } else if k == i {
      ImportPreserves(d', recs, i + 1, ins');
    } else {
      ImportKeepsFields(d', recs, i + 1, ins', k);
    }
  }

  /** The ids the pass reports inserting are distinct and are exactly the ids the
      store gained; in particular an id repeated in the file is inserted once. */
  lemma {:induction false} ImportInserted(docs: Docs, recs: seq<Parameter>, i: nat, inserted: seq<Id>)
    requires i <= |recs|
    requires Distinct(inserted) && forall x :: x in inserted ==> x in docs
    ensures var r := Import(docs, recs, i, inserted);
      && Distinct(r.inserted)
      && |inserted| <= |r.inserted| && r.inserted[..|inserted|] == inserted
      && forall x :: x in r.inserted <==> x in inserted || (x in r.docs && x !in docs)
    decreases |recs| - i
  {
    var r := Import(docs, recs, i, inserted);
    if i < |recs| {
      if recs[i].id in docs {
        ImportInserted(docs, recs, i + 1, inserted);
      } else if Admissible(docs, recs[i]) {
        var d' := docs[recs[i].id := recs[i]];
        var ins' := inserted + [recs[i].id];
        ImportInserted(d', recs, i + 1, ins');
        ImportPreserves(d', recs, i + 1, ins');
        assert r.inserted[..|ins'|] == ins';
        assert r.inserted[..|inserted|] == ins'[..|inserted|];
      }
    }
  }

  // ---------------------------------------------------------------------------
  // One cycle

  /** A missing or unparsable mirror file leaves the store untouched. */
  lemma UnreadableFileLeavesStore(docs: Docs, file: MirrorFile)
    requires !file.Records?
    ensures SyncStep(docs, file).docs == docs
    ensures SyncStep(docs, file).report == if file.Missing? then Skipped else ParseFailed
  {
  }

  /** Convergence: after a cycle that completes, the store's ids are exactly the
      file's ids; records that were in both keep their stored fields; a file
      record with a new id is stored as its first occurrence in the file has it. */
  lemma SyncConverges(docs: Docs, recs: seq<Parameter>)
    requires SyncStep(docs, Records(recs)).report.Completed?
    ensures var d := SyncStep(docs, Records(recs)).docs;
      && d.Keys == Ids(recs)
      && (forall id :: id in docs && id in Ids(recs) ==> d[id] == docs[id])
      && (forall k :: 0 <= k < |recs| && recs[k].id !in docs && FirstFrom(recs, 0, k) ==>
            d[recs[k].id] == recs[k])
  {
    var r := Import(docs, recs, 0, []);
    ImportKeys(docs, recs, 0, []);
    ImportPreserves(docs, recs, 0, []);
    FileMapKeys(recs);
    assert recs[0..|recs|] == recs;
    forall k | 0 <= k < |recs| && recs[k].id !in docs && FirstFrom(recs, 0, k)
      ensures r.docs[recs[k].id] == recs[k]
    {
      ImportKeepsFields(docs, recs, 0, [], k);
    }
  }

  /** The prune pass deletes only snapshot records the file lacks, so nothing
      imported in the same cycle is deleted; the report lists inserted ids once
      each, and exactly the records deleted. */
  lemma SyncReportsChanges(docs: Docs, recs: seq<Parameter>)
    requires SyncStep(docs, Records(recs)).report.Completed?
    ensures var res := SyncStep(docs, Records(recs));
      && res.report.deleted == docs.Keys - Ids(recs)
      && res.report.deleted <= docs.Keys
      && Distinct(res.report.inserted)
      && (forall x :: x in res.report.inserted <==> x in Ids(recs) && x !in docs)
  {
    CompletedImportInserted(docs, recs);
  }

  /** A pass over the whole file inserts each new file id once, and nothing else. */
  lemma CompletedImportInserted(docs: Docs, recs: seq<Parameter>)
    requires Import(docs, recs, 0, []).Imported?
    ensures var r := Import(docs, recs, 0, []);
      && Distinct(r.inserted)
      && (forall x :: x in r.inserted <==> x in Ids(recs) && x !in docs)
  {
    var r := Import(docs, recs, 0, []);
    ImportGains(docs, recs, 0, []);
    assert recs[0..|recs|] == recs;
    assert r.docs.Keys == docs.Keys + Ids(recs);
    ImportInserted(docs, recs, 0, []);
  }

  /** A rejected save ends the cycle without rolling back: records inserted
      before it stay, no stored record is lost or changed (the prune pass never
      ran), and the rejected record is a file record the store does not hold
      and would not admit. */
  lemma SyncAbortKeepsPartialImport(docs: Docs, recs: seq<Parameter>)
    requires SyncStep(docs, Records(recs)).report.Aborted?
    ensures var res := SyncStep(docs, Records(recs));
      && (forall id :: id in docs ==> id in res.docs && res.docs[id] == docs[id])
      && res.docs.Keys <= docs.Keys + Ids(recs)
      && res.report.failed in recs
      && res.report.failed.id !in res.docs
      && !Admissible(res.docs, res.report.failed)
      && (forall x :: x in res.report.inserted <==> x in res.docs && x !in docs)
  {
    var r := Import(docs, recs, 0, []);
    ImportKeys(docs, recs, 0, []);
    ImportPreserves(docs, recs, 0, []);
    ImportInserted(docs, recs, 0, []);
    assert forall p :: p in recs[0..r.at] ==> p in recs;
  }

  /** A store whose ids already match the file's is a fixed point: the cycle
      inserts nothing and deletes nothing. */
  lemma {:induction false} SyncNoopWhenIdsAgree(docs: Docs, recs: seq<Parameter>)
    requires docs.Keys == Ids(recs)
    ensures SyncStep(docs, Records(recs)) == SyncResult(docs, Completed([], {}))
  {
    NoImportWhenAllPresent(docs, recs, 0);
    FileMapKeys(recs);
    assert docs.Keys - FileMap(recs).Keys == {};
    assert docs - {} == docs;
  }

  lemma {:induction false} NoImportWhenAllPresent(docs: Docs, recs: seq<Parameter>, i: nat)
    requires i <= |recs| && Ids(recs) <= docs.Keys
    ensures Import(docs, recs, i, []) == Imported(docs, [])
    decreases |recs| - i
  {
    if i < |recs| {
      assert recs[i] in recs;
      NoImportWhenAllPresent(docs, recs, i + 1);
    }
  }

  /** Idempotence: running a second cycle on the result of a completed one, with
      the file unchanged, performs no inserts and no deletes. */
  lemma SyncIdempotent(docs: Docs, recs: seq<Parameter>)
    requires SyncStep(docs, Records(recs)).report.Completed?
    ensures var d := SyncStep(docs, Records(recs)).docs;
      SyncStep(d, Records(recs)) == SyncResult(d, Completed([], {}))
  {
    SyncConverges(docs, recs);
    SyncNoopWhenIdsAgree(SyncStep(docs, Records(recs)).docs, recs);
  }

  /** The mirror file written after a delete is a listing of the store, so the
      cycle its rewrite triggers changes nothing. */
  lemma SyncAfterMirrorWriteIsNoop(docs: Docs, ps: seq<Parameter>)
    requires IsListing(ps, docs)
    ensures SyncStep(docs, Records(ps)) == SyncResult(docs, Completed([], {}))
  {
    SyncNoopWhenIdsAgree(docs, ps);
  }

  /** After an aborted cycle, a second cycle over the same file skips every
      record the first one got through and is rejected at the same record: it
      inserts nothing, deletes nothing, and leaves the store as it was. */
  lemma SyncAbortedThenRepeatIsNoop(docs: Docs, recs: seq<Parameter>)
    requires SyncStep(docs, Records(recs)).report.Aborted?
    ensures var res := SyncStep(docs, Records(recs));
      SyncStep(res.docs, Records(recs)) == SyncResult(res.docs, Aborted([], res.report.failed))
  {
    var r := Import(docs, recs, 0, []);
    ImportKeys(docs, recs, 0, []);
    forall j | 0 <= j < r.at ensures recs[j].id in r.docs {
      assert recs[0..r.at][j] == recs[j];
    }
    SkipToFail(r.docs, recs, 0, r.at);
  }

  /** A pass that meets only stored ids before a new, inadmissible record fails
      there without inserting anything. */
  lemma {:induction false} SkipToFail(d: Docs, recs: seq<Parameter>, i: nat, k: nat)
    requires i <= k < |recs|
    requires forall j :: i <= j < k ==> recs[j].id in d
    requires recs[k].id !in d && !Admissible(d, recs[k])
    ensures Import(d, recs, i, []) == Failed(d, [], k)
    decreases k - i
  {
    if i < k {
      SkipToFail(d, recs, i + 1, k);
    }
  }

  /** Idempotence for every mirror file: a second cycle over an unchanged file
      leaves the store exactly as the first cycle left it. */
  lemma SyncIsIdempotent(docs: Docs, file: MirrorFile)
    ensures var d := SyncStep(docs, file).docs;
      SyncStep(d, file).docs == d
  {
    if file.Records? {
      var report := SyncStep(docs, file).report;
      if report.Completed? {
        SyncIdempotent(docs, file.recs);
      } else if report.Aborted? {
        SyncAbortedThenRepeatIsNoop(docs, file.recs);
      }
    }
  }

  // ---------------------------------------------------------------------------
  // Scenarios

  /** An empty store and the file `[{_id: "1", name: "alpha"}]` give a store
      holding exactly that record. */
  lemma ImportIntoEmptyStore(t: Timestamp)
    ensures var p := Parameter("1", "alpha", t);
      SyncStep(map[], Records([p])) == SyncResult(map["1" := p], Completed(["1"], {}))
  {
    var p := Parameter("1", "alpha", t);
    var empty: Docs := map[];
    assert Admissible(empty, p);
    assert Import(empty, [p], 0, []) == Import(map["1" := p], [p], 1, ["1"]);
    assert Import(map["1" := p], [p], 1, ["1"]) == Imported(map["1" := p], ["1"]);
    assert empty.Keys - FileMap([p]).Keys == {};
    assert map["1" := p] - {} == map["1" := p];
  }

  /** A store holding records "1" and "2" and the file `[{_id: "1"}]` give a store
      holding only record "1". */
  lemma PruneRemovesRecordMissingFromFile(p1: Parameter, p2: Parameter)
    requires p1.id == "1" && p2.id == "2"
    ensures var docs := map["1" := p1, "2" := p2];
      SyncStep(docs, Records([p1])) == SyncResult(map["1" := p1], Completed([], {"2"}))
  {
    var docs := map["1" := p1, "2" := p2];
    assert Import(docs, [p1], 1, []) == Imported(docs, []);
    assert FileMap([p1]).Keys == {"1"} by { FileMapKeys([p1]); }
    assert docs.Keys - FileMap([p1]).Keys == {"2"};
    assert docs - {"2"} == map["1" := p1];
  }

  /** The import pass bypasses the case-insensitive check of creation: names
      differing only in case can both end up stored. */
  lemma ImportAdmitsNamesDifferingInCase(t: Timestamp)
    ensures var a := Parameter("1", "Foo", t);
      var b := Parameter("2", "foo", t);
      var d := SyncStep(map["1" := a], Records([a, b])).docs;
      d == map["1" := a, "2" := b] && NamesDistinctIgnoringCase(map["1" := a])
      && !NamesDistinctIgnoringCase(d)
  {
    var a := Parameter("1", "Foo", t);
    var b := Parameter("2", "foo", t);
    var docs := map["1" := a];
    assert Admissible(docs, b);
    assert Import(docs, [a, b], 1, []) == Import(docs[b.id := b], [a, b], 2, ["2"]);
    assert FileMap([a, b]).Keys == {"1", "2"} by {
      FileMapKeys([a, b]);
      assert forall p :: p in [a, b] <==> p == a || p == b;
    }
    FoldingIsNotInjective();
    var d := map["1" := a, "2" := b];
    assert d["1"].name == "Foo" && d["2"].name == "foo";
  }
}
