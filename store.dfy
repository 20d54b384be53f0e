/** The Parameter collection of the database: records keyed by `_id`, with the
    schema's rules that a name is required and unique (case-sensitively), and the
    collection operations the controller calls (`find`, `save`, `deleteOne`,
    `deleteMany`). Identifiers are opaque strings; `createdAt` is an opaque
    timestamp chosen by whoever creates the record. */
module Store {
  import opened Text

  type Id = string
  type Timestamp = int

  datatype Parameter = Parameter(id: Id, name: string, createdAt: Timestamp)

  /** The collection's contents: each stored record under its own `_id`. */
  type Docs = map<Id, Parameter>

  /** Some stored record carries exactly this name (the unique index compares
      names case-sensitively). */
  predicate NameTaken(docs: Docs, name: string) {
    exists id :: id in docs && docs[id].name == name
  }

  /** The duplicate lookup of creation, `findOne({name: /^name$/i})`: some stored
      name equals `name` ignoring case. */
  predicate NameTakenIgnoringCase(docs: Docs, name: string) {
    exists id :: id in docs && SameIgnoringCase(docs[id].name, name)
  }

  /** The creation lookup catches every name the unique index would reject: a
      name stored exactly is also stored ignoring case. */
  lemma NameTakenImpliesTakenIgnoringCase(docs: Docs, name: string)
    ensures NameTaken(docs, name) ==> NameTakenIgnoringCase(docs, name)
  {
    if NameTaken(docs, name) {
      var id :| id in docs && docs[id].name == name;
      assert SameIgnoringCase(docs[id].name, name);
    }
  }

  /** No two stored names are equal ignoring case: what creation aims for, and
      what the store itself does not enforce. */
  predicate NamesDistinctIgnoringCase(docs: Docs) {
    forall a, b :: a in docs && b in docs && SameIgnoringCase(docs[a].name, docs[b].name) ==> a == b
  }

  /** What the collection guarantees of its contents: records sit under their own
      ids, every name is present (Mongoose rejects "" for a required string), and
      no two records share a name. */
  predicate WellFormed(docs: Docs) {
    && (forall id :: id in docs ==> docs[id].id == id && docs[id].name != "")
    && (forall a, b :: a in docs && b in docs && docs[a].name == docs[b].name ==> a == b)
  }

  /** `save` of a new document succeeds exactly when its `_id` is free, its name is
      non-empty, and no stored record has that name. */
  predicate Admissible(docs: Docs, p: Parameter) {
    p.id !in docs && p.name != "" && !NameTaken(docs, p.name)
  }

  /** The set of ids carried by a sequence of records. */
  function Ids(ps: seq<Parameter>): set<Id> {
    set p | p in ps :: p.id
  }

  lemma IdsSnoc(ps: seq<Parameter>, p: Parameter)
    ensures Ids(ps + [p]) == Ids(ps) + {p.id}
  {
    assert forall q :: q in ps + [p] <==> q in ps || q == p;
  }

  /** No id occurs twice in `ps`. */
  predicate DistinctIds(ps: seq<Parameter>) {
    forall i, j :: 0 <= i < j < |ps| ==> ps[i].id != ps[j].id
  }

  /** `ps` is a result of `find()` on `docs`: every stored record exactly once, in
      some order. */
  predicate IsListing(ps: seq<Parameter>, docs: Docs) {
    && DistinctIds(ps)
    && (forall i :: 0 <= i < |ps| ==> ps[i].id in docs && docs[ps[i].id] == ps[i])
    && Ids(ps) == docs.Keys
  }

  /** Inserting an admissible record keeps the collection well formed. */
  lemma AdmissibleInsertWellFormed(docs: Docs, p: Parameter)
    requires WellFormed(docs) && Admissible(docs, p)
    ensures WellFormed(docs[p.id := p])
  {
  }

  /** The database's Parameter collection as an object whose contents the
      controller changes in place. */
  class Collection {
    var docs: Docs

    ghost predicate Valid()
      reads this
    {
      WellFormed(docs)
    }

    constructor ()
      ensures Valid() && docs == map[]
    {
      docs := map[];
    }

    /** `Parameter.find()`: every record, each once, in an order the database chooses. */
    method Find() returns (ps: seq<Parameter>)
      requires Valid()
      ensures IsListing(ps, docs)
    {
      ps := [];
      var rest := docs.Keys;
      while rest != {}
        invariant rest <= docs.Keys
        invariant DistinctIds(ps)
        invariant forall i :: 0 <= i < |ps| ==> ps[i].id in docs && docs[ps[i].id] == ps[i]
        invariant Ids(ps) == docs.Keys - rest
        decreases rest
      {
        var id :| id in rest;
        IdsSnoc(ps, docs[id]);
        ps := ps + [docs[id]];
        rest := rest - {id};
      }
    }

    /** `new Parameter(p).save()`: stores `p` under its own id when the schema
        and the indexes admit it, and otherwise fails leaving the collection as it was. */
    method Save(p: Parameter) returns (ok: bool)
      requires Valid()
      modifies this
      ensures Valid()
      ensures ok == Admissible(old(docs), p)
      ensures docs == if ok then old(docs)[p.id := p] else old(docs)
    {
      ok := p.id !in docs && p.name != "" && forall id | id in docs :: docs[id].name != p.name;
      if ok {
        AdmissibleInsertWellFormed(docs, p);
        docs := docs[p.id := p];
      }
    }

    /** `deleteOne({_id: id})`: removes the record with that id, if any. */
    method DeleteOne(id: Id)
      requires Valid()
      modifies this
      ensures Valid()
      ensures docs == old(docs) - {id}
    {
      docs := docs - {id};
    }

    /** `deleteMany({_id: {$in: ids}})`: removes every record whose id is listed;
        ids that match nothing are ignored. */
    method DeleteMany(ids: set<Id>)
      requires Valid()
      modifies this
      ensures Valid()
      ensures docs == old(docs) - ids
    {
      docs := docs - ids;
    }
  }
}
