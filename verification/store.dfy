/**
 * The `Temperature` collection: the documents the schema admits, how `save()` stamps
 * and appends them, and what `find(filter).sort({ createdAt: 1 })` returns.
 */
module Store {
  import opened Wrappers
  import opened JsonValue

  /** A `Temperature` document before it is saved: the two schema paths. */
  datatype Document = Document(deviceId: Json, temperature: Json)

  /** A saved document. `timestamps: true` stamps `createdAt` and `updatedAt`
      (milliseconds since the epoch) with the time of the save. */
  datatype Reading = Reading(deviceId: Json, temperature: Json, createdAt: int, updatedAt: int)

  /** The schema's `required: true` on either path. On the String path `deviceId` it rejects
      null, undefined and the empty string. On the Number path `temperature` Mongoose first casts
      `""` to null, so the empty string is rejected there too. */
  predicate Present(v: Json)
  {
    !(v.Undefined? || v.Null? || v == Str(""))
  }

  /** The document passes the schema's required validators. */
  predicate MeetsRequired(doc: Document)
  {
    Present(doc.deviceId) && Present(doc.temperature)
  }

  /** `save()` resolves: validation passes and the database accepts the write. */
  predicate SaveSucceeds(doc: Document, saveFails: bool)
  {
    !saveFails && MeetsRequired(doc)
  }

  /** The document as the collection keeps it once saved at time `now`. */
  function Stamp(doc: Document, now: int): (r: Reading)
    ensures WellFormed(r) <==> MeetsRequired(doc)
  {
    Reading(doc.deviceId, doc.temperature, now, now)
  }

  /** What every stored reading satisfies: it passed the required validators and was stamped once. */
  predicate WellFormed(r: Reading)
  {
    MeetsRequired(Document(r.deviceId, r.temperature)) && r.updatedAt == r.createdAt
  }

  // ---------------------------------------------------------------- queries

  /** A query document on `createdAt`: none at all, or `{ $gte: start, $lte: end }`.
      A bound is `None` when it is an Invalid Date. */
  datatype Filter = All | CreatedBetween(gte: Option<int>, lte: Option<int>)
  {
    /** Mongoose can cast the filter: no bound is an Invalid Date. */
    predicate Castable()
    {
      All? || (gte.Some? && lte.Some?)
    }

    predicate Matches(r: Reading)
      requires Castable()
    {
      All? || (gte.value <= r.createdAt <= lte.value)
    }
  }

  /** Readings in ascending `createdAt` order. */
  predicate SortedByCreatedAt(rs: seq<Reading>)
  {
    forall i, j :: 0 <= i < j < |rs| ==> rs[i].createdAt <= rs[j].createdAt
  }

  /** The readings that match the filter, in stored order. */
  function Select(rs: seq<Reading>, f: Filter): (out: seq<Reading>)
    requires f.Castable()
    ensures forall x :: multiset(out)[x] == if f.Matches(x) then multiset(rs)[x] else 0
  {
    if rs == [] then []
    else
      assert rs == [rs[0]] + rs[1..];
      (if f.Matches(rs[0]) then [rs[0]] else []) + Select(rs[1..], f)
  }

  /** `r` inserted into sorted `rs` after every reading not later than it. */
  function Insert(r: Reading, rs: seq<Reading>): (out: seq<Reading>)
    requires SortedByCreatedAt(rs)
    ensures SortedByCreatedAt(out)
    ensures multiset(out) == multiset(rs) + multiset{r}
    ensures out[0] == r || (rs != [] && out[0] == rs[0])
  {
    if rs == [] || r.createdAt < rs[0].createdAt then [r] + rs
    else
      var tail := rs[1..];
      assert SortedByCreatedAt(tail);
      var rest := Insert(r, tail);
      assert rest[0] == r || rest[0] == rs[1];
      SortedPrepend(rs[0], rest);
      assert rs == [rs[0]] + tail;
      [rs[0]] + rest
  }

  lemma SortedPrepend(a: Reading, rs: seq<Reading>)
    requires SortedByCreatedAt(rs)
    requires rs != [] ==> a.createdAt <= rs[0].createdAt
    ensures SortedByCreatedAt([a] + rs)
  {
    var out := [a] + rs;
    forall i, j | 0 <= i < j < |out|
      ensures out[i].createdAt <= out[j].createdAt
    {
      if i == 0 && j > 1 {
        assert rs[0].createdAt <= rs[j - 1].createdAt;
      }
    }
  }

  /** `.sort({ createdAt: 1 })`: ascending by `createdAt`, readings with equal `createdAt` in stored order. */
  function SortByCreatedAt(rs: seq<Reading>): (out: seq<Reading>)
    ensures SortedByCreatedAt(out)
    ensures multiset(out) == multiset(rs)
  {
    if rs == [] then []
    else
      assert rs == rs[..|rs| - 1] + [rs[|rs| - 1]];
      Insert(rs[|rs| - 1], SortByCreatedAt(rs[..|rs| - 1]))
  }

  /** `find(filter).sort({ createdAt: 1 })` over the stored readings. */
  function Query(rs: seq<Reading>, f: Filter): (out: seq<Reading>)
    requires f.Castable()
    ensures SortedByCreatedAt(out)
    ensures forall x :: multiset(out)[x] == if f.Matches(x) then multiset(rs)[x] else 0
  {
    SortByCreatedAt(Select(rs, f))
  }

  /** The outcome of a find: `None` when the query rejects (an uncastable filter or a database failure). */
  function FindResult(rs: seq<Reading>, f: Filter, queryFails: bool): (r: Option<seq<Reading>>)
    ensures r.Some? <==> !queryFails && f.Castable()
  {
    if queryFails || !f.Castable() then None else Some(Query(rs, f))
  }

  // ---------------------------------------------------------------- the collection

  /** The MongoDB collection behind the `Temperature` model. */
  class TemperatureCollection {
    var documents: seq<Reading>

    ghost predicate Valid()
      reads this
    {
      forall i :: 0 <= i < |documents| ==> WellFormed(documents[i])
    }

    constructor ()
      ensures Valid() && documents == []
    {
      documents := [];
    }

    /** `new Temperature(doc).save()` at time `now`: validate, stamp, append; on any failure nothing is written. */
    method Save(doc: Document, now: int, saveFails: bool) returns (saved: bool)
      requires Valid()
      modifies this
      ensures Valid()
      ensures saved <==> SaveSucceeds(doc, saveFails)
      ensures documents == if saved then old(documents) + [Stamp(doc, now)] else old(documents)
    {
      saved := SaveSucceeds(doc, saveFails);
      if saved {
        documents := documents + [Stamp(doc, now)];
      }
    }

    /** `find(filter).sort({ createdAt: 1 })`: every matching reading, ascending by `createdAt`. */
    method Find(f: Filter, queryFails: bool) returns (r: Option<seq<Reading>>)
      ensures r.Some? <==> !queryFails && f.Castable()
      ensures r.Some? ==> SortedByCreatedAt(r.value)
      ensures r.Some? ==> forall x :: multiset(r.value)[x] == if f.Matches(x) then multiset(documents)[x] else 0
      ensures r == FindResult(documents, f, queryFails)
    {
      if queryFails || !f.Castable() {
        r := None;
      } else {
        r := Some(Query(documents, f));
      }
    }
  }

}
