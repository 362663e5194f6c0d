/**
 * The entity/attribute/value store as a value: services (datasets), the
 * field catalog, objects (records) and the seven typed value tables.
 */
module Schema {
  import opened Wrappers
  import opened FormTypes

  /** Row identifiers handed out by the database; opaque apart from equality. */
  type Id = nat

  /** A stored scalar; its kind-specific representation is not modelled. */
  datatype Payload = Str(s: string) | Int(i: int) | Real(r: real) | Bool(b: bool)

  datatype Service = Service(name: string, description: string)

  /** A field; the whole record is its get-or-create key. */
  datatype Field = Field(service: Id, name: string, description: string, formType: string)

  datatype Obj = Obj(service: Id)

  /** One row of a typed value table. */
  datatype Row = Row(obj: Id, field: Id, value: Payload)

  /** The failures the store and the runs can raise. */
  datatype Error =
    | UnknownFormType(code: string)      // `FORM_TYPE_MAP[...]` raises KeyError
    | ServiceDoesNotExist(name: string)  // `Service.objects.get` finds nothing
    | DuplicateServiceName(name: string) // `Service.objects.create` with a name in use
    | FetchFailed                        // the response has no record list
    | ExtractionFailed(attribute: string) // a declared attribute cannot be read from a record

  datatype DB = DB(
    services: map<Id, Service>,
    fields: map<Id, Field>,
    objects: map<Id, Obj>,
    tables: map<Table, seq<Row>>)

  /** A row stored in table `t` refers to an existing object and field of the same service, and `t` is the table of the field's kind. */
  ghost predicate RowFits(db: DB, t: Table, r: Row) {
    && r.obj in db.objects
    && r.field in db.fields
    && db.fields[r.field].service == db.objects[r.obj].service
    && db.fields[r.field].formType == CodeOf(t)
  }

  /** The store's invariants: all seven tables, unique service names, unique field keys, no dangling reference, every row in its kind's table. */
  ghost predicate WellFormed(db: DB) {
    && (forall t: Table :: t in db.tables)
    && UniqueNames(db.services)
    && UniqueKeys(db.fields)
    && (forall f :: f in db.fields ==> db.fields[f].service in db.services)
    && (forall o :: o in db.objects ==> db.objects[o].service in db.services)
    && (forall t, i :: t in db.tables && 0 <= i < |db.tables[t]| ==> RowFits(db, t, db.tables[t][i]))
  }

  /** Services `a` and `b` both exist and carry the same name. */
  ghost predicate SameName(services: map<Id, Service>, a: Id, b: Id) {
    a in services && b in services && services[a].name == services[b].name
  }

  /** Fields `a` and `b` both exist and have the same key. */
  ghost predicate SameKey(fields: map<Id, Field>, a: Id, b: Id) {
    a in fields && b in fields && fields[a] == fields[b]
  }

  ghost predicate UniqueNames(services: map<Id, Service>) {
    forall a, b :: SameName(services, a, b) ==> a == b
  }

  ghost predicate UniqueKeys(fields: map<Id, Field>) {
    forall a, b :: SameKey(fields, a, b) ==> a == b
  }

  /** `small` is `big` restricted to some of its keys. */
  ghost predicate Submap<K, V>(small: map<K, V>, big: map<K, V>) {
    forall k :: k in small ==> k in big && small[k] == big[k]
  }

  /** Adding a service under an unused name keeps the names unique. */
  lemma UniqueNamesInsert(services: map<Id, Service>, id: Id, s: Service)
    requires UniqueNames(services) && id !in services
    requires forall a :: a in services ==> services[a].name != s.name
    ensures UniqueNames(services[id := s])
  {
    var m := services[id := s];
    forall a, b | SameName(m, a, b)
      ensures a == b
    {
      if a != id && b != id {
        assert SameName(services, a, b);
      }
    }
  }

  /** Keeping some of the services keeps their names unique. */
  lemma UniqueNamesSubmap(small: map<Id, Service>, big: map<Id, Service>)
    requires UniqueNames(big) && Submap(small, big)
    ensures UniqueNames(small)
  {
    forall a, b | SameName(small, a, b)
      ensures a == b
    {
      assert SameName(big, a, b);
    }
  }

  /** Adding a field with a key not yet in the catalog keeps the keys unique. */
  lemma UniqueKeysInsert(fields: map<Id, Field>, id: Id, key: Field)
    requires UniqueKeys(fields) && id !in fields && key !in fields.Values
    ensures UniqueKeys(fields[id := key])
  {
    var m := fields[id := key];
    forall a, b | SameKey(m, a, b)
      ensures a == b
    {
      if a != id && b != id {
        assert SameKey(fields, a, b);
      }
    }
  }

  /** Keeping some of the fields keeps their keys unique. */
  lemma UniqueKeysSubmap(small: map<Id, Field>, big: map<Id, Field>)
    requires UniqueKeys(big) && Submap(small, big)
    ensures UniqueKeys(small)
  {
    forall a, b | SameKey(small, a, b)
      ensures a == b
    {
      assert SameKey(big, a, b);
    }
  }

  /** In a catalog with unique keys, a field with a given key is the only one. */
  lemma UniqueKeysOnly(fields: map<Id, Field>, a: Id, b: Id)
    requires UniqueKeys(fields) && a in fields && b in fields && fields[a] == fields[b]
    ensures a == b
  {
    assert SameKey(fields, a, b);
  }

  /** Every identifier in use is below `next`, so `next` is fresh. */
  ghost predicate IdsBelow(db: DB, next: nat) {
    && (forall s :: s in db.services ==> s < next)
    && (forall f :: f in db.fields ==> f < next)
    && (forall o :: o in db.objects ==> o < next)
  }

  const EmptyTables: map<Table, seq<Row>> := map t: Table | true :: []

  const EmptyDB: DB := DB(map[], map[], map[], EmptyTables)

  /** A store with no service, field, object or value row. */
  ghost predicate IsEmpty(db: DB) {
    && db.services == map[] && db.fields == map[] && db.objects == map[]
    && (forall t: Table :: t in db.tables && db.tables[t] == [])
  }

  lemma EmptyDBIsEmpty()
    ensures IsEmpty(EmptyDB) && WellFormed(EmptyDB)
  {
  }

  /** There is only one empty store: no service, field or object, and every value table present and empty. */
  lemma EmptyIsEmptyDB(db: DB)
    ensures IsEmpty(db) <==> db == EmptyDB
  {
    if IsEmpty(db) {
      assert db.tables == EmptyTables;
    }
  }

  /** The identifier of the service named `name`, if there is one (`Service.objects.get(name=...)`). */
  ghost function ServiceNamed(services: map<Id, Service>, name: string): (r: Option<Id>)
    ensures r.Some? ==> r.value in services && services[r.value].name == name
    ensures r.None? ==> forall s :: s in services ==> services[s].name != name
  {
    if exists s :: s in services && services[s].name == name then
      var s :| s in services && services[s].name == name; Some(s)
    else None
  }

  /** The objects of service `sid`. */
  ghost function ObjectsOf(db: DB, sid: Id): set<Id> {
    set o | o in db.objects && db.objects[o].service == sid
  }

  /** `rows` without those that refer to one of `ids`, order kept (`filter(object=...).delete()`). */
  function DropObjects(rows: seq<Row>, ids: set<Id>): seq<Row> {
    if rows == [] then []
    else if rows[0].obj in ids then DropObjects(rows[1..], ids)
    else [rows[0]] + DropObjects(rows[1..], ids)
  }

  /** A row survives the drop exactly when it was there and its object is not dropped. */
  lemma {:induction false} DropObjectsMembers(rows: seq<Row>, ids: set<Id>)
    ensures forall x :: x in DropObjects(rows, ids) <==> x in rows && x.obj !in ids
  {
    if rows != [] {
      DropObjectsMembers(rows[1..], ids);
      assert rows == [rows[0]] + rows[1..];
    }
  }

  /** No row left by `DropObjects` belongs to a dropped object. */
  lemma DropObjectsFree(rows: seq<Row>, ids: set<Id>)
    ensures forall i :: 0 <= i < |DropObjects(rows, ids)| ==> DropObjects(rows, ids)[i].obj !in ids
  {
    DropObjectsMembers(rows, ids);
    var d := DropObjects(rows, ids);
    forall i | 0 <= i < |d|
      ensures d[i].obj !in ids
    {
      assert d[i] in d;
    }
  }

  /** Dropping a second set of objects after a first is dropping their union. */
  lemma {:induction false} DropObjectsTwice(rows: seq<Row>, ids: set<Id>, more: set<Id>)
    ensures DropObjects(DropObjects(rows, ids), more) == DropObjects(rows, ids + more)
  {
    if rows != [] {
      DropObjectsTwice(rows[1..], ids, more);
      if rows[0].obj !in ids {
        assert DropObjects(rows, ids) == [rows[0]] + DropObjects(rows[1..], ids);
        assert DropObjects(rows, ids)[1..] == DropObjects(rows[1..], ids);
      }
    }
  }

  /** Dropping objects no row refers to changes nothing. */
  lemma {:induction false} DropObjectsNone(rows: seq<Row>, ids: set<Id>)
    requires forall i :: 0 <= i < |rows| ==> rows[i].obj !in ids
    ensures DropObjects(rows, ids) == rows
  {
    if rows != [] {
      DropObjectsNone(rows[1..], ids);
      assert rows == [rows[0]] + rows[1..];
    }
  }

  /** Dropping objects every row refers to leaves no row. */
  lemma {:induction false} DropObjectsAll(rows: seq<Row>, ids: set<Id>)
    requires forall i :: 0 <= i < |rows| ==> rows[i].obj in ids
    ensures DropObjects(rows, ids) == []
  {
    if rows != [] {
      DropObjectsAll(rows[1..], ids);
    }
  }

  lemma {:induction false} DropObjectsAppend(a: seq<Row>, b: seq<Row>, ids: set<Id>)
    ensures DropObjects(a + b, ids) == DropObjects(a, ids) + DropObjects(b, ids)
  {
    if a == [] {
      assert a + b == b;
    } else {
      assert (a + b)[1..] == a[1..] + b;
      DropObjectsAppend(a[1..], b, ids);
    }
  }

  /**
   * The state `_disater_recovery` leaves behind for service `sid`: the
   * service, its fields, its objects and every value row of its objects
   * are gone; everything else is kept.
   */
  ghost function Purge(db: DB, sid: Id): DB {
    var gone := ObjectsOf(db, sid);
    DB(
      db.services - {sid},
      map f | f in db.fields && db.fields[f].service != sid :: db.fields[f],
      map o | o in db.objects && db.objects[o].service != sid :: db.objects[o],
      map t | t in db.tables :: DropObjects(db.tables[t], gone))
  }

  /** After a purge nothing of the service remains. */
  lemma PurgeComplete(db: DB, sid: Id)
    requires WellFormed(db)
    ensures var p := Purge(db, sid);
      && sid !in p.services
      && (forall f :: f in p.fields ==> p.fields[f].service != sid)
      && (forall o :: o in p.objects ==> p.objects[o].service != sid)
      && (forall t, i :: t in p.tables && 0 <= i < |p.tables[t]| ==> p.tables[t][i].obj !in ObjectsOf(db, sid))
  {
    var p := Purge(db, sid);
    forall t, i | t in p.tables && 0 <= i < |p.tables[t]|
      ensures p.tables[t][i].obj !in ObjectsOf(db, sid)
    {
      DropObjectsMembers(db.tables[t], ObjectsOf(db, sid));
      assert p.tables[t][i] in DropObjects(db.tables[t], ObjectsOf(db, sid));
    }
  }

  /** After purging the service found under `name`, no service has that name. */
  lemma PurgeRemovesName(db: DB, name: string, sid: Id)
    requires WellFormed(db) && ServiceNamed(db.services, name) == Some(sid)
    ensures ServiceNamed(Purge(db, sid).services, name).None?
  {
    forall s | s in Purge(db, sid).services
      ensures Purge(db, sid).services[s].name != name
    {
      assert s != sid && !SameName(db.services, s, sid);
    }
  }

  /** A purge keeps the store's invariants. */
  lemma PurgeWellFormed(db: DB, sid: Id)
    requires WellFormed(db)
    ensures WellFormed(Purge(db, sid))
  {
    var p := Purge(db, sid);
    UniqueNamesSubmap(p.services, db.services);
    UniqueKeysSubmap(p.fields, db.fields);
    forall t, i | t in p.tables && 0 <= i < |p.tables[t]|
      ensures RowFits(p, t, p.tables[t][i])
    {
      var r := p.tables[t][i];
      DropObjectsMembers(db.tables[t], ObjectsOf(db, sid));
      assert r in DropObjects(db.tables[t], ObjectsOf(db, sid));
      var j :| 0 <= j < |db.tables[t]| && db.tables[t][j] == r;
      assert RowFits(db, t, db.tables[t][j]);
    }
  }

  /** The rows of table `t` whose object belongs to service `s`. */
  ghost function RowsOfService(db: DB, t: Table, s: Id): seq<Row>
    requires t in db.tables
  {
    DropObjects(db.tables[t], set o | o in db.objects && db.objects[o].service != s)
  }

  /** A purge leaves every other service, its fields and its objects as they were. */
  lemma PurgeIsolation(db: DB, sid: Id, other: Id)
    requires other != sid
    ensures var p := Purge(db, sid);
      && (other in p.services <==> other in db.services)
      && (other in db.services ==> p.services[other] == db.services[other])
      && (forall f :: f in db.fields && db.fields[f].service == other ==> f in p.fields && p.fields[f] == db.fields[f])
      && (forall o :: o in db.objects && db.objects[o].service == other ==> o in p.objects && p.objects[o] == db.objects[o])
  {
  }

  /** A purge leaves the value rows of every other service as they were, table by table. */
  lemma PurgeIsolatesRows(db: DB, sid: Id, other: Id, t: Table)
    requires WellFormed(db) && other != sid
    ensures t in Purge(db, sid).tables
    ensures RowsOfService(Purge(db, sid), t, other) == RowsOfService(db, t, other)
  {
    var p := Purge(db, sid);
    var rows := db.tables[t];
    var gone := ObjectsOf(db, sid);
    var notOtherP := set o | o in p.objects && p.objects[o].service != other;
    var notOther := set o | o in db.objects && db.objects[o].service != other;
    assert p.tables[t] == DropObjects(rows, gone);
    DropObjectsTwice(rows, gone, notOtherP);
    forall i | 0 <= i < |rows|
      ensures rows[i].obj in gone + notOtherP <==> rows[i].obj in notOther
    {
      assert RowFits(db, t, rows[i]);
    }
    DropObjectsSame(rows, gone + notOtherP, notOther);
  }

  /** Two drop sets that agree on every object a row refers to drop the same rows. */
  lemma {:induction false} DropObjectsSame(rows: seq<Row>, a: set<Id>, b: set<Id>)
    requires forall i :: 0 <= i < |rows| ==> (rows[i].obj in a <==> rows[i].obj in b)
    ensures DropObjects(rows, a) == DropObjects(rows, b)
  {
    if rows != [] {
      DropObjectsSame(rows[1..], a, b);
    }
  }

  /**
   * `after` differs from `before` only by a new service `sid` and fields,
   * objects and appended value rows of that service: what an ingestion run
   * leaves, finished or not, once it has created its service.
   */
  ghost predicate GrewUnder(before: DB, after: DB, sid: Id) {
    && sid !in before.services && sid in after.services
    && after.services == before.services[sid := after.services[sid]]
    && before.fields == (map f | f in after.fields && after.fields[f].service != sid :: after.fields[f])
    && before.objects == (map o | o in after.objects && after.objects[o].service != sid :: after.objects[o])
    && (forall t :: t in before.tables ==> t in after.tables && AppendedUnder(before.tables[t], after.tables[t], after, sid))
  }

  /** `now` is `was` followed by rows of objects of service `sid` only. */
  ghost predicate AppendedUnder(was: seq<Row>, now: seq<Row>, db: DB, sid: Id) {
    && |was| <= |now| && now[..|was|] == was
    && forall i :: |was| <= i < |now| ==> now[i].obj in ObjectsOf(db, sid)
  }

  /**
   * Purging the run's service from what the run left gives back exactly the
   * store from before the run: the compensating clean-up ends where the
   * transactional rollback ends.
   */
  lemma PurgeUndoesRun(before: DB, after: DB, sid: Id)
    requires WellFormed(before) && GrewUnder(before, after, sid)
    ensures Purge(after, sid) == before
  {
    var p := Purge(after, sid);
    forall t: Table
      ensures t in p.tables && p.tables[t] == before.tables[t]
    {
      PurgeUndoesRunTable(before, after, sid, t);
    }
    assert p.tables == before.tables;
    assert p.services == before.services;
  }

  lemma PurgeUndoesRunTable(before: DB, after: DB, sid: Id, t: Table)
    requires WellFormed(before) && GrewUnder(before, after, sid)
    ensures t in after.tables && DropObjects(after.tables[t], ObjectsOf(after, sid)) == before.tables[t]
  {
    var gone := ObjectsOf(after, sid);
    var was := before.tables[t];
    forall i | 0 <= i < |was|
      ensures was[i].obj !in gone
    {
      assert RowFits(before, t, was[i]);
      assert was[i].obj in before.objects;
    }
    DropAppended(was, after.tables[t], gone);
  }

  /** Dropping exactly the appended objects' rows gives back the original rows. */
  lemma DropAppended(was: seq<Row>, now: seq<Row>, gone: set<Id>)
    requires |was| <= |now| && now[..|was|] == was
    requires forall i :: 0 <= i < |was| ==> was[i].obj !in gone
    requires forall i :: |was| <= i < |now| ==> now[i].obj in gone
    ensures DropObjects(now, gone) == was
  {
    assert now == was + now[|was|..];
    DropObjectsAppend(was, now[|was|..], gone);
    DropObjectsNone(was, gone);
    DropObjectsAll(now[|was|..], gone);
  }

  /** Deleting value rows never leaves a dangling reference. */
  lemma DropRowsWellFormed(db: DB, t: Table, ids: set<Id>)
    requires WellFormed(db)
    ensures WellFormed(db.(tables := db.tables[t := DropObjects(db.tables[t], ids)]))
  {
    var d := db.(tables := db.tables[t := DropObjects(db.tables[t], ids)]);
    forall u, i | u in d.tables && 0 <= i < |d.tables[u]|
      ensures RowFits(d, u, d.tables[u][i])
    {
      if u == t {
        var r := d.tables[u][i];
        DropObjectsMembers(db.tables[t], ids);
        assert r in db.tables[t];
        var j :| 0 <= j < |db.tables[t]| && db.tables[t][j] == r;
        assert RowFits(db, t, db.tables[t][j]);
      } else {
        assert RowFits(db, u, db.tables[u][i]);
      }
    }
  }

  // ---- What the ingestion runs write ----

  /**
   * The value rows that one record with object `o` writes to table `t`, in
   * write order: attribute `j` (form type `codes[j]`, field `fids[j]`,
   * value `vals[j]`) lands in `t` exactly when its code is `t`'s code (the table `FORM_TYPE_MAP` gives it).
   */
  function RecordRows(t: Table, o: Id, codes: seq<string>, fids: seq<Id>, vals: seq<Payload>): (r: seq<Row>)
    requires |codes| == |fids| == |vals|
    ensures |r| <= |codes|
    ensures forall i :: 0 <= i < |r| ==> r[i].obj == o
    decreases |codes|
  {
    if codes == [] then []
    else
      var n := |codes| - 1;
      RecordRows(t, o, codes[..n], fids[..n], vals[..n])
        + (if codes[n] == CodeOf(t) then [Row(o, fids[n], vals[n])] else [])
  }

  /** The rows of `rows` whose field is `f`. */
  function RowsWithField(rows: seq<Row>, f: Id): seq<Row> {
    if rows == [] then []
    else (if rows[0].field == f then [rows[0]] else []) + RowsWithField(rows[1..], f)
  }

  lemma {:induction false} RowsWithFieldAppend(a: seq<Row>, b: seq<Row>, f: Id)
    ensures RowsWithField(a + b, f) == RowsWithField(a, f) + RowsWithField(b, f)
  {
    if a == [] {
      assert a + b == b;
    } else {
      var head := if a[0].field == f then [a[0]] else [];
      assert (a + b)[0] == a[0];
      assert (a + b)[1..] == a[1..] + b;
      RowsWithFieldAppend(a[1..], b, f);
      calc {
        RowsWithField(a + b, f);
        head + RowsWithField(a[1..] + b, f);
        head + (RowsWithField(a[1..], f) + RowsWithField(b, f));
        (head + RowsWithField(a[1..], f)) + RowsWithField(b, f);
        RowsWithField(a, f) + RowsWithField(b, f);
      }
    }
  }

  /** One row is kept exactly when its field is `f`. */
  lemma RowsWithFieldSingle(r: Row, f: Id)
    ensures RowsWithField([r], f) == if r.field == f then [r] else []
  {
    assert [r][1..] == [];
  }

  /**
   * Each attribute of a record gives exactly one row, with its value, in the
   * table of its kind and none in any other, when the record's fields are
   * distinct.
   */
  lemma {:induction false} RecordRowsExactlyOne(t: Table, o: Id, codes: seq<string>, fids: seq<Id>, vals: seq<Payload>, j: nat)
    requires |codes| == |fids| == |vals| && j < |codes|
    requires forall k :: 0 <= k < |fids| && k != j ==> fids[k] != fids[j]
    ensures RowsWithField(RecordRows(t, o, codes, fids, vals), fids[j]) ==
      if codes[j] == CodeOf(t) then [Row(o, fids[j], vals[j])] else []
    decreases |codes|
  {
    var n := |codes| - 1;
    var prefix := RecordRows(t, o, codes[..n], fids[..n], vals[..n]);
    var last := if codes[n] == CodeOf(t) then [Row(o, fids[n], vals[n])] else [];
    var expected := if codes[j] == CodeOf(t) then [Row(o, fids[j], vals[j])] else [];
    assert RecordRows(t, o, codes, fids, vals) == prefix + last;
    RowsWithFieldAppend(prefix, last, fids[j]);
    if j < n {
      assert RowsWithField(prefix, fids[j]) == expected by {
        assert codes[..n][j] == codes[j] && fids[..n][j] == fids[j] && vals[..n][j] == vals[j];
        RecordRowsExactlyOne(t, o, codes[..n], fids[..n], vals[..n], j);
      }
      assert RowsWithField(last, fids[j]) == [] by {
        if codes[n] == CodeOf(t) {
          RowsWithFieldSingle(Row(o, fids[n], vals[n]), fids[j]);
        }
      }
      assert expected + [] == expected;
    } else {
      assert RowsWithField(prefix, fids[j]) == [] by {
        assert fids[j] !in fids[..n] by {
          forall k | 0 <= k < n
            ensures fids[..n][k] != fids[j]
          {
          }
        }
        RecordRowsNoField(t, o, codes[..n], fids[..n], vals[..n], fids[j]);
      }
      assert RowsWithField(last, fids[j]) == expected by {
        if codes[n] == CodeOf(t) {
          RowsWithFieldSingle(Row(o, fids[n], vals[n]), fids[j]);
        }
      }
      assert [] + expected == expected;
    }
  }

  /** A record's rows never use a field that is not among its fields. */
  lemma {:induction false} RecordRowsNoField(t: Table, o: Id, codes: seq<string>, fids: seq<Id>, vals: seq<Payload>, f: Id)
    requires |codes| == |fids| == |vals|
    requires f !in fids
    ensures RowsWithField(RecordRows(t, o, codes, fids, vals), f) == []
    decreases |codes|
  {
    if codes != [] {
      var n := |codes| - 1;
      RecordRowsNoField(t, o, codes[..n], fids[..n], vals[..n], f);
      RowsWithFieldAppend(RecordRows(t, o, codes[..n], fids[..n], vals[..n]),
        if codes[n] == CodeOf(t) then [Row(o, fids[n], vals[n])] else [], f);
      assert RowsWithField([], f) == [];
    }
  }

  /** Extending the attribute prefix by one attribute appends at most its row. */
  lemma RecordRowsSnoc(t: Table, o: Id, codes: seq<string>, fids: seq<Id>, vals: seq<Payload>, c: string, f: Id, v: Payload)
    requires |codes| == |fids| == |vals|
    ensures RecordRows(t, o, codes + [c], fids + [f], vals + [v]) ==
      RecordRows(t, o, codes, fids, vals) + (if c == CodeOf(t) then [Row(o, f, v)] else [])
  {
    assert (codes + [c])[..|codes|] == codes;
    assert (fids + [f])[..|fids|] == fids;
    assert (vals + [v])[..|vals|] == vals;
  }

  /** Every table gaining the next attribute's row (if it routes there) extends each table's record rows by one attribute. */
  lemma RecordRowsStep(was: map<Table, seq<Row>>, mid: map<Table, seq<Row>>, now: map<Table, seq<Row>>,
                       o: Id, codes: seq<string>, fids: seq<Id>, vals: seq<Payload>, c: string, f: Id, v: Payload)
    requires |codes| == |fids| == |vals|
    requires forall t: Table :: t in was && t in mid && t in now
    requires forall t: Table :: mid[t] == was[t] + RecordRows(t, o, codes, fids, vals)
    requires forall t: Table :: now[t] == mid[t] + (if c == CodeOf(t) then [Row(o, f, v)] else [])
    ensures forall t: Table :: now[t] == was[t] + RecordRows(t, o, codes + [c], fids + [f], vals + [v])
  {
    forall t: Table
      ensures now[t] == was[t] + RecordRows(t, o, codes + [c], fids + [f], vals + [v])
    {
      RecordRowsSnoc(t, o, codes, fids, vals, c, f, v);
    }
  }

  /** The rows a whole run writes to table `t`: record after record, object `objs[i]` with values `valss[i]`. */
  function RunRows(t: Table, objs: seq<Id>, codes: seq<string>, fids: seq<Id>, valss: seq<seq<Payload>>): (r: seq<Row>)
    requires |objs| == |valss| && |codes| == |fids|
    requires forall i :: 0 <= i < |valss| ==> |valss[i]| == |codes|
    decreases |objs|
  {
    if objs == [] then []
    else
      var n := |objs| - 1;
      RunRows(t, objs[..n], codes, fids, valss[..n]) + RecordRows(t, objs[n], codes, fids, valss[n])
  }

  /** The rows of `rows` whose object is `o`. */
  function RowsOfObject(rows: seq<Row>, o: Id): seq<Row> {
    if rows == [] then []
    else (if rows[0].obj == o then [rows[0]] else []) + RowsOfObject(rows[1..], o)
  }

  lemma {:induction false} RowsOfObjectAppend(a: seq<Row>, b: seq<Row>, o: Id)
    ensures RowsOfObject(a + b, o) == RowsOfObject(a, o) + RowsOfObject(b, o)
  {
    if a == [] {
      assert a + b == b;
    } else {
      var head := if a[0].obj == o then [a[0]] else [];
      assert (a + b)[0] == a[0];
      assert (a + b)[1..] == a[1..] + b;
      RowsOfObjectAppend(a[1..], b, o);
      calc {
        RowsOfObject(a + b, o);
        head + RowsOfObject(a[1..] + b, o);
        head + (RowsOfObject(a[1..], o) + RowsOfObject(b, o));
        (head + RowsOfObject(a[1..], o)) + RowsOfObject(b, o);
        RowsOfObject(a, o) + RowsOfObject(b, o);
      }
    }
  }

  /** A run's rows belong to the run's objects. */
  lemma {:induction false} RunRowsObjects(t: Table, objs: seq<Id>, codes: seq<string>, fids: seq<Id>, valss: seq<seq<Payload>>)
    requires |objs| == |valss| && |codes| == |fids|
    requires forall i :: 0 <= i < |valss| ==> |valss[i]| == |codes|
    ensures forall x :: x in RunRows(t, objs, codes, fids, valss) ==> x.obj in objs
    decreases |objs|
  {
    if objs != [] {
      var n := |objs| - 1;
      RunRowsObjects(t, objs[..n], codes, fids, valss[..n]);
      var rr := RecordRows(t, objs[n], codes, fids, valss[n]);
      forall x | x in rr
        ensures x.obj == objs[n]
      {
        var k :| 0 <= k < |rr| && rr[k] == x;
      }
    }
  }

  /** Rows none of which is of object `o` have no row of it. */
  lemma {:induction false} RowsOfObjectNone(rows: seq<Row>, o: Id)
    requires forall x :: x in rows ==> x.obj != o
    ensures RowsOfObject(rows, o) == []
  {
    if rows != [] {
      assert rows[0] in rows;
      assert forall x :: x in rows[1..] ==> x in rows;
      RowsOfObjectNone(rows[1..], o);
    }
  }

  /** A record's rows are all of its object. */
  lemma {:induction false} RecordRowsOfObject(t: Table, o: Id, codes: seq<string>, fids: seq<Id>, vals: seq<Payload>)
    requires |codes| == |fids| == |vals|
    ensures RowsOfObject(RecordRows(t, o, codes, fids, vals), o) == RecordRows(t, o, codes, fids, vals)
    decreases |codes|
  {
    if codes != [] {
      var n := |codes| - 1;
      var last := if codes[n] == CodeOf(t) then [Row(o, fids[n], vals[n])] else [];
      RecordRowsOfObject(t, o, codes[..n], fids[..n], vals[..n]);
      RowsOfObjectAppend(RecordRows(t, o, codes[..n], fids[..n], vals[..n]), last, o);
      assert RowsOfObject([], o) == [];
    }
  }

  /** When `objs[i]` differs from the run's other objects, its rows are exactly its record's rows. */
  lemma {:induction false} RunRowsOfObject(t: Table, objs: seq<Id>, codes: seq<string>, fids: seq<Id>, valss: seq<seq<Payload>>, i: nat)
    requires |objs| == |valss| && |codes| == |fids| && i < |objs|
    requires forall a :: 0 <= a < |valss| ==> |valss[a]| == |codes|
    requires forall a :: 0 <= a < |objs| && a != i ==> objs[a] != objs[i]
    ensures RowsOfObject(RunRows(t, objs, codes, fids, valss), objs[i]) == RecordRows(t, objs[i], codes, fids, valss[i])
    decreases |objs|
  {
    var n := |objs| - 1;
    var prefix := RunRows(t, objs[..n], codes, fids, valss[..n]);
    var last := RecordRows(t, objs[n], codes, fids, valss[n]);
    var expected := RecordRows(t, objs[i], codes, fids, valss[i]);
    assert RunRows(t, objs, codes, fids, valss) == prefix + last;
    RowsOfObjectAppend(prefix, last, objs[i]);
    if i < n {
      assert RowsOfObject(prefix, objs[i]) == expected by {
        assert objs[..n][i] == objs[i] && valss[..n][i] == valss[i];
        RunRowsOfObject(t, objs[..n], codes, fids, valss[..n], i);
      }
      assert RowsOfObject(last, objs[i]) == [] by {
        forall x | x in last
          ensures x.obj != objs[i]
        {
          var k :| 0 <= k < |last| && last[k] == x;
        }
        RowsOfObjectNone(last, objs[i]);
      }
      assert expected + [] == expected;
    } else {
      assert RowsOfObject(prefix, objs[n]) == [] by {
        RunRowsObjects(t, objs[..n], codes, fids, valss[..n]);
        forall x | x in prefix
          ensures x.obj != objs[n]
        {
          var k :| 0 <= k < n && objs[..n][k] == x.obj;
        }
        RowsOfObjectNone(prefix, objs[n]);
      }
      assert RowsOfObject(last, objs[n]) == expected by {
        RecordRowsOfObject(t, objs[n], codes, fids, valss[n]);
      }
      assert [] + expected == expected;
    }
  }

  /** An object a well-formed database does not hold has no row in it. */
  lemma NewObjectHasNoRows(db: DB, t: Table, o: Id)
    requires WellFormed(db) && t in db.tables && o !in db.objects
    ensures RowsOfObject(db.tables[t], o) == []
  {
    var was := db.tables[t];
    forall x | x in was
      ensures x.obj != o
    {
      var k :| 0 <= k < |was| && was[k] == x;
      assert RowFits(db, t, was[k]);
    }
    RowsOfObjectNone(was, o);
  }

  /**
   * After a run appended to table `t` rows `was` that hold none of object
   * `objs[i]`, with distinct objects and fields, the rows of object
   * `objs[i]` and field `fids[j]` are the one value row when code
   * `codes[j]` is `t`'s code, and none otherwise.
   */
  lemma RunValueRows(was: seq<Row>, t: Table, objs: seq<Id>, codes: seq<string>, fids: seq<Id>, valss: seq<seq<Payload>>, i: nat, j: nat)
    requires |objs| == |valss| && |codes| == |fids| && i < |objs| && j < |codes|
    requires forall a :: 0 <= a < |valss| ==> |valss[a]| == |codes|
    requires forall a, b :: 0 <= a < b < |objs| ==> objs[a] != objs[b]
    requires forall a, b :: 0 <= a < b < |fids| ==> fids[a] != fids[b]
    requires RowsOfObject(was, objs[i]) == []
    ensures RowsWithField(RowsOfObject(was + RunRows(t, objs, codes, fids, valss), objs[i]), fids[j]) ==
      if codes[j] == CodeOf(t) then [Row(objs[i], fids[j], valss[i][j])] else []
  {
    RowsOfObjectAppend(was, RunRows(t, objs, codes, fids, valss), objs[i]);
    RunRowsOfObject(t, objs, codes, fids, valss, i);
    assert RowsOfObject(was + RunRows(t, objs, codes, fids, valss), objs[i]) == RecordRows(t, objs[i], codes, fids, valss[i]);
    RecordRowsExactlyOne(t, objs[i], codes, fids, valss[i], j);
  }

  /** Adding one more record to the run appends its rows. */
  lemma RunRowsSnoc(t: Table, objs: seq<Id>, codes: seq<string>, fids: seq<Id>, valss: seq<seq<Payload>>, o: Id, vals: seq<Payload>)
    requires |objs| == |valss| && |codes| == |fids| == |vals|
    requires forall i :: 0 <= i < |valss| ==> |valss[i]| == |codes|
    ensures RunRows(t, objs + [o], codes, fids, valss + [vals]) == RunRows(t, objs, codes, fids, valss) + RecordRows(t, o, codes, fids, vals)
  {
    assert (objs + [o])[..|objs|] == objs;
    assert (valss + [vals])[..|valss|] == valss;
  }

  // ---- Each step of a run stays inside the run's service ----

  lemma GrewUnderNewObject(before: DB, db: DB, sid: Id, o: Id)
    requires GrewUnder(before, db, sid) && o !in db.objects
    ensures GrewUnder(before, db.(objects := db.objects[o := Obj(sid)]), sid)
  {
    var d := db.(objects := db.objects[o := Obj(sid)]);
    assert (map x | x in d.objects && d.objects[x].service != sid :: d.objects[x])
        == (map x | x in db.objects && db.objects[x].service != sid :: db.objects[x]);
    assert ObjectsOf(db, sid) <= ObjectsOf(d, sid);
  }

  lemma GrewUnderNewField(before: DB, db: DB, sid: Id, f: Id, key: Field)
    requires GrewUnder(before, db, sid) && key.service == sid && f !in db.fields
    ensures GrewUnder(before, db.(fields := db.fields[f := key]), sid)
  {
    var d := db.(fields := db.fields[f := key]);
    assert (map x | x in d.fields && d.fields[x].service != sid :: d.fields[x])
        == (map x | x in db.fields && db.fields[x].service != sid :: db.fields[x]);
  }

  lemma GrewUnderNewRow(before: DB, db: DB, sid: Id, t: Table, row: Row)
    requires GrewUnder(before, db, sid) && t in db.tables && row.obj in ObjectsOf(db, sid)
    ensures GrewUnder(before, db.(tables := db.tables[t := db.tables[t] + [row]]), sid)
  {
    var d := db.(tables := db.tables[t := db.tables[t] + [row]]);
    forall u | u in before.tables
      ensures u in d.tables && AppendedUnder(before.tables[u], d.tables[u], d, sid)
    {
      if u == t {
        assert (db.tables[t] + [row])[..|before.tables[t]|] == db.tables[t][..|before.tables[t]|];
      }
    }
  }

  /** `now` is `was` followed by rows of object `o` only. */
  ghost predicate AppendedFor(was: seq<Row>, now: seq<Row>, o: Id) {
    && |was| <= |now| && now[..|was|] == was
    && forall i :: |was| <= i < |now| ==> now[i].obj == o
  }

  /**
   * From `db0` to `db`, one record is in progress: object `o` of service
   * `sid` was added, existing fields kept, new fields are of `sid`, and the
   * tables only gained rows of `o`.
   */
  ghost predicate Confined(db0: DB, db: DB, sid: Id, o: Id) {
    && db.services == db0.services
    && db.objects == db0.objects[o := Obj(sid)]
    && Submap(db0.fields, db.fields)
    && (forall f :: f in db.fields && f !in db0.fields ==> db.fields[f].service == sid)
    && (forall t :: t in db0.tables ==> t in db.tables && AppendedFor(db0.tables[t], db.tables[t], o))
  }

  /** Rows appended to a table of object `o` keep it appended-for `o`. */
  lemma AppendedForConcat(was: seq<Row>, extra: seq<Row>, o: Id)
    requires forall i :: 0 <= i < |extra| ==> extra[i].obj == o
    ensures AppendedFor(was, was + extra, o)
  {
    assert (was + extra)[..|was|] == was;
    forall i | |was| <= i < |was + extra|
      ensures (was + extra)[i].obj == o
    {
      assert (was + extra)[i] == extra[i - |was|];
    }
  }

  /** A record in progress keeps the run confined to its service. */
  lemma GrewUnderConfined(before: DB, db0: DB, db: DB, sid: Id, o: Id)
    requires GrewUnder(before, db0, sid) && o !in db0.objects && Confined(db0, db, sid, o)
    ensures GrewUnder(before, db, sid)
  {
    assert (map x | x in db.fields && db.fields[x].service != sid :: db.fields[x])
        == (map x | x in db0.fields && db0.fields[x].service != sid :: db0.fields[x]);
    assert (map x | x in db.objects && db.objects[x].service != sid :: db.objects[x])
        == (map x | x in db0.objects && db0.objects[x].service != sid :: db0.objects[x]);
    forall t | t in before.tables
      ensures t in db.tables && AppendedUnder(before.tables[t], db.tables[t], db, sid)
    {
      var was, mid, now := before.tables[t], db0.tables[t], db.tables[t];
      assert AppendedFor(mid, now, o);
      assert now[..|was|] == mid[..|mid|][..|was|];
      forall i | |was| <= i < |now|
        ensures now[i].obj in ObjectsOf(db, sid)
      {
        if i < |mid| {
          assert now[i] == mid[i];
          assert mid[i].obj in ObjectsOf(db0, sid);
        }
      }
    }
  }

  /** A run that has only created its service has grown under it. */
  lemma GrewUnderNewService(before: DB, sid: Id, s: Service)
    requires WellFormed(before) && sid !in before.services
    ensures GrewUnder(before, before.(services := before.services[sid := s]), sid)
  {
    var d := before.(services := before.services[sid := s]);
    assert (map x | x in d.fields && d.fields[x].service != sid :: d.fields[x]) == before.fields;
    assert (map x | x in d.objects && d.objects[x].service != sid :: d.objects[x]) == before.objects;
    forall t | t in before.tables
      ensures AppendedUnder(before.tables[t], d.tables[t], d, sid)
    {
      assert d.tables[t][..|before.tables[t]|] == before.tables[t];
    }
  }
}
