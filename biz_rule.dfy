/**
 * core/biz_rule.py: the clean-up routines, the typed value write, the
 * field upsert and the two ingestion runs, run against an `Orm.Store`.
 */
module BizRule {
  import opened Wrappers
  import opened FormTypes
  import opened Schema
  import opened Orm
  import opened Extraction

  /** `_empty_all`: every value table, then the fields, the objects and the services are emptied. */
  method EmptyAll(store: Store)
    requires store.Valid()
    modifies store
    ensures store.Valid() && store.Snapshot() == EmptyDB && store.next == old(store.next)
  {
    var i := 0;
    while i < |FormList|
      invariant 0 <= i <= |FormList|
      invariant store.Valid() && store.next == old(store.next)
      invariant forall k :: 0 <= k < i ==> store.tables[FormList[k]] == []
    {
      store.ClearTable(FormList[i]);
      i := i + 1;
    }
    forall t: Table
      ensures store.tables[t] == []
    {
      FormListComplete(t);
    }
    store.ClearFields();
    store.ClearObjects();
    store.ClearServices();
    EmptyIsEmptyDB(store.Snapshot());
  }

  /**
   * `_disater_recovery(name)`: the service with that name must exist
   * (otherwise `Service.objects.get` raises and nothing changes); then, for
   * each of its objects, the object's rows in every value table and the
   * object itself are deleted, then its fields, then the service.
   */
  method DisasterRecovery(store: Store, name: string) returns (r: Result<(), Error>)
    requires store.Valid()
    modifies store
    ensures store.Valid() && store.next == old(store.next)
    ensures ServiceNamed(old(store.services), name).None? ==>
      r == Err(ServiceDoesNotExist(name)) && store.Snapshot() == old(store.Snapshot())
    ensures ServiceNamed(old(store.services), name).Some? ==>
      r == Ok(()) && store.Snapshot() == Purge(old(store.Snapshot()), ServiceNamed(old(store.services), name).value)
  {
    var found := store.GetServiceByName(name);
    if found.Err? {
      return Err(found.error);
    }
    var sid := found.value;
    ghost var before := store.Snapshot();
    var objectList := store.ObjectsOfService(sid);
    DeleteObjects(store, objectList, ObjectsOf(before, sid));
    DeleteServiceRecord(store, sid, before);
    r := Ok(());
  }

  /** The tail of `_disater_recovery`: once the service's objects are gone, its fields and then the service are deleted. */
  method DeleteServiceRecord(store: Store, sid: Id, ghost before: DB)
    requires store.Valid() && WellFormed(before) && sid in before.services
    requires store.services == before.services && store.fields == before.fields
    requires store.objects == before.objects - ObjectsOf(before, sid)
    requires forall t: Table :: store.tables[t] == DropObjects(before.tables[t], ObjectsOf(before, sid))
    modifies store
    ensures store.Valid() && store.next == old(store.next)
    ensures store.Snapshot() == Purge(before, sid)
  {
    forall t, k | t in store.tables && 0 <= k < |store.tables[t]|
      ensures store.tables[t][k].field in store.fields && store.fields[store.tables[t][k].field].service != sid
    {
      assert RowFits(store.Snapshot(), t, store.tables[t][k]);
    }
    store.DeleteFieldsOf(sid);
    store.DeleteService(sid);
    assert store.objects == Purge(before, sid).objects;
    assert store.tables == Purge(before, sid).tables;
  }

  /** The outer loop of `_disater_recovery`: each listed object's rows, then the object, are deleted. */
  method DeleteObjects(store: Store, objectList: seq<Id>, ghost gone: set<Id>)
    requires store.Valid()
    requires forall o :: o in gone <==> o in objectList
    modifies store
    ensures store.Valid() && store.next == old(store.next)
    ensures store.services == old(store.services) && store.fields == old(store.fields)
    ensures store.objects == old(store.objects) - gone
    ensures forall t: Table :: store.tables[t] == DropObjects(old(store.tables)[t], gone)
  {
    ghost var done: set<Id> := {};
    forall t: Table
      ensures store.tables[t] == DropObjects(old(store.tables)[t], done)
    {
      DropObjectsNone(old(store.tables)[t], done);
    }
    var i := 0;
    while i < |objectList|
      invariant 0 <= i <= |objectList|
      invariant store.Valid() && store.next == old(store.next)
      invariant store.services == old(store.services) && store.fields == old(store.fields)
      invariant forall o :: o in done <==> o in objectList[..i]
      invariant store.objects == old(store.objects) - done
      invariant forall t: Table :: store.tables[t] == DropObjects(old(store.tables)[t], done)
    {
      var o := objectList[i];
      ghost var pre := store.tables;
      DeleteObjectValues(store, o);
      forall t | t in store.tables
        ensures forall k :: 0 <= k < |store.tables[t]| ==> store.tables[t][k].obj != o
      {
        DropObjectsFree(pre[t], {o});
      }
      forall t: Table
        ensures store.tables[t] == DropObjects(old(store.tables)[t], done + {o})
      {
        DropObjectsTwice(old(store.tables)[t], done, {o});
      }
      store.DeleteObject(o);
      done := done + {o};
      i := i + 1;
      assert objectList[..i] == objectList[..i - 1] + [o];
    }
    assert objectList[..i] == objectList;
    assert done == gone;
  }

  /** The inner loop of `_disater_recovery`: the object's rows are deleted from each table of `form_list` in turn. */
  method DeleteObjectValues(store: Store, o: Id)
    requires store.Valid()
    modifies store
    ensures store.Valid() && store.next == old(store.next)
    ensures store.services == old(store.services) && store.fields == old(store.fields) && store.objects == old(store.objects)
    ensures forall t: Table :: store.tables[t] == DropObjects(old(store.tables)[t], {o})
  {
    var j := 0;
    while j < |FormList|
      invariant 0 <= j <= |FormList|
      invariant store.Valid() && store.next == old(store.next)
      invariant store.services == old(store.services) && store.fields == old(store.fields) && store.objects == old(store.objects)
      invariant forall k :: 0 <= k < j ==> store.tables[FormList[k]] == DropObjects(old(store.tables)[FormList[k]], {o})
      invariant forall k :: j <= k < |FormList| ==> store.tables[FormList[k]] == old(store.tables)[FormList[k]]
    {
      FormListComplete(FormList[j]);
      store.DeleteRowsOf(FormList[j], o);
      j := j + 1;
    }
    forall t: Table
      ensures store.tables[t] == DropObjects(old(store.tables)[t], {o})
    {
      FormListComplete(t);
    }
  }

  /**
   * `_add_field_value(obj, field, value)`: one row `(obj, field, value)` is
   * appended to the table that `FORM_TYPE_MAP` gives for the field's form
   * type, and nothing else changes; an unknown form type is a `KeyError`
   * and writes nothing.
   */
  method AddFieldValue(store: Store, obj: Id, field: Id, value: Payload) returns (r: Result<(), Error>)
    requires store.Valid()
    requires obj in store.objects && field in store.fields
    requires store.fields[field].service == store.objects[obj].service
    modifies store
    ensures store.Valid()
    ensures store.services == old(store.services) && store.fields == old(store.fields)
    ensures store.objects == old(store.objects) && store.next == old(store.next)
    ensures FormTypeMap(store.fields[field].formType).None? ==>
      r == Err(UnknownFormType(store.fields[field].formType)) && store.tables == old(store.tables)
    ensures FormTypeMap(store.fields[field].formType).Some? ==>
      var t := FormTypeMap(store.fields[field].formType).value;
      r == Ok(()) && store.tables == old(store.tables)[t := old(store.tables)[t] + [Row(obj, field, value)]]
  {
    var form := FormTypeMap(store.fields[field].formType);
    if form.None? {
      return Err(UnknownFormType(store.fields[field].formType));
    }
    FormTypeMapBijective(store.fields[field].formType, form.value);
    store.CreateRow(form.value, Row(obj, field, value));
    r := Ok(());
  }

  /**
   * `_add_field(obj, service, name, description, form_type, value)`: the
   * field with key (service, name, description, form_type) is looked up and
   * created only if missing, then one value row is written for it. `fid` is
   * the field used: the only one with that key.
   */
  method AddField(store: Store, obj: Id, sid: Id, name: string, description: string, formType: string, value: Payload)
    returns (fid: Id, r: Result<(), Error>)
    requires store.Valid()
    requires sid in store.services && obj in store.objects && store.objects[obj].service == sid
    modifies store
    ensures store.Valid()
    ensures var key := Field(sid, name, description, formType);
      && fid in store.fields && store.fields[fid] == key
      && (forall f :: f in store.fields && store.fields[f] == key ==> f == fid)
      && (key in old(store.fields).Values ==> store.fields == old(store.fields) && store.next == old(store.next))
      && (key !in old(store.fields).Values ==>
            fid == old(store.next) && fid !in old(store.fields) && store.fields == old(store.fields)[fid := key]
            && store.next == old(store.next) + 1)
    ensures store.services == old(store.services) && store.objects == old(store.objects)
    ensures FormTypeMap(formType).None? ==> r == Err(UnknownFormType(formType)) && store.tables == old(store.tables)
    ensures FormTypeMap(formType).Some? ==>
      var t := FormTypeMap(formType).value;
      r == Ok(()) && store.tables == old(store.tables)[t := old(store.tables)[t] + [Row(obj, fid, value)]]
  {
    var created;
    fid, created := store.GetOrCreateField(Field(sid, name, description, formType));
    r := AddFieldValue(store, obj, fid, value);
    forall f | f in store.fields && store.fields[f] == Field(sid, name, description, formType)
      ensures f == fid
    {
      UniqueKeysOnly(store.fields, f, fid);
    }
  }

  /**
   * Two `_add_field` calls with the same object, key and value: the catalog
   * grows by at most one field, both calls use the same field, and the
   * table gets two rows; the second call does not overwrite the first.
   */
  method AddFieldTwice(store: Store, obj: Id, sid: Id, name: string, description: string, formType: string, value: Payload)
    returns (first: Id, second: Id)
    requires store.Valid()
    requires sid in store.services && obj in store.objects && store.objects[obj].service == sid
    requires formType in KnownCodes
    modifies store
    ensures store.Valid()
    ensures first == second
    ensures store.fields.Keys == old(store.fields).Keys + {first}
    ensures var key := Field(sid, name, description, formType);
      && store.fields[first] == key
      && (key in old(store.fields).Values ==> store.fields == old(store.fields) && store.next == old(store.next))
      && (key !in old(store.fields).Values ==>
            first == old(store.next) && store.fields == old(store.fields)[first := key]
            && store.next == old(store.next) + 1)
    ensures store.services == old(store.services) && store.objects == old(store.objects)
    ensures var t := FormTypeMap(formType).value;
      store.tables == old(store.tables)[t := old(store.tables)[t] + [Row(obj, first, value), Row(obj, first, value)]]
  {
    var r;
    first, r := AddField(store, obj, sid, name, description, formType, value);
    ghost var t := FormTypeMap(formType).value;
    ghost var mid := store.tables[t];
    second, r := AddField(store, obj, sid, name, description, formType, value);
    assert old(store.tables)[t] + [Row(obj, first, value), Row(obj, first, value)] == mid + [Row(obj, second, value)];
  }

  // ---- The ingestion runs ----

  /**
   * One `_add_field(...)` call of a run for attribute `a` of record `rec`:
   * the value argument is read first (a failure raises before anything is
   * written), then the field is looked up or created and the row written.
   */
  method IngestAttribute<R>(store: Store, sid: Id, o: Id, a: Attribute<R>, rec: R)
    returns (fid: Id, r: Result<(), Error>)
    requires store.Valid() && sid in store.services
    requires o in store.objects && store.objects[o] == Obj(sid)
    modifies store
    ensures store.Valid() && store.next >= old(store.next)
    ensures store.services == old(store.services) && store.objects == old(store.objects)
    ensures Submap(old(store.fields), store.fields)
    ensures forall f :: f in store.fields ==> f in old(store.fields) || (f == fid && store.fields[f] == KeyOf(sid, a))
    ensures r.Ok? <==> a.extract(rec).Some? && a.formType in KnownCodes
    ensures r.Err? ==> store.tables == old(store.tables)
    ensures a.extract(rec).None? ==> store.Snapshot() == old(store.Snapshot()) && store.next == old(store.next)
    ensures a.extract(rec).Some? && a.formType !in KnownCodes ==> fid in store.fields && store.fields[fid] == KeyOf(sid, a)
    ensures r.Ok? ==>
      && fid in store.fields && store.fields[fid] == KeyOf(sid, a)
      && forall t: Table :: store.tables[t] == old(store.tables)[t] +
           (if a.formType == CodeOf(t) then [Row(o, fid, a.extract(rec).value)] else [])
  {
    var v := a.extract(rec);
    if v.None? {
      return 0, Err(ExtractionFailed(a.name));
    }
    fid, r := AddField(store, o, sid, a.name, a.description, a.formType, v.value);
    forall t: Table
      ensures FormTypeMap(a.formType) == Some(t) <==> a.formType == CodeOf(t)
    {
      FormTypeMapBijective(a.formType, t);
    }
  }

  /**
   * The first `|fids|` attributes of `rec` have been written since `db0`:
   * each could be read and typed, `fids[k]` is the catalog's field for
   * attribute `k`, the catalog only gained those fields, and every table
   * gained exactly the record rows of that prefix.
   */
  ghost predicate AttrsRecorded<R>(db: DB, db0: DB, sid: Id, o: Id, attrs: seq<Attribute<R>>, rec: R,
                                   fids: seq<Id>, vals: seq<Payload>, codes: seq<string>) {
    && |fids| == |vals| == |codes| <= |attrs|
    && Submap(db0.fields, db.fields)
    && (forall k :: 0 <= k < |fids| ==> fids[k] in db.fields && db.fields[fids[k]] == KeyOf(sid, attrs[k]))
    && (forall f :: f in db.fields ==> f in db0.fields || f in fids)
    && (forall k :: 0 <= k < |fids| ==> attrs[k].extract(rec).Some? && attrs[k].formType in KnownCodes)
    && (forall k :: 0 <= k < |fids| ==> vals[k] == attrs[k].extract(rec).value && codes[k] == attrs[k].formType)
    && (forall t: Table :: t in db0.tables && t in db.tables && db.tables[t] == db0.tables[t] + RecordRows(t, o, codes, fids, vals))
  }

  /** A recorded prefix is a record in progress. */
  lemma RecordedConfined<R>(db: DB, db0: DB, sid: Id, o: Id, attrs: seq<Attribute<R>>, rec: R,
                            fids: seq<Id>, vals: seq<Payload>, codes: seq<string>)
    requires AttrsRecorded(db, db0, sid, o, attrs, rec, fids, vals, codes)
    requires db.services == db0.services && db.objects == db0.objects[o := Obj(sid)]
    ensures Confined(db0, db, sid, o)
  {
    forall t | t in db0.tables
      ensures t in db.tables && AppendedFor(db0.tables[t], db.tables[t], o)
    {
      AppendedForConcat(db0.tables[t], RecordRows(t, o, codes, fids, vals), o);
    }
    forall f | f in db.fields && f !in db0.fields
      ensures db.fields[f].service == sid
    {
      var k :| 0 <= k < |fids| && fids[k] == f;
    }
  }

  /** Writing attribute `|fids|` on top of a recorded prefix records one attribute more. */
  lemma RecordedStep<R>(mid: DB, now: DB, db0: DB, sid: Id, o: Id, attrs: seq<Attribute<R>>, rec: R,
                        fids: seq<Id>, vals: seq<Payload>, codes: seq<string>, fid: Id)
    requires |fids| < |attrs| && AttrsRecorded(mid, db0, sid, o, attrs, rec, fids, vals, codes)
    requires attrs[|fids|].extract(rec).Some? && attrs[|fids|].formType in KnownCodes
    requires Submap(mid.fields, now.fields) && fid in now.fields && now.fields[fid] == KeyOf(sid, attrs[|fids|])
    requires forall f :: f in now.fields ==> f in mid.fields || f == fid
    requires forall t: Table ::
      && t in now.tables
      && now.tables[t] == mid.tables[t] +
           (if attrs[|fids|].formType == CodeOf(t) then [Row(o, fid, attrs[|fids|].extract(rec).value)] else [])
    requires Submap(db0.fields, now.fields)
    ensures AttrsRecorded(now, db0, sid, o, attrs, rec, fids + [fid],
                          vals + [attrs[|fids|].extract(rec).value], codes + [attrs[|fids|].formType])
  {
    var j := |fids|;
    var v := attrs[j].extract(rec).value;
    var fids', vals', codes' := fids + [fid], vals + [v], codes + [attrs[j].formType];
    forall k | 0 <= k < |fids'|
      ensures fids'[k] in now.fields && now.fields[fids'[k]] == KeyOf(sid, attrs[k])
    {
      if k < j {
        assert fids'[k] == fids[k];
      }
    }
    forall f | f in now.fields
      ensures f in db0.fields || f in fids'
    {
      if f == fid {
        assert fids'[j] == fid;
      } else if f !in db0.fields {
        var k :| 0 <= k < |fids| && fids[k] == f;
        assert fids'[k] == f;
      }
    }
    forall k | 0 <= k < |fids'|
      ensures attrs[k].extract(rec).Some? && attrs[k].formType in KnownCodes
      ensures vals'[k] == attrs[k].extract(rec).value && codes'[k] == attrs[k].formType
    {
      if k < j {
        assert vals'[k] == vals[k] && codes'[k] == codes[k];
      }
    }
    RecordRowsStep(db0.tables, mid.tables, now.tables, o, codes, fids, vals, attrs[j].formType, fid, v);
  }

  /** A field of the run's service added without a row keeps the record in progress confined. */
  lemma ConfinedNewField(db0: DB, mid: DB, now: DB, sid: Id, o: Id)
    requires Confined(db0, mid, sid, o)
    requires now.services == mid.services && now.objects == mid.objects && now.tables == mid.tables
    requires Submap(mid.fields, now.fields)
    requires forall f :: f in now.fields && f !in mid.fields ==> now.fields[f].service == sid
    ensures Confined(db0, now, sid, o)
  {
  }

  /** One step of the attribute loop: attribute `|fids|` is written on top of a recorded prefix. */
  method IngestStep<R>(store: Store, sid: Id, o: Id, attrs: seq<Attribute<R>>, rec: R, fids: seq<Id>,
                       ghost vals: seq<Payload>, ghost codes: seq<string>, ghost db0: DB)
    returns (fid: Id, w: Result<(), Error>)
    requires store.Valid() && sid in store.services
    requires store.services == db0.services && store.objects == db0.objects[o := Obj(sid)]
    requires |fids| < |attrs| && AttrsRecorded(store.Snapshot(), db0, sid, o, attrs, rec, fids, vals, codes)
    modifies store
    ensures store.Valid() && store.next >= old(store.next)
    ensures store.services == old(store.services) && store.objects == old(store.objects)
    ensures Confined(db0, store.Snapshot(), sid, o)
    ensures w.Ok? <==> attrs[|fids|].extract(rec).Some? && attrs[|fids|].formType in KnownCodes
    ensures w.Ok? ==> AttrsRecorded(store.Snapshot(), db0, sid, o, attrs, rec, fids + [fid],
                                    vals + [attrs[|fids|].extract(rec).value], codes + [attrs[|fids|].formType])
  {
    var j := |fids|;
    ghost var mid := store.Snapshot();
    RecordedConfined(mid, db0, sid, o, attrs, rec, fids, vals, codes);
    fid, w := IngestAttribute(store, sid, o, attrs[j], rec);
    if w.Ok? {
      assert Submap(db0.fields, store.fields);
      RecordedStep(mid, store.Snapshot(), db0, sid, o, attrs, rec, fids, vals, codes, fid);
      RecordedConfined(store.Snapshot(), db0, sid, o, attrs, rec, fids + [fid],
                       vals + [attrs[j].extract(rec).value], codes + [attrs[j].formType]);
    } else {
      ConfinedNewField(db0, mid, store.Snapshot(), sid, o);
    }
  }

  /**
   * One iteration of a run's record loop: `Object(service=service).save()`,
   * then one `_add_field` per declared attribute, in declaration order.
   * It succeeds exactly when every attribute can be read and typed; then
   * `fids` are the fields used, each the catalog's field for its key, the
   * catalog gained no other field, and every table gained exactly the
   * record's rows for it.
   */
  method IngestRecord<R>(store: Store, sid: Id, attrs: seq<Attribute<R>>, rec: R, ghost before: DB)
    returns (o: Id, fids: seq<Id>, r: Result<(), Error>)
    requires store.Valid() && GrewUnder(before, store.Snapshot(), sid)
    modifies store
    ensures store.Valid() && GrewUnder(before, store.Snapshot(), sid) && store.next >= old(store.next)
    ensures store.services == old(store.services)
    ensures o !in old(store.objects) && store.objects == old(store.objects)[o := Obj(sid)]
    ensures Submap(old(store.fields), store.fields)
    ensures r.Ok? <==> Extract(attrs, rec).Some? && KnownTypes(attrs)
    ensures r.Ok? ==> AttrsRecorded(store.Snapshot(), old(store.Snapshot()), sid, o, attrs, rec,
                                    fids, Extract(attrs, rec).value, Codes(attrs)) && |fids| == |attrs|
  {
    ghost var db0 := store.Snapshot();
    o := store.CreateObject(sid);
    fids := [];
    ghost var vals: seq<Payload> := [];
    ghost var codes: seq<string> := [];
    var j := 0;
    while j < |attrs|
      invariant j == |fids| <= |attrs|
      invariant store.Valid() && store.next >= old(store.next)
      invariant store.services == db0.services && store.objects == db0.objects[o := Obj(sid)]
      invariant AttrsRecorded(store.Snapshot(), db0, sid, o, attrs, rec, fids, vals, codes)
    {
      var fid, w := IngestStep(store, sid, o, attrs, rec, fids, vals, codes, db0);
      if w.Err? {
        GrewUnderConfined(before, db0, store.Snapshot(), sid, o);
        return o, fids, w;
      }
      fids := fids + [fid];
      vals := vals + [attrs[j].extract(rec).value];
      codes := codes + [attrs[j].formType];
      j := j + 1;
    }
    RecordedConfined(store.Snapshot(), db0, sid, o, attrs, rec, fids, vals, codes);
    GrewUnderConfined(before, db0, store.Snapshot(), sid, o);
    assert vals == Extract(attrs, rec).value;
    assert codes == Codes(attrs);
    r := Ok(());
  }

  /** The outcome of a successful run: its service, one object per record, one field per attribute. */
  datatype Run = Run(service: Id, objs: seq<Id>, fids: seq<Id>)

  /**
   * The first `|objs|` records of a run under service `sid` have been
   * written since `db1`: each could be read, `objs` are their new objects,
   * the catalog gained exactly the attribute fields `fids` (shared by all
   * records), and every table gained exactly the run's rows.
   */
  ghost predicate RunRecorded<R>(db: DB, db1: DB, sid: Id, attrs: seq<Attribute<R>>, records: seq<R>,
                                 objs: seq<Id>, fids: seq<Id>, valss: seq<seq<Payload>>) {
    && RunValues(attrs, records, objs, valss)
    && RunObjects(db, db1, sid, objs)
    && RunFields(db, db1, sid, attrs, objs, fids)
    && RunTables(db, db1, Codes(attrs), objs, fids, valss)
  }

  /** Every table gained exactly the run's rows since `db1`. */
  ghost predicate RunTables(db: DB, db1: DB, codes: seq<string>, objs: seq<Id>, fids: seq<Id>, valss: seq<seq<Payload>>)
    requires |objs| == |valss| && |codes| == |fids|
    requires forall i :: 0 <= i < |valss| ==> |valss[i]| == |codes|
  {
    forall t: Table :: t in db1.tables && t in db.tables && db.tables[t] == db1.tables[t] + RunRows(t, objs, codes, fids, valss)
  }

  /** The records behind `objs` could be read, into `valss`, with known form types. */
  ghost predicate RunValues<R>(attrs: seq<Attribute<R>>, records: seq<R>, objs: seq<Id>, valss: seq<seq<Payload>>) {
    && |objs| == |valss| <= |records|
    && (forall i :: 0 <= i < |objs| ==> Extract(attrs, records[i]).Some? && valss[i] == Extract(attrs, records[i]).value)
    && (objs != [] ==> KnownTypes(attrs))
  }

  /** The objects gained since `db1` are exactly `objs`, distinct, all of service `sid`. */
  ghost predicate RunObjects(db: DB, db1: DB, sid: Id, objs: seq<Id>) {
    && (forall i, k :: 0 <= i < k < |objs| ==> objs[i] != objs[k])
    && (forall i :: 0 <= i < |objs| ==> objs[i] !in db1.objects && objs[i] in db.objects && db.objects[objs[i]] == Obj(sid))
    && Submap(db1.objects, db.objects)
    && (forall x :: x in db.objects ==> x in db1.objects || x in objs)
  }

  /** Once a record is written, the fields gained since `db1` are exactly `fids`, one per attribute key. */
  ghost predicate RunFields<R>(db: DB, db1: DB, sid: Id, attrs: seq<Attribute<R>>, objs: seq<Id>, fids: seq<Id>) {
    && |fids| == |attrs|
    && Submap(db1.fields, db.fields)
    && (objs != [] ==> forall j :: 0 <= j < |attrs| ==> fids[j] in db.fields && db.fields[fids[j]] == KeyOf(sid, attrs[j]))
    && (forall f :: f in db.fields ==> f in db1.fields || (objs != [] && f in fids))
  }

  /** The run's service records the same fields for every record: the catalog key decides. */
  lemma SameFields<R>(prev: DB, now: DB, sid: Id, attrs: seq<Attribute<R>>, fids: seq<Id>, fids': seq<Id>)
    requires |fids| == |fids'| == |attrs| && UniqueKeys(now.fields) && Submap(prev.fields, now.fields)
    requires forall j :: 0 <= j < |attrs| ==> fids[j] in prev.fields && prev.fields[fids[j]] == KeyOf(sid, attrs[j])
    requires forall j :: 0 <= j < |attrs| ==> fids'[j] in now.fields && now.fields[fids'[j]] == KeyOf(sid, attrs[j])
    ensures fids' == fids
  {
    forall j | 0 <= j < |attrs|
      ensures fids'[j] == fids[j]
    {
      UniqueKeysOnly(now.fields, fids'[j], fids[j]);
    }
  }

  lemma RunValuesStep<R>(attrs: seq<Attribute<R>>, records: seq<R>, objs: seq<Id>, valss: seq<seq<Payload>>, o: Id)
    requires |objs| < |records| && RunValues(attrs, records, objs, valss)
    requires Extract(attrs, records[|objs|]).Some? && KnownTypes(attrs)
    ensures RunValues(attrs, records, objs + [o], valss + [Extract(attrs, records[|objs|]).value])
  {
    var objs', valss' := objs + [o], valss + [Extract(attrs, records[|objs|]).value];
    forall i | 0 <= i < |objs'|
      ensures Extract(attrs, records[i]).Some? && valss'[i] == Extract(attrs, records[i]).value
    {
      if i < |objs| {
        assert valss'[i] == valss[i];
      }
    }
  }

  lemma RunObjectsStep(prev: DB, now: DB, db1: DB, sid: Id, objs: seq<Id>, o: Id)
    requires RunObjects(prev, db1, sid, objs)
    requires o !in prev.objects && now.objects == prev.objects[o := Obj(sid)]
    ensures RunObjects(now, db1, sid, objs + [o])
  {
    var objs' := objs + [o];
    forall i | 0 <= i < |objs'|
      ensures objs'[i] !in db1.objects && objs'[i] in now.objects && now.objects[objs'[i]] == Obj(sid)
    {
      if i < |objs| {
        assert objs'[i] == objs[i];
      }
    }
    forall x | x in now.objects
      ensures x in db1.objects || x in objs'
    {
      if x != o {
        if x !in db1.objects {
          var i :| 0 <= i < |objs| && objs[i] == x;
          assert objs'[i] == x;
        }
      } else {
        assert objs'[|objs|] == o;
      }
    }
    forall i, k | 0 <= i < k < |objs'|
      ensures objs'[i] != objs'[k]
    {
      if k < |objs| {
        assert objs'[i] == objs[i] && objs'[k] == objs[k];
      } else {
        assert objs'[i] == objs[i];
      }
    }
  }

  lemma RunFieldsStep<R>(prev: DB, now: DB, db1: DB, sid: Id, attrs: seq<Attribute<R>>, objs: seq<Id>, fids: seq<Id>,
                         o: Id, fids': seq<Id>)
    requires RunFields(prev, db1, sid, attrs, objs, fids) && |fids'| == |attrs|
    requires UniqueKeys(now.fields) && Submap(prev.fields, now.fields)
    requires forall j :: 0 <= j < |attrs| ==> fids'[j] in now.fields && now.fields[fids'[j]] == KeyOf(sid, attrs[j])
    requires forall f :: f in now.fields ==> f in prev.fields || f in fids'
    ensures RunFields(now, db1, sid, attrs, objs + [o], fids')
    ensures objs != [] ==> fids' == fids
  {
    if objs != [] {
      SameFields(prev, now, sid, attrs, fids, fids');
    }
  }

  lemma RunRowsExtend(was: seq<Row>, mid: seq<Row>, now: seq<Row>, t: Table, codes: seq<string>, objs: seq<Id>,
                      fids: seq<Id>, valss: seq<seq<Payload>>, o: Id, vals: seq<Payload>)
    requires |objs| == |valss| && |codes| == |fids| == |vals|
    requires forall i :: 0 <= i < |valss| ==> |valss[i]| == |codes|
    requires mid == was + RunRows(t, objs, codes, fids, valss)
    requires now == mid + RecordRows(t, o, codes, fids, vals)
    ensures now == was + RunRows(t, objs + [o], codes, fids, valss + [vals])
  {
    RunRowsSnoc(t, objs, codes, fids, valss, o, vals);
  }

  /** One more record's rows are appended to every table. */
  lemma RunTablesStep(prev: DB, now: DB, db1: DB, codes: seq<string>, objs: seq<Id>, fids: seq<Id>,
                      valss: seq<seq<Payload>>, o: Id, vals: seq<Payload>)
    requires |objs| == |valss| && |codes| == |fids| == |vals|
    requires forall i :: 0 <= i < |valss| ==> |valss[i]| == |codes|
    requires RunTables(prev, db1, codes, objs, fids, valss)
    requires forall t: Table :: t in prev.tables && t in now.tables && now.tables[t] == prev.tables[t] + RecordRows(t, o, codes, fids, vals)
    ensures RunTables(now, db1, codes, objs + [o], fids, valss + [vals])
  {
    forall t: Table
      ensures t in db1.tables && t in now.tables
      ensures now.tables[t] == db1.tables[t] + RunRows(t, objs + [o], codes, fids, valss + [vals])
    {
      RunRowsExtend(db1.tables[t], prev.tables[t], now.tables[t], t, codes, objs, fids, valss, o, vals);
    }
  }

  /** Before the first record the run's rows do not depend on its fields. */
  lemma RunTablesEmpty(db: DB, db1: DB, codes: seq<string>, fids: seq<Id>, fids': seq<Id>)
    requires |codes| == |fids| == |fids'|
    requires RunTables(db, db1, codes, [], fids, [])
    ensures RunTables(db, db1, codes, [], fids', [])
  {
  }

  /**
   * One iteration of a run's loop: record `|objs|` is written, and on
   * success the recorded run grows by its object and its values.
   */
  method IngestNext<R>(store: Store, sid: Id, attrs: seq<Attribute<R>>, records: seq<R>,
                       objs: seq<Id>, fids: seq<Id>, ghost valss: seq<seq<Payload>>, ghost before: DB)
    returns (o: Id, recFids: seq<Id>, w: Result<(), Error>)
    requires store.Valid() && |objs| < |records|
    requires GrewUnder(before, store.Snapshot(), sid)
    requires RunRecorded(store.Snapshot(), before, sid, attrs, records, objs, fids, valss)
    modifies store
    ensures store.Valid() && store.next >= old(store.next)
    ensures GrewUnder(before, store.Snapshot(), sid) && store.services == old(store.services)
    ensures w.Ok? <==> Extract(attrs, records[|objs|]).Some? && KnownTypes(attrs)
    ensures w.Ok? ==> RunRecorded(store.Snapshot(), before, sid, attrs, records, objs + [o], recFids,
                                  valss + [Extract(attrs, records[|objs|]).value])
  {
    ghost var prev := store.Snapshot();
    o, recFids, w := IngestRecord(store, sid, attrs, records[|objs|], before);
    if w.Ok? {
      ghost var vals := Extract(attrs, records[|objs|]).value;
      RunValuesStep(attrs, records, objs, valss, o);
      RunObjectsStep(prev, store.Snapshot(), before, sid, objs, o);
      RunFieldsStep(prev, store.Snapshot(), before, sid, attrs, objs, fids, o, recFids);
      if objs == [] {
        RunTablesEmpty(prev, before, Codes(attrs), fids, recFids);
      }
      RunTablesStep(prev, store.Snapshot(), before, Codes(attrs), objs, recFids, valss, o, vals);
    }
  }

  /**
   * What a successful run leaves: its new service under `name`, and the
   * recorded run of all `records` on top of the store from before.
   */
  ghost predicate Landed<R>(before: DB, after: DB, run: Run, name: string, description: string,
                            attrs: seq<Attribute<R>>, records: seq<R>) {
    && run.service !in before.services
    && after.services == before.services[run.service := Service(name, description)]
    && Ingestible(attrs, records)
    && |run.objs| == |records|
    && RunRecorded(after, before, run.service, attrs, records, run.objs, run.fids, Values(attrs, records))
  }

  /**
   * The shared shape of `_pokemon_data` and `_marvel_data`: create the
   * service, then for each fetched record its object and its fields, in
   * order. `fetched` is the parsed response (`None` when it has no record
   * list), `attrs` the run's declared attributes. A duplicate name fails
   * before anything is written; every other failure leaves the store grown
   * under the new service only, which is what the two recovery policies
   * undo.
   */
  method Ingest<R>(store: Store, name: string, description: string, fetched: Option<seq<R>>, attrs: seq<Attribute<R>>)
    returns (sid: Option<Id>, r: Result<Run, Error>)
    requires store.Valid()
    modifies store
    ensures store.Valid() && store.next >= old(store.next)
    ensures ServiceNamed(old(store.services), name).Some? ==>
      sid.None? && r == Err(DuplicateServiceName(name)) && store.Snapshot() == old(store.Snapshot())
    ensures ServiceNamed(old(store.services), name).None? ==>
      && sid == Some(old(store.next))
      && GrewUnder(old(store.Snapshot()), store.Snapshot(), sid.value)
      && store.services[sid.value] == Service(name, description)
    ensures ServiceNamed(old(store.services), name).None? && fetched.None? ==> r == Err(FetchFailed)
    ensures r.Ok? <==> ServiceNamed(old(store.services), name).None? && fetched.Some? && Ingestible(attrs, fetched.value)
    ensures r.Ok? ==>
      && sid == Some(r.value.service)
      && Landed(old(store.Snapshot()), store.Snapshot(), r.value, name, description, attrs, fetched.value)
  {
    ghost var before := store.Snapshot();
    var created := store.CreateService(name, description);
    if created.Err? {
      return None, Err(created.error);
    }
    var s := created.value;
    sid := Some(s);
    GrewUnderNewService(before, s, Service(name, description));
    assert store.Snapshot() == before.(services := before.services[s := Service(name, description)]);
    if fetched.None? {
      return sid, Err(FetchFailed);
    }
    var records := fetched.value;
    var objs: seq<Id> := [];
    var fids: seq<Id> := seq(|attrs|, _ => 0);
    ghost var valss: seq<seq<Payload>> := [];
    var i := 0;
    while i < |records|
      invariant i == |objs| <= |records|
      invariant store.Valid() && store.next >= old(store.next)
      invariant GrewUnder(before, store.Snapshot(), s)
      invariant store.services == before.services[s := Service(name, description)]
      invariant RunRecorded(store.Snapshot(), before, s, attrs, records, objs, fids, valss)
    {
      var o, recFids, w := IngestNext(store, s, attrs, records, objs, fids, valss, before);
      if w.Err? {
        return sid, Err(w.error);
      }
      objs := objs + [o];
      fids := recFids;
      valss := valss + [Extract(attrs, records[i]).value];
      i := i + 1;
    }
    assert valss == Values(attrs, records);
    r := Ok(Run(s, objs, fids));
  }

  /**
   * `_pokemon_data`, under `transaction.atomic`: the card-set run, whose
   * failure rolls every write back and is re-raised. `fetched` is
   * `response.json()["data"]`; the five readers are the `pokemon_set.get`
   * look-ups.
   */
  method PokemonData<R>(store: Store, fetched: Option<seq<R>>,
                        setName: R -> Option<Payload>, series: R -> Option<Payload>, printedTotal: R -> Option<Payload>,
                        releaseDate: R -> Option<string>, symbol: R -> Option<Payload>)
    returns (r: Result<Run, Error>)
    requires store.Valid()
    modifies store
    ensures store.Valid() && store.next >= old(store.next)
    ensures r.Err? ==> store.Snapshot() == old(store.Snapshot())
    ensures r.Ok? <==>
      && ServiceNamed(old(store.services), PokemonServiceName).None?
      && fetched.Some?
      && Ingestible(PokemonAttributes(setName, series, printedTotal, releaseDate, symbol), fetched.value)
    ensures r.Ok? ==> Landed(old(store.Snapshot()), store.Snapshot(), r.value, PokemonServiceName, PokemonServiceDescription,
                             PokemonAttributes(setName, series, printedTotal, releaseDate, symbol), fetched.value)
  {
    var saved := store.Snapshot();
    var attrs := PokemonAttributes(setName, series, printedTotal, releaseDate, symbol);
    var sid;
    sid, r := Ingest(store, PokemonServiceName, PokemonServiceDescription, fetched, attrs);
    if r.Err? {
      store.Restore(saved);
    }
  }

  /**
   * `_marvel_data`, with manual recovery: the comic run; on any failure of
   * the `try` block (the service creation included) `_disater_recovery`
   * is called with the run's service name, and the error is printed and
   * not re-raised.
   * `r` is what the run reached. When the run created its service, the
   * recovery removes exactly what the run wrote; when the name was already
   * taken, it deletes the service that was there before.
   */
  method MarvelData<R>(store: Store, fetched: Option<seq<R>>,
                       title: R -> Option<Payload>, pageCount: R -> Option<Payload>, resourceUri: R -> Option<Payload>,
                       prices: R -> Option<seq<PriceEntry>>)
    returns (r: Result<Run, Error>)
    requires store.Valid()
    modifies store
    ensures store.Valid() && store.next >= old(store.next)
    ensures ServiceNamed(old(store.services), MarvelServiceName).Some? ==>
      && r == Err(DuplicateServiceName(MarvelServiceName))
      && store.Snapshot() == Purge(old(store.Snapshot()), ServiceNamed(old(store.services), MarvelServiceName).value)
    ensures ServiceNamed(old(store.services), MarvelServiceName).None? && r.Err? ==>
      store.Snapshot() == old(store.Snapshot())
    ensures r.Ok? <==>
      && ServiceNamed(old(store.services), MarvelServiceName).None?
      && fetched.Some?
      && Ingestible(MarvelAttributes(title, pageCount, resourceUri, prices), fetched.value)
    ensures r.Ok? ==> Landed(old(store.Snapshot()), store.Snapshot(), r.value, MarvelServiceName, MarvelServiceDescription,
                             MarvelAttributes(title, pageCount, resourceUri, prices), fetched.value)
  {
    ghost var before := store.Snapshot();
    var attrs := MarvelAttributes(title, pageCount, resourceUri, prices);
    var sid;
    sid, r := Ingest(store, MarvelServiceName, MarvelServiceDescription, fetched, attrs);
    if r.Err? {
      if sid.Some? {
        assert SameName(store.services, sid.value, ServiceNamed(store.services, MarvelServiceName).value);
        PurgeUndoesRun(before, store.Snapshot(), sid.value);
      }
      var _ := DisasterRecovery(store, MarvelServiceName);
    }
  }

  /**
   * The recovery of `_marvel_data` as written destroys data it did not
   * write: in a store that already holds the comic service (here with no
   * objects), a second run fails on the unique name, and the recovery then
   * purges the existing service, which `MarvelData` states as
   * `Purge(old(store.Snapshot()), existing)`.
   */
  lemma MarvelDuplicateDeletesExisting()
    ensures var db := DB(map[0 := Service(MarvelServiceName, MarvelServiceDescription)], map[], map[], EmptyTables);
      && WellFormed(db)
      && ServiceNamed(db.services, MarvelServiceName) == Some(0)
      && Purge(db, 0) != db
      && 0 !in Purge(db, 0).services
  {
    var db := DB(map[0 := Service(MarvelServiceName, MarvelServiceDescription)], map[], map[], EmptyTables);
    assert forall a, b :: a in db.services && b in db.services ==> a == b;
    assert 0 in db.services && 0 !in Purge(db, 0).services;
  }

  /**
   * `_marvel_data` with the recovery its comment intends ("only delete the
   * created objects in this round"): the recovery runs only when this run
   * created the service. Every failure then leaves the store as it was.
   */
  method MarvelDataCorrected<R>(store: Store, fetched: Option<seq<R>>,
                                title: R -> Option<Payload>, pageCount: R -> Option<Payload>, resourceUri: R -> Option<Payload>,
                                prices: R -> Option<seq<PriceEntry>>)
    returns (r: Result<Run, Error>)
    requires store.Valid()
    modifies store
    ensures store.Valid() && store.next >= old(store.next)
    ensures r.Err? ==> store.Snapshot() == old(store.Snapshot())
    ensures ServiceNamed(old(store.services), MarvelServiceName).Some? ==> r == Err(DuplicateServiceName(MarvelServiceName))
    ensures r.Ok? <==>
      && ServiceNamed(old(store.services), MarvelServiceName).None?
      && fetched.Some?
      && Ingestible(MarvelAttributes(title, pageCount, resourceUri, prices), fetched.value)
    ensures r.Ok? ==> Landed(old(store.Snapshot()), store.Snapshot(), r.value, MarvelServiceName, MarvelServiceDescription,
                             MarvelAttributes(title, pageCount, resourceUri, prices), fetched.value)
  {
    ghost var before := store.Snapshot();
    var attrs := MarvelAttributes(title, pageCount, resourceUri, prices);
    var sid;
    sid, r := Ingest(store, MarvelServiceName, MarvelServiceDescription, fetched, attrs);
    if r.Err? && sid.Some? {
      assert SameName(store.services, sid.value, ServiceNamed(store.services, MarvelServiceName).value);
      PurgeUndoesRun(before, store.Snapshot(), sid.value);
      var _ := DisasterRecovery(store, MarvelServiceName);
    }
  }

  /**
   * `main`: everything is deleted, then the card-set run is made. Either
   * the run succeeds on the empty store, or the rollback leaves the store
   * empty and the error propagates.
   */
  method RunMain<R>(store: Store, fetched: Option<seq<R>>,
                    setName: R -> Option<Payload>, series: R -> Option<Payload>, printedTotal: R -> Option<Payload>,
                    releaseDate: R -> Option<string>, symbol: R -> Option<Payload>)
    returns (r: Result<Run, Error>)
    requires store.Valid()
    modifies store
    ensures store.Valid()
    ensures r.Err? ==> store.Snapshot() == EmptyDB
    ensures r.Ok? <==> fetched.Some? && Ingestible(PokemonAttributes(setName, series, printedTotal, releaseDate, symbol), fetched.value)
    ensures r.Ok? ==> Landed(EmptyDB, store.Snapshot(), r.value, PokemonServiceName, PokemonServiceDescription,
                             PokemonAttributes(setName, series, printedTotal, releaseDate, symbol), fetched.value)
  {
    EmptyAll(store);
    r := PokemonData(store, fetched, setName, series, printedTotal, releaseDate, symbol);
  }

  // ---- What a successful run leaves ----

  /** The fields of service `sid`. */
  ghost function FieldsOf(db: DB, sid: Id): set<Id> {
    set f | f in db.fields && db.fields[f].service == sid
  }

  /** Attributes with different keys get different fields. */
  lemma LandedDistinctFields<R>(before: DB, after: DB, run: Run, name: string, description: string,
                                attrs: seq<Attribute<R>>, records: seq<R>)
    requires Landed(before, after, run, name, description, attrs, records) && records != [] && DistinctKeys(attrs)
    ensures forall a, b :: 0 <= a < b < |run.fids| ==> run.fids[a] != run.fids[b]
  {
    forall a, b | 0 <= a < b < |run.fids|
      ensures run.fids[a] != run.fids[b]
    {
      assert KeyOf(0, attrs[a]) != KeyOf(0, attrs[b]);
      assert after.fields[run.fids[a]] == KeyOf(run.service, attrs[a]);
      assert after.fields[run.fids[b]] == KeyOf(run.service, attrs[b]);
    }
  }

  /** The identifiers listed in `s`. */
  ghost function Elems(s: seq<Id>): set<Id> {
    set x | x in s
  }

  lemma {:induction false} DistinctCard(s: seq<Id>)
    requires forall a, b :: 0 <= a < b < |s| ==> s[a] != s[b]
    ensures |Elems(s)| == |s|
  {
    if s == [] {
      assert Elems(s) == {};
    } else {
      var n := |s| - 1;
      var prefix := s[..n];
      DistinctCard(prefix);
      assert s == prefix + [s[n]];
      assert Elems(s) == Elems(prefix) + {s[n]};
    }
  }

  /**
   * The field catalog of a run's service: one field per declared attribute,
   * however many records there were (none without a record), because
   * `get_or_create` reuses the field of an existing key.
   */
  lemma LandedFieldCatalog<R>(before: DB, after: DB, run: Run, name: string, description: string,
                              attrs: seq<Attribute<R>>, records: seq<R>)
    requires WellFormed(before) && Landed(before, after, run, name, description, attrs, records) && DistinctKeys(attrs)
    ensures records == [] ==> FieldsOf(after, run.service) == {}
    ensures records != [] ==> FieldsOf(after, run.service) == Elems(run.fids) && |FieldsOf(after, run.service)| == |attrs|
  {
    forall f | f in after.fields && f in before.fields
      ensures after.fields[f].service != run.service
    {
      assert before.fields[f].service in before.services;
    }
    if records != [] {
      assert forall j :: 0 <= j < |attrs| ==> run.fids[j] in after.fields && after.fields[run.fids[j]] == KeyOf(run.service, attrs[j]);
      assert FieldsOf(after, run.service) == Elems(run.fids);
      LandedDistinctFields(before, after, run, name, description, attrs, records);
      DistinctCard(run.fids);
    }
  }

  /** A successful run leaves its service exactly one object per record. */
  lemma LandedObjects<R>(before: DB, after: DB, run: Run, name: string, description: string,
                         attrs: seq<Attribute<R>>, records: seq<R>)
    requires WellFormed(before) && Landed(before, after, run, name, description, attrs, records)
    ensures ObjectsOf(after, run.service) == Elems(run.objs)
    ensures |ObjectsOf(after, run.service)| == |records|
  {
    forall x | x in after.objects && x in before.objects
      ensures after.objects[x].service != run.service
    {
      assert before.objects[x].service in before.services;
    }
    forall x | x in Elems(run.objs)
      ensures x in ObjectsOf(after, run.service)
    {
      var i :| 0 <= i < |run.objs| && run.objs[i] == x;
    }
    assert ObjectsOf(after, run.service) == Elems(run.objs);
    DistinctCard(run.objs);
  }

  /**
   * Each record's value of each attribute is stored exactly once: among the
   * rows of the record's object and the attribute's field, table `t` holds
   * the one row with the read value when `FORM_TYPE_MAP` sends the
   * attribute's form type to `t`, and no row otherwise.
   */
  lemma LandedValue<R>(before: DB, after: DB, run: Run, name: string, description: string,
                       attrs: seq<Attribute<R>>, records: seq<R>, i: nat, j: nat, t: Table)
    requires WellFormed(before) && Landed(before, after, run, name, description, attrs, records) && DistinctKeys(attrs)
    requires i < |records| && j < |attrs|
    ensures RowsWithField(RowsOfObject(after.tables[t], run.objs[i]), run.fids[j]) ==
      if FormTypeMap(attrs[j].formType) == Some(t) then [Row(run.objs[i], run.fids[j], attrs[j].extract(records[i]).value)] else []
  {
    var valss := Values(attrs, records);
    assert t in before.tables && after.tables[t] == before.tables[t] + RunRows(t, run.objs, Codes(attrs), run.fids, valss);
    LandedDistinctFields(before, after, run, name, description, attrs, records);
    NewObjectHasNoRows(before, t, run.objs[i]);
    FormTypeMapBijective(attrs[j].formType, t);
    RunValueRows(before.tables[t], t, run.objs, Codes(attrs), run.fids, valss, i, j);
  }
}
