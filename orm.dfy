/**
 * The database the ingestion code talks to, as one mutable object: the
 * tables of `Service`, `Field`, `Object` and the seven value forms, and the
 * sequence that hands out fresh row identifiers. Each method is one ORM
 * call of core/biz_rule.py. Deletions do not cascade: each refuses (by its
 * precondition) to leave a dangling reference, so a caller that verifies
 * deletes in dependency order.
 */
module Orm {
  import opened Wrappers
  import opened FormTypes
  import opened Schema

  class Store {
    var services: map<Id, Service>
    var fields: map<Id, Field>
    var objects: map<Id, Obj>
    var tables: map<Table, seq<Row>>
    /** The next identifier the database hands out; never rolled back. */
    var next: nat

    /** The stored tables as a value. */
    function Snapshot(): DB
      reads this
    {
      DB(services, fields, objects, tables)
    }

    ghost predicate Valid()
      reads this
    {
      WellFormed(Snapshot()) && IdsBelow(Snapshot(), next)
    }

    /** An empty database. */
    constructor ()
      ensures Valid() && Snapshot() == EmptyDB
    {
      services, fields, objects, tables := map[], map[], map[], EmptyTables;
      next := 0;
    }

    /** `Service.objects.create(name=..., description=...)`; names are unique. */
    method CreateService(name: string, description: string) returns (r: Result<Id, Error>)
      requires Valid()
      modifies this
      ensures Valid()
      ensures fields == old(fields) && objects == old(objects) && tables == old(tables)
      ensures ServiceNamed(old(services), name).Some? ==>
        r == Err(DuplicateServiceName(name)) && services == old(services) && next == old(next)
      ensures ServiceNamed(old(services), name).None? ==>
        && r == Ok(old(next)) && old(next) !in old(services)
        && services == old(services)[old(next) := Service(name, description)]
        && next == old(next) + 1
    {
      if exists s :: s in services && services[s].name == name {
        r := Err(DuplicateServiceName(name));
      } else {
        r := Ok(next);
        UniqueNamesInsert(services, next, Service(name, description));
        services := services[next := Service(name, description)];
        next := next + 1;
      }
    }

    /** `Service.objects.get(name=...)`. */
    method GetServiceByName(name: string) returns (r: Result<Id, Error>)
      requires Valid()
      ensures ServiceNamed(services, name).Some? ==> r == Ok(ServiceNamed(services, name).value)
      ensures ServiceNamed(services, name).None? ==> r == Err(ServiceDoesNotExist(name))
    {
      if exists s :: s in services && services[s].name == name {
        var s :| s in services && services[s].name == name;
        assert SameName(services, s, ServiceNamed(services, name).value);
        r := Ok(s);
      } else {
        r := Err(ServiceDoesNotExist(name));
      }
    }

    /** `Object(service=service).save()`. */
    method CreateObject(sid: Id) returns (o: Id)
      requires Valid() && sid in services
      modifies this
      ensures Valid()
      ensures o == old(next) && o !in old(objects) && next == old(next) + 1
      ensures objects == old(objects)[o := Obj(sid)]
      ensures services == old(services) && fields == old(fields) && tables == old(tables)
    {
      o := next;
      objects := objects[o := Obj(sid)];
      next := next + 1;
    }

    /** `Field.objects.get_or_create(...)[0]`, with whether a row was created. */
    method GetOrCreateField(key: Field) returns (fid: Id, created: bool)
      requires Valid() && key.service in services
      modifies this
      ensures Valid()
      ensures fid in fields && fields[fid] == key
      ensures created <==> key !in old(fields).Values
      ensures !created ==> fields == old(fields) && next == old(next)
      ensures created ==> fid == old(next) && fid !in old(fields) && fields == old(fields)[fid := key] && next == old(next) + 1
      ensures services == old(services) && objects == old(objects) && tables == old(tables)
    {
      if key in fields.Values {
        fid :| fid in fields && fields[fid] == key;
        created := false;
      } else {
        fid := next;
        UniqueKeysInsert(fields, fid, key);
        fields := fields[fid := key];
        next := next + 1;
        created := true;
      }
    }

    /** `<form>.objects.create(object=..., field=..., value=...)`. */
    method CreateRow(t: Table, row: Row)
      requires Valid() && RowFits(Snapshot(), t, row)
      modifies this
      ensures Valid()
      ensures tables == old(tables)[t := old(tables)[t] + [row]]
      ensures services == old(services) && fields == old(fields) && objects == old(objects) && next == old(next)
    {
      tables := tables[t := tables[t] + [row]];
    }

    /** `Object.objects.filter(service=service)`, evaluated to a list. */
    method ObjectsOfService(sid: Id) returns (list: seq<Id>)
      requires Valid()
      ensures forall i, j :: 0 <= i < j < |list| ==> list[i] != list[j]
      ensures forall o :: o in list <==> o in ObjectsOf(Snapshot(), sid)
    {
      var rest := set o | o in objects && objects[o].service == sid;
      list := [];
      while rest != {}
        invariant forall o :: o in list || o in rest <==> o in ObjectsOf(Snapshot(), sid)
        invariant forall o :: o in list ==> o !in rest
        invariant forall i, j :: 0 <= i < j < |list| ==> list[i] != list[j]
        decreases rest
      {
        var o :| o in rest;
        list := list + [o];
        rest := rest - {o};
      }
    }

    /** `<form>.objects.filter(object=obj).delete()`. */
    method DeleteRowsOf(t: Table, o: Id)
      requires Valid()
      modifies this
      ensures Valid()
      ensures tables == old(tables)[t := DropObjects(old(tables)[t], {o})]
      ensures services == old(services) && fields == old(fields) && objects == old(objects) && next == old(next)
    {
      DropRowsWellFormed(Snapshot(), t, {o});
      tables := tables[t := DropObjects(tables[t], {o})];
    }

    /** `obj.delete()`, once no value row refers to the object. */
    method DeleteObject(o: Id)
      requires Valid()
      requires forall t, i :: t in tables && 0 <= i < |tables[t]| ==> tables[t][i].obj != o
      modifies this
      ensures Valid()
      ensures objects == old(objects) - {o}
      ensures services == old(services) && fields == old(fields) && tables == old(tables) && next == old(next)
    {
      objects := objects - {o};
    }

    /** `Field.objects.filter(service=service).delete()`, once no value row refers to those fields. */
    method DeleteFieldsOf(sid: Id)
      requires Valid()
      requires forall t, i :: t in tables && 0 <= i < |tables[t]| ==> tables[t][i].field in fields && fields[tables[t][i].field].service != sid
      modifies this
      ensures Valid()
      ensures fields == map f | f in old(fields) && old(fields)[f].service != sid :: old(fields)[f]
      ensures services == old(services) && objects == old(objects) && tables == old(tables) && next == old(next)
    {
      UniqueKeysSubmap(map f | f in fields && fields[f].service != sid :: fields[f], fields);
      fields := map f | f in fields && fields[f].service != sid :: fields[f];
    }

    /** `service.delete()`, once the service has no field and no object. */
    method DeleteService(sid: Id)
      requires Valid()
      requires forall f :: f in fields ==> fields[f].service != sid
      requires forall o :: o in objects ==> objects[o].service != sid
      modifies this
      ensures Valid()
      ensures services == old(services) - {sid}
      ensures fields == old(fields) && objects == old(objects) && tables == old(tables) && next == old(next)
    {
      UniqueNamesSubmap(services - {sid}, services);
      services := services - {sid};
    }

    /** `<form>.objects.all().delete()`. */
    method ClearTable(t: Table)
      requires Valid()
      modifies this
      ensures Valid()
      ensures tables == old(tables)[t := []]
      ensures services == old(services) && fields == old(fields) && objects == old(objects) && next == old(next)
    {
      tables := tables[t := []];
    }

    /** `Field.objects.all().delete()`, once no value row is left. */
    method ClearFields()
      requires Valid()
      requires forall t :: t in tables ==> tables[t] == []
      modifies this
      ensures Valid()
      ensures fields == map[]
      ensures services == old(services) && objects == old(objects) && tables == old(tables) && next == old(next)
    {
      fields := map[];
    }

    /** `Object.objects.all().delete()`, once no value row is left. */
    method ClearObjects()
      requires Valid()
      requires forall t :: t in tables ==> tables[t] == []
      modifies this
      ensures Valid()
      ensures objects == map[]
      ensures services == old(services) && fields == old(fields) && tables == old(tables) && next == old(next)
    {
      objects := map[];
    }

    /** `Service.objects.all().delete()`, once no field and no object is left. */
    method ClearServices()
      requires Valid()
      requires fields == map[] && objects == map[]
      modifies this
      ensures Valid()
      ensures services == map[]
      ensures fields == old(fields) && objects == old(objects) && tables == old(tables) && next == old(next)
    {
      services := map[];
    }

    /** The rollback of a transaction: the tables return to a saved state; the id sequence does not. */
    method Restore(db: DB)
      requires Valid() && WellFormed(db) && IdsBelow(db, next)
      modifies this
      ensures Valid() && Snapshot() == db && next == old(next)
    {
      services, fields, objects, tables := db.services, db.fields, db.objects, db.tables;
    }
  }
}
