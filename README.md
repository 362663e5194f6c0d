# EAV ingestion core, modelled in Dafny

core/biz_rule.py keeps heterogeneous records in one entity/attribute/value
store:

- a **service** is a named dataset;
- a **field** is a typed attribute of a service, keyed by
  (service, name, description, form type);
- an **object** is one record of a service;
- seven **value tables**, one per form type (CHAR, TEXT, INTEGER, FLOAT,
  BOOLEAN, DATE, URL), hold `(object, field, value)` rows.

The file fills that store from two providers: card sets under a transaction
that rolls back, and comics under try/except with a compensating delete. It
also provides a full reset and the date normaliser the card-set run uses.

The model has these modules:

- `Schema`: the store as a value (`DB`) with its invariant `WellFormed`:
  - service names are unique;
  - field keys are unique;
  - there are no dangling references;
  - every row sits in the table of its field's form type.

  It also holds the specification functions `Purge` (what the compensating
  delete leaves), `GrewUnder` (what a partial run leaves), and `RecordRows`
  and `RunRows` (what a record and a run write).
- `Orm`: the database as a mutable `Store` class. There is one method per
  ORM call the file makes. A fresh-id counter `next` is never rolled back.
  Deletes do not cascade: each requires that nothing still refers to what
  it removes, so every caller is proved to delete in dependency order.
- `FormTypes`: `FORM_TYPE_MAP` and `form_list`.
- `Dates`: `_date_converter`.
- `Extraction`: the declared attribute lists of the two runs, with abstract
  and possibly failing readers, and the one concrete reader, the print price
  of a comic.
- `BizRule`: the file's functions as imperative methods over a `Store`,
  loops included. Each method is proved against the `Schema` functions:
  - `EmptyAll` yields the empty store;
  - `DisasterRecovery` yields `Purge`;
  - a successful run yields `Landed`;
  - a failed card-set run leaves the old state.

Points where the code's behaviour is easy to misread, and what the model
does with them:

- **Deletion order.** The compensating delete removes each object's value
  rows and then the object, then the fields, then the service
  (core/biz_rule.py:44-62). The model deletes in that order.
- **Printed errors.** `_marvel_data` prints the traceback of any exception
  (core/biz_rule.py:247-248) and does not re-raise it. `MarvelData` returns
  the run's outcome so that it can be stated; the caller of `_marvel_data`
  sees nothing of it.
- **Duplicate name.** The comment at core/biz_rule.py:249 says the recovery
  deletes only what this run created. When the service name is already in
  use, the recovery deletes the existing dataset (see Findings).
- **Unknown form type.** In `_add_field`, `get_or_create`
  (core/biz_rule.py:98) runs before the `FORM_TYPE_MAP` lookup
  (core/biz_rule.py:83). An unknown form type therefore fails only after
  the field has been found or created.

## Model

| member | source | states |
|---|---|---|
| FormTypes.FormTypeMap | core/biz_rule.py:71-79 | the lookup succeeds exactly for the seven codes; any other code is the `KeyError` case |
| FormTypes.CodeOf | core/biz_rule.py:71-79 | each value table has a code among the seven |
| FormTypes.FormTypeMapBijective | core/biz_rule.py:71-79 | a code maps to table `t` if and only if it is `t`'s code, so each code has its own table and every table is reached |
| FormTypes.FormTypeMapInjective | core/biz_rule.py:71-79 | two known codes that share a table are the same code |
| FormTypes.FormListComplete | core/biz_rule.py:28-36 | `form_list` names every value table, each once |
| Dates.WithSeparator | core/biz_rule.py:67 | replaces both separators and keeps the eight digits in place |
| Dates.DateConverter | core/biz_rule.py:65-68 | succeeds if and only if the input is a zero-padded `YYYY/MM/DD` calendar date; the result has shape `YYYY-MM-DD` with the same digits |
| Dates.DateConverterRoundTrip | core/biz_rule.py:65-68 | putting the slashes back restores the input |
| Dates.DateConverterInjective | core/biz_rule.py:65-68 | distinct source dates give distinct stored dates |
| Dates.DateConverterNotIdempotent | core/biz_rule.py:65-68 | converting an already converted date fails |
| Dates.DateConverterRejectsEmpty | core/biz_rule.py:164 | the missing-key default `""` fails the conversion |
| Dates.DateConverterExample | core/biz_rule.py:65-68 | `2023/03/17` becomes `2023-03-17` |
| Dates.DateConverterLeapDay | core/biz_rule.py:66 | `2023/02/29` is rejected and `2024/02/29` is accepted |
| Dates.DateConverterLeapDayGeneral | core/biz_rule.py:66 | a well-shaped February 29 date converts exactly when its year is a leap year |
| Schema.ServiceNamed | core/biz_rule.py:46 | `Service.objects.get(name=...)`: a hit has that name; a miss means no service has it |
| Schema.EmptyDBIsEmpty | core/biz_rule.py:27-41 | the empty store is empty and well formed |
| Schema.EmptyIsEmptyDB | core/biz_rule.py:27-41 | a store with no service, field, object or row is exactly the empty store |
| Schema.DropObjectsMembers | core/biz_rule.py:59 | a filtered delete keeps exactly the rows of other objects |
| Schema.DropObjectsFree | core/biz_rule.py:59 | after a filtered delete, no row refers to a deleted object |
| Schema.DropObjectsTwice | core/biz_rule.py:57-59 | deleting object after object is deleting them all at once |
| Schema.PurgeRemovesName | core/biz_rule.py:46-62 | after the recovery for `name`, no service of that name remains |
| Schema.PurgeComplete | core/biz_rule.py:44-62 | after the recovery, the service, its fields, its objects and every row of its objects are gone |
| Schema.PurgeWellFormed | core/biz_rule.py:56-62 | the recovery keeps the store's invariants |
| Schema.PurgeIsolation | core/biz_rule.py:56-62 | every other service, its fields and its objects are kept unchanged |
| Schema.PurgeIsolatesRows | core/biz_rule.py:56-62 | every other service's value rows are kept, table by table and in order |
| Schema.PurgeUndoesRun | core/biz_rule.py:247-250 | purging a run's new service from what the run left gives back exactly the store from before the run |
| Schema.DropRowsWellFormed | core/biz_rule.py:59 | deleting value rows never leaves a dangling reference |
| Schema.RecordRowsExactlyOne | core/biz_rule.py:134-173 | when field `fids[j]` differs from every other field of the record, the record's rows for it in table `t` are its one value when the form type maps to `t`, and none otherwise |
| Schema.RecordRowsNoField | core/biz_rule.py:134-173 | a record writes no row for a field that is not one of its fields |
| Schema.RunRowsOfObject | core/biz_rule.py:128-173 | when the `i`-th object differs from the run's other objects, its rows in the run are exactly its record's rows |
| Schema.NewObjectHasNoRows | core/biz_rule.py:130-131 | a freshly saved object has no value row yet |
| Schema.RunValueRows | core/biz_rule.py:128-173 | after a run, object `i` and field `j` have exactly one row, in the table of `j`'s form type |
| Schema.PurgeUndoesRunTable | core/biz_rule.py:57-60 | table by table, deleting the run's objects' rows restores the table from before the run |
| Orm.Store.CreateService | core/biz_rule.py:123-126 | a free name adds exactly one service with a fresh id; a taken name fails and changes nothing |
| Orm.Store.GetServiceByName | core/biz_rule.py:46 | returns the service with that name, or fails when there is none |
| Orm.Store.CreateObject | core/biz_rule.py:130-131 | adds exactly one object of the service, with a fresh id |
| Orm.Store.GetOrCreateField | core/biz_rule.py:98-102 | returns a field with the key; it is created (fresh id, catalog grows by one) exactly when none had the key, otherwise the catalog is unchanged |
| Orm.Store.CreateRow | core/biz_rule.py:85 | appends the one row to the one table |
| Orm.Store.ObjectsOfService | core/biz_rule.py:56 | lists each object of the service exactly once |
| Orm.Store.DeleteRowsOf | core/biz_rule.py:59 | removes the object's rows from one table, keeping the order of the rest |
| Orm.Store.DeleteObject | core/biz_rule.py:60 | removes one object that no row refers to |
| Orm.Store.DeleteFieldsOf | core/biz_rule.py:61 | removes exactly the service's fields once no row uses them |
| Orm.Store.DeleteService | core/biz_rule.py:62 | removes a service with no field and no object |
| Orm.Store.ClearTable | core/biz_rule.py:38 | empties one value table |
| Orm.Store.ClearFields | core/biz_rule.py:39 | empties the catalog once no row is left |
| Orm.Store.ClearObjects | core/biz_rule.py:40 | removes every object once no row is left |
| Orm.Store.ClearServices | core/biz_rule.py:41 | removes every service once no field or object is left |
| Orm.Store.Restore | core/biz_rule.py:106 | the rollback returns every table to the saved state and keeps the id counter |
| Extraction.Extract | core/biz_rule.py:134-173 | a record can be read exactly when each declared attribute can, and gives one value per attribute, in order |
| Extraction.PokemonAttributes | core/biz_rule.py:134-172 | five attributes with distinct keys, all of known form types |
| Extraction.ConvertedDate | core/biz_rule.py:164 | the stored release date is the converted string; it fails when the date does not convert |
| Extraction.PrintPriceEntries | core/biz_rule.py:239-242 | keeps exactly the `printPrice` entries, the first of them first; an entry without a type fails the comprehension |
| Extraction.PrintPrice | core/biz_rule.py:239-243 | succeeds if and only if every entry has a type and one is a print price; the result is the first print price's price, or 0.0 when it has none |
| Extraction.ComicPrice | core/biz_rule.py:238-243 | the comic's price reads exactly when it has a `prices` list whose entries all have a type and one of them is a print price; the price is then that of the first print-price entry, 0.0 when it has none |
| Extraction.MarvelAttributes | core/biz_rule.py:209-244 | four attributes with distinct keys, all of known form types |
| Extraction.PrintPriceExample | core/biz_rule.py:239-243 | the first of two print prices is taken, a missing price is 0.0, and a list with no print price fails |
| BizRule.EmptyAll | core/biz_rule.py:27-41 | the store becomes the empty store |
| BizRule.DisasterRecovery | core/biz_rule.py:44-62 | with no service of that name, nothing changes and the lookup error is returned; otherwise the store becomes `Purge` of that service |
| BizRule.DeleteObjects | core/biz_rule.py:56-60 | every listed object and every row of it is deleted; services and fields are unchanged |
| BizRule.DeleteObjectValues | core/biz_rule.py:58-59 | every table loses exactly the object's rows, keeping the order of the rest |
| BizRule.DeleteServiceRecord | core/biz_rule.py:61-62 | once the objects are gone, deleting the fields and then the service completes `Purge` |
| BizRule.AddFieldValue | core/biz_rule.py:82-85 | exactly one row `(obj, field, value)` is appended to the table of the field's form type, and nothing else changes; an unknown form type writes nothing and fails |
| BizRule.AddField | core/biz_rule.py:88-103 | the field used is the only one with the key; the catalog is unchanged if the key existed, and otherwise gains exactly that field; one value row is written |
| BizRule.AddFieldTwice | core/biz_rule.py:96-103 | two equal calls share one field holding the key: the catalog is unchanged when the key was present, and otherwise gains exactly that field under the next id; services and objects are unchanged; the table gets two rows, with no overwrite |
| BizRule.IngestAttribute | core/biz_rule.py:134-141 | succeeds exactly when the value can be read and typed; a failed read changes nothing, since the argument is evaluated before the call; an unknown form type fails only after the field with the attribute's key exists; on success one row is written |
| BizRule.IngestStep | core/biz_rule.py:134-173 | one more attribute of the record is written, or the run fails while staying inside the record's service |
| BizRule.IngestRecord | core/biz_rule.py:128-173 | one new object; it succeeds exactly when the record is readable and typed, and then the catalog gained only the fields used and the tables exactly the record's rows |
| BizRule.IngestNext | core/biz_rule.py:128-173 | one loop iteration: it succeeds exactly when the next record is readable and typed, and then the recorded run grows by that record's object, fields and rows |
| BizRule.Ingest | core/biz_rule.py:123-173 | a taken name fails with nothing written; otherwise the run succeeds exactly when the records were fetched and are ingestible (then `Landed`), and any failure has grown the store under the new service only |
| BizRule.PokemonData | core/biz_rule.py:106-174 | a failure leaves the store exactly as before; success is `Landed` with the card-set attributes |
| BizRule.MarvelData | core/biz_rule.py:177-250 | on a taken name, the existing service is purged; any other failure leaves the store exactly as before; success is `Landed` with the comic attributes |
| BizRule.MarvelDuplicateDeletesExisting | core/biz_rule.py:196-250 | a store already holding the comic service has it removed by the recovery of a second run |
| BizRule.MarvelDataCorrected | core/biz_rule.py:247-250 | with recovery only for a service the run created, every failure leaves the store exactly as before |
| BizRule.RunMain | core/biz_rule.py:253-257 | after the reset, either the card-set run lands on the empty store or the store stays empty |
| BizRule.LandedDistinctFields | core/biz_rule.py:98-102 | a successful run uses a different field for each declared attribute |
| BizRule.LandedObjects | core/biz_rule.py:128-132 | a successful run leaves its service exactly one object per record, the run's objects |
| BizRule.LandedFieldCatalog | core/biz_rule.py:128-173 | a successful run with at least one record leaves its service exactly one field per attribute (5 for card sets, 4 for comics); with no record it has none |
| BizRule.LandedValue | core/biz_rule.py:128-173 | each record's object has exactly one row per attribute, holding the read value, in the table of the attribute's form type |

## Left out

- HTTP requests, status codes and JSON decoding are left out. The parsed
  record list is an input (`fetched`, `None` when the response has no
  record list).
- The credentials from `core.secret` are left out. So are the Marvel md5
  signature and the `datetime.now()` timestamp: they only authenticate the
  request.
- `print` and `traceback` output is left out: it is invisible to the
  store.
- The `human_id` scheme and the unused `created_objects` list are left out.
  Ids are fresh opaque numbers from one counter. `core/models.py` is not
  part of this model.
- Django's transaction machinery is left out. `@transaction.atomic` is a
  snapshot of the tables, restored on failure. The id counter is not
  rolled back, as with database sequences.
- Concurrency is not modelled: there is one writer.
- Reading an attribute from a record is abstract and may fail, except for
  the Marvel print price.
- Float and integer semantics are not modelled: values are opaque payloads.
- BizRule.AddFieldValue: `form_cls.objects.create` (core/biz_rule.py:85)
  can also fail when the table's column cannot hold the value, for example
  the default `""` of `pageCount` (core/biz_rule.py:223) written to the
  integer table. The field already exists by then. The model writes every
  value to a known table and can express this case only as a failing
  reader. A failing reader fails before the field is looked up, but the
  state after recovery is the same.
- The form-type codes `Field.CHAR` through `Field.URL` are distinct
  placeholder strings. Their real values live in `core/models.py`.
- Uniqueness of service names is assumed throughout the model as part of
  the store invariant. The finding below depends on it.
- Dates.DateConverter: strptime also accepts unpadded months and days and
  non-ASCII digits; the model accepts only the zero-padded ASCII form. On
  some platforms `strftime("%Y")` prints years below 1000 without padding;
  `WithSeparator` keeps all four digits, as in `0999`.
- BizRule.AddField: the Python function returns nothing. The field it
  used is returned here only to state the contract.
- BizRule.MarvelData: the Python function prints the exception, does not
  re-raise it and returns nothing. The result here only records the outcome.

## Findings

| source | as written | input that shows it | evidently intended | confidence | as-written member | corrected member |
|---|---|---|---|---|---|---|
| core/biz_rule.py:196-250 | any exception in the `try`, including the one from `Service.objects.create` on a name already in use, calls `_disater_recovery(service_name)` | a store that already holds a `MarvelComicCollection` service, then a second comic run: creating the service fails and the recovery deletes the existing service and all its data | "only delete the created objects in this round": recover only when this run created the service | not executed; depends on `Service.name` being unique, which lives in `core/models.py` | BizRule.MarvelData, BizRule.MarvelDuplicateDeletesExisting | BizRule.MarvelDataCorrected |
