# Student-record service, modelled in Dafny

This project models the service layer of a small CRUD backend for student
records (`src/Service/UserService.ts`). A record is keyed by an encoded user
name such as `tkubm1760`: the school `tku`, a department abbreviation
(`bm`) and a four-digit seat number (`1760`). The service decodes and
validates such names. It inserts records with a sequential `sid` under a
capacity of 200, and it deletes, updates and finds records by exact name.
Every operation answers with a `{code, message, body}` envelope whose code
is 200, 403, 404 or 500.

The database is replaced by a sequence of records held in a field of the
class `Service.UserService`. Each database call becomes an operation on that
sequence:

- `countDocuments` is the length of the sequence.
- `findOne({name})` is `Students.FirstWithName`: the first record with that name.
- The maximum-`sid` query is `Students.MaxSid`.
- `save` appends to the sequence.
- `deleteOne` removes the matched record.
- `findOneAndUpdate` replaces the matched record.

Modules:

- `Outcomes`: `Option`, and `Outcome` (`Ok` or `Thrown`). `Outcome` stands
  for code that may throw. It unifies the two error channels of the source:
  the formatter throws, and the validator returns a message string.
- `Username`: `userNameFormator` as `Format`, and the `/^\d{4}$/` test as
  `IsFourDigits`.
- `Students`: the record, patch and envelope types, and the validator's
  verdicts with their exact messages. Also the specification functions of
  the seat-number scan, the validator, the sid assignment, lookup by name
  and the update, and lemmas about the collection.
- `Service`: the class `UserService`. Its methods are the service's
  operations, each proved against the functions of `Students`. Three
  client methods (`ExampleInsert`, `ExampleDuplicate`, `ExampleLookups`)
  replay worked examples. One is inserting `tkubm1760` next to a record
  with sid 5, which yields sid 6 and seat number `1760`.

Where the intended behaviour and the code differ, the model follows the code:

- The code never checks that the department is non-empty: `tku1760` passes
  (`Students.EmptyDepartmentPasses`).
- The seat-number scan decodes every STORED name. A stored name shorter
  than seven characters makes the formatter throw. `insertOne` catches
  that and answers 500 "server error", so the throw never escapes the service.
- `existingSeatNumbers` reads a `userName` property, while every other
  operation keys on `name`. The helpers `studentsModel`, `Student` and
  `getAllStudents` are not defined in the code. All of them are read as the
  one collection of records, and the seat-number scan runs over `name`.
- Seat-number uniqueness is checked only on insertion. An update can rename
  a record onto a seat number already in use, so uniqueness is not an
  invariant of the collection (`Students.UpdateCanDuplicateSeat`).
  Insertion of a validated name keeps it
  (`Students.AcceptedNameKeepsSeatsUnique`), and so does deletion
  (`Students.RemoveKeepsSeatsUnique`).

The collection invariant that every operation keeps is `Students.WellFormed`:
at most 200 records, and no two records with the same `sid`. No operation
requires it. Each one ensures that it holds afterwards whenever it held before.

## Model

| member | source | states |
|---|---|---|
| `Username.Format` | src/Service/UserService.ts:111-121 | throws, with the invalid-format message, exactly when the name is shorter than 7 (empty included); otherwise the school name is the first 3 characters, the seat number the last 4, the department has length len − 7, and the three parts concatenate back to the name |
| `Username.FormatJoin` | src/Service/UserService.ts:115-120 | decoding inverts joining: for any 3-character school, any department and any 4-character seat number, formatting their concatenation gives those three parts back |
| `Students.SeatLookup` | src/Service/UserService.ts:128-140 | the seat-number scan throws exactly when some stored name is too short to decode; otherwise it answers true iff some stored record's decoded seat number equals the given one |
| `Students.Validate` | src/Service/UserService.ts:84-104 | fixed priority of the checks: length < 7 gives the format message; else a school other than "tku" gives the school message; else a seat part that is not four ASCII digits gives the seat-format message; else the scan's throw propagates; else a taken seat gives "座號已存在"; and "驗證通過" is returned iff all checks pass (both directions) |
| `Students.WellFormedNamePasses` | src/Service/UserService.ts:87-102 | every name "tku" + department + four digits whose seat is free passes validation, provided every stored name decodes |
| `Students.EmptyDepartmentPasses` | src/Service/UserService.ts:87-102 | "tku1760", with an empty department, passes validation against an empty collection |
| `Students.DuplicateSeatRejected` | src/Service/UserService.ts:99-101 | "tkuee1760" is refused with the seat-exists verdict when "tkubm1760" is stored: the department does not matter, only the seat number |
| `Students.MaxSid` | src/Service/UserService.ts:58-62 | the maximum-sid query returns a sid that some record has and that no record exceeds |
| `Students.NextSid` | src/Service/UserService.ts:63-65 | the new sid is 1 in an empty collection, otherwise some stored sid + 1, and it is larger than every stored sid |
| `Students.FirstWithName` | src/Service/UserService.ts:153 | lookup by exact name: none iff no record has the name; otherwise the index of a record with that name, with no record of that name before it |
| `Students.UpdatedRecord` | src/Service/UserService.ts:182-194 | the updated record keeps its `_id` and `sid` whatever the patch holds; its name is the patch's if given, else unchanged; its other fields are the old ones overridden by the patch's |
| `Students.SetWithoutStripChangesSid` | src/Service/UserService.ts:182-189 | setting the update data without first deleting `sid` can change a record's `sid`, which is why the copy is stripped |
| `Students.RemoveAt` | src/Service/UserService.ts:156 | deletion removes exactly one record: the length drops by one and the remaining records with the removed one are the old collection, as a multiset |
| `Students.AppendKeepsWellFormed` | src/Service/UserService.ts:51-71 | appending a record with the next sid to a collection below capacity keeps at most 200 records and distinct sids |
| `Students.RemoveKeepsWellFormed` | src/Service/UserService.ts:153-158 | deleting a record keeps the collection within capacity with distinct sids |
| `Students.UpdateKeepsWellFormed` | src/Service/UserService.ts:182-194 | updating a record keeps the collection within capacity with distinct sids |
| `Students.AcceptedNameKeepsSeatsUnique` | src/Service/UserService.ts:44-71 | appending a record whose name passed validation keeps every stored name decodable and every seat number unique |
| `Students.RemoveKeepsSeatsUnique` | src/Service/UserService.ts:153-158 | deleting any record from a collection whose names all decode with distinct seat numbers keeps every name decodable and every seat number distinct |
| `Students.UpdateCanDuplicateSeat` | src/Service/UserService.ts:182-194 | an update whose new name carries the seat number of another stored record always leaves two records with one seat number: update does not validate the new name |
| `Service.UserService.constructor` | src/Service/UserService.ts:16 | the service starts over the given collection |
| `Service.UserService.ExistingSeatNumbers` | src/Service/UserService.ts:128-140 | the forEach loop with its `exist` flag returns exactly the seat-number scan's result over the stored records, and changes nothing |
| `Service.UserService.UserNameValidator` | src/Service/UserService.ts:84-104 | the guarded returns, with the loop scan, yield exactly `Validate` over the stored records, and change nothing |
| `Service.UserService.InsertOne` | src/Service/UserService.ts:36-78 | a throw during validation gives 500 "server error"; a failed validation gives 403 with the validator's message; 200 or more records give 403 "student list is full"; in all three cases the collection is unchanged. Otherwise exactly one record is appended with the input's name and fields, the next sid and the generated `_id` (the input's `_id` and `sid` discarded), and the answer is 200 "insert success" with that record. Well-formedness is preserved |
| `Service.UserService.DeletedByName` | src/Service/UserService.ts:147-168 | a missing name gives 404 "user not found", no body, collection unchanged; otherwise the first record with that name is removed and the answer is 200 "sucess" with a deleted count of 1. Well-formedness is preserved |
| `Service.UserService.UpdateByName` | src/Service/UserService.ts:175-207 | a missing name gives 404 "User not found", no body, collection unchanged; otherwise the first record with that name is replaced by its update (same `_id` and `sid`), nothing else changes, and the answer is 200 "Update successful" with the updated record. Well-formedness is preserved |
| `Service.UserService.FindByName` | src/Service/UserService.ts:213-233 | a missing name gives 404 "user not found" and no body; otherwise 200 "find success" with the first record of that name; the collection is never changed |

## Left out

- Persistence failures: the catch blocks of `deletedByName`, `updateByName`
  and `findByName`, and a failing `save` in `insertOne`, are not modelled.
  The in-memory collection cannot fail. The only 500 path modelled is the
  formatter's throw during `insertOne`'s validation.
- `findOne({name})` without a sort returns a record in the database's
  natural order. The model takes the first matching record in insertion order.
- `sid` is stored as a string by the code and sorted by the database.
  The model keeps it as a natural number with a numeric maximum. Lexicographic
  ordering of string sids and `Number(...)` giving NaN are not modelled.
- The generated `_id` is a parameter of `InsertOne`. The database's
  generator, and the uniqueness of what it generates, are not modelled.
- Lengths and slices count Unicode scalar values. JavaScript counts UTF-16
  code units, which differ only for characters outside the Basic Multilingual
  Plane.
- Inputs that are not strings (a missing `name`, `typeof` checks) are not
  modelled: names are always strings.
- `runValidators` on update, the schema of `src/orm/schemas/PalSchema.ts`,
  `getAllPals` (a direct pass-through to the database) and the HTTP
  controller, which only forwards the envelope's code as the HTTP status,
  are not part of this model.
- async/await, logging and configuration are not modelled. Each operation
  is atomic, so the race between concurrent inserts, which can assign the
  same sid twice, is not modelled.
