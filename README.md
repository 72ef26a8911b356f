# Student registry: a Dafny model

The service keeps student records in memory and serves five HTTP handlers over them:
create (POST /students), list (GET /students), get one (GET /students/:id),
update (PUT /students/:id) and delete (DELETE /students/:id). Its whole state
is an ordered list `students` and an integer `idCounter` starting at 1.

This project models that state and those handlers:

- `records.dfy` (module `Records`): JSON values and records
  (`map<string, Value>`), the id test used by the handlers (`Matches`), the object
  spread `{ id: x, ...body }` (`WithId`), the array operations `findIndex`,
  `find` and `filter` as recursive functions over `seq<Record>`, and the
  numbering invariant `IdsFresh` with the lemmas that each handler keeps it.
- `registry.dfy` (module `StudentRegistry`): the `Registry` class with fields
  `students` and `idCounter`, the three state-changing handlers as methods with
  `modifies this`, the two reads as functions with `reads this`, and a
  `Response` datatype for status code and body. A ghost field `issued` records
  every id the counter has handed out, to state that the counter never issues
  the same value twice below 2^53. The counter is a JavaScript number, so the
  model caps it at 2^53 (`CounterLimit`, `NextCounter`), where `idCounter++`
  stops changing it.
  `ExampleSession` is a client that walks through a create/create/list/update/
  delete/get sequence and checks what the contracts let it conclude.

Two behaviours of the code are modelled as written, even where one might
expect otherwise:

- The id precedence in create and update. The object spread puts the body after
  the id (server.js:57, server.js:125), so a request body carrying `"id"`
  overrides the server-assigned id. One might expect the generated id to win;
  the code lets the body's id win, and so does the model (`WithId` is the
  right-biased map union `map["id" := JNumber(x)] + body`).
- Delete always answers 204 (server.js:151-152), whether or not a record
  matched. The documentation comment above it (server.js:145-149) lists 404; no
  code path produces it.

Uniqueness of stored ids is not guaranteed by the code. A request body carrying
`"id"` breaks it, and so can an update whose path parameter parses differently
under loose equality and under `parseInt` (see "## Left out"). The model's path
parameter is a single integer, so only the first cause remains in it, and the
methods state uniqueness conditionally (`old(IdsUnique()) && "id" !in body ==>
IdsUnique()`) rather than requiring it of callers. Below 2^53, counter values
are never issued twice, whatever the bodies hold: the counter only moves
forward, and create always takes a counter value not issued before. At 2^53
this fails, because the counter is a double and `idCounter++` leaves it there,
so every later create hands out 2^53 again (`CreateTwiceAtLimit`). Stored ids
can also repeat when a body copies an id that is already in use.

## Model

| member | source | states |
|---|---|---|
| `Records.Matches` | server.js:87 | the test `s.id == req.params.id` used by find (server.js:87), findIndex (server.js:123) and, negated, filter (server.js:151): a record matches exactly when it carries the numeric id equal to the parameter; a record without a numeric id never matches |
| `Records.WithId` | server.js:57 | `{id: x, ...body}` has the body's keys plus "id", every body field with its body value, and "id" = x unless the body carries "id", in which case the body's value wins |
| `Records.FindIndex` | server.js:123 | findIndex returns -1 exactly when no record matches; otherwise an index whose record matches and before which no record matches |
| `Records.Find` | server.js:87 | find returns nothing exactly when no record matches; otherwise a matching record that is in the collection |
| `Records.FindIsAtFindIndex` | server.js:87 | find and findIndex agree: find returns the record at the index findIndex reports, or nothing when it reports -1 |
| `Records.RemoveMatching` | server.js:151 | the filtered list holds no matching record, is no longer than the input, has the same length exactly when nothing matched, and is the input itself when nothing matched |
| `Records.RemoveMatchingMembers` | server.js:151 | a record is in the filtered list exactly when it was in the input and does not match |
| `Records.RemoveMatchingAppend` | server.js:151 | filtering distributes over concatenation, so survivors keep their relative order |
| `Records.RemoveMatchingSingle` | server.js:151 | a single record survives the filter exactly when it does not match |
| `Records.CreateKeepsIdsFresh` | server.js:57-58 | appending `{id: counter, ...body}` for a body without "id" and moving the counter on by one keeps all ids distinct, at least 1 and below the counter |
| `Records.CreatedIsFound` | server.js:57-58 | after such an append, findIndex on the new id finds exactly the appended record at the end |
| `Records.UpdateKeepsIdsFresh` | server.js:123-125 | replacing the first match for `id` by `{id: id, ...body}` (body without "id") keeps ids distinct and below the counter |
| `Records.RemoveKeepsIdsFresh` | server.js:151 | filtering keeps ids distinct and below the counter |
| `Records.RemoveOnlyMatch` | server.js:151 | when exactly one position matches, the filter removes that position and keeps the rest in order |
| `Records.RemoveMatchingUnique` | server.js:151 | with distinct ids and a match, the filter removes exactly the record findIndex finds: the list shrinks by one and every other record keeps its order |
| `StudentRegistry.Response.Status` | server.js:59 | the status codes the handlers set: 201 exactly for a created record (server.js:59), 200 exactly for one record or the list (server.js:73, 88, 126), 404 exactly for not found (server.js:88, 128), 204 exactly for the delete answer (server.js:152) |
| `StudentRegistry.NextCounter` | server.js:57 | `idCounter++` on the double counter: one more below 2^53; at 2^53 the value stays, and it changes exactly when below the cap |
| `StudentRegistry.Registry.constructor` | server.js:21-22 | the registry starts with no records, the counter at 1 and no id issued |
| `StudentRegistry.Registry.Create` | server.js:57-59 | the counter grows by exactly one below 2^53 and stays at 2^53; exactly `{id: old counter, ...body}` is appended and earlier records are unchanged; the answer is 201 with that record; below 2^53 the old counter value was never issued before; with unique ids it matches no stored record; below 2^53 and with a body lacking "id", ids stay unique and get on the new id returns the new record |
| `StudentRegistry.CreateTwiceAtLimit` | server.js:57 | once the counter is at 2^53, two creates with bodies lacking "id" both return a record with id 2^53, and the counter stays there |
| `StudentRegistry.Registry.List` | server.js:73 | list answers 200 with the whole collection in stored order and changes nothing |
| `StudentRegistry.Registry.Get` | server.js:87-88 | get answers 404 exactly when no record matches, otherwise 200 with the first matching record; it changes nothing |
| `StudentRegistry.Registry.Update` | server.js:123-129 | with no match nothing changes and the answer is 404; on a match only the first matching position is written, with exactly `{id: id, ...body}` (fields missing from the body are dropped), the length and every other position are unchanged and the answer is 200 with the new record; the counter never changes; with a body lacking "id", ids stay unique |
| `StudentRegistry.Registry.Delete` | server.js:151-152 | the collection becomes the filtered list, get on the id then answers 404, the answer is always 204, the counter is untouched; nothing changes when nothing matched; with unique ids, exactly the matching record is removed and ids stay unique |

## Left out

- Express setup, the JSON body middleware and the listener on port 3000 (server.js:1-3, 16-17, 155): framework and I/O plumbing.
- The OpenAPI documentation generation and the `/api-docs` route (server.js:5-14, 18-19) and the documentation comments inside the handlers: static documentation produced by a foreign library, not behaviour.
- StudentRegistry.Registry.Update: assumes the id written equals the id matched. The code matches with loose `==`, which converts the parameter with `Number` (server.js:123), but writes `parseInt` of it (server.js:125). The two disagree on exponent, binary, octal and leading-dot parameters: `PUT /students/1e1` matches id 10 and writes id 1; `0b10` matches id 2 and writes id 0; `.1e1` matches id 1 and writes `NaN`. The code can therefore store duplicate ids without any body `"id"`, and the model does not capture this.
- Records.UpdateKeepsIdsFresh: rests on the same assumption (written id equals matched id), so it does not cover the duplicate ids that such parameters create.
- JavaScript loose equality and `parseInt` on the path parameter: the parameter is an already-parsed integer and a record matches when its "id" is that number. Odd parameters ("01", "1.0", whitespace, hex, non-numeric text) and non-numeric ids supplied through a body (strings, booleans, arrays), which loose equality would also match (`"1" == "1"`, `true == "1"`, `[7] == "7"`), are not modelled.
- StudentRegistry.Registry.Create: the counter's double arithmetic is modelled only as far as the source reaches it. Values are exact up to 2^53, and there `idCounter++` stops changing the counter. Ids stay unique only below 2^53; from 2^53 on, create reissues 2^53 and the model promises no uniqueness.
- JSON numbers in bodies are modelled as integers; floating point values are not modelled.
- Malformed JSON bodies are rejected by the body parser before any handler runs; that path is not modelled. Bodies are modelled as JSON objects.
- Key order inside objects, JSON serialisation and HTTP framing: responses are the `Response` datatype (status and body).
- Concurrency: each handler runs to completion on a single-threaded event loop without yielding, so the model is sequential.
