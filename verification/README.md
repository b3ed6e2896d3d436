# Note store model

A Dafny model of the note data-access layer of a small note-taking web
application (`app/models/note.server.ts`). Notes live in a key-value table
whose primary key is `(pk, sk)`: the partition key is the owning user's id and
the sort key is `note#<id>`. Each item also holds `title` and `body`. The
layer offers five operations, each one request against the table and scoped
by the caller's user id: get one note, list a user's notes, create, update
(partial) and delete.

The model has five modules:

- `Wrappers`: `Option` (JavaScript's `undefined`/`null`) and `Result`.
- `NoteKeys`: the sort-key codec `IdToSk`/`SkToId` and its round-trip law.
- `UpdateExpression`: the builder of the partial-update request. It is an
  imperative method that appends a fragment per supplied field, fills the
  placeholder dictionary, and strips the trailing comma.
- `NoteTable`: the table as a `map<Key, Item>`. It also gives the semantics of
  the single-item requests the store issues: get, put, delete, update and the
  partition query.
- `NoteStore`: the `Note` and `ListItem` shapes and `GetNote`. It also holds
  the class `NoteStore`, whose `table` field is the table's state. The class's
  methods are `GetNoteListItems`, `CreateNote`, `UpdateNote` and `DeleteNote`.
  The module ends with lemmas that relate the operations and a method for the
  create/read/update/delete scenario.

Behaviour kept as the code has it:

- `getNote` returns `id: result.sk`, the full `note#<id>` sort key. The list,
  create and update paths return the stripped id (`GetNoteReturnsSortKey`).
- `skToId` removes at most one leading `note#`, so an id that itself starts
  with `note#` still round-trips (`IdRoundTrip`).
- The table's update creates the item when none exists. An item made this way
  carries only the supplied fields, so item attributes are `Option`s
  (`UpdateOfMissingNoteCreatesIt`).
- When neither field is supplied, the builder produces `"set"` and an empty
  value dictionary. The table rejects the bare `set` expression, so
  `UpdateNote` returns `Failure(EmptyUpdate)` and the table is unchanged.

## Model

| member | source | states |
|---|---|---|
| NoteKeys.IdToSk | app/models/note.server.ts:19 | the sort key starts with `note#` and the rest of it is exactly the id |
| NoteKeys.SkToId | app/models/note.server.ts:18 | a key with the `note#` prefix decodes to the id whose sort key it is; a key without the prefix comes back unchanged |
| NoteKeys.IdRoundTrip | app/models/note.server.ts:18-19 | `SkToId(IdToSk(id)) == id` for every id, including ids that start with `note#` |
| NoteKeys.IdToSkInjective | app/models/note.server.ts:19 | two ids share a sort key iff they are equal |
| NoteKeys.UnprefixedSortKeyCollides | app/models/note.server.ts:18 | a key without the prefix decodes to the same id as its prefixed form, so decoding is lossless only on prefixed keys |
| UpdateExpression.StripTrailingComma | app/models/note.server.ts:101 | removes exactly one final comma when there is one; otherwise returns the string unchanged |
| UpdateExpression.Build | app/models/note.server.ts:91-101 | exact expression for each of the four present/absent cases (`set title = :t, body = :b`, `set title = :t`, `set body = :b`, `set`); it never ends with a comma; `:t` is a key iff a title is given, mapped to it, and the same for `:b` and the body; no other keys |
| NoteTable.GetItem | app/models/note.server.ts:27 | finds an item iff one is stored at the key, and returns that item |
| NoteTable.PutItem | app/models/note.server.ts:64-69 | the key now holds the new item; every other item is unchanged |
| NoteTable.DeleteItem | app/models/note.server.ts:80 | only the given key is removed; every other item is unchanged |
| NoteTable.UpdateItem | app/models/note.server.ts:103-111 | rejected iff the update expression is the bare `set`; otherwise sets `title` from `:t` and `body` from `:b` when given, keeps the prior values of the others, creates the item when missing, and leaves every other item unchanged |
| NoteTable.Partition | app/models/note.server.ts:45-48 | holds exactly the items whose `pk` equals the queried user id, with their stored attributes |
| NoteTable.DeleteIdempotent | app/models/note.server.ts:78-81 | deleting twice equals deleting once; deleting a missing key leaves the table unchanged |
| NoteTable.WriteElsewhereInvisible | app/models/note.server.ts:45-48 | a put or delete in another user's partition leaves this user's partition unchanged |
| NoteStore.GetNote | app/models/note.server.ts:21-38 | absent iff no item is at `(userId, idToSk(id))`; on a hit `userId`, `title` and `body` come from that item and `id` is the sort key |
| NoteStore.NoteStore.GetNoteListItems | app/models/note.server.ts:40-55 | exactly one `{id, title}` per item in the user's partition, with no repeats; `id` is the stripped sort key, `title` is the stored title, and there is no body; empty when the user has no items; every listed id finds its note through `getNote` |
| NoteStore.NoteStore.CreateNote | app/models/note.server.ts:57-76 | the table gains the item `(userId, note#freshId)` holding the given title and body, and nothing else changes; returns `{id: freshId, userId, title, body}` |
| NoteStore.NoteStore.DeleteNote | app/models/note.server.ts:78-81 | the table loses only the item at `(userId, idToSk(id))`; unchanged when there is none |
| NoteStore.NoteStore.UpdateNote | app/models/note.server.ts:83-119 | fails iff neither field is supplied, leaving the table unchanged; otherwise only the supplied fields of the item at `(userId, idToSk(id))` change, and the result is `{id, userId}` with the post-update title and body |
| NoteStore.GetNoteReturnsSortKey | app/models/note.server.ts:29-35 | on a hit, the returned `id` is `"note#" + id`; it differs from the requested id and decodes back to it |
| NoteStore.GetNoteSeesOnlyOwnPartition | app/models/note.server.ts:27 | `getNote`'s result depends only on the caller's own partition |
| NoteStore.OtherUsersWritesInvisible | app/models/note.server.ts:21-55 | a put or delete under another user changes neither what `getNote` nor what the list query sees for this user |
| NoteStore.WritesKeepOtherNotes | app/models/note.server.ts:64-80 | a put or delete at one key leaves every other note as `getNote` sees it |
| NoteStore.CreateThenGet | app/models/note.server.ts:57-76 | after a create, `getNote` with the same user and id returns the title and body written |
| NoteStore.CreateAddsOneItem | app/models/note.server.ts:64-69 | with a fresh id, a create adds exactly one item |
| NoteStore.DeleteThenGet | app/models/note.server.ts:78-81 | after a delete, `getNote` finds nothing, and a second delete changes nothing |
| NoteStore.UpdateThenGet | app/models/note.server.ts:91-118 | after an update of an existing note, supplied fields show their new values and absent fields their stored ones |
| NoteStore.UpdateOfMissingNoteCreatesIt | app/models/note.server.ts:103-111 | updating a missing note creates it with only the supplied fields |
| NoteStore.ListedIdFindsNote | app/models/note.server.ts:51-54 | in a table whose sort keys all carry the prefix, every id the list returns leads `getNote` back to that item |
| NoteStore.GroceriesScenario | app/models/note.server.ts:21-119 | create "Groceries"/"milk, eggs", then get it; update the body to "milk, eggs, bread", then get it; then delete, get and delete again. The gets show the written values, then the updated body with the title kept, then absent twice |

## Left out

- Network access to the table: the client handle (`arc.tables()`), `async`
  and promises, and transport failures. The table is an in-memory map. Its
  failures are not modelled, except the rejection of an update that assigns
  nothing.
- The id generator (`createId()`): its output is the `freshId` parameter of
  `CreateNote`. Collision resistance is not modelled. Where freshness matters,
  it is a lemma hypothesis (`CreateAddsOneItem`).
- The table service's parsing of the update expression: `UpdateItem` rejects
  the bare `set` and otherwise applies the assignments `title = :t` and
  `body = :b` from the value dictionary. `UpdateExpression.Build` pins down
  the exact expression sent with it. The rejection of the bare `set` is the
  service's behaviour, assumed here.
- Read consistency: reads are modelled as always seeing the latest write.
  The source's get and query (app/models/note.server.ts:27, 45-48) do not ask
  for strongly consistent reads, so the service may serve a read made right
  after a write from the older state. NoteStore.CreateThenGet,
  NoteStore.DeleteThenGet, NoteStore.UpdateThenGet and
  NoteStore.GroceriesScenario therefore hold only under read-after-write
  consistency, which the source does not request.
- `TableName`, `ReturnValues` and the query's key-condition strings are request
  plumbing. The query is modelled as a filter on `pk`, and the update's return
  value as the item after the update.
- NoteStore.NoteStore.GetNoteListItems: makes no ordering claim. The table's
  query yields a partition's items in ascending sort-key order; the model
  picks the items in an arbitrary order instead. It also does not
  model the query's page limit: the source reads only the first page of
  results, and the model returns every item in the partition.
- `deleteNote`'s return value (the table service's raw response) is not
  modelled. `DeleteNote` returns nothing.
- The web routes, page components, root layout and session lookup are not
  part of this model.
