# Task API handlers — a Dafny model

This project models the request handlers of a small task-management HTTP API
(`src/routes.js`). The service keeps one table, "tasks", in an in-process
database. Five handlers act on it:

- `GET /tasks` lists the tasks, optionally filtered by a `search` term;
- `POST /tasks` validates the body and appends a new, incomplete task;
- `PUT /tasks/:id` replaces a task's title and description;
- `DELETE /tasks/:id` removes a task;
- `PATCH /tasks/:id/complete` toggles a task between incomplete and completed.

The model is a state machine over that one table:

- `Tasks` holds the task record.
- `Store` holds the table operations the handlers call: `findById`, `insert`, `update` and `delete`, plus the listing `select`. They are modelled as functions over an ordered `seq<Task>`.
- `Text` holds JavaScript's `String.prototype.trim`.
- `Validation` holds the body rule: the title is a string that is non-empty after trimming, and the description is an optional string.
- `Routes` holds the handlers. They are the methods of a class `TaskRoutes` whose field `tasks` is the shared table. Each method returns the response status code. `List` also returns the listed records.
- `Scenario` is a client that walks one task through its whole life.

The random id generator (`randomUUID`) and the clock (`new Date()`) are
method parameters. A timestamp is a `nat`.

The class invariant `Valid()` says two things: ids are unique, and every
stored title passed the body rule. Every handler preserves it.

The database file (`src/database.js`) is not part of this model. Its
operations are modelled as the handlers use them:

- lookup, update and delete act on the first record with the given id, as a `findIndex` would;
- update is a shallow merge of the supplied fields;
- persistence is omitted.

Under the unique-id invariant, "first record with the id" and "the record with the id" coincide.

The listing's way of matching a record against a filter also lives in that
file. `Store.Select` therefore takes it as a parameter. The model proves
that the listing keeps table order and returns only records the filter
accepts. It claims nothing about how a record is matched.

The handler builds the GET filter as `{title: search, description: search}`:
the same term under both keys, handed to the store as one filter. How the
store combines the two keys is not modelled. `SearchFilter` states exactly
the filter that is built.

## Model

| member | source | states |
|---|---|---|
| `Text.TrimStart` | src/routes.js:10 | the result is the suffix of the input starting at its first non-space character; everything dropped is white space |
| `Text.TrimEnd` | src/routes.js:10 | the result is the prefix of the input ending at its last non-space character; everything dropped is white space |
| `Text.Trim` | src/routes.js:10 | the trimmed title has no white space at either end; it is empty exactly when the input is all white space; an already trimmed string is returned unchanged |
| `Text.TrimIsSlice` | src/routes.js:10 | trimming removes only a white-space prefix and a white-space suffix; the result is the contiguous slice between them |
| `Validation.Validate` | src/routes.js:9-12 | accepts exactly an object whose title is a string with a non-space character and whose description is absent or a string; yields the trimmed, non-empty title and the description as given |
| `Store.FindIndex` | src/routes.js:65 | returns the position of the first record with the id, or -1 exactly when no record has it |
| `Store.FindById` | src/routes.js:65 | finds a record exactly when the id is in the table; the record found is in the table and carries that id |
| `Store.Insert` | src/routes.js:54 | appends the record after all earlier ones, which are kept; adds its id to the table's ids; keeps ids unique when the id is new |
| `Store.Merge` | src/routes.js:84-88 | a shallow merge writes every field the change supplies, keeps every field it does not supply, and never changes `id` or `created_at` |
| `Store.Update` | src/routes.js:131-134 | keeps length, order and every id; with unique ids, merges the changes into the record with that id and leaves every other record equal |
| `Store.Delete` | src/routes.js:108 | an absent id leaves the table as it is; a present one shortens it by one |
| `Store.Without` | src/routes.js:108 | reference removal: the records with a different id, in order; a record is kept exactly when it is in the table and its id differs |
| `Store.WithoutAbsent` | src/routes.js:108 | removing an id that is not in the table changes nothing |
| `Store.DeleteIsWithout` | src/routes.js:99-109 | with unique ids, `delete` removes exactly the record with that id and keeps all the others in their order |
| `Store.Keep` | src/routes.js:21-24 | a filtered listing contains exactly the table's records that the filter accepts |
| `Store.Select` | src/routes.js:21-24 | with no filter the listing is the whole table; with a filter it holds exactly the accepted records |
| `Store.KeepAppend` | src/routes.js:21-24 | the filtered listing preserves table order: listing a concatenation lists each part in turn |
| `Routes.SearchFilter` | src/routes.js:19-24 | no filter exactly when `search` is missing or empty; otherwise a filter on exactly `title` and `description`, both with the search term |
| `Routes.Toggle` | src/routes.js:127-132 | the new `completed_at` is absent exactly when it was present, and is `now` when present |
| `Routes.ToggleTwice` | src/routes.js:127-134 | completing twice restores an incomplete task to incomplete, and a completed one to completed at the second clock reading |
| `Routes.TaskRoutes.constructor` | src/routes.js:7 | the table starts empty and satisfies the invariant |
| `Routes.TaskRoutes.List` | src/routes.js:18-27 | always 200; the listing is the store's selection for the built filter; without a search term it is the whole table in insertion order; it lists only stored tasks |
| `Routes.TaskRoutes.Create` | src/routes.js:32-57 | an invalid body gives 400 and no change; a valid one gives 201 and appends one task with the fresh id, the trimmed title, the given description, no `completed_at` and `created_at == updated_at == now`; earlier tasks are kept; the invariant is preserved |
| `Routes.TaskRoutes.Replace` | src/routes.js:62-91 | an unknown id gives 404 whatever the body, a known id with an invalid body gives 400, and neither changes the table; otherwise 204, and only the task's title, description (absent when the body has none) and `updated_at` change; `id`, `created_at`, `completed_at` and all other tasks stay as they were |
| `Routes.TaskRoutes.Remove` | src/routes.js:96-110 | an unknown id gives 404 and no change; otherwise 204, and the table is the old one without that task, the others kept in order |
| `Routes.TaskRoutes.ToggleComplete` | src/routes.js:115-137 | an unknown id gives 404 and no change; otherwise 204, `completed_at` is toggled, `updated_at` becomes `now`, and nothing else changes |
| `Scenario.BuyMilk` | src/routes.js:14-139 | create, list, complete, list, complete again, list, delete, list, delete again: statuses 201, 200, 204, 200, 204, 200, 204, 200, 404, with the listings showing the task incomplete, completed at the first completion's clock reading, incomplete again with `updated_at` at the second completion's reading, then gone |

## Left out

- Routing: the path-template matcher (`buildRoutePath`, in `src/utils/build-route-path.js`) and the dispatch of method and path to a handler are not part of this model. The handlers take the path id and query term directly.
- Persistence: `src/database.js` writes the whole store to a file after each change and loads it at start-up. This is not part of this model. The table starts empty, and a loaded table is not represented.
- Filter matching: how the database decides that a record matches a filter is outside this model. `Store.Select` takes it as a parameter.
- The schema library: `taskBodySchema.safeParse` is replaced by `Validation.Validate`. Zod's structured error is reduced to "rejected". Keys other than `title` and `description` are not represented, because the schema drops them.
- Responses: headers, the JSON encoding of listings and the error payloads (`"Invalid request body"`, `"Not found"` with its message) are not modelled. Only the status code, and for GET the listed records, are.
- The CSV import script (`streams/import-tasks-stream.js`) is file streaming and network I/O. It is left out.
- Clock and id generator: both are parameters. `Routes.TaskRoutes.Create` requires the generated id to be absent from the table. This stands for the uniqueness of `randomUUID`.
- Timestamps: `updated_at >= created_at` is not an invariant of the model, because nothing orders the clock readings the handlers receive. The handler contracts state the exact timestamps written: `now` for `updated_at`, and `created_at` kept. So the ordering holds whenever the clock does not go backwards.
- Text length: the title's minimum length is checked in UTF-16 code units by the source and in Unicode scalar values here. Both agree on whether a string is empty, which is all the rule asks.
