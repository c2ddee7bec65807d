# Todo REST handlers, modelled in Dafny

This project models the five request handlers of the todo application's Flask
back end (`backend/app.py`) over the todo table:

- `get_todos` lists every record, newest first, with their count.
- `get_todo` reads one record by id.
- `create_todo` validates the JSON body, strips the title and the description,
  and stores a new record.
- `update_todo` checks and applies a partial update: title, description and
  `completed`, in that order.
- `delete_todo` removes one record.

Each handler answers with an HTTP status code and either a record or an error kind.

Modules:

- `Text` (`text.dfy`) models Python's `str.strip()` and `str.isspace()`:
  - the two index scans CPython performs, one from each end;
  - the "blank" test `not s.strip()`.
- `Json` (`json.dfy`) models the decoded request body (`request.get_json()`):
  - JSON values with Python truthiness;
  - what `key in data` and `data[key]` do on a dict, a list, a string and the other values.
- `Requests` (`requests.dfy`) holds:
  - the record type;
  - the body checks of create and update, as pure functions returning a record or the reason for a 400;
  - their properties: which bodies are accepted, what fields they write, and idempotence of updates.
- `Store` (`store.dfy`) holds the `TodoStore` class:
  - the table as a map from id to record;
  - the live ids in creation order;
  - a logical clock standing for `created_at`;
  - the next id to hand out.

  The handlers are its methods. Its invariant (`Valid`) keeps five facts:
  - every record is under its own id;
  - every stored id is below the next id to hand out;
  - every record is well formed: a non-empty, stripped title and a stripped description;
  - every record is older than the clock;
  - the creation-order list is exact.
- `Scenarios` (`scenarios.dfy`) states the request sequences of the test suite
  (`test_app.py`) and proves the outcomes the tests expect from the contracts of
  `TodoStore`, for any body of the kind each test uses.

Two behaviours of the code that are easy to miss:

- The listing order comes from the query at `backend/app.py:39`, which sorts by
  `created_at` descending, so `List` promises newest first.
- A non-empty JSON list or string sent to `update_todo` passes `if not data`.
  When none of the three field names is found in it by `in`, the handler
  commits nothing new and answers 200 with the record unchanged. The model keeps
  this (`Requests.UpdateAccepted`, `Requests.Patch`).

## Model

| member | source | states |
|---|---|---|
| Text.IsSpaceAscii | backend/app.py:84 | within ASCII, Python's whitespace is exactly TAB, LF, VT, FF, CR, the separators FS, GS, RS, US, and SPACE |
| Json.FalsyValues | backend/app.py:78-84 | `not x` holds exactly for `None`, `False`, zero, `""`, `[]` and `{}` |
| Json.ContainsIffSlice | backend/app.py:135-146 | Python's `key in s` on strings holds exactly when some window of `s` equals `key` |
| Json.IndexOnString | backend/app.py:135-146 | on a string body, `key in data` is a substring test, and when it finds the key the following `data[key]` raises; it never yields a value |
| Json.GetOrAgreesWithIndex | backend/app.py:84-93 | on a dict, `data.get(key, default)` gives the member that `data[key]` reads when `key in data`, the default otherwise, and never raises |
| Store.StatusOfReply | backend/app.py:35-196 | 201 is answered only for a creation, 400 only for a refused body, 404 only for a missing id, and 200 for a listing, a read, an update or a deletion |
| Text.SkipSpace | backend/app.py:84 | the left scan of `strip()` returns the first non-space index at or after `i` (or the end), with only whitespace skipped |
| Text.SkipSpaceBack | backend/app.py:84 | the right scan returns the end of the last non-space character, not below `lo`, with only whitespace skipped |
| Text.Strip | backend/app.py:91-92 | `strip()` returns a slice `s[a..b]` with only whitespace before `a` and after `b` and no whitespace at either of its ends |
| Text.StripUnique | backend/app.py:91-92 | any slice with no whitespace at its ends and only whitespace outside it is exactly what `strip()` returns |
| Text.SkipSpaceUnique | backend/app.py:91 | the left scan stops at the first non-space character and nowhere else |
| Text.SkipSpaceBackUnique | backend/app.py:91 | the right scan stops after the last non-space character and nowhere else |
| Text.StripTrimmed | backend/app.py:141 | a string without whitespace at its ends is left as it is |
| Text.StripIdempotent | backend/app.py:141 | stripping twice equals stripping once |
| Text.StripPadded | backend/app.py:91-92 | whitespace added around a trimmed string is exactly what `strip()` removes |
| Text.IsBlank | backend/app.py:84 | `not s.strip()` holds exactly when every character is whitespace, and exactly when the stripped string is empty |
| Text.StripEmptyIffAllSpace | backend/app.py:136 | stripping leaves nothing if and only if the string is all whitespace |
| Requests.CheckCreate | backend/app.py:76-94 | a falsy body is refused with "no data"; an object with a missing, falsy or blank title is refused with "title required"; a body is accepted exactly when it is an object whose title is a string with a non-space character and whose description, if present, is a string; the record gets the stripped title, the stripped description or "", and `completed` or false; the result is well formed; every other refused body (not an object, a truthy non-string title, a description that is not a string) gets "invalid request data" |
| Requests.SetTitle | backend/app.py:135-141 | the title step succeeds exactly when the title is absent, or a string with a non-space character, and then stores the stripped title; a falsy or blank title is refused with "title cannot be empty"; a truthy non-string title, or an `in` or lookup that raises, gets "invalid request data" |
| Requests.SetDescription | backend/app.py:143-144 | the description step succeeds exactly when the description is absent, falsy or a string; a falsy one becomes "", a string is stripped; the only refusal is "invalid request data" |
| Requests.SetCompleted | backend/app.py:146-152 | the `completed` step succeeds exactly when it is absent or a boolean, and then stores it; a present non-boolean is refused with "completed must be a boolean", and a raising lookup with "invalid request data" |
| Requests.Patch | backend/app.py:127-152 | a falsy body is refused with "no data"; a committed update keeps the id and the creation time, keeps the record well formed, and changes nothing for a non-object body; a falsy or blank title is refused before the other fields are looked at |
| Requests.PatchAcceptsExactly | backend/app.py:129-152 | an update body is committed if and only if it satisfies UpdateAccepted: a non-empty object with valid fields, or a non-empty list or string in which `in` finds none of the three field names |
| Requests.PatchChangesNamedFields | backend/app.py:135-152 | an accepted object body changes exactly the fields it names: a stripped title, a stripped description or "" for a falsy one, the given `completed`; every other field keeps its value |
| Requests.PatchRejectsNonBooleanCompleted | backend/app.py:146-151 | a non-boolean `completed` is refused with "completed must be a boolean" once title and description have passed |
| Requests.PatchRefusalReason | backend/app.py:127-171 | every refused update carries the reason of the first failing check: no data; a falsy or blank title; "invalid request data" for a non-object body (a list or string in which `in` finds a field name, or a truthy scalar) and for a truthy non-string title or description; last, a non-boolean `completed` |
| Requests.PatchIdempotent | backend/app.py:135-152 | sending the same accepted update twice leaves the record as the first one left it |
| Store.NewestFirst | backend/app.py:39 | the listing holds one record per id, the last id first |
| Store.Without | backend/app.py:184 | removing an id keeps exactly the other ids |
| Store.DistinctCount | backend/app.py:43 | a list of distinct ids is as long as the set of ids, so the count equals the number of records |
| Store.ChronologicalIsDistinct | backend/app.py:39 | ids in strictly increasing creation order are distinct |
| Store.NewestFirstListsTable | backend/app.py:39-43 | under the table invariant the listing has one entry per record, holds every stored record and nothing else, and is in strictly decreasing creation time |
| Store.NewestFirstCovers | backend/app.py:42 | every record whose id is in the order list appears in the listing |
| Store.NewestFirstDescending | backend/app.py:39 | ids in creation order give a listing in decreasing creation time |
| Store.NewestFirstKeyed | backend/app.py:42 | each listed record is the one stored under its id |
| Store.NewestFirstAppend | backend/app.py:96-97 | a newly created record goes to the head of the listing, and the rest of the listing is unchanged |
| Store.WithoutKeepsOrder | backend/app.py:184-185 | deleting a record keeps the remaining ids in creation order |
| Store.InsertKeepsInvariant | backend/app.py:90-97 | inserting a well-formed record under a fresh id with the next creation time keeps the table invariant; the new record is newer than every stored one |
| Store.ReplaceKeepsInvariant | backend/app.py:141-154 | writing back an updated record with the same id and creation time keeps the table invariant |
| Store.TodoStore.constructor | backend/app.py:14-15 | the table starts empty and valid |
| Store.TodoStore.List | backend/app.py:35-44 | count equals the number of items, which equals the number of records; every stored record is listed and only those; newest first |
| Store.TodoStore.Get | backend/app.py:51-65 | 200 with the stored record exactly when the id is stored, otherwise 404; the record carries that id and is well formed |
| Store.TodoStore.Create | backend/app.py:72-114 | a refused body gives 400 with CheckCreate's reason and changes nothing; an accepted one gives 201 with a record under a fresh id, with the checked fields, newer than every stored record, added to the table and to the end of the creation order; the invariant is kept |
| Store.TodoStore.Update | backend/app.py:116-171 | an unknown id gives 404 before the body is looked at; otherwise a refused body gives 400 with Patch's reason and changes nothing, and an accepted one gives 200 and replaces exactly that record with Patch's result; order, clock and ids are unchanged; the invariant is kept |
| Store.TodoStore.Delete | backend/app.py:173-190 | an unknown id gives 404 and changes nothing; otherwise 200, exactly that record is removed and the creation order loses only that id; afterwards a read of the id gives 404; the invariant is kept |
| Scenarios.CreateOfTitle | test_app.py:132-144 | a title-only body with a non-space character is accepted, with the stripped title, an empty description and `completed` false |
| Scenarios.CreateOfTitleDescription | test_app.py:180-193 | a body with such a title and a string description, and no `completed`, is accepted with both stripped and `completed` false |
| Scenarios.CreateOfFullBody | test_app.py:112-130 | a body with such a title, a string description and a boolean `completed` is accepted with both strings stripped and that `completed` |
| Scenarios.UpdateOfCompleted | test_app.py:224-234 | setting `completed` to a boolean is committed with that value |
| Scenarios.UpdateOfNonBooleanCompleted | test_app.py:288-298 | setting `completed` to a non-boolean is refused with "completed must be a boolean" |
| Scenarios.CompleteAndDelete | test_app.py:411-431 | read, complete, delete and read again a stored record give 200, 200, 200, 404, and the update reports completed |
| Scenarios.FullCrudWorkflow | test_app.py:403-431 | create, read, complete, delete and read give 201, 200, 200, 200, 404 for any accepted body |
| Scenarios.ListedNewestFirst | test_app.py:70-85 | two records created in turn are listed with the second one's title first |
| Scenarios.CreateTrimsWhitespace | test_app.py:180-193 | whitespace around a title and a description is removed on create |
| Scenarios.DeleteTwice | test_app.py:340-351 | deleting the same record twice gives 200 then 404 |
| Scenarios.UpdateRefusesNonBooleanCompleted | test_app.py:288-298 | an update with a non-boolean `completed` gives 400 and the stored record is unchanged |
| Scenarios.CreateMany | test_app.py:433-449 | after `n` accepted creates the listing's count is `n` |

## Left out

- Flask routing, CORS, JSON encoding of replies, `jsonify`, the registered 404/500/400 error handlers (`backend/app.py:17-32`) and `app.run`: these are framework plumbing. A reply is modelled as a status code with a record or an error kind.
- Error message texts: each 400 carries an error kind (`Reason`) instead of its message.
- The SQLAlchemyError branches that answer 500 (`backend/app.py:45-49` and `66-70`, and `104-109`, `161-166` and `191-196`, which also roll the session back): database failures are not modelled.
- The health check endpoint (`backend/app.py:198-205`): it touches no state.
- `models.py` and `database.py` are not part of this model. `to_dict`, `__repr__` and the `updated_at` column are left out with them.
- Timestamps: `created_at` is a tick of a logical clock that every create advances. Two records therefore never share a creation time, and the listing order is total.
- Id allocation: SQLite's autoincrement is replaced by a counter. The contracts promise only that a new id is not currently stored; like SQLite's rowid, which may hand out a deleted largest id again, they do not promise that ids are never reused.
- An update refused after some fields were assigned on the ORM object is modelled as changing nothing. The handler never commits, and the request's session is discarded at teardown.
- The browser client that mirrors the table is not modelled.
- Store.TodoStore.Create requires a body that passes the title and description checks to carry a boolean `completed` or none. For such a body the handler (`backend/app.py:93`) passes any value to the ORM column, whose type lives in `models.py`, outside this model. Bodies refused before that point are modelled whatever their `completed`.
- Requests.CheckCreate: same restriction on `completed` for accepted bodies, for the same reason.
- Scenarios.FullCrudWorkflow takes any accepted body in place of the test's literal one.
- Scenarios.DeleteTwice and Scenarios.UpdateRefusesNonBooleanCompleted create their record through `create_todo` from any accepted body, where the tests take it from the `sample_todo` fixture (`test_app.py:20-31`), which inserts through the ORM directly.
- Scenarios.CreateMany sends the same accepted body `n` times, where the test (`test_app.py:436-441`) sends five different bodies with varying titles and `completed` values.
- Scenarios.ListedNewestFirst creates both records through `create_todo`, where the test inserts them through the ORM directly.
- Request bodies that `request.get_json()` cannot decode (malformed JSON, a non-JSON content type) have no `JVal`. Depending on the Flask version they either raise into the `except Exception` branches (`backend/app.py:110-114`, `167-171`; for update after its 404 check) or decode to `None`, which is refused as "no data". Either way the answer is 400.
- Numbers in a JSON body keep only whether they are zero, which is all the handlers observe of them.
