# NeverNote request handlers in Dafny

NeverNote is a small notes service. It keeps notebooks (`nbid`, `name`) and
notes (`nid`, `title`, `nbid`, `body`, `tags`, `created`, `lastModified`) in two
document collections. It exposes list, read, create, update and delete
handlers for both. This project models those handlers (`app.py`) over an
in-memory store and proves what each one does to the store and what it answers.

Layout:

- `json.dfy` (module `Json`): decoded JSON values, a request body as a map,
  Python truthiness (`Truthy`), the `isinstance` checks, and `dict.get`.
- `seqs.dfy` (module `Seqs`): the document-store queries over sequences.
  `find` with a filter is `Filter`. `find_one` is `FirstIndex`, the first match.
  `delete_one` removes that position. `delete_many` keeps the complement of a
  filter. The id-descending `find_one` is `Max`. The module also holds the
  generic lemmas about these operations.
- `records.dfy` (module `Records`): the documents, the response views, the
  outcome type `Response`, the `$set` patch, id allocation `NextId`, the query
  filters, and lemmas about the filtered views.
- `app.dfy` (module `App`): class `Store`, which holds the two collections as
  `seq` fields and has one method per handler. It also holds the store
  invariant `Consistent` and one lemma per kind of update that preserves it.
- `scenarios.dfy` (module `Scenarios`): client methods that replay the request
  sequences of `test_app.py` against the handlers' contracts. Each asserts
  the outcome the contracts force, including the id reuse and the failing
  cascade response.

Outcomes are tags, not HTTP responses:

- `Ok(value)` is a 200 response with its payload.
- `NoContent` stands for `no_content` (204).
- `MissingOrInvalidKey` stands for `missing_or_invalid_key` (400).
- `MissingNotebook` stands for `missing_notebook` (400).
- `InternalError` is an uncaught Python exception (500).

Path parameters arrive as integers. The JSON body is a `map<string, Json>`.
The clock reading is a parameter `now: nat`.

The store invariant `Store.Valid()`, that is `App.Consistent`, says three
things. Ids are positive. Ids are unique within their collection. Every note's
`nbid` names an existing notebook. The constructor (two empty collections)
establishes it and every handler preserves it. The handlers that change the
store require it. The read-only handlers do not: their contracts also hold
without it.

The model follows the code as written, including these behaviours:

- Ids are max+1 at creation time. Deleting the notebook or note with the
  largest id lets the next create hand that id out again. `NextIdFresh` proves
  freshness only against the current collection. `Scenarios.IdReuse`
  creates two notebooks, deletes the second and gets nbid 2 again.
- `post_notebook` rejects only a falsy `name`. A truthy non-string name such
  as `7` or `[1]` is stored, so `Notebook.name` is a `Json` value.
- `edit_notebook` checks the type of `name` before it checks that the
  notebook exists. A non-string name on a missing notebook gives 400, not 204.
- `post_note` accepts a boolean `nbid`, because Python's `bool` is an `int`.
  The store never matches a boolean against an integer nbid, so the outcome is
  `MissingNotebook`.
- `edit_note` reads `request.json['title']` before anything else. A body without
  `title` is an internal error, even when the note does not exist.
- `edit_note` silently ignores a field of the wrong type when its value is
  falsy (`0`, `null`, `false`, `[]`, `{}`, and `""` for `tags`). It rejects only a
  truthy field of the wrong type.
- `delete_notebook` does not answer with the deleted notes, although its comment at
  app.py:140 says it returns the deleted notebook. See Findings.

## Model

| member | source | states |
|---|---|---|
| Seqs.FilterMembers | app.py:47 | A filtered query keeps every document that satisfies the filter, and nothing that does not. |
| Seqs.FirstIndex | app.py:44 | `find_one` yields the first matching position, and no position matches when it yields none. |
| Seqs.Max | app.py:102 | The id-descending `find_one` yields an id that is present and at least as large as every other id. |
| Records.NextId | app.py:102-107 | A new id is 1 on an empty collection; otherwise it is one more than an id present, and larger than every id present. |
| Records.NextIdFresh | app.py:215-220 | The id a create assigns belongs to no document currently in its collection. |
| Seqs.FilterIsSubseq | app.py:78-79 | A filtered result keeps the store order: it is a subsequence of what was filtered. |
| Seqs.FilterSplit | app.py:142 | A filter and its complement together keep every document exactly once. |
| Seqs.RemoveOnlyFailing | app.py:296 | Removing the one document with a unique key leaves exactly the documents with other keys, in order. |
| Seqs.FirstIndexAfterAppend | app.py:110 | Re-reading a freshly inserted id finds the inserted document. |
| Seqs.FirstIndexAfterUpdate | app.py:125 | Re-reading an updated id finds the updated document in the same place. |
| Seqs.FilterPreservesUnique | app.py:142 | Deleting documents never creates duplicate ids. |
| Seqs.AppendKeepsUnique | app.py:109 | Inserting a document with a new id keeps ids unique. |
| Seqs.UniqueKeyAt | app.py:124 | With unique ids, the matched document is the only one with that id. |
| Seqs.UpdateByKey | app.py:273 | With unique ids, `update_one` on the matched position changes exactly the document with that id. |
| Records.ApplyPatch | app.py:255-273 | `$set` changes only the fields the patch names and sets lastModified; nid, nbid and created are untouched. |
| Records.NotebookNotesExactly | app.py:47-61 | A notebook's notes are exactly the stored notes with its nbid, in store order. |
| Records.TaggedNotesExactly | app.py:73-88 | The tag view holds exactly the notes with that nbid whose tags contain the tag, and it is a subsequence of the notebook's full note list. |
| Records.CascadePartitionsNotes | app.py:141-142 | Cascading delete leaves exactly the other notebooks' notes, in order; those and the deleted notes make up the old notes. |
| App.PostNotebookKeepsConsistent | app.py:102-109 | Creating a notebook with the next nbid keeps ids positive and unique, and keeps every note's notebook. |
| App.RenameKeepsConsistent | app.py:124 | Renaming a notebook keeps the store invariant. |
| App.CascadeKeepsConsistent | app.py:141-142 | Deleting a notebook with its notes keeps the store invariant. |
| App.CascadeKeepsOwned | app.py:141-142 | After the cascade every remaining note still belongs to an existing notebook. |
| App.PostNoteKeepsConsistent | app.py:211-230 | Inserting a note with the next nid into an existing notebook keeps the store invariant. |
| App.EditNoteKeepsConsistent | app.py:273 | Updating a note without touching nid or nbid keeps the store invariant. |
| App.DeleteNoteKeepsConsistent | app.py:296 | Deleting a note keeps the store invariant. |
| App.Store.GetAllNotebooks | app.py:29-38 | Lists every notebook as `{nbid, name}` in store order; an empty collection gives an empty list. |
| App.Store.GetOneNotebook | app.py:41-65 | NoContent exactly when no notebook has the nbid; otherwise that notebook with exactly its notes, in store order. |
| App.Store.GetOneNotebookByTag | app.py:67-92 | NoContent exactly when the notebook is absent, whatever the tag; otherwise that notebook with exactly its notes that carry the tag. |
| App.Store.PostNotebook | app.py:95-112 | A falsy or missing name is refused with no change. Otherwise exactly one notebook `{NextId, name}` is appended and returned; its nbid is fresh and the notes are untouched. |
| App.Store.EditNotebook | app.py:115-131 | A non-string name is refused whether or not the notebook exists. A string name on a missing nbid gives NoContent. Otherwise only that notebook's name changes, and the notes are untouched. |
| App.Store.RemoveNotebook | app.py:141-142 | Removes the notebook and every note with its nbid; everything else stays, in order. |
| App.Store.DeleteNotebook | app.py:134-156 | A missing nbid gives NoContent with no change. Otherwise the notebook and all its notes are gone, everything else stays in order, and the answer is an internal error. |
| App.Store.DeleteNotebookReporting | app.py:134-156 | The same deletions, answering with the deleted notebook and exactly the notes deleted with it. |
| App.Store.GetAllNotes | app.py:159-176 | Lists every note in full, in store order. |
| App.Store.GetOneNote | app.py:179-196 | NoContent exactly when no note has the nid; otherwise a stored note with that nid. |
| App.Store.PostNote | app.py:199-242 | Type checks on title, body (default `""`), tags (default `[]`) and nbid come first, and a failure changes nothing. Then a missing notebook gives MissingNotebook. Otherwise exactly one note is appended, with a fresh nid = NextId and created = lastModified = now. |
| App.EditPatch | app.py:252-270 | The `$set` document is refused exactly when some field is truthy and of the wrong type; otherwise applying it to any note gives that note as edited by the body. |
| App.Store.EditNote | app.py:245-286 | A missing `title` key is an internal error; a missing nid gives NoContent. A truthy wrong-typed field is refused and changes nothing. Otherwise only that note changes: well-typed fields replace old values, absent or falsy wrong-typed ones keep them, and lastModified becomes now. |
| App.Store.DeleteNote | app.py:289-300 | A missing nid gives NoContent with no change. Otherwise exactly that note is removed, the rest keep their order, and the answer is its `{nid, title}`. |

## Findings

| source | as written | input that shows it | evidently intended | confidence | as-written member | corrected member |
|---|---|---|---|---|---|---|
| app.py:142-154 | The handler loops over the `DeleteResult` that `delete_many` returns. That object cannot be iterated, so the handler raises after both deletions have happened. | `DELETE /notebook/1` when notebook 1 exists (`Scenarios.Cascade`) | Answer with the deleted notebook and the notes deleted with it. | high; not executed | App.Store.DeleteNotebook | App.Store.DeleteNotebookReporting |

## Left out

- Flask routing, `<int:...>` path parsing, `jsonify`, `abort` and `Response` construction: outcomes are `Response` tags and payloads are datatypes.
- Mongo connection and configuration, Mongo's `_id` field, and the driver itself. Queries, inserts, updates and deletes are sequence operations on the two fields of `Store`.
- `datetime.utcnow()`, Mongo's millisecond truncation of timestamps, and RFC 1123 date formatting: the clock is the parameter `now`.
- Request bodies that are not JSON objects, and a missing JSON content type (where `request.json` is `None`): the body is always a map.
- JSON floating-point numbers, and Mongo's 64-bit integer limit: numbers are unbounded integers.
- Failure of a single store call. Every store operation succeeds in the model, so the `delete_one` and `delete_many` of the cascade (app.py:141-142) happen together in `App.Store.RemoveNotebook`. In the program, a failure between them leaves notes whose notebook is gone, which breaks the ownership part of the store invariant.
- The race between two concurrent creates that read the same maximum id: the model is sequential.
- `app.run` and the test harness itself. The test suite's request sequences appear as the `Scenarios` methods.
- App.Store.GetOneNotebook: says the name comes from a notebook with the requested nbid, not that it is the first such document. Under the store invariant nbids are unique, so the two agree.
- App.Store.GetOneNotebookByTag: the same as GetOneNotebook for the name.
- App.Store.GetOneNote: says the note returned is a stored note with the nid, not that it is the first such document. Under the store invariant nids are unique.
