/**
  The request handlers of the notes service, as methods of one object that
  holds the two collections. Path parameters arrive already parsed as
  integers; the JSON body arrives as a `Body`; the clock reading is `now`.
 */
module App {
  import opened Json
  import opened Seqs
  import opened Records

  /** The type checks `post_note` applies, with the defaults its `get` calls supply. */
  predicate WellTypedNote(body: Body)
  {
    && IsStr(Get(body, "title"))
    && IsStr(GetOr(body, "body", JStr("")))
    && IsList(GetOr(body, "tags", JList([])))
    && IsInt(Get(body, "nbid"))
  }

  /**
    The query `{'nbid': v}` finds a notebook. Only an integer can: the store
    compares a boolean with a number as unequal, although Python's
    `isinstance(True, int)` holds.
   */
  ghost predicate NotebookMatches(nbs: seq<Notebook>, v: Json)
  {
    v.JInt? && HasNotebook(nbs, v.n)
  }

  /** A field `edit_note` rejects: present with the wrong type and truthy. */
  predicate Rejects(v: Json, wellTyped: bool)
  {
    !wellTyped && Truthy(v)
  }

  /** Some field of an `edit_note` body is rejected. */
  predicate RejectsEdit(body: Body)
  {
    || Rejects(Get(body, "title"), IsStr(Get(body, "title")))
    || Rejects(Get(body, "body"), IsStr(Get(body, "body")))
    || Rejects(Get(body, "tags"), IsList(Get(body, "tags")))
  }

  /**
    `after` is `before` edited by `body` at time `now`: a well-typed field
    replaces the old value, an absent or ignored one keeps it; nid, nbid and
    created never change and lastModified becomes `now`.
   */
  ghost predicate EditedFrom(before: Note, after: Note, body: Body, now: nat)
  {
    var title, text, tags := Get(body, "title"), Get(body, "body"), Get(body, "tags");
    && after.nid == before.nid
    && after.nbid == before.nbid
    && after.created == before.created
    && after.lastModified == now
    && after.title == (if title.JStr? then title.s else before.title)
    && after.body == (if text.JStr? then text.s else before.body)
    && after.tags == (if tags.JList? then tags.items else before.tags)
  }

  /**
    The `$set` document `edit_note` builds: lastModified is `now`, each
    well-typed field is set, a falsy wrong-typed one is skipped, and a truthy
    wrong-typed one refuses the whole edit (`None`).
   */
  method EditPatch(body: Body, now: nat) returns (data: Option<Patch>)
    ensures data.None? <==> RejectsEdit(body)
    ensures data.Some? ==> forall before :: EditedFrom(before, ApplyPatch(before, data.value), body, now)
  {
    var title := Get(body, "title");
    var text := Get(body, "body");
    var tags := Get(body, "tags");
    var patch := Patch(now, None, None, None);
    if IsStr(title) {
      patch := patch.(title := Some(title.s));
    } else if Truthy(title) {
      return None;
    }
    if IsStr(text) {
      patch := patch.(body := Some(text.s));
    } else if Truthy(text) {
      return None;
    }
    if IsList(tags) {
      patch := patch.(tags := Some(tags.items));
    } else if Truthy(tags) {
      return None;
    }
    data := Some(patch);
  }

  /** The `notebooks` and `notes` collections of the `notes` database. */
  class Store {
    var notebooks: seq<Notebook>
    var notes: seq<Note>

    /** The store invariant, `Consistent`. */
    ghost predicate Valid()
      reads this
    {
      Consistent(notebooks, notes)
    }

    /** Two empty collections. */
    constructor ()
      ensures Valid() && notebooks == [] && notes == []
    {
      notebooks := [];
      notes := [];
    }

    /** GET /notebook: every notebook as `{nbid, name}`, in store order. */
    method GetAllNotebooks() returns (r: Response<seq<Notebook>>)
      ensures r == Ok(notebooks)
    {
      var output: seq<Notebook> := [];
      var entries := notebooks;
      var i := 0;
      while i < |entries|
        invariant 0 <= i <= |entries|
        invariant output == entries[..i]
      {
        var nb := entries[i];
        output := output + [Notebook(nb.nbid, nb.name)];
        i := i + 1;
      }
      assert entries[..i] == entries;
      r := Ok(output);
    }

    /** GET /notebook/{nbid}: the notebook with all of its notes. */
    method GetOneNotebook(nbid: int) returns (r: Response<NotebookView>)
      ensures r.Ok? || r.NoContent?
      ensures r.NoContent? <==> !HasNotebook(notebooks, nbid)
      ensures r.Ok? ==> r.value.nbid == nbid && Notebook(nbid, r.value.name) in notebooks
      ensures r.Ok? ==> r.value.notes == NotebookNotes(notes, nbid)
    {
      var found := FirstIndex(notebooks, HasNbid(nbid));
      if found.None? {
        return NoContent;
      }
      var nb := notebooks[found.value];
      var noteData := NotebookNotes(notes, nbid);
      var output: seq<Note> := [];
      var i := 0;
      while i < |noteData|
        invariant 0 <= i <= |noteData|
        invariant output == noteData[..i]
      {
        var n := noteData[i];
        output := output + [Note(n.nid, n.title, n.nbid, n.body, n.tags, n.created, n.lastModified)];
        i := i + 1;
      }
      assert noteData[..i] == noteData;
      r := Ok(NotebookView(nb.nbid, nb.name, output));
    }

    /** GET /notebook/{nbid}/{tag}: the notebook with only its notes that carry `tag`. */
    method GetOneNotebookByTag(nbid: int, tag: string) returns (r: Response<NotebookView>)
      ensures r.Ok? || r.NoContent?
      ensures r.NoContent? <==> !HasNotebook(notebooks, nbid)
      ensures r.Ok? ==> r.value.nbid == nbid && Notebook(nbid, r.value.name) in notebooks
      ensures r.Ok? ==> r.value.notes == TaggedNotes(notes, nbid, tag)
    {
      var found := FirstIndex(notebooks, HasNbid(nbid));
      if found.None? {
        return NoContent;
      }
      var nb := notebooks[found.value];
      var noteData := NotebookNotes(notes, nbid);
      var output: seq<Note> := [];
      var i := 0;
      while i < |noteData|
        invariant 0 <= i <= |noteData|
        invariant output == Filter(noteData[..i], HasTag(tag))
      {
        var n := noteData[i];
        assert noteData[..i + 1] == noteData[..i] + [n];
        if JStr(tag) in n.tags {
          output := output + [Note(n.nid, n.title, n.nbid, n.body, n.tags, n.created, n.lastModified)];
        }
        i := i + 1;
      }
      assert noteData[..i] == noteData;
      r := Ok(NotebookView(nb.nbid, nb.name, output));
    }

    /** POST /notebook: a truthy `name` creates notebook max+1 (or 1). */
    method PostNotebook(body: Body) returns (r: Response<Notebook>)
      requires Valid()
      modifies this
      ensures Valid()
      ensures notes == old(notes)
      ensures !Truthy(Get(body, "name")) ==> r == MissingOrInvalidKey && notebooks == old(notebooks)
      ensures Truthy(Get(body, "name")) ==>
        && r == Ok(Notebook(NextId(Nbids(old(notebooks))), Get(body, "name")))
        && notebooks == old(notebooks) + [r.value]
      ensures r.Ok? ==> !HasNotebook(old(notebooks), r.value.nbid)
    {
      var name := Get(body, "name");
      if !Truthy(name) {
        return MissingOrInvalidKey;
      }
      var nbid := NextId(Nbids(notebooks));
      NextIdFresh(notes, notebooks);
      PostNotebookKeepsConsistent(notebooks, notes, name);
      assert FirstIndex(notebooks, HasNbid(nbid)).None?;
      FirstIndexAfterAppend(notebooks, HasNbid(nbid), Notebook(nbid, name));
      notebooks := notebooks + [Notebook(nbid, name)];
      var again := FirstIndex(notebooks, HasNbid(nbid));
      var newNb := notebooks[again.value];
      r := Ok(Notebook(nbid, newNb.name));
    }

    /** PUT /notebook/{nbid}: a string `name` renames the notebook. */
    method EditNotebook(nbid: int, body: Body) returns (r: Response<Notebook>)
      requires Valid()
      modifies this
      ensures Valid()
      ensures notes == old(notes)
      ensures !IsStr(Get(body, "name")) ==> r == MissingOrInvalidKey && notebooks == old(notebooks)
      ensures IsStr(Get(body, "name")) && !HasNotebook(old(notebooks), nbid) ==>
        r == NoContent && notebooks == old(notebooks)
      ensures IsStr(Get(body, "name")) && HasNotebook(old(notebooks), nbid) ==>
        && r == Ok(Notebook(nbid, Get(body, "name")))
        && |notebooks| == |old(notebooks)|
        && forall j :: 0 <= j < |notebooks| ==>
             notebooks[j] == if old(notebooks)[j].nbid == nbid then r.value else old(notebooks)[j]
    {
      var newName := Get(body, "name");
      var found := FirstIndex(notebooks, HasNbid(nbid));
      if !IsStr(newName) {
        return MissingOrInvalidKey;
      }
      if found.None? {
        return NoContent;
      }
      var i := found.value;
      UpdateByKey(notebooks, NbidOf, i, Notebook(nbid, newName));
      RenameKeepsConsistent(notebooks, notes, i, newName);
      FirstIndexAfterUpdate(notebooks, HasNbid(nbid), i, Notebook(nbid, newName));
      notebooks := notebooks[i := Notebook(nbid, newName)];
      var again := FirstIndex(notebooks, HasNbid(nbid));
      var updated := notebooks[again.value];
      r := Ok(Notebook(updated.nbid, updated.name));
    }

    /** `delete_one({'nbid': nbid})` on the notebook at `i`, then `delete_many` of its notes. */
    method RemoveNotebook(nbid: int, i: nat)
      requires Valid()
      requires i < |notebooks| && notebooks[i].nbid == nbid
      modifies this
      ensures Valid()
      ensures notebooks == Filter(old(notebooks), OtherNbid(nbid))
      ensures notes == NotesOutside(old(notes), nbid)
    {
      UniqueKeyAt(notebooks, NbidOf, i);
      RemoveOnlyFailing(notebooks, OtherNbid(nbid), i);
      CascadeKeepsConsistent(notebooks, notes, nbid);
      notebooks := notebooks[..i] + notebooks[i + 1..];
      notes := NotesOutside(notes, nbid);
    }

    /**
      DELETE /notebook/{nbid}, as written: both deletions happen, then
      iterating the `DeleteResult` of `delete_many` raises, so the response
      is an internal error.
     */
    method DeleteNotebook(nbid: int) returns (r: Response<NotebookView>)
      requires Valid()
      modifies this
      ensures Valid()
      ensures !HasNotebook(old(notebooks), nbid) ==>
        r == NoContent && notebooks == old(notebooks) && notes == old(notes)
      ensures HasNotebook(old(notebooks), nbid) ==>
        && r == InternalError
        && notebooks == Filter(old(notebooks), OtherNbid(nbid))
        && notes == NotesOutside(old(notes), nbid)
        && !HasNotebook(notebooks, nbid)
        && forall j :: 0 <= j < |notes| ==> notes[j].nbid != nbid
    {
      var found := FirstIndex(notebooks, HasNbid(nbid));
      if found.None? {
        return NoContent;
      }
      FilterMembers(notebooks, OtherNbid(nbid));
      FilterMembers(notes, OutsideNotebook(nbid));
      RemoveNotebook(nbid, found.value);
      r := InternalError;
    }

    /**
      DELETE /notebook/{nbid}, as intended: the same deletions, reporting the
      deleted notebook with the notes that were deleted with it.
     */
    method DeleteNotebookReporting(nbid: int) returns (r: Response<NotebookView>)
      requires Valid()
      modifies this
      ensures Valid()
      ensures r.Ok? || r.NoContent?
      ensures r.NoContent? <==> !HasNotebook(old(notebooks), nbid)
      ensures r.NoContent? ==> notebooks == old(notebooks) && notes == old(notes)
      ensures r.Ok? ==>
        && r.value.nbid == nbid
        && Notebook(nbid, r.value.name) in old(notebooks)
        && r.value.notes == NotebookNotes(old(notes), nbid)
        && notebooks == Filter(old(notebooks), OtherNbid(nbid))
        && notes == NotesOutside(old(notes), nbid)
    {
      var found := FirstIndex(notebooks, HasNbid(nbid));
      if found.None? {
        return NoContent;
      }
      var nb := notebooks[found.value];
      var noteData := NotebookNotes(notes, nbid);
      var output: seq<Note> := [];
      var i := 0;
      while i < |noteData|
        invariant 0 <= i <= |noteData|
        invariant output == noteData[..i]
      {
        var n := noteData[i];
        output := output + [Note(n.nid, n.title, n.nbid, n.body, n.tags, n.created, n.lastModified)];
        i := i + 1;
      }
      assert noteData[..i] == noteData;
      RemoveNotebook(nbid, found.value);
      r := Ok(NotebookView(nb.nbid, nb.name, output));
    }

    /** GET /note: every note in full, in store order. */
    method GetAllNotes() returns (r: Response<seq<Note>>)
      ensures r == Ok(notes)
    {
      var output: seq<Note> := [];
      var entries := notes;
      var i := 0;
      while i < |entries|
        invariant 0 <= i <= |entries|
        invariant output == entries[..i]
      {
        var n := entries[i];
        output := output + [Note(n.nid, n.title, n.nbid, n.body, n.tags, n.created, n.lastModified)];
        i := i + 1;
      }
      assert entries[..i] == entries;
      r := Ok(output);
    }

    /** GET /note/{nid}: the note in full. */
    method GetOneNote(nid: int) returns (r: Response<Note>)
      ensures r.Ok? || r.NoContent?
      ensures r.NoContent? <==> !HasNote(notes, nid)
      ensures r.Ok? ==> r.value.nid == nid && r.value in notes
    {
      var found := FirstIndex(notes, HasNid(nid));
      if found.None? {
        return NoContent;
      }
      var n := notes[found.value];
      r := Ok(Note(n.nid, n.title, n.nbid, n.body, n.tags, n.created, n.lastModified));
    }

    /**
      POST /note: type checks first, then the notebook must exist, then the
      note gets nid max+1 (or 1) and both timestamps equal `now`.
     */
    method PostNote(body: Body, now: nat) returns (r: Response<Note>)
      requires Valid()
      modifies this
      ensures Valid()
      ensures notebooks == old(notebooks)
      ensures !WellTypedNote(body) ==> r == MissingOrInvalidKey && notes == old(notes)
      ensures WellTypedNote(body) && !NotebookMatches(old(notebooks), Get(body, "nbid")) ==>
        r == MissingNotebook && notes == old(notes)
      ensures WellTypedNote(body) && NotebookMatches(old(notebooks), Get(body, "nbid")) ==>
        && r == Ok(Note(
             NextId(Nids(old(notes))),
             Get(body, "title").s,
             Get(body, "nbid").n,
             GetOr(body, "body", JStr("")).s,
             GetOr(body, "tags", JList([])).items,
             now,
             now))
        && notes == old(notes) + [r.value]
      ensures r.Ok? ==> !HasNote(old(notes), r.value.nid)
    {
      var title := Get(body, "title");
      var text := GetOr(body, "body", JStr(""));
      var tags := GetOr(body, "tags", JList([]));
      var nbidValue := Get(body, "nbid");
      if !IsStr(title) || !IsStr(text) || !IsList(tags) || !IsInt(nbidValue) {
        return MissingOrInvalidKey;
      }
      // `{'nbid': True}` matches no integer nbid in the store.
      if !nbidValue.JInt? || FirstIndex(notebooks, HasNbid(nbidValue.n)).None? {
        return MissingNotebook;
      }
      var time := now;
      var nid := NextId(Nids(notes));
      var note := Note(nid, title.s, nbidValue.n, text.s, tags.items, time, time);
      NextIdFresh(notes, notebooks);
      PostNoteKeepsConsistent(notebooks, notes, note);
      assert FirstIndex(notes, HasNid(nid)).None?;
      FirstIndexAfterAppend(notes, HasNid(nid), note);
      notes := notes + [note];
      var again := FirstIndex(notes, HasNid(nid));
      var n := notes[again.value];
      r := Ok(Note(nid, n.title, n.nbid, n.body, n.tags, n.created, n.lastModified));
    }

    /**
      PUT /note/{nid}: reading `title` comes first and fails when the key is
      missing; a truthy field of the wrong type is rejected before anything
      is written; otherwise the well-typed fields and `lastModified` are set.
     */
    method EditNote(nid: int, body: Body, now: nat) returns (r: Response<Note>)
      requires Valid()
      modifies this
      ensures Valid()
      ensures notebooks == old(notebooks)
      ensures r.InternalError? <==> "title" !in body
      ensures r.NoContent? <==> "title" in body && !HasNote(old(notes), nid)
      ensures r.MissingOrInvalidKey? <==> "title" in body && HasNote(old(notes), nid) && RejectsEdit(body)
      ensures r.Ok? <==> "title" in body && HasNote(old(notes), nid) && !RejectsEdit(body)
      ensures !r.Ok? ==> notes == old(notes)
      ensures r.Ok? ==>
        && |notes| == |old(notes)|
        && forall j :: 0 <= j < |notes| ==>
             if old(notes)[j].nid == nid
             then notes[j] == r.value && EditedFrom(old(notes)[j], r.value, body, now)
             else notes[j] == old(notes)[j]
    {
      if "title" !in body {
        return InternalError;
      }
      var found := FirstIndex(notes, HasNid(nid));
      if found.None? {
        return NoContent;
      }
      var i := found.value;
      assert HasNote(notes, nid);
      var data := EditPatch(body, now);
      if data.None? {
        return MissingOrInvalidKey;
      }
      var edited := ApplyPatch(notes[i], data.value);
      assert EditedFrom(notes[i], edited, body, now);
      UpdateByKey(notes, NidOf, i, edited);
      EditNoteKeepsConsistent(notebooks, notes, i, edited);
      FirstIndexAfterUpdate(notes, HasNid(nid), i, edited);
      notes := notes[i := edited];
      var again := FirstIndex(notes, HasNid(nid));
      var n := notes[again.value];
      r := Ok(Note(n.nid, n.title, n.nbid, n.body, n.tags, n.created, n.lastModified));
    }

    /** DELETE /note/{nid}: removes the note and reports `{nid, title}`. */
    method DeleteNote(nid: int) returns (r: Response<NoteSummary>)
      requires Valid()
      modifies this
      ensures Valid()
      ensures notebooks == old(notebooks)
      ensures r.Ok? || r.NoContent?
      ensures r.NoContent? <==> !HasNote(old(notes), nid)
      ensures r.NoContent? ==> notes == old(notes)
      ensures r.Ok? ==>
        && r.value.nid == nid
        && (forall j :: 0 <= j < |old(notes)| && old(notes)[j].nid == nid ==> r.value.title == old(notes)[j].title)
        && notes == Filter(old(notes), OtherNid(nid))
        && |notes| == |old(notes)| - 1
    {
      var found := FirstIndex(notes, HasNid(nid));
      if found.None? {
        return NoContent;
      }
      var i := found.value;
      var note := notes[i];
      UniqueKeyAt(notes, NidOf, i);
      RemoveOnlyFailing(notes, OtherNid(nid), i);
      DeleteNoteKeepsConsistent(notebooks, notes, nid);
      notes := notes[..i] + notes[i + 1..];
      r := Ok(NoteSummary(note.nid, note.title));
    }
  }

  /**
    The invariant every handler keeps: ids are positive and unique in their
    collection, and every note belongs to an existing notebook.
   */
  ghost predicate Consistent(nbs: seq<Notebook>, ns: seq<Note>)
  {
    && UniqueBy(nbs, NbidOf)
    && UniqueBy(ns, NidOf)
    && (forall i :: 0 <= i < |nbs| ==> nbs[i].nbid >= 1)
    && (forall i :: 0 <= i < |ns| ==> ns[i].nid >= 1)
    && Owned(nbs, ns)
  }

  /** Creating a notebook with the next nbid keeps the store consistent. */
  lemma PostNotebookKeepsConsistent(nbs: seq<Notebook>, ns: seq<Note>, name: Json)
    requires Consistent(nbs, ns)
    ensures Consistent(nbs + [Notebook(NextId(Nbids(nbs)), name)], ns)
  {
    var nb := Notebook(NextId(Nbids(nbs)), name);
    var after := nbs + [nb];
    assert forall i :: 0 <= i < |nbs| ==> nbs[i].nbid == Nbids(nbs)[i] < nb.nbid;
    AppendKeepsUnique(nbs, nb, NbidOf);
    assert nbs != [] ==> nb.nbid > nbs[0].nbid;
    forall i | 0 <= i < |ns| ensures HasNotebook(after, ns[i].nbid) {
      var j :| 0 <= j < |nbs| && nbs[j].nbid == ns[i].nbid;
      assert after[j] == nbs[j];
    }
  }

  /** Renaming a notebook (same nbid) keeps the store consistent. */
  lemma RenameKeepsConsistent(nbs: seq<Notebook>, ns: seq<Note>, i: nat, name: Json)
    requires Consistent(nbs, ns) && i < |nbs|
    ensures Consistent(nbs[i := Notebook(nbs[i].nbid, name)], ns)
  {
    var after := nbs[i := Notebook(nbs[i].nbid, name)];
    assert forall j :: 0 <= j < |nbs| ==> after[j].nbid == nbs[j].nbid;
    assert UniqueBy(after, NbidOf) by {
      forall a, b | 0 <= a < b < |after| ensures NbidOf(after[a]) != NbidOf(after[b]) {
        assert NbidOf(nbs[a]) != NbidOf(nbs[b]);
      }
    }
    forall k | 0 <= k < |ns| ensures HasNotebook(after, ns[k].nbid) {
      var j :| 0 <= j < |nbs| && nbs[j].nbid == ns[k].nbid;
      assert after[j].nbid == nbs[j].nbid;
    }
  }

  /** Deleting notebook `k` with all of its notes keeps the store consistent. */
  lemma CascadeKeepsConsistent(nbs: seq<Notebook>, ns: seq<Note>, k: int)
    requires Consistent(nbs, ns)
    ensures Consistent(Filter(nbs, OtherNbid(k)), NotesOutside(ns, k))
  {
    var left, kept := Filter(nbs, OtherNbid(k)), NotesOutside(ns, k);
    FilterPreservesUnique(nbs, OtherNbid(k), NbidOf);
    FilterPreservesUnique(ns, OutsideNotebook(k), NidOf);
    FilterMembers(nbs, OtherNbid(k));
    FilterMembers(ns, OutsideNotebook(k));
    forall i | 0 <= i < |left| ensures left[i].nbid >= 1 {
      var m :| 0 <= m < |nbs| && nbs[m] == left[i];
    }
    forall i | 0 <= i < |kept| ensures kept[i].nid >= 1 {
      var m :| 0 <= m < |ns| && ns[m] == kept[i];
    }
    CascadeKeepsOwned(nbs, ns, k);
  }

  /** After a cascading delete every remaining note still has its notebook. */
  lemma CascadeKeepsOwned(nbs: seq<Notebook>, ns: seq<Note>, k: int)
    requires Owned(nbs, ns)
    ensures Owned(Filter(nbs, OtherNbid(k)), NotesOutside(ns, k))
  {
    var left, kept := Filter(nbs, OtherNbid(k)), NotesOutside(ns, k);
    FilterMembers(nbs, OtherNbid(k));
    FilterMembers(ns, OutsideNotebook(k));
    forall i | 0 <= i < |kept| ensures HasNotebook(left, kept[i].nbid) {
      var n := kept[i];
      assert n in ns && n.nbid != k;
      var m :| 0 <= m < |ns| && ns[m] == n;
      var j :| 0 <= j < |nbs| && nbs[j].nbid == n.nbid;
      assert OtherNbid(k)(nbs[j]);
      assert nbs[j] in left;
      var j' :| 0 <= j' < |left| && left[j'] == nbs[j];
    }
  }

  /** Creating a note with the next nid in an existing notebook keeps the store consistent. */
  lemma PostNoteKeepsConsistent(nbs: seq<Notebook>, ns: seq<Note>, n: Note)
    requires Consistent(nbs, ns)
    requires n.nid == NextId(Nids(ns)) && HasNotebook(nbs, n.nbid)
    ensures Consistent(nbs, ns + [n])
  {
    var after := ns + [n];
    assert forall i :: 0 <= i < |ns| ==> ns[i].nid == Nids(ns)[i] < n.nid;
    AppendKeepsUnique(ns, n, NidOf);
    assert ns != [] ==> n.nid > ns[0].nid;
    forall i | 0 <= i < |after| ensures HasNotebook(nbs, after[i].nbid) {
      if i < |ns| {
        assert after[i] == ns[i];
      }
    }
  }

  /** Changing a note but not its nid or nbid keeps the store consistent. */
  lemma EditNoteKeepsConsistent(nbs: seq<Notebook>, ns: seq<Note>, i: nat, n: Note)
    requires Consistent(nbs, ns) && i < |ns|
    requires n.nid == ns[i].nid && n.nbid == ns[i].nbid
    ensures Consistent(nbs, ns[i := n])
  {
    var after := ns[i := n];
    assert forall j :: 0 <= j < |ns| ==> after[j].nid == ns[j].nid && after[j].nbid == ns[j].nbid;
    assert UniqueBy(after, NidOf) by {
      forall a, b | 0 <= a < b < |after| ensures NidOf(after[a]) != NidOf(after[b]) {
        assert NidOf(ns[a]) != NidOf(ns[b]);
      }
    }
  }

  /** Deleting a note keeps the store consistent. */
  lemma DeleteNoteKeepsConsistent(nbs: seq<Notebook>, ns: seq<Note>, nid: int)
    requires Consistent(nbs, ns)
    ensures Consistent(nbs, Filter(ns, OtherNid(nid)))
  {
    var kept := Filter(ns, OtherNid(nid));
    FilterPreservesUnique(ns, OtherNid(nid), NidOf);
    FilterMembers(ns, OtherNid(nid));
    forall i | 0 <= i < |kept| ensures kept[i].nid >= 1 && HasNotebook(nbs, kept[i].nbid) {
      var m :| 0 <= m < |ns| && ns[m] == kept[i];
    }
  }
}
