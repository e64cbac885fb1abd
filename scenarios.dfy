/**
  Client code over the handlers' contracts: the request sequences of the
  repository's test suite, with the outcomes the contracts force. Longer
  sequences start from a store already holding the documents the earlier
  requests created.
 */
module Scenarios {
  import opened Json
  import opened Seqs
  import opened Records
  import opened App

  const Notebook1: Notebook := Notebook(1, JStr("Notebook 1"))

  const Notebook2: Notebook := Notebook(2, JStr("Notebook 2"))

  const Note1Body: Body := map[
    "title" := JStr("Note 1"), "nbid" := JInt(1),
    "body" := JStr("So Many Things"), "tags" := JList([JStr("good"), JStr("better")])]

  function Note1(t: nat): Note
  {
    Note(1, "Note 1", 1, "So Many Things", [JStr("good"), JStr("better")], t, t)
  }

  function Note2(t: nat): Note
  {
    Note(2, "Note 2", 1, "Even More Things", [JStr("better"), JStr("best")], t, t)
  }

  /** A store holding the given collections. */
  method StoreWith(nbs: seq<Notebook>, ns: seq<Note>) returns (s: Store)
    requires Consistent(nbs, ns)
    ensures fresh(s) && s.Valid() && s.notebooks == nbs && s.notes == ns
  {
    s := new Store();
    s.notebooks := nbs;
    s.notes := ns;
  }

  /** Notebook 1 holding the first note, or both notes. */
  lemma SampleStoresConsistent(t: nat)
    ensures Consistent([Notebook1], [Note1(t)])
    ensures Consistent([Notebook1], [Note1(t), Note2(t)])
  {
    assert [Notebook1][0].nbid == 1;
  }

  /** Both notes are in notebook 1, and only the first carries "good". */
  lemma OnlyNote1IsGood(t: nat)
    ensures NotebookNotes([Note1(t)], 1) == [Note1(t)]
    ensures NotebookNotes([Note1(t), Note2(t)], 1) == [Note1(t), Note2(t)]
    ensures TaggedNotes([Note1(t), Note2(t)], 1, "good") == [Note1(t)]
  {
    var both := [Note1(t), Note2(t)];
    assert both[..1] == [Note1(t)] && [Note1(t)][..0] == [];
    assert Filter([Note1(t)], InNotebook(1)) == [Note1(t)];
    assert NotebookNotes(both, 1) == both;
    assert Filter([Note1(t)], HasTag("good")) == [Note1(t)];
    assert !HasTag("good")(Note2(t));
  }

  /** Dropping nid 1 from the two notes leaves the second. */
  lemma WithoutNote1(t: nat)
    ensures Filter([Note1(t), Note2(t)], OtherNid(1)) == [Note2(t)]
  {
    assert [Note1(t), Note2(t)][..1] == [Note1(t)];
    assert [Note1(t)][..0] == [];
  }

  /** Notebooks get ids 1, 2, ... and are listed in that order. */
  method NotebookIds()
  {
    var s := new Store();
    var r := s.PostNotebook(map["name" := JStr("Notebook 1")]);
    assert r == Ok(Notebook1);
    r := s.PostNotebook(map["name" := JStr("Notebook 2")]);
    assert Nbids(s.notebooks[..1]) == [1];
    assert r == Ok(Notebook2);
    assert s.notebooks == [Notebook1, Notebook2];
    var all := s.GetAllNotebooks();
    assert all == Ok([Notebook1, Notebook2]);
  }

  /** A body without a name, or with an empty one, is refused and creates nothing. */
  method NamelessNotebooks()
  {
    var s := new Store();
    var r := s.PostNotebook(map[]);
    assert r == MissingOrInvalidKey;
    r := s.PostNotebook(map["name" := JStr("")]);
    assert r == MissingOrInvalidKey;
    assert s.notebooks == [];
  }

  /** The first note of notebook 1 gets nid 1 and both timestamps of the request. */
  method FirstNote(t0: nat)
  {
    var s := new Store();
    var nb := s.PostNotebook(map["name" := JStr("Notebook 1")]);
    assert s.notebooks == [Notebook1];
    assert WellTypedNote(Note1Body);
    assert NotebookMatches(s.notebooks, JInt(1)) by {
      assert s.notebooks[0].nbid == 1;
    }
    var n := s.PostNote(Note1Body, t0);
    assert n == Ok(Note1(t0));
    assert s.notes == [Note1(t0)];
  }

  /** A notebook reads back with its note; an unknown notebook is no content. */
  method NotebookWithNote(t0: nat)
  {
    SampleStoresConsistent(t0);
    var s := StoreWith([Notebook1], [Note1(t0)]);
    var v := s.GetOneNotebook(1);
    OnlyNote1IsGood(t0);
    assert v.Ok? && v.value.notes == [Note1(t0)];
    var w := s.GetOneNotebook(2);
    assert w == NoContent;
  }

  /** Reading by tag keeps only the notes that carry it. */
  method NotesByTag(t0: nat)
  {
    SampleStoresConsistent(t0);
    var s := StoreWith([Notebook1], [Note1(t0), Note2(t0)]);
    var v := s.GetOneNotebookByTag(1, "good");
    OnlyNote1IsGood(t0);
    assert v.Ok? && v.value.notes == [Note1(t0)];
  }

  /** Renaming: a string name on an existing notebook; no content on a missing one; 400 without a name. */
  method RenameNotebook()
  {
    var s := new Store();
    var nb := s.PostNotebook(map["name" := JStr("Notebook 1")]);
    assert s.notebooks[0].nbid == 1;
    var r := s.EditNotebook(1, map["name" := JStr("Edited Notebook")]);
    assert r == Ok(Notebook(1, JStr("Edited Notebook")));
    assert s.notebooks == [Notebook(1, JStr("Edited Notebook"))];
    r := s.EditNotebook(3, map["name" := JStr("Edited Notebook")]);
    assert r == NoContent;
    r := s.EditNotebook(1, map[]);
    assert r == MissingOrInvalidKey;
    r := s.EditNotebook(3, map["name" := JInt(7)]);
    assert r == MissingOrInvalidKey;
  }

  /** Deleting a notebook removes it and its notes, and the response is an internal error. */
  method Cascade(t0: nat)
  {
    SampleStoresConsistent(t0);
    var s := StoreWith([Notebook1], [Note1(t0)]);
    assert s.notebooks[0].nbid == 1;
    var d := s.DeleteNotebook(1);
    assert d == InternalError;
    assert s.notebooks == [] by {
      assert !OtherNbid(1)(Notebook1);
      assert [Notebook1] == [] + [Notebook1];
    }
    assert s.notes == [] by {
      assert [Note1(t0)] == [] + [Note1(t0)];
    }
  }

  /** Dropping nbid 2 from the two notebooks leaves notebook 1, after which the next nbid is 2 again. */
  lemma WithoutNotebook2()
    ensures Filter([Notebook1, Notebook2], OtherNbid(2)) == [Notebook1]
    ensures NextId(Nbids([Notebook1])) == 2
  {
    assert [Notebook1, Notebook2][..1] == [Notebook1] && [Notebook1][..0] == [];
    assert Nbids([Notebook1]) == [1];
  }

  /**
    Create, create, delete the second, create: the freed nbid 2 is handed
    out again, because ids are one more than the current maximum.
   */
  method IdReuse()
  {
    var s := new Store();
    var r := s.PostNotebook(map["name" := JStr("Notebook 1")]);
    r := s.PostNotebook(map["name" := JStr("Notebook 2")]);
    assert Nbids(s.notebooks[..1]) == [1];
    assert s.notebooks == [Notebook1, Notebook2];
    assert s.notebooks[1].nbid == 2;
    var d := s.DeleteNotebook(2);
    WithoutNotebook2();
    assert s.notebooks == [Notebook1];
    var again := s.PostNotebook(map["name" := JStr("Notebook 3")]);
    assert again == Ok(Notebook(2, JStr("Notebook 3")));
  }

  /** A well-typed note for a notebook that does not exist is refused, also when nbid is a boolean. */
  method NoteForMissingNotebook()
  {
    var s := new Store();
    var nb := s.PostNotebook(map["name" := JStr("Notebook 1")]);
    assert s.notebooks == [Notebook1];
    var r := s.PostNote(map["title" := JStr("Note 2"), "nbid" := JInt(2)], 0);
    assert WellTypedNote(map["title" := JStr("Note 2"), "nbid" := JInt(2)]);
    assert r == MissingNotebook;
    r := s.PostNote(map["title" := JStr("Note 2"), "nbid" := JBool(true)], 0);
    assert WellTypedNote(map["title" := JStr("Note 2"), "nbid" := JBool(true)]);
    assert r == MissingNotebook;
    assert s.notes == [];
  }

  /** Each badly typed field of a new note is refused before the notebook is looked up. */
  method BadlyTypedNotes()
  {
    var s := new Store();
    var r := s.PostNote(map["nbid" := JInt(1), "body" := JStr("Even More Things")], 0);
    assert r == MissingOrInvalidKey;
    r := s.PostNote(map["title" := JStr("Note 2"), "nbid" := JInt(1), "body" := JInt(5)], 0);
    assert r == MissingOrInvalidKey;
    r := s.PostNote(map["title" := JStr("Note 2"), "nbid" := JInt(1), "tags" := JStr("banana")], 0);
    assert r == MissingOrInvalidKey;
    r := s.PostNote(map["title" := JStr("Note 2"), "nbid" := JStr("nbid"), "tags" := JList([])], 0);
    assert r == MissingOrInvalidKey;
    assert s.notes == [];
  }

  /** Refused edits change nothing: a wrong-typed field, a missing note, a missing title. */
  method RefusedEdits(t0: nat, t1: nat)
  {
    SampleStoresConsistent(t0);
    var s := StoreWith([Notebook1], [Note1(t0)]);
    assert s.notes[0].nid == 1;
    var bad := s.EditNote(1, map["title" := JStr("Note 2"), "body" := JStr("Even More Things"), "tags" := JInt(5)], t1);
    assert bad == MissingOrInvalidKey;
    var gone := s.EditNote(2, map["title" := JStr("Note 2")], t1);
    assert gone == NoContent;
    var noTitle := s.EditNote(2, map["body" := JStr("x")], t1);
    assert noTitle == InternalError;
    assert s.notes == [Note1(t0)];
  }

  /** An edit sets the string title, skips falsy wrong-typed fields and moves lastModified. */
  method EditSkipsFalsy(t0: nat, t1: nat)
    requires t0 < t1
  {
    SampleStoresConsistent(t0);
    var s := StoreWith([Notebook1], [Note1(t0)]);
    assert s.notes[0].nid == 1;
    var ignored := s.EditNote(1, map["title" := JStr("Note 2"), "body" := JInt(0), "tags" := JNull], t1);
    assert ignored.Ok?;
    assert s.notes[0] == Note(1, "Note 2", 1, "So Many Things", [JStr("good"), JStr("better")], t0, t1);
    assert s.notes[0].lastModified != Note1(t0).lastModified;
  }

  /** Deleting a note removes exactly that note and reports `{nid, title}`. */
  method DeleteOneNote(t0: nat)
  {
    SampleStoresConsistent(t0);
    var s := StoreWith([Notebook1], [Note1(t0), Note2(t0)]);
    assert s.notes[0].nid == 1;
    var d := s.DeleteNote(1);
    assert d == Ok(NoteSummary(1, "Note 1"));
    WithoutNote1(t0);
    assert s.notes == [Note2(t0)];
    var again := s.DeleteNote(3);
    assert again == NoContent;
  }
}
