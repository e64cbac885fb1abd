/**
  The two collections' documents, the handlers' outcomes, id allocation and
  the queries the handlers issue, stated over sequences.
 */
module Records {
  import opened Json
  import opened Seqs

  /** A document of the `notebooks` collection. `name` is whatever JSON value was accepted. */
  datatype Notebook = Notebook(nbid: int, name: Json)

  /** A document of the `notes` collection; timestamps are abstract clock readings. */
  datatype Note = Note(
    nid: int,
    title: string,
    nbid: int,
    body: string,
    tags: seq<Json>,
    created: nat,
    lastModified: nat)

  /** A notebook together with (some of) its notes, as the single-notebook reads return it. */
  datatype NotebookView = NotebookView(nbid: int, name: Json, notes: seq<Note>)

  /** The reduced projection `{nid, title}` returned when a note is deleted. */
  datatype NoteSummary = NoteSummary(nid: int, title: string)

  /**
    What a handler produces. `NoContent`, `MissingOrInvalidKey` and
    `MissingNotebook` are the three aborting helpers (204, 400, 400);
    `InternalError` is an uncaught Python exception (a 500 from Flask).
   */
  datatype Response<T> =
    | Ok(value: T)
    | NoContent
    | MissingOrInvalidKey
    | MissingNotebook
    | InternalError

  /** The `$set` document `edit_note` builds: a field is set when it is `Some`. */
  datatype Patch = Patch(lastModified: nat, title: Option<string>, body: Option<string>, tags: Option<seq<Json>>)

  /** `update_one(..., {'$set': p})` on one note: only the fields `p` names change. */
  function ApplyPatch(n: Note, p: Patch): (r: Note)
    ensures r.nid == n.nid && r.nbid == n.nbid && r.created == n.created
    ensures r.lastModified == p.lastModified
    ensures r.title == (if p.title.Some? then p.title.value else n.title)
    ensures r.body == (if p.body.Some? then p.body.value else n.body)
    ensures r.tags == (if p.tags.Some? then p.tags.value else n.tags)
  {
    var n1 := n.(lastModified := p.lastModified);
    var n2 := if p.title.Some? then n1.(title := p.title.value) else n1;
    var n3 := if p.body.Some? then n2.(body := p.body.value) else n2;
    if p.tags.Some? then n3.(tags := p.tags.value) else n3
  }

  function NbidOf(nb: Notebook): int { nb.nbid }

  function NidOf(n: Note): int { n.nid }

  function Nbids(nbs: seq<Notebook>): (ids: seq<int>)
    ensures |ids| == |nbs| && forall i :: 0 <= i < |nbs| ==> ids[i] == nbs[i].nbid
  {
    seq(|nbs|, i requires 0 <= i < |nbs| => nbs[i].nbid)
  }

  function Nids(ns: seq<Note>): (ids: seq<int>)
    ensures |ids| == |ns| && forall i :: 0 <= i < |ns| ==> ids[i] == ns[i].nid
  {
    seq(|ns|, i requires 0 <= i < |ns| => ns[i].nid)
  }

  /**
    The id a create assigns: one more than the largest id in the collection
    (the document `find_one(sort=[(id, -1)])` returns), or 1 when it is empty.
   */
  function NextId(ids: seq<int>): (r: int)
    ensures ids == [] ==> r == 1
    ensures ids != [] ==> r - 1 in ids
    ensures forall i :: 0 <= i < |ids| ==> ids[i] < r
  {
    if ids == [] then 1 else Max(ids) + 1
  }

  // The query filters the handlers use.

  function HasNbid(k: int): Notebook -> bool { (nb: Notebook) => nb.nbid == k }

  function OtherNbid(k: int): Notebook -> bool { (nb: Notebook) => nb.nbid != k }

  function InNotebook(k: int): Note -> bool { (n: Note) => n.nbid == k }

  function OutsideNotebook(k: int): Note -> bool { (n: Note) => n.nbid != k }

  function HasTag(tag: string): Note -> bool { (n: Note) => JStr(tag) in n.tags }

  function HasNid(nid: int): Note -> bool { (n: Note) => n.nid == nid }

  function OtherNid(nid: int): Note -> bool { (n: Note) => n.nid != nid }

  ghost predicate HasNotebook(nbs: seq<Notebook>, k: int)
  {
    exists j :: 0 <= j < |nbs| && nbs[j].nbid == k
  }

  ghost predicate HasNote(ns: seq<Note>, nid: int)
  {
    exists j :: 0 <= j < |ns| && ns[j].nid == nid
  }

  /** Every note belongs to a notebook that exists. */
  ghost predicate Owned(nbs: seq<Notebook>, ns: seq<Note>)
  {
    forall i :: 0 <= i < |ns| ==> HasNotebook(nbs, ns[i].nbid)
  }

  /** `notes.find({'nbid': k})`: the notes of notebook `k`, in store order. */
  function NotebookNotes(ns: seq<Note>, k: int): seq<Note>
  {
    Filter(ns, InNotebook(k))
  }

  /** The notes of notebook `k` that carry `tag`, in store order. */
  function TaggedNotes(ns: seq<Note>, k: int, tag: string): seq<Note>
  {
    Filter(NotebookNotes(ns, k), HasTag(tag))
  }

  /** The notes `delete_many({'nbid': k})` leaves behind. */
  function NotesOutside(ns: seq<Note>, k: int): seq<Note>
  {
    Filter(ns, OutsideNotebook(k))
  }

  /** A notebook's notes are exactly the stored notes with its nbid, kept in store order. */
  lemma NotebookNotesExactly(ns: seq<Note>, k: int)
    ensures forall n :: n in NotebookNotes(ns, k) <==> n in ns && n.nbid == k
    ensures SubseqOf(NotebookNotes(ns, k), ns)
  {
    FilterMembers(ns, InNotebook(k));
    FilterIsSubseq(ns, InNotebook(k));
  }

  /**
    The tag-filtered notes are exactly the notebook's notes that carry the
    tag, and they are a subsequence of the unfiltered notebook's notes.
   */
  lemma TaggedNotesExactly(ns: seq<Note>, k: int, tag: string)
    ensures forall n :: n in TaggedNotes(ns, k, tag) <==> n in ns && n.nbid == k && JStr(tag) in n.tags
    ensures SubseqOf(TaggedNotes(ns, k, tag), NotebookNotes(ns, k))
  {
    NotebookNotesExactly(ns, k);
    FilterMembers(NotebookNotes(ns, k), HasTag(tag));
    FilterIsSubseq(NotebookNotes(ns, k), HasTag(tag));
  }

  /**
    Cascading delete loses nothing and keeps order: the notes of notebook
    `k` and the notes left behind together are the old notes, and what is
    left behind is exactly the other notebooks' notes, in store order.
   */
  lemma CascadePartitionsNotes(ns: seq<Note>, k: int)
    ensures forall n :: n in NotesOutside(ns, k) <==> n in ns && n.nbid != k
    ensures SubseqOf(NotesOutside(ns, k), ns)
    ensures multiset(NotebookNotes(ns, k)) + multiset(NotesOutside(ns, k)) == multiset(ns)
  {
    FilterMembers(ns, OutsideNotebook(k));
    FilterIsSubseq(ns, OutsideNotebook(k));
    FilterSplit(ns, InNotebook(k), OutsideNotebook(k));
  }

  /** An id from `NextId` is fresh for the collection it was computed from. */
  lemma NextIdFresh(ns: seq<Note>, nbs: seq<Notebook>)
    ensures !HasNote(ns, NextId(Nids(ns)))
    ensures !HasNotebook(nbs, NextId(Nbids(nbs)))
  {
    var a, b := Nids(ns), Nbids(nbs);
    assert forall j :: 0 <= j < |ns| ==> ns[j].nid == a[j] < NextId(a);
    assert forall j :: 0 <= j < |nbs| ==> nbs[j].nbid == b[j] < NextId(b);
  }
}
