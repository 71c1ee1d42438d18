/** The record lifecycle of script.js: the global list `allItems`
    (script.js:3) and the operations that change it in place, namely
    `quickProgress` (script.js:37-50), the create and edit branches of
    `handleFormSubmit` (script.js:144-174), `deleteItem`
    (script.js:209-214) and the replacing step of `importData`
    (script.js:233-236). `QuickProgress`, `HandleFormSubmit` and
    `DeleteItem` are specified by the functions `Progressed`, `Submitted`
    and `Removed` of the old list, and the lemmas after each function
    state what it keeps and what it changes; `ImportData` states its new
    list directly. */
module Tracker {
  import opened Wrappers
  import opened Seqs
  import opened Text
  import opened Records

  // -------------------------------------------------------------- progress

  /** The list after `quickProgress(id, current, total)`, with `current`
      and `total` already coerced: a record whose snapshot says it is
      complete (`total > 0 && current >= total`) is left alone; otherwise
      the first record with that id has its progress set to one past the
      snapshot. Only the `currentProgress` field of a record can change. */
  function Progressed(items: seq<Record>, id: int, current: int, total: int): (r: seq<Record>)
    ensures |r| == |items|
    ensures forall j :: 0 <= j < |r| ==> r[j].(currentProgress := items[j].currentProgress) == items[j]
  {
    if total > 0 && current >= total then items
    else
      match FindIndex(items, id)
      case None => items
      case Some(k) => items[k := items[k].(currentProgress := current + 1)]
  }

  /** `k` is the first position of `items` holding `id`. */
  ghost predicate IsFirst(items: seq<Record>, id: int, k: int)
  {
    0 <= k < |items| && items[k].id == id && forall j :: 0 <= j < k ==> items[j].id != id
  }

  lemma FindIndexFirst(items: seq<Record>, id: int, k: int)
    requires IsFirst(items, id, k)
    ensures FindIndex(items, id) == Some(k)
  {
  }

  /** A complete snapshot, or an id no record has, leaves the list as it
      was. */
  lemma ProgressedUnchanged(items: seq<Record>, id: int, current: int, total: int)
    requires (total > 0 && current >= total) || !HasId(items, id)
    ensures Progressed(items, id, current, total) == items
  {
    if !(total > 0 && current >= total) {
      assert FindIndex(items, id).None?;
    }
  }

  /** Otherwise the first record with the id, and only that record, gets
      `currentProgress == current + 1`; every other field of it and
      every other record are unchanged. */
  lemma ProgressedChanges(items: seq<Record>, id: int, current: int, total: int, k: int)
    requires !(total > 0 && current >= total)
    requires IsFirst(items, id, k)
    ensures Progressed(items, id, current, total)[k] == items[k].(currentProgress := current + 1)
    ensures forall j :: 0 <= j < |items| && j != k ==> Progressed(items, id, current, total)[j] == items[j]
  {
    FindIndexFirst(items, id, k);
  }

  /** Progress never changes an id, so distinct ids stay distinct. */
  lemma ProgressedKeepsIds(items: seq<Record>, id: int, current: int, total: int)
    requires UniqueIds(items)
    ensures UniqueIds(Progressed(items, id, current, total))
  {
    var r := Progressed(items, id, current, total);
    forall i, j | 0 <= i < j < |r|
      ensures r[i].id != r[j].id
    {
      assert r[i].(currentProgress := items[i].currentProgress) == items[i];
      assert r[j].(currentProgress := items[j].currentProgress) == items[j];
    }
  }

  // ---------------------------------------------------------------- submit

  /** Whether the form adds a new record or edits an existing one; an
      edit carries the `parseInt` of the hidden edit-id field (`None` for
      `NaN`, which matches no record). */
  datatype FormMode = Create | Edit(editId: Option<int>)

  /** The list after `handleFormSubmit` (script.js:144-174): a blank
      title after trimming changes nothing; a create appends the entry
      with the given id and timestamp; an edit replaces the first record
      with the edit id by the entry, keeping that record's id and
      creation time, and changes nothing when no record has the id. Every
      record that was there keeps its position, its id and its creation
      time. */
  function Submitted(items: seq<Record>, f: Form, mode: FormMode, newId: int, now: string): (r: seq<Record>)
    ensures |items| <= |r| <= |items| + 1
    ensures forall j :: 0 <= j < |items| ==> r[j].id == items[j].id && r[j].createdAt == items[j].createdAt
  {
    if Trim(f.title) == [] then items
    else
      match mode
      case Create => items + [Entry(f, newId, now)]
      case Edit(editId) =>
        if editId.None? then items else Edited(items, f, editId.value)
  }

  /** The edit branch (script.js:160-165): the first record with `id`
      becomes the form's entry with that id and the record's creation
      time; no record with `id` means no change. */
  function Edited(items: seq<Record>, f: Form, id: int): (r: seq<Record>)
    ensures |r| == |items|
    ensures forall j :: 0 <= j < |items| ==> r[j].id == items[j].id && r[j].createdAt == items[j].createdAt
  {
    match FindIndex(items, id)
    case None => items
    case Some(k) => items[k := Entry(f, id, items[k].createdAt)]
  }

  /** A title that is empty after trimming leaves the list as it was, in
      both modes. */
  lemma BlankTitleUnchanged(items: seq<Record>, f: Form, mode: FormMode, newId: int, now: string)
    requires Trim(f.title) == []
    ensures Submitted(items, f, mode, newId, now) == items
  {
  }

  /** A create with a non-blank title appends exactly one record, at the
      end, with the given id and timestamp and the form's values;
      everything before it is unchanged and in the same order. */
  lemma CreateAppends(items: seq<Record>, f: Form, newId: int, now: string)
    requires Trim(f.title) != []
    ensures |Submitted(items, f, Create, newId, now)| == |items| + 1
    ensures Submitted(items, f, Create, newId, now)[..|items|] == items
    ensures Submitted(items, f, Create, newId, now)[|items|] == Entry(f, newId, now)
  {
  }

  /** An edit of the first record with the edit id replaces every field
      but `id` and `createdAt` with the submitted values; the length and
      all other records are unchanged. */
  lemma EditReplaces(items: seq<Record>, f: Form, id: int, k: int, newId: int, now: string)
    requires Trim(f.title) != []
    requires IsFirst(items, id, k)
    ensures |Submitted(items, f, Edit(Some(id)), newId, now)| == |items|
    ensures Submitted(items, f, Edit(Some(id)), newId, now)[k] == Entry(f, items[k].id, items[k].createdAt)
    ensures forall j :: 0 <= j < |items| && j != k ==> Submitted(items, f, Edit(Some(id)), newId, now)[j] == items[j]
  {
    FindIndexFirst(items, id, k);
  }

  /** An edit whose id is unparsable or held by no record changes
      nothing. */
  lemma EditUnknownUnchanged(items: seq<Record>, f: Form, editId: Option<int>, newId: int, now: string)
    requires editId.None? || !HasId(items, editId.value)
    ensures Submitted(items, f, Edit(editId), newId, now) == items
  {
    if Trim(f.title) != [] && editId.Some? {
      assert FindIndex(items, editId.value).None?;
    }
  }

  /** Ids stay distinct through an edit, and through a create whose new
      id no record has yet. */
  lemma SubmittedKeepsIds(items: seq<Record>, f: Form, mode: FormMode, newId: int, now: string)
    requires UniqueIds(items)
    requires mode.Create? ==> !HasId(items, newId)
    ensures UniqueIds(Submitted(items, f, mode, newId, now))
  {
    var r := Submitted(items, f, mode, newId, now);
    if |r| == |items| {
      forall i, j | 0 <= i < j < |r|
        ensures r[i].id != r[j].id
      {
        assert r[i].id == items[i].id && r[j].id == items[j].id;
      }
    } else {
      assert r == items + [Entry(f, newId, now)];
      forall i, j | 0 <= i < j < |r|
        ensures r[i].id != r[j].id
      {
        assert r[i] == items[i];
        if j < |items| {
          assert r[j] == items[j];
        }
      }
    }
  }

  // ---------------------------------------------------------------- delete

  function NotId(id: int): Record -> bool
  {
    (r: Record) => r.id != id
  }

  /** The list after a confirmed `deleteItem(id)`: `allItems.filter(i =>
      i.id !== id)`. No record with the id is left. */
  function Removed(items: seq<Record>, id: int): (r: seq<Record>)
    ensures |r| <= |items|
    ensures forall k :: 0 <= k < |r| ==> r[k].id != id && r[k] in items
  {
    Filter(items, NotId(id))
  }

  /** Deletion removes exactly the records with the id: what remains is
      the subsequence of the other records, in their relative order. */
  lemma RemovedSelects(items: seq<Record>, id: int) returns (idx: seq<int>)
    ensures IsIndexing(Removed(items, id), items, idx)
    ensures forall j :: 0 <= j < |items| ==> (j in idx <==> items[j].id != id)
  {
    idx := FilterSelects(items, NotId(id));
  }

  /** Deleting an id no record has leaves the list identical. */
  lemma RemovedAbsent(items: seq<Record>, id: int)
    requires !HasId(items, id)
    ensures Removed(items, id) == items
  {
    forall x | x in items
      ensures NotId(id)(x)
    {
      var j :| 0 <= j < |items| && items[j] == x;
      assert items[j].id != id;
    }
    FilterKeepsAll(items, NotId(id));
  }

  /** With distinct ids, deleting a present id removes exactly one
      record. */
  lemma {:induction false} RemovedOne(items: seq<Record>, id: int)
    requires UniqueIds(items) && HasId(items, id)
    ensures |Removed(items, id)| == |items| - 1
  {
    var rest := items[1..];
    assert UniqueIds(rest) by {
      forall i, j | 0 <= i < j < |rest|
        ensures rest[i].id != rest[j].id
      {
        assert rest[i] == items[i + 1] && rest[j] == items[j + 1];
      }
    }
    assert Removed(items, id) == (if items[0].id != id then [items[0]] else []) + Removed(rest, id);
    if items[0].id == id {
      assert !HasId(rest, id) by {
        forall j | 0 <= j < |rest|
          ensures rest[j].id != id
        {
          assert rest[j] == items[j + 1];
        }
      }
      RemovedAbsent(rest, id);
    } else {
      assert HasId(rest, id) by {
        var j :| 0 <= j < |items| && items[j].id == id;
        assert rest[j - 1].id == id;
      }
      RemovedOne(rest, id);
    }
  }

  /** Deletion keeps distinct ids distinct. */
  lemma RemovedKeepsIds(items: seq<Record>, id: int)
    requires UniqueIds(items)
    ensures UniqueIds(Removed(items, id))
  {
    var idx := RemovedSelects(items, id);
    var r := Removed(items, id);
    forall i, j | 0 <= i < j < |r|
      ensures r[i].id != r[j].id
    {
      assert idx[i] < idx[j];
      assert r[i] == items[idx[i]] && r[j] == items[idx[j]];
    }
  }

  // ----------------------------------------------------------------- state

  /** The page's state: the list every operation reads and writes. */
  class MediaList {
    var allItems: seq<Record>

    /** The list starts empty (script.js:3). */
    constructor ()
      ensures allItems == []
    {
      allItems := [];
    }

    /** `quickProgress(id, current, total)` (script.js:37-50): `current`
        and `total` are the results of `parseInt`, coerced by `|| 0`. */
    method QuickProgress(id: int, current: Option<int>, total: Option<int>)
      modifies this
      ensures allItems == Progressed(old(allItems), id, Coerce(current), Coerce(total))
    {
      var cur := Coerce(current);
      var tot := Coerce(total);
      if tot > 0 && cur >= tot {
        return;
      }
      var index := FindIndex(allItems, id);
      if index.Some? {
        var k := index.value;
        allItems := allItems[k := allItems[k].(currentProgress := cur + 1)];
      }
    }

    /** `handleFormSubmit()` (script.js:144-174) with the form's values,
        the mode the page is in, and the clock readings `generateId()`
        and `new Date().toLocaleString()` would give. */
    method HandleFormSubmit(f: Form, mode: FormMode, newId: int, now: string)
      modifies this
      ensures allItems == Submitted(old(allItems), f, mode, newId, now)
    {
      var title := Trim(f.title);
      if title == [] {
        return;
      }
      match mode {
        case Edit(editId) =>
          if editId.Some? {
            var index := FindIndex(allItems, editId.value);
            if index.Some? {
              var k := index.value;
              allItems := allItems[k := Entry(f, editId.value, allItems[k].createdAt)];
            }
          }
        case Create =>
          allItems := allItems + [Entry(f, newId, now)];
      }
    }

    /** `deleteItem(id)` (script.js:209-214), with the user's answer to
        the confirmation prompt. */
    method DeleteItem(id: int, confirmed: bool)
      modifies this
      ensures confirmed ==> allItems == Removed(old(allItems), id)
      ensures !confirmed ==> allItems == old(allItems)
    {
      if confirmed {
        allItems := Filter(allItems, NotId(id));
      }
    }

    /** The replacing step of `importData` (script.js:233-236): `parsed`
        is the backup file as parsed (`None` when there was no file or it
        did not parse); the list is replaced only when it parsed and the
        user confirmed. */
    method ImportData(parsed: Option<seq<Record>>, confirmed: bool)
      modifies this
      ensures parsed.Some? && confirmed ==> allItems == parsed.value
      ensures !(parsed.Some? && confirmed) ==> allItems == old(allItems)
    {
      if parsed.Some? && confirmed {
        allItems := parsed.value;
      }
    }
  }
}
