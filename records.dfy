/** A tracked media entry and the values the entry form supplies
    (script.js:144-174). */
module Records {
  import opened Wrappers
  import opened Text

  /** One element of `allItems`. `rating` is `None` where `parseInt` gave
      `NaN` (the form stores `parseInt(rating)` without a fallback);
      `currentProgress` and `totalCount` are stored after `|| 0`. */
  datatype Record = Record(
    id: int,
    title: string,
    category: string,
    status: string,
    rating: Option<int>,
    link: string,
    review: string,
    currentProgress: int,
    totalCount: int,
    createdAt: string)

  /** The raw values of the entry form: text fields as typed, numeric
      fields as the result of `parseInt` (`None` for `NaN`). */
  datatype Form = Form(
    title: string,
    category: string,
    status: string,
    rating: Option<int>,
    link: string,
    review: string,
    currentProgress: Option<int>,
    totalCount: Option<int>)

  /** `parseInt(x) || 0`: an unparsable value (and zero) becomes 0. */
  function Coerce(n: Option<int>): (r: int)
    ensures n.None? ==> r == 0
    ensures n.Some? ==> r == n.value
  {
    match n
    case None => 0
    case Some(v) => v
  }

  /** The rating a sort ranks by: a missing rating counts as 0. */
  function RatingKey(r: Record): int
  {
    Coerce(r.rating)
  }

  /** The record the form describes, with the given `id` and `createdAt`
      (script.js:148-157 with lines 164 and 168-169): title, link and
      review trimmed, progress and total coerced to integers, rating as
      parsed. */
  function Entry(f: Form, id: int, createdAt: string): (r: Record)
    ensures r.id == id && r.createdAt == createdAt
    ensures r.title == Trim(f.title) && r.link == Trim(f.link) && r.review == Trim(f.review)
    ensures r.category == f.category && r.status == f.status && r.rating == f.rating
    ensures r.currentProgress == Coerce(f.currentProgress) && r.totalCount == Coerce(f.totalCount)
  {
    Record(id, Trim(f.title), f.category, f.status, f.rating, Trim(f.link), Trim(f.review),
           Coerce(f.currentProgress), Coerce(f.totalCount), createdAt)
  }

  /** The text fields of a stored entry are already trimmed: trimming
      them again changes nothing. */
  lemma EntryTrimmed(f: Form, id: int, createdAt: string)
    ensures Trim(Entry(f, id, createdAt).title) == Entry(f, id, createdAt).title
    ensures Trim(Entry(f, id, createdAt).link) == Entry(f, id, createdAt).link
    ensures Trim(Entry(f, id, createdAt).review) == Entry(f, id, createdAt).review
    ensures Trim(f.title) != [] ==> Entry(f, id, createdAt).title != []
  {
    TrimIdempotent(f.title);
    TrimIdempotent(f.link);
    TrimIdempotent(f.review);
  }

  /** `items.findIndex(i => i.id === id)`: the first position holding
      that id, or `None` when no record has it. */
  function FindIndex(items: seq<Record>, id: int): (r: Option<int>)
    ensures r.Some? ==> 0 <= r.value < |items| && items[r.value].id == id
    ensures r.Some? ==> forall j :: 0 <= j < r.value ==> items[j].id != id
    ensures r.None? ==> forall j :: 0 <= j < |items| ==> items[j].id != id
  {
    if items == [] then None
    else if items[0].id == id then Some(0)
    else
      match FindIndex(items[1..], id)
      case None => None
      case Some(k) => Some(k + 1)
  }

  /** No two records share an id. The source does not enforce this
      (ids are clock readings and a backup is imported unchecked), so it
      appears only as a hypothesis. */
  ghost predicate UniqueIds(items: seq<Record>)
  {
    forall i, j :: 0 <= i < j < |items| ==> items[i].id != items[j].id
  }

  ghost predicate HasId(items: seq<Record>, id: int)
  {
    exists j :: 0 <= j < |items| && items[j].id == id
  }
}
