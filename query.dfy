/** The list view of `renderItems` (script.js:80-142) without its HTML:
    filter by status and search term, sort by the chosen mode, group by
    category in a fixed order. Also the dashboard counts of
    `updateDashboard` (script.js:52-60). */
module Query {
  import opened Seqs
  import opened Text
  import opened Sorting
  import opened Records

  /** The categories that get a section, in presentation order
      (script.js:108). */
  const CategoryOrder: seq<string> := ["Game", "Anime", "Manga", "Movie"]

  // ---------------------------------------------------------------- filter

  /** The status filter (script.js:85-88): "All" passes every record,
      "Progress" the records that track progress, any other value the
      records with exactly that status. */
  predicate StatusPasses(r: Record, filter: string)
  {
    if filter == "All" then true
    else if filter == "Progress" then r.totalCount > 0
    else r.status == filter
  }

  /** The search box's value, lower-cased and then trimmed (script.js:90). */
  function SearchTerm(raw: string): string
  {
    Trim(Lower(raw))
  }

  /** The search (script.js:91-92): the term occurs in the lower-cased
      title or in the title's acronym. */
  predicate SearchPasses(r: Record, term: string)
  {
    Includes(Lower(r.title), term) || Includes(Acronym(r.title), term)
  }

  predicate Passes(r: Record, filter: string, term: string)
  {
    StatusPasses(r, filter) && SearchPasses(r, term)
  }

  function Matches(filter: string, term: string): Record -> bool
  {
    r => Passes(r, filter, term)
  }

  /** `items.filter(...)` of script.js:84-95. */
  function Filtered(items: seq<Record>, filter: string, rawTerm: string): seq<Record>
  {
    Filter(items, Matches(filter, SearchTerm(rawTerm)))
  }

  /** The filtered list is the subsequence of `items` at exactly the
      positions whose record passes both the status filter and the
      search, in their original order. */
  lemma FilteredSelects(items: seq<Record>, filter: string, rawTerm: string) returns (idx: seq<int>)
    ensures IsIndexing(Filtered(items, filter, rawTerm), items, idx)
    ensures forall j :: 0 <= j < |items| ==>
              (j in idx <==> StatusPasses(items[j], filter) && SearchPasses(items[j], SearchTerm(rawTerm)))
  {
    idx := FilterSelects(items, Matches(filter, SearchTerm(rawTerm)));
  }

  /** An empty search term matches every record. */
  lemma EmptyTermMatches(r: Record)
    ensures SearchPasses(r, "")
  {
    EmptyIncluded(Lower(r.title));
  }

  /** With "All" and a blank search box the list is shown whole. */
  lemma AllWithBlankSearchKeepsEverything(items: seq<Record>, rawTerm: string)
    requires SearchTerm(rawTerm) == ""
    ensures Filtered(items, "All", rawTerm) == items
  {
    forall r | r in items
      ensures Matches("All", "")(r)
    {
      EmptyTermMatches(r);
    }
    FilterKeepsAll(items, Matches("All", ""));
  }

  /** Whether a record tracks progress: it has a positive total. */
  const IsTracked: Record -> bool := (r: Record) => r.totalCount > 0

  function HasStatus(status: string): Record -> bool
  {
    (r: Record) => r.status == status
  }

  /** With a blank search box, "Progress" keeps exactly the records with
      a positive total, whatever their status, and any other filter
      except "All" keeps exactly the records with that status. */
  lemma StatusFilterWithBlankSearch(items: seq<Record>, filter: string, rawTerm: string)
    requires SearchTerm(rawTerm) == ""
    ensures filter == "Progress" ==> Filtered(items, filter, rawTerm) == Filter(items, IsTracked)
    ensures filter != "All" && filter != "Progress" ==>
              Filtered(items, filter, rawTerm) == Filter(items, HasStatus(filter))
  {
    forall r | r in items
      ensures SearchPasses(r, "")
    {
      EmptyTermMatches(r);
    }
    if filter == "Progress" {
      FilterCongruent(items, Matches(filter, ""), IsTracked);
    } else if filter != "All" {
      FilterCongruent(items, Matches(filter, ""), HasStatus(filter));
    }
  }

  /** A record titled "Attack on Titan" is found by typing "AOT", through
      its acronym. */
  lemma AcronymSearchExample(r: Record)
    requires r.title == "Attack on Titan"
    ensures SearchTerm("AOT") == "aot"
    ensures SearchPasses(r, SearchTerm("AOT"))
    ensures Includes(Acronym(r.title), "aot")
    ensures !Includes(Lower(r.title), "aot")
  {
    var lowered := Lower("AOT");
    assert lowered[0] == 'a' && lowered[1] == 'o' && lowered[2] == 't';
    assert lowered == "aot";
    assert !IsWhitespace('a') && !IsWhitespace('t');
    assert TrimStart("aot") == "aot";
    assert TrimEnd("aot") == "aot";
    AttackOnTitanAcronym();
    assert OccursAt("aot", "aot", 0);
    TitleLacksAot();
  }

  /** "aot" is not a substring of the lower-cased "Attack on Titan": the
      only `a`s stand at positions 0 and 3, and each is followed by `t`. */
  lemma TitleLacksAot()
    ensures !Includes(Lower("Attack on Titan"), "aot")
  {
    var l := Lower("Attack on Titan");
    assert l == "attack on titan";
    forall i | 0 <= i <= |l| - 3
      ensures !OccursAt(l, "aot", i)
    {
      assert l[i..i + 3][0] == l[i] && l[i..i + 3][1] == l[i + 1];
      assert l[i] != 'a' || l[i + 1] != 'o';
    }
  }

  // ------------------------------------------------------------------ sort

  /** The comparator of script.js:98-103 as a key to sort ascending by:
      "best" by rating, highest first, a missing rating counting as 0;
      "az" by the title's place in the locale's collation, given as
      `collation`; "oldest" by id ascending; any other mode by id
      descending. */
  function SortKey(mode: string, collation: string -> int, r: Record): int
  {
    if mode == "best" then -RatingKey(r)
    else if mode == "az" then collation(r.title)
    else if mode == "oldest" then r.id
    else -r.id
  }

  function Ordering(mode: string, collation: string -> int): Record -> int
  {
    r => SortKey(mode, collation, r)
  }

  /** `filtered.sort(...)`: the stable sort by the mode's key. */
  function Sorted(filtered: seq<Record>, mode: string, collation: string -> int): seq<Record>
  {
    SortByKey(filtered, Ordering(mode, collation))
  }

  /** The sorted list is a rearrangement of the filtered one, ordered as
      the mode asks. */
  lemma SortedOrder(filtered: seq<Record>, mode: string, collation: string -> int)
    ensures multiset(Sorted(filtered, mode, collation)) == multiset(filtered)
    ensures mode == "best" ==> forall i, j :: 0 <= i < j < |filtered| ==>
              RatingKey(Sorted(filtered, mode, collation)[i]) >= RatingKey(Sorted(filtered, mode, collation)[j])
    ensures mode == "az" ==> forall i, j :: 0 <= i < j < |filtered| ==>
              collation(Sorted(filtered, mode, collation)[i].title) <= collation(Sorted(filtered, mode, collation)[j].title)
    ensures mode == "oldest" ==> forall i, j :: 0 <= i < j < |filtered| ==>
              Sorted(filtered, mode, collation)[i].id <= Sorted(filtered, mode, collation)[j].id
    ensures mode != "best" && mode != "az" && mode != "oldest" ==> forall i, j :: 0 <= i < j < |filtered| ==>
              Sorted(filtered, mode, collation)[i].id >= Sorted(filtered, mode, collation)[j].id
  {
    var key := Ordering(mode, collation);
    SortByKeyPermutes(filtered, key);
    SortByKeySorted(filtered, key);
    var s := Sorted(filtered, mode, collation);
    assert forall i, j :: 0 <= i < j < |s| ==> SortKey(mode, collation, s[i]) <= SortKey(mode, collation, s[j]) by {
      forall i, j | 0 <= i < j < |s|
        ensures SortKey(mode, collation, s[i]) <= SortKey(mode, collation, s[j])
      {
        assert key(s[i]) <= key(s[j]);
      }
    }
  }

  // ----------------------------------------------------------------- group

  function HasCategory(category: string): Record -> bool
  {
    (r: Record) => r.category == category
  }

  /** The records of one category, in their order in `s`. */
  function InCategory(s: seq<Record>, category: string): seq<Record>
  {
    Filter(s, HasCategory(category))
  }

  lemma InCategorySnoc(s: seq<Record>, r: Record, category: string)
    ensures InCategory(s + [r], category)
            == InCategory(s, category) + (if r.category == category then [r] else [])
  {
    FilterConcat(s, [r], HasCategory(category));
  }

  /** The `groups` object of script.js:105-106: a category is a key
      exactly when some record has it, and its list holds that category's
      records in sorted order. */
  method GroupByCategory(sorted: seq<Record>) returns (groups: map<string, seq<Record>>)
    ensures forall c :: c in groups <==> InCategory(sorted, c) != []
    ensures forall c :: c in groups ==> groups[c] == InCategory(sorted, c)
  {
    groups := map[];
    for i := 0 to |sorted|
      invariant forall c :: c in groups <==> InCategory(sorted[..i], c) != []
      invariant forall c :: c in groups ==> groups[c] == InCategory(sorted[..i], c)
    {
      var r := sorted[i];
      assert sorted[..i + 1] == sorted[..i] + [r];
      forall c
        ensures InCategory(sorted[..i + 1], c)
                == InCategory(sorted[..i], c) + (if r.category == c then [r] else [])
      {
        InCategorySnoc(sorted[..i], r, c);
      }
      if r.category in groups {
        groups := groups[r.category := groups[r.category] + [r]];
      } else {
        groups := groups[r.category := [r]];
      }
    }
    assert sorted[..|sorted|] == sorted;
  }

  /** One category's block in the list: its header and its records. */
  datatype Section = Section(category: string, items: seq<Record>)

  /** The blocks `renderItems` appends, for the categories of `order`
      taken in turn (script.js:108-141). */
  function SectionsOf(order: seq<string>, sorted: seq<Record>): seq<Section>
  {
    if order == [] then []
    else
      var c := order[|order| - 1];
      SectionsOf(order[..|order| - 1], sorted)
      + (if InCategory(sorted, c) != [] then [Section(c, InCategory(sorted, c))] else [])
  }

  /** What the list shows for `items` under the given filter, search box
      value, sort mode and collation. */
  function View(items: seq<Record>, filter: string, rawTerm: string, mode: string,
                collation: string -> int): seq<Section>
  {
    SectionsOf(CategoryOrder, Sorted(Filtered(items, filter, rawTerm), mode, collation))
  }

  /** `filtered.sort(...)` (script.js:98-103): the filtered records,
      copied into an array and sorted there in place. */
  method SortFiltered(filtered: seq<Record>, mode: string, collation: string -> int)
    returns (sorted: seq<Record>)
    ensures sorted == Sorted(filtered, mode, collation)
  {
    var a := new Record[|filtered|](i requires 0 <= i < |filtered| => filtered[i]);
    assert a[..] == filtered;
    SortInPlace(a, Ordering(mode, collation));
    sorted := a[..];
  }

  /** The part of `renderItems` that decides what is listed and how:
      filter, sort `filtered` in place, group, then walk the fixed
      category order. */
  method RenderItems(items: seq<Record>, filter: string, rawTerm: string, mode: string,
                     collation: string -> int) returns (view: seq<Section>)
    ensures view == View(items, filter, rawTerm, mode, collation)
  {
    var filtered := Filtered(items, filter, rawTerm);
    var sorted := SortFiltered(filtered, mode, collation);
    var groups := GroupByCategory(sorted);
    view := EmitSections(groups, sorted);
  }

  /** The `forEach` over the fixed category order (script.js:108-109):
      a section for each category that is a key of `groups`. */
  method EmitSections(groups: map<string, seq<Record>>, sorted: seq<Record>) returns (view: seq<Section>)
    requires forall c :: c in groups <==> InCategory(sorted, c) != []
    requires forall c :: c in groups ==> groups[c] == InCategory(sorted, c)
    ensures view == SectionsOf(CategoryOrder, sorted)
  {
    view := [];
    for k := 0 to |CategoryOrder|
      invariant view == SectionsOf(CategoryOrder[..k], sorted)
    {
      var c := CategoryOrder[k];
      assert CategoryOrder[..k + 1] == CategoryOrder[..k] + [c];
      SectionsOfSnoc(CategoryOrder[..k], c, sorted);
      if c in groups {
        view := view + [Section(c, groups[c])];
      }
    }
    assert CategoryOrder[..|CategoryOrder|] == CategoryOrder;
  }

  /** The categories of the sections, in order. */
  function Categories(view: seq<Section>): seq<string>
  {
    seq(|view|, k requires 0 <= k < |view| => view[k].category)
  }

  function IsPresent(sorted: seq<Record>): string -> bool
  {
    c => InCategory(sorted, c) != []
  }

  /** Every section holds exactly its category's records, in sorted
      order, and is never empty. */
  ghost predicate SectionsHold(view: seq<Section>, sorted: seq<Record>)
  {
    forall k :: 0 <= k < |view| ==> view[k].items == InCategory(sorted, view[k].category) && view[k].items != []
  }

  /** The sections are those of the categories in `order` that have at
      least one record, in the order of `order`. */
  lemma {:induction false} SectionsCategories(order: seq<string>, sorted: seq<Record>)
    ensures Categories(SectionsOf(order, sorted)) == Filter(order, IsPresent(sorted))
  {
    if order != [] {
      var init, c := order[..|order| - 1], order[|order| - 1];
      SectionsCategories(init, sorted);
      assert order == init + [c];
      FilterConcat(init, [c], IsPresent(sorted));
      var v := SectionsOf(order, sorted);
      var v' := SectionsOf(init, sorted);
      SectionsOfSnoc(init, c, sorted);
      if InCategory(sorted, c) != [] {
        assert v == v' + [Section(c, InCategory(sorted, c))];
        assert Filter([c], IsPresent(sorted)) == [c];
        CategoriesSnoc(v', Section(c, InCategory(sorted, c)));
      } else {
        assert Filter([c], IsPresent(sorted)) == [];
        assert v == v';
      }
    }
  }

  lemma CategoriesSnoc(v: seq<Section>, sec: Section)
    ensures Categories(v + [sec]) == Categories(v) + [sec.category]
  {
    assert forall k :: 0 <= k < |v| ==> (v + [sec])[k] == v[k];
  }

  lemma {:induction false} SectionsContents(order: seq<string>, sorted: seq<Record>)
    ensures SectionsHold(SectionsOf(order, sorted), sorted)
  {
    if order != [] {
      SectionsContents(order[..|order| - 1], sorted);
    }
  }

  /** `r` appears in one of the sections. */
  ghost predicate Listed(view: seq<Section>, r: Record)
  {
    exists k :: 0 <= k < |view| && r in view[k].items
  }

  lemma ListedConcat(v: seq<Section>, w: seq<Section>, r: Record)
    ensures Listed(v + w, r) <==> Listed(v, r) || Listed(w, r)
  {
    if Listed(v + w, r) {
      var k :| 0 <= k < |v + w| && r in (v + w)[k].items;
      if k >= |v| {
        assert r in w[k - |v|].items;
      } else {
        assert r in v[k].items;
      }
    }
    if Listed(v, r) {
      var k :| 0 <= k < |v| && r in v[k].items;
      assert (v + w)[k] == v[k];
    }
    if Listed(w, r) {
      var k :| 0 <= k < |w| && r in w[k].items;
      assert (v + w)[k + |v|] == w[k];
    }
  }

  lemma InCategoryMember(s: seq<Record>, c: string, r: Record)
    ensures r in InCategory(s, c) <==> r in s && r.category == c
  {
    if r in s && r.category == c {
      var j :| 0 <= j < |s| && s[j] == r;
      assert HasCategory(c)(s[j]);
    }
  }

  /** A record is in some section exactly when it is in `sorted` and its
      category is one of `order`. */
  lemma {:induction false} ListedInSections(order: seq<string>, sorted: seq<Record>, r: Record)
    ensures Listed(SectionsOf(order, sorted), r) <==> r in sorted && r.category in order
  {
    if order != [] {
      var init, c := order[..|order| - 1], order[|order| - 1];
      ListedInSections(init, sorted, r);
      assert order == init + [c];
      var extra := if InCategory(sorted, c) != [] then [Section(c, InCategory(sorted, c))] else [];
      ListedConcat(SectionsOf(init, sorted), extra, r);
      InCategoryMember(sorted, c, r);
      assert Listed(extra, r) <==> r in InCategory(sorted, c) by {
        if r in InCategory(sorted, c) {
          assert extra[0].items == InCategory(sorted, c);
        }
      }
    }
  }

  /** A record is listed exactly when it passed the filter and search
      and its category is one of Game, Anime, Manga and Movie; records of
      any other category appear nowhere. */
  lemma ViewMembership(items: seq<Record>, filter: string, rawTerm: string, mode: string,
                       collation: string -> int, r: Record)
    ensures Listed(View(items, filter, rawTerm, mode, collation), r)
            <==> r in items && Passes(r, filter, SearchTerm(rawTerm)) && r.category in CategoryOrder
  {
    var filtered := Filtered(items, filter, rawTerm);
    var sorted := Sorted(filtered, mode, collation);
    ListedInSections(CategoryOrder, sorted, r);
    SortByKeyPermutes(filtered, Ordering(mode, collation));
    assert r in sorted <==> r in filtered by {
      assert r in sorted <==> r in multiset(sorted);
      assert r in filtered <==> r in multiset(filtered);
    }
    if r in items && Passes(r, filter, SearchTerm(rawTerm)) {
      var j :| 0 <= j < |items| && items[j] == r;
      assert Matches(filter, SearchTerm(rawTerm))(items[j]);
    }
  }

  /** Inside each section the records keep the sort order. */
  lemma SectionsSorted(items: seq<Record>, filter: string, rawTerm: string, mode: string,
                       collation: string -> int, k: int)
    requires 0 <= k < |View(items, filter, rawTerm, mode, collation)|
    ensures SortedBy(View(items, filter, rawTerm, mode, collation)[k].items, Ordering(mode, collation))
  {
    var sorted := Sorted(Filtered(items, filter, rawTerm), mode, collation);
    SectionsCategories(CategoryOrder, sorted);
    SectionsContents(CategoryOrder, sorted);
    SortByKeySorted(Filtered(items, filter, rawTerm), Ordering(mode, collation));
    FilterSorted(sorted, HasCategory(View(items, filter, rawTerm, mode, collation)[k].category),
                 Ordering(mode, collation));
  }

  lemma InCategoryPair(a: Record, b: Record, c: string)
    ensures InCategory([a, b], c)
            == (if a.category == c then [a] else []) + (if b.category == c then [b] else [])
  {
    assert [a, b] == [] + [a] + [b];
    InCategorySnoc([], a, c);
    InCategorySnoc([a], b, c);
  }

  lemma SectionsOfSnoc(init: seq<string>, c: string, sorted: seq<Record>)
    ensures SectionsOf(init + [c], sorted) == SectionsOf(init, sorted)
              + (if InCategory(sorted, c) != [] then [Section(c, InCategory(sorted, c))] else [])
  {
    assert (init + [c])[..|init|] == init;
  }

  /** A list holding only a Manga record and a Game record shows a Game
      section and then a Manga section, and no Anime or Movie section. */
  lemma GroupingExample(manga: Record, game: Record)
    requires manga.category == "Manga" && game.category == "Game"
    ensures Categories(SectionsOf(CategoryOrder, [manga, game])) == ["Game", "Manga"]
  {
    var sorted := [manga, game];
    var g, m := Section("Game", [game]), Section("Manga", [manga]);
    InCategoryPair(manga, game, "Game");
    assert InCategory(sorted, "Game") == [game];
    InCategoryPair(manga, game, "Anime");
    assert InCategory(sorted, "Anime") == [];
    InCategoryPair(manga, game, "Manga");
    assert InCategory(sorted, "Manga") == [manga];
    InCategoryPair(manga, game, "Movie");
    assert InCategory(sorted, "Movie") == [];
    assert SectionsOf([], sorted) == [];
    assert [] + ["Game"] == ["Game"];
    SectionsOfSnoc([], "Game", sorted);
    assert SectionsOf(["Game"], sorted) == [g];
    assert ["Game"] + ["Anime"] == ["Game", "Anime"];
    SectionsOfSnoc(["Game"], "Anime", sorted);
    assert SectionsOf(["Game", "Anime"], sorted) == [g];
    assert ["Game", "Anime"] + ["Manga"] == ["Game", "Anime", "Manga"];
    SectionsOfSnoc(["Game", "Anime"], "Manga", sorted);
    assert SectionsOf(["Game", "Anime", "Manga"], sorted) == [g, m];
    assert ["Game", "Anime", "Manga"] + ["Movie"] == CategoryOrder;
    SectionsOfSnoc(["Game", "Anime", "Manga"], "Movie", sorted);
    assert SectionsOf(CategoryOrder, sorted) == [g, m];
  }

  // ------------------------------------------------------------- dashboard

  /** The three dashboard numbers (script.js:53-55). */
  datatype Counts = Counts(total: int, finished: int, todo: int)

  /** `updateDashboard`'s counts: all records, the "Completed" ones and
      the "Planned" ones; no record is counted as both. */
  function Dashboard(items: seq<Record>): (c: Counts)
    ensures c.total == |items|
    ensures 0 <= c.finished && 0 <= c.todo && c.finished + c.todo <= c.total
  {
    FilterDisjointSizes(items, HasStatus("Completed"), HasStatus("Planned"));
    Counts(|items|, |Filter(items, HasStatus("Completed"))|, |Filter(items, HasStatus("Planned"))|)
  }

  /** The dashboard agrees with the list: "finished" and "to do" are the
      lengths of the "Completed" and "Planned" filters with a blank
      search box. */
  lemma DashboardMatchesFilters(items: seq<Record>)
    ensures Dashboard(items).finished == |Filtered(items, "Completed", "")|
    ensures Dashboard(items).todo == |Filtered(items, "Planned", "")|
  {
    assert SearchTerm("") == "";
    StatusFilterWithBlankSearch(items, "Completed", "");
    StatusFilterWithBlankSearch(items, "Planned", "");
  }
}
