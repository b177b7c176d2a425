/** `ContentManager.get_categories` and `ContentManager.search_items`
    (bot/content.py): the catalogue of the README's Guide section, and the
    case-insensitive search over it. The README text is a parameter; the
    file read is not modelled. */
module ContentManager {

  import opened Wrappers
  import opened Strings
  import opened Section
  import opened Catalog

  /** `xs` is `ys` with some elements left out, in the same order. */
  ghost predicate IsSubsequence<T>(xs: seq<T>, ys: seq<T>)
    decreases |ys|
  {
    xs == [] ||
    (ys != [] && ((xs[0] == ys[0] && IsSubsequence(xs[1..], ys[1..])) || IsSubsequence(xs, ys[1..])))
  }

  /** The comprehension's condition: the lower-cased query occurs in the
      lower-cased name or in the lower-cased category. */
  predicate Matches(e: Entry, query: string)
  {
    Contains(Lower(e.name), Lower(query)) || Contains(Lower(e.category), Lower(query))
  }

  /** The list comprehension of `search_items`. */
  function Filter(items: seq<Entry>, query: string): (r: seq<Entry>)
    ensures forall e :: multiset(r)[e] == if Matches(e, query) then multiset(items)[e] else 0
    ensures IsSubsequence(r, items)
  {
    if items == [] then []
    else
      var rest := Filter(items[1..], query);
      assert items == [items[0]] + items[1..];
      if Matches(items[0], query) then
        assert ([items[0]] + rest)[1..] == rest;
        [items[0]] + rest
      else rest
  }

  /** An entry is in the result exactly when it is in the catalogue and
      matches the query. */
  lemma FilterMembers(items: seq<Entry>, query: string, e: Entry)
    ensures e in Filter(items, query) <==> e in items && Matches(e, query)
  {
  }

  /** The empty query keeps every entry, in order. */
  lemma {:induction false} FilterEmptyQuery(items: seq<Entry>)
    ensures Filter(items, []) == items
  {
    if items != [] {
      FilterEmptyQuery(items[1..]);
      ContainsIff(Lower(items[0].name), [], 0);
      assert Lower([]) == [];
    }
  }

  /** Only the lower-cased query matters: queries that differ in letter case
      select the same entries. */
  lemma {:induction false} FilterCaseInsensitive(items: seq<Entry>, q1: string, q2: string)
    requires Lower(q1) == Lower(q2)
    ensures Filter(items, q1) == Filter(items, q2)
  {
    if items != [] {
      FilterCaseInsensitive(items[1..], q1, q2);
    }
  }

  /** Letter case in the entry does not matter either, and the link is
      never looked at. */
  lemma MatchesIgnoresCaseAndLink(e: Entry, query: string, link: string)
    ensures Matches(e, query) == Matches(e.(link := link), query)
    ensures Matches(e, query) == Matches(Entry(Lower(e.category), Lower(e.name), e.link), query)
  {
    LowerIdempotent(e.name);
    LowerIdempotent(e.category);
  }

  /** `get_categories()`: parse the Guide section of `readme`. Raises, as
      the source does, when the section is missing. */
  method GetCategories(readme: string) returns (r: Result<seq<Entry>, Error>)
    ensures r.Failure? <==> NoSection(readme, GuideStart, GuideEnd)
    ensures r.Success? ==> r.value == CatalogOf(ExtractGuideSection(readme).value)
  {
    var section := ExtractGuideSection(readme);
    if section.Failure? {
      return Failure(section.error);
    }
    var items := ParseCategories(section.value);
    return Success(items);
  }

  /** `search_items(query)`: the entries of the catalogue whose name or
      category contains the query, ignoring case, in catalogue order. */
  method SearchItems(readme: string, query: string) returns (r: Result<seq<Entry>, Error>)
    ensures r.Failure? <==> NoSection(readme, GuideStart, GuideEnd)
    ensures r.Success? ==> r.value == Filter(CatalogOf(ExtractGuideSection(readme).value), query)
  {
    var items := GetCategories(readme);
    if items.Failure? {
      return Failure(items.error);
    }
    return Success(Filter(items.value, query));
  }
}
