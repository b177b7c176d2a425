/** `ContentManager._parse_categories` (bot/content.py): one forward pass over
    the lines of the Guide section, keeping the current category and
    subcategory and emitting one `(category, name, link)` entry per link line.

    Each line is first classified by the pattern chain of `LinePatterns`;
    `Step` and `Run` are the functional specification of the loop over the
    classified lines, and `ParseCategories` is the loop itself, proved
    against `Run`. */
module Catalog {

  import opened Wrappers
  import opened Strings
  import opened LinePatterns

  /** One catalogue entry: the `(category, item_name, item_link)` tuple. */
  datatype Entry = Entry(category: string, name: string, link: string)

  /** What joins a category and its subcategory in an entry's category. */
  const Separator: string := " \U{2022} "

  /** The loop's two state variables. The source resets the subcategory to
      `None`; both `None` and `""` are false in the emission test, so the
      model uses `""` for both. */
  datatype Context = Context(category: string, subcategory: string)

  datatype ParseState = ParseState(ctx: Context, items: seq<Entry>)

  const Initial: ParseState := ParseState(Context("", ""), [])

  /** The category text an item line gets: the category, followed by the
      separator and the subcategory when there is one. */
  function Label(ctx: Context): (r: string)
    ensures ctx.category <= r
    ensures r == ctx.category <==> ctx.subcategory == ""
    ensures ctx.subcategory != "" ==> r[|ctx.category|..] == Separator + ctx.subcategory
  {
    if ctx.subcategory != "" then ctx.category + Separator + ctx.subcategory else ctx.category
  }

  /** One iteration of the loop body, on the line's classification.
      Entries are only ever appended, one per link line; only a `####` line
      changes the category, and heading lines leave the entries alone. */
  function Step(st: ParseState, k: LineKind): (r: ParseState)
    ensures st.items <= r.items
    ensures |r.items| == |st.items| + (if k.IndentedItemLine? || k.ItemLine? then 1 else 0)
    ensures !k.CategoryLine? ==> r.ctx.category == st.ctx.category
    ensures !k.CategoryLine? && !k.SubcategoryLine? ==> r.ctx == st.ctx
  {
    match k
    case CategoryLine(t) => ParseState(Context(Strip(t), ""), st.items)
    case SubcategoryLine(t) => ParseState(st.ctx.(subcategory := Strip(t)), st.items)
    case IndentedItemLine(l) => ParseState(st.ctx, st.items + [Entry(Label(st.ctx), l.name, l.link)])
    case ItemLine(l) => ParseState(st.ctx, st.items + [Entry(Label(st.ctx), l.name, l.link)])
    case OtherLine => st
  }

  /** The state after the loop has consumed lines of kinds `ks`, from the
      initial state. */
  function Run(ks: seq<LineKind>): (r: ParseState)
    ensures |r.items| <= |ks|
  {
    if ks == [] then Initial else Step(Run(ks[..|ks| - 1]), ks[|ks| - 1])
  }

  /** What each line is recognised as. */
  function Kinds(lines: seq<string>): (ks: seq<LineKind>)
    ensures |ks| == |lines|
    ensures forall j :: 0 <= j < |lines| ==> ks[j] == Classify(lines[j])
  {
    seq(|lines|, j requires 0 <= j < |lines| => Classify(lines[j]))
  }

  /** The catalogue `_parse_categories(data)` returns: one entry per link
      line of `data`. */
  function CatalogOf(data: string): (r: seq<Entry>)
    ensures |r| == ItemLineCount(Kinds(Split(data, '\n')))
  {
    RunCount(Kinds(Split(data, '\n')));
    Run(Kinds(Split(data, '\n'))).items
  }

  /** `_parse_categories(data)`: the loop over `data.split('\n')`. */
  method ParseCategories(data: string) returns (items: seq<Entry>)
    ensures items == CatalogOf(data)
  {
    var lines := Split(data, '\n');
    ghost var ks := Kinds(lines);
    items := [];
    var currentCategory := "";
    var currentSubcategory := "";
    for n := 0 to |lines|
      invariant Run(ks[..n]) == ParseState(Context(currentCategory, currentSubcategory), items)
    {
      var line := lines[n];
      assert Run(ks[..n + 1]) == Step(Run(ks[..n]), Classify(line)) by {
        assert ks[..n + 1][..n] == ks[..n];
      }
      var categoryMatch := MatchCategory(line);
      var subcategoryMatch := MatchSubcategory(line);
      var subcategoryItemMatch := MatchIndentedItem(line);
      var itemMatch := MatchItem(line);
      if categoryMatch.Some? {
        currentCategory := Strip(categoryMatch.value);
        currentSubcategory := "";
      } else if subcategoryMatch.Some? {
        currentSubcategory := Strip(subcategoryMatch.value);
      } else if subcategoryItemMatch.Some? {
        var l := subcategoryItemMatch.value;
        var category := if currentSubcategory != "" then currentCategory + Separator + currentSubcategory else currentCategory;
        items := items + [Entry(category, l.name, l.link)];
      } else if itemMatch.Some? {
        var l := itemMatch.value;
        var category := if currentSubcategory != "" then currentCategory + Separator + currentSubcategory else currentCategory;
        items := items + [Entry(category, l.name, l.link)];
      }
    }
    assert ks[..|lines|] == ks;
  }

  // ---------------------------------------------------------------------
  // Reference definitions: each line is read in the context set by the most
  // recent heading lines before it.

  /** Index of the last `####` line. */
  function LastCategoryLine(ks: seq<LineKind>): (r: Option<nat>)
    ensures r.Some? ==> r.value < |ks| && ks[r.value].CategoryLine?
    ensures r.Some? ==> forall j :: r.value < j < |ks| ==> !ks[j].CategoryLine?
    ensures r.None? ==> forall j :: 0 <= j < |ks| ==> !ks[j].CategoryLine?
  {
    if ks == [] then None
    else if ks[|ks| - 1].CategoryLine? then Some(|ks| - 1)
    else LastCategoryLine(ks[..|ks| - 1])
  }

  /** Index of the last `- #####` line. */
  function LastSubcategoryLine(ks: seq<LineKind>): (r: Option<nat>)
    ensures r.Some? ==> r.value < |ks| && ks[r.value].SubcategoryLine?
    ensures r.Some? ==> forall j :: r.value < j < |ks| ==> !ks[j].SubcategoryLine?
    ensures r.None? ==> forall j :: 0 <= j < |ks| ==> !ks[j].SubcategoryLine?
  {
    if ks == [] then None
    else if ks[|ks| - 1].SubcategoryLine? then Some(|ks| - 1)
    else LastSubcategoryLine(ks[..|ks| - 1])
  }

  /** The category after lines of kinds `ks`: the stripped title of the last
      `####` line, or "" before any. */
  function CurrentCategory(ks: seq<LineKind>): string
  {
    match LastCategoryLine(ks)
    case None => ""
    case Some(c) => Strip(ks[c].title)
  }

  /** The subcategory after lines of kinds `ks`: the stripped title of the
      last `- #####` line if no `####` line came after it, else "". */
  function CurrentSubcategory(ks: seq<LineKind>): string
  {
    match LastSubcategoryLine(ks)
    case None => ""
    case Some(s) =>
      if LastCategoryLine(ks).Some? && LastCategoryLine(ks).value > s then ""
      else Strip(ks[s].title)
  }

  /** The entries line `j` contributes: one for a link line, in the context
      of the lines before it, none for any other line. */
  function LineEntries(ks: seq<LineKind>, j: nat): seq<Entry>
    requires j < |ks|
  {
    var ctx := Context(CurrentCategory(ks[..j]), CurrentSubcategory(ks[..j]));
    match ks[j]
    case IndentedItemLine(l) => [Entry(Label(ctx), l.name, l.link)]
    case ItemLine(l) => [Entry(Label(ctx), l.name, l.link)]
    case _ => []
  }

  /** The entries of lines `0 .. n-1`, in line order. */
  function EntriesBefore(ks: seq<LineKind>, n: nat): seq<Entry>
    requires n <= |ks|
  {
    if n == 0 then [] else EntriesBefore(ks, n - 1) + LineEntries(ks, n - 1)
  }

  /** Number of link lines. */
  function ItemLineCount(ks: seq<LineKind>): nat
  {
    if ks == [] then 0
    else ItemLineCount(ks[..|ks| - 1]) + (if ks[|ks| - 1].IndentedItemLine? || ks[|ks| - 1].ItemLine? then 1 else 0)
  }

  // ---------------------------------------------------------------------
  // Properties of the parser

  /** How one more line changes the most recent headings. */
  lemma CurrentAfterLine(p: seq<LineKind>, k: LineKind)
    ensures k.CategoryLine? ==>
      CurrentCategory(p + [k]) == Strip(k.title) && CurrentSubcategory(p + [k]) == ""
    ensures k.SubcategoryLine? ==>
      CurrentCategory(p + [k]) == CurrentCategory(p) && CurrentSubcategory(p + [k]) == Strip(k.title)
    ensures !k.CategoryLine? && !k.SubcategoryLine? ==>
      CurrentCategory(p + [k]) == CurrentCategory(p) && CurrentSubcategory(p + [k]) == CurrentSubcategory(p)
  {
    assert (p + [k])[..|p|] == p;
  }

  /** After any prefix of the input, the loop's category and subcategory are
      those set by the most recent heading lines: a `####` line sets the
      category and clears the subcategory, a `- #####` line sets only the
      subcategory, and before any heading both are "". */
  lemma {:induction false} RunContext(ks: seq<LineKind>)
    ensures Run(ks).ctx == Context(CurrentCategory(ks), CurrentSubcategory(ks))
  {
    if ks != [] {
      var p, k := ks[..|ks| - 1], ks[|ks| - 1];
      RunContext(p);
      CurrentAfterLine(p, k);
      assert p + [k] == ks;
    }
  }

  lemma {:induction false} EntriesBeforePrefix(ks: seq<LineKind>, m: nat, n: nat)
    requires n <= m <= |ks|
    ensures EntriesBefore(ks, n) == EntriesBefore(ks[..m], n)
  {
    if n > 0 {
      EntriesBeforePrefix(ks, m, n - 1);
      assert ks[..m][..n - 1] == ks[..n - 1];
    }
  }

  /** The parser emits exactly the entries of the link lines, one each, in
      line order, each labelled by the headings before it; heading lines and
      unrecognised lines emit nothing. */
  lemma {:induction false} RunItems(ks: seq<LineKind>)
    ensures Run(ks).items == EntriesBefore(ks, |ks|)
  {
    if ks != [] {
      var p := ks[..|ks| - 1];
      RunItems(p);
      RunContext(p);
      EntriesBeforePrefix(ks, |p|, |p|);
      assert ks[..|p|] == p;
      assert EntriesBefore(ks, |ks|) == EntriesBefore(ks, |p|) + LineEntries(ks, |p|);
    }
  }

  /** One entry per link line. */
  lemma {:induction false} RunCount(ks: seq<LineKind>)
    ensures |Run(ks).items| == ItemLineCount(ks)
  {
    if ks != [] {
      RunCount(ks[..|ks| - 1]);
    }
  }

  /** Every emitted name and link is one the link patterns can capture. */
  lemma {:induction false} RunWellFormed(ks: seq<LineKind>)
    requires forall j :: 0 <= j < |ks| ==> WellFormedKind(ks[j])
    ensures forall e :: e in Run(ks).items ==> ValidName(e.name) && ValidLink(e.link)
  {
    if ks != [] {
      var p := ks[..|ks| - 1];
      assert forall j :: 0 <= j < |p| ==> p[j] == ks[j];
      RunWellFormed(p);
    }
  }

  /** Every name in the catalogue is non-empty and holds no `]`; every link
      is non-empty and holds no `)`. */
  lemma CatalogWellFormed(data: string)
    ensures forall e :: e in CatalogOf(data) ==> ValidName(e.name) && ValidLink(e.link)
  {
    var lines := Split(data, '\n');
    forall j | 0 <= j < |lines| ensures WellFormedKind(Kinds(lines)[j]) {
      ClassifyWellFormed(lines[j]);
    }
    RunWellFormed(Kinds(lines));
  }

  /** An item line indented by two spaces is read as the same entry. */
  lemma IndentationIrrelevant(st: ParseState, line: string)
    requires MatchItem(line).Some?
    ensures Step(st, Classify("  " + line)) == Step(st, Classify(line))
  {
    IndentationKeepsLink(line);
  }

  /** With no heading lines at all, every entry has the empty category. */
  lemma {:induction false} NoHeadingsEmptyCategory(ks: seq<LineKind>)
    requires forall j :: 0 <= j < |ks| ==> !ks[j].CategoryLine? && !ks[j].SubcategoryLine?
    ensures Run(ks).ctx == Context("", "")
    ensures forall e :: e in Run(ks).items ==> e.category == ""
  {
    if ks != [] {
      var p := ks[..|ks| - 1];
      assert forall j :: 0 <= j < |p| ==> p[j] == ks[j];
      NoHeadingsEmptyCategory(p);
    }
  }

  /** A `####` line clears the subcategory, whatever came before. */
  lemma CategoryClearsSubcategory(lines: seq<string>, title: string)
    requires title != [] && '\n' !in title
    ensures Run(Kinds(lines + [CategoryPrefix + title])).ctx == Context(Strip(title), "")
    ensures Run(Kinds(lines + [CategoryPrefix + title])).items == Run(Kinds(lines)).items
  {
    var ks := Kinds(lines + [CategoryPrefix + title]);
    MatchHeadingOfTitle(CategoryPrefix, title, []);
    assert CategoryPrefix + title + [] == CategoryPrefix + title;
    assert ks[..|lines|] == Kinds(lines);
  }

  // ---------------------------------------------------------------------
  // Worked examples, for any titles and links of the shapes the README uses

  lemma StripPlainTitle(title: string)
    requires PlainTitle(title)
    ensures Strip(title) == title
  {
    StripPadded([], title, []);
    assert [] + title + [] == title;
  }

  /** The loop consumes one more line. */
  lemma RunSnoc(p: seq<LineKind>, k: LineKind)
    ensures Run(p + [k]) == Step(Run(p), k)
  {
    assert (p + [k])[..|p|] == p;
  }

  /** A link that fits on one line. */
  predicate OneLineLink(l: Link)
  {
    ValidName(l.name) && ValidLink(l.link) && '\n' !in l.name && '\n' !in l.link
  }

  /** `#### A` and two links under it: both entries get the bare category. */
  lemma ExampleBareCategory(a: string, l1: Link, l2: Link)
    requires PlainTitle(a) && OneLineLink(l1) && OneLineLink(l2)
    ensures Run([CategoryLine(a), ItemLine(l1), ItemLine(l2)])
         == ParseState(Context(a, ""), [Entry(a, l1.name, l1.link), Entry(a, l2.name, l2.link)])
  {
    var ctx := Context(a, "");
    StripPlainTitle(a);
    RunSnoc([], CategoryLine(a));
    assert [] + [CategoryLine(a)] == [CategoryLine(a)];
    assert Run([CategoryLine(a)]) == ParseState(ctx, []);
    RunSnoc([CategoryLine(a)], ItemLine(l1));
    assert [CategoryLine(a)] + [ItemLine(l1)] == [CategoryLine(a), ItemLine(l1)];
    assert Label(ctx) == a;
    assert Run([CategoryLine(a), ItemLine(l1)]) == ParseState(ctx, [Entry(a, l1.name, l1.link)]);
    RunSnoc([CategoryLine(a), ItemLine(l1)], ItemLine(l2));
    assert [CategoryLine(a), ItemLine(l1)] + [ItemLine(l2)] == [CategoryLine(a), ItemLine(l1), ItemLine(l2)];
  }

  /** `#### A`, `- ##### B` and an indented link: the entry gets `A • B`. */
  lemma ExampleJoinedCategory(a: string, b: string, l: Link)
    requires PlainTitle(a) && PlainTitle(b) && OneLineLink(l)
    ensures Run([CategoryLine(a), SubcategoryLine(b), IndentedItemLine(l)])
         == ParseState(Context(a, b), [Entry(a + Separator + b, l.name, l.link)])
  {
    StripPlainTitle(a);
    StripPlainTitle(b);
    RunSnoc([], CategoryLine(a));
    assert [] + [CategoryLine(a)] == [CategoryLine(a)];
    RunSnoc([CategoryLine(a)], SubcategoryLine(b));
    assert [CategoryLine(a)] + [SubcategoryLine(b)] == [CategoryLine(a), SubcategoryLine(b)];
    RunSnoc([CategoryLine(a), SubcategoryLine(b)], IndentedItemLine(l));
    assert [CategoryLine(a), SubcategoryLine(b)] + [IndentedItemLine(l)]
        == [CategoryLine(a), SubcategoryLine(b), IndentedItemLine(l)];
  }

  /** `#### A`, `- ##### B`, an indented link, `#### C`, a link: the new
      top-level heading drops the subcategory. */
  lemma ExampleCategoryResets(a: string, b: string, c: string, l1: Link, l2: Link)
    requires PlainTitle(a) && PlainTitle(b) && PlainTitle(c) && OneLineLink(l1) && OneLineLink(l2)
    ensures Run([CategoryLine(a), SubcategoryLine(b), IndentedItemLine(l1), CategoryLine(c), ItemLine(l2)]).items
         == [Entry(a + Separator + b, l1.name, l1.link), Entry(c, l2.name, l2.link)]
  {
    var p := [CategoryLine(a), SubcategoryLine(b), IndentedItemLine(l1)];
    ExampleJoinedCategory(a, b, l1);
    StripPlainTitle(c);
    RunSnoc(p, CategoryLine(c));
    RunSnoc(p + [CategoryLine(c)], ItemLine(l2));
    assert p + [CategoryLine(c)] + [ItemLine(l2)]
        == [CategoryLine(a), SubcategoryLine(b), IndentedItemLine(l1), CategoryLine(c), ItemLine(l2)];
  }
}
