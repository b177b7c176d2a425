/** The four `re.match` patterns of `ContentManager._parse_categories`
    (bot/content.py), as prefix matchers on one line, and the `if`/`elif`
    chain that decides which one a line is. */
module LinePatterns {

  import opened Wrappers
  import opened Strings

  /** Groups 1 and 2 of a link pattern. */
  datatype Link = Link(name: string, link: string)

  /** What the pattern chain recognises a line as. */
  datatype LineKind =
    | CategoryLine(title: string)
    | SubcategoryLine(title: string)
    | IndentedItemLine(item: Link)
    | ItemLine(item: Link)
    | OtherLine

  const CategoryPrefix: string := "#### "
  const SubcategoryPrefix: string := "- ##### "
  const IndentedItemPrefix: string := "  - "
  const ItemPrefix: string := "- "

  /** `re.match(prefix + "(.+)", line)`: group 1 is the longest non-empty run
      of characters after the prefix that holds no newline. */
  function MatchHeading(line: string, prefix: string): (r: Option<string>)
    ensures r.Some? <==> prefix < line && line[|prefix|] != '\n'
    ensures r.Some? ==> '\n' !in r.value && prefix + r.value <= line
    ensures r.Some? ==> |prefix + r.value| == |line| || line[|prefix + r.value|] == '\n'
  {
    if prefix < line then
      var rest := line[|prefix|..];
      var title := rest[..IndexOf(rest, '\n')];
      assert line == prefix + rest;
      if title == [] then None else Some(title)
    else None
  }

  /** A heading pattern gives back the title written after its prefix. */
  lemma MatchHeadingOfTitle(prefix: string, title: string, rest: string)
    requires title != [] && '\n' !in title
    requires rest == [] || rest[0] == '\n'
    ensures MatchHeading(prefix + title + rest, prefix) == Some(title)
  {
    var line := prefix + title + rest;
    assert line[|prefix|..] == title + rest;
    if rest == [] {
      assert title + rest == title;
      assert forall i :: 0 <= i < |title| ==> title[i] != '\n';
      assert title[..|title|] == title;
    } else {
      assert title + rest == title + ['\n'] + rest[1..];
      IndexOfAfter(title, '\n', rest[1..]);
    }
  }

  /** `#### (.+)`: matches when the line starts with `#### ` and something
      other than a line break follows; the title is the rest of the line. */
  function MatchCategory(line: string): (r: Option<string>)
    ensures r.Some? <==> CategoryPrefix < line && line[|CategoryPrefix|] != '\n'
    ensures r.Some? ==> '\n' !in r.value && CategoryPrefix + r.value <= line
  {
    MatchHeading(line, CategoryPrefix)
  }

  /** `- ##### (.+)`: matches when the line starts with `- ##### ` and
      something other than a line break follows; the title is the rest of the
      line. */
  function MatchSubcategory(line: string): (r: Option<string>)
    ensures r.Some? <==> SubcategoryPrefix < line && line[|SubcategoryPrefix|] != '\n'
    ensures r.Some? ==> '\n' !in r.value && SubcategoryPrefix + r.value <= line
  {
    MatchHeading(line, SubcategoryPrefix)
  }

  /** Group 1 of a link pattern: non-empty, no `]`. */
  predicate ValidName(name: string)
  {
    name != [] && ']' !in name
  }

  /** Group 2 of a link pattern: non-empty, no `)`. */
  predicate ValidLink(link: string)
  {
    link != [] && ')' !in link
  }

  /** The markdown text `[name](link)`. */
  function RenderLink(l: Link): string
  {
    "[" + l.name + "](" + l.link + ")"
  }

  /** `\[([^]]+)]\(([^)]+)\)` matched at the start of `s`: the name runs to
      the first `]`, which must be followed by `(`; the link runs to the
      first `)` after that. Whatever follows the `)` is ignored. */
  function MatchLink(s: string): (r: Option<Link>)
    ensures r.Some? ==> ValidName(r.value.name) && ValidLink(r.value.link)
  {
    if |s| == 0 || s[0] != '[' then None
    else
      var afterOpen := s[1..];
      var j := IndexOf(afterOpen, ']');
      if j == 0 || j == |afterOpen| then None
      else
        var rest := afterOpen[j + 1..];
        if |rest| == 0 || rest[0] != '(' then None
        else
          var afterParen := rest[1..];
          var k := IndexOf(afterParen, ')');
          if k == 0 || k == |afterParen| then None
          else
            var l := Link(afterOpen[..j], afterParen[..k]);
            assert ']' !in l.name by {
              forall i | 0 <= i < j ensures afterOpen[..j][i] != ']' { }
            }
            assert ')' !in l.link by {
              forall i | 0 <= i < k ensures afterParen[..k][i] != ')' { }
            }
            Some(l)
  }

  /** What the link pattern captured is the text at the start of `s`. */
  lemma MatchLinkIsPrefix(s: string)
    ensures MatchLink(s).Some? ==> RenderLink(MatchLink(s).value) <= s
  {
    if MatchLink(s).Some? {
      var afterOpen := s[1..];
      var j := IndexOf(afterOpen, ']');
      var afterParen := afterOpen[j + 1..][1..];
      assert afterParen == s[j + 3..];
      var k := IndexOf(afterParen, ')');
      assert s[j + 1] == afterOpen[j] == ']';
      assert s[j + 2] == afterOpen[j + 1..][0] == '(';
      assert s[j + 3 + k] == afterParen[k] == ')';
      assert afterOpen[..j] == s[1..j + 1];
      assert afterParen[..k] == s[j + 3..j + 3 + k];
      RenderedAt(s, j, k);
    }
  }

  /** `s` starts with `[name](link)` where the name is the `j` characters
      after `[` and the link the `k` characters after `](`. */
  lemma RenderedAt(s: string, j: nat, k: nat)
    requires j + k + 4 <= |s|
    requires s[0] == '[' && s[j + 1] == ']' && s[j + 2] == '(' && s[j + 3 + k] == ')'
    ensures RenderLink(Link(s[1..j + 1], s[j + 3..j + 3 + k])) <= s
  {
    var r := RenderLink(Link(s[1..j + 1], s[j + 3..j + 3 + k]));
    assert |r| == j + k + 4;
    forall i | 0 <= i < |r| ensures r[i] == s[i] {
    }
    assert r == s[..|r|];
  }

  /** Every well-formed `[name](link)` is matched as exactly that link,
      whatever text follows it. */
  lemma MatchLinkOfRendered(l: Link, rest: string)
    requires ValidName(l.name) && ValidLink(l.link)
    ensures MatchLink(RenderLink(l) + rest) == Some(l)
  {
    var afterParen := l.link + [')'] + rest;
    var afterName := ['('] + afterParen;
    RenderedParts(l, rest);
    IndexOfAfter(l.name, ']', afterName);
    assert afterName[1..] == afterParen;
    IndexOfAfter(l.link, ')', rest);
  }

  /** How `[name](link)` followed by `rest` falls apart at `[` and `]`. */
  lemma RenderedParts(l: Link, rest: string)
    ensures (RenderLink(l) + rest)[0] == '['
    ensures (RenderLink(l) + rest)[1..] == l.name + [']'] + (['('] + (l.link + [')'] + rest))
  {
    var s := RenderLink(l) + rest;
    assert s == ['['] + (l.name + [']'] + (['('] + (l.link + [')'] + rest)));
  }

  /** ` {2}- \[([^]]+)]\(([^)]+)\)` (see `IndentedItemMatchIsPrefix`). */
  function MatchIndentedItem(line: string): (r: Option<Link>)
    ensures r.Some? ==> IndentedItemPrefix <= line && ValidName(r.value.name) && ValidLink(r.value.link)
  {
    if IndentedItemPrefix <= line then MatchLink(line[|IndentedItemPrefix|..]) else None
  }

  /** `- \[([^]]+)]\(([^)]+)\)` (see `ItemMatchIsPrefix`). */
  function MatchItem(line: string): (r: Option<Link>)
    ensures r.Some? ==> ItemPrefix <= line && ValidName(r.value.name) && ValidLink(r.value.link)
  {
    if ItemPrefix <= line then MatchLink(line[|ItemPrefix|..]) else None
  }

  /** What the item pattern captured is the text right after its prefix. */
  lemma ItemMatchIsPrefix(line: string)
    ensures MatchItem(line).Some? ==> ItemPrefix + RenderLink(MatchItem(line).value) <= line
  {
    if MatchItem(line).Some? {
      var tail := line[|ItemPrefix|..];
      MatchLinkIsPrefix(tail);
      assert line == ItemPrefix + tail;
    }
  }

  /** What the indented item pattern captured is the text right after its
      prefix. */
  lemma IndentedItemMatchIsPrefix(line: string)
    ensures MatchIndentedItem(line).Some? ==> IndentedItemPrefix + RenderLink(MatchIndentedItem(line).value) <= line
  {
    if MatchIndentedItem(line).Some? {
      var tail := line[|IndentedItemPrefix|..];
      MatchLinkIsPrefix(tail);
      assert line == IndentedItemPrefix + tail;
    }
  }

  /** The `if`/`elif` chain: the first pattern that matches decides. As no
      line matches two patterns, a line is the kind of the one pattern it
      matches, carrying what that pattern captured, and any other line is
      `OtherLine`. */
  function Classify(line: string): (k: LineKind)
    ensures MatchCategory(line).Some? ==> k == CategoryLine(MatchCategory(line).value)
    ensures MatchSubcategory(line).Some? ==> k == SubcategoryLine(MatchSubcategory(line).value)
    ensures MatchIndentedItem(line).Some? ==> k == IndentedItemLine(MatchIndentedItem(line).value)
    ensures MatchItem(line).Some? ==> k == ItemLine(MatchItem(line).value)
    ensures k == OtherLine <==>
      MatchCategory(line).None? && MatchSubcategory(line).None? && MatchIndentedItem(line).None? && MatchItem(line).None?
  {
    PatternsDisjoint(line);
    match MatchCategory(line)
    case Some(t) => CategoryLine(t)
    case None =>
      match MatchSubcategory(line)
      case Some(t) => SubcategoryLine(t)
      case None =>
        match MatchIndentedItem(line)
        case Some(l) => IndentedItemLine(l)
        case None =>
          match MatchItem(line)
          case Some(l) => ItemLine(l)
          case None => OtherLine
  }

  /** A heading pattern fails on a line that differs from its prefix at
      some position. */
  lemma MatchHeadingRejects(line: string, prefix: string, i: nat)
    requires i < |prefix| && i < |line| && line[i] != prefix[i]
    ensures MatchHeading(line, prefix) == None
  {
  }

  /** A line the item pattern matches starts with `- [`. */
  lemma ItemStart(line: string)
    ensures MatchItem(line).Some? ==> |line| > 2 && line[0] == '-' && line[2] == '['
  {
    if MatchItem(line).Some? {
      assert line[|ItemPrefix|..][0] == '[';
    }
  }

  /** A line the indented item pattern matches starts with a space. */
  lemma IndentedItemStart(line: string)
    ensures MatchIndentedItem(line).Some? ==> |line| > 0 && line[0] == ' '
  {
    if MatchIndentedItem(line).Some? {
      assert line[0] == IndentedItemPrefix[0];
    }
  }

  /** The four patterns never match the same line (their literal prefixes
      differ within the first three characters), so the order of the chain
      never decides between two matches. */
  lemma PatternsDisjoint(line: string)
    ensures MatchCategory(line).Some? ==> MatchSubcategory(line).None? && MatchIndentedItem(line).None? && MatchItem(line).None?
    ensures MatchSubcategory(line).Some? ==> MatchIndentedItem(line).None? && MatchItem(line).None?
    ensures MatchIndentedItem(line).Some? ==> MatchItem(line).None?
  {
    ItemStart(line);
    IndentedItemStart(line);
    if MatchCategory(line).Some? {
      assert line[0] == CategoryPrefix[0];
      MatchHeadingRejects(line, SubcategoryPrefix, 0);
    }
    if MatchSubcategory(line).Some? {
      assert line[0] == SubcategoryPrefix[0] && line[2] == SubcategoryPrefix[2];
    }
  }

  /** Names and links a line kind carries are what the link patterns can
      capture. */
  predicate WellFormedKind(k: LineKind)
  {
    (k.IndentedItemLine? || k.ItemLine?) ==> ValidName(k.item.name) && ValidLink(k.item.link)
  }

  /** Every classified item line carries a non-empty name without `]` and a
      non-empty link without `)`. */
  lemma ClassifyWellFormed(line: string)
    ensures WellFormedKind(Classify(line))
  {
  }

  /** The chain reaches the item pattern when no other pattern matches. */
  lemma ClassifyItemLine(line: string)
    requires MatchCategory(line).None? && MatchSubcategory(line).None?
    requires MatchIndentedItem(line).None? && MatchItem(line).Some?
    ensures Classify(line) == ItemLine(MatchItem(line).value)
  {
  }

  /** The chain reaches the indented item pattern when neither heading
      pattern matches. */
  lemma ClassifyIndentedItem(line: string)
    requires MatchCategory(line).None? && MatchSubcategory(line).None?
    requires MatchIndentedItem(line).Some?
    ensures Classify(line) == IndentedItemLine(MatchIndentedItem(line).value)
  {
  }

  lemma ClassifyItemStart(line: string)
    requires MatchItem(line).Some? && |line| > 2 && line[0] == '-' && line[2] == '['
    ensures Classify(line) == ItemLine(MatchItem(line).value)
  {
    IndentedItemStart(line);
    MatchHeadingRejects(line, CategoryPrefix, 0);
    MatchHeadingRejects(line, SubcategoryPrefix, 2);
    ClassifyItemLine(line);
  }

  /** A line the item pattern matches is an item line. */
  lemma ClassifyItem(line: string)
    requires MatchItem(line).Some?
    ensures Classify(line) == ItemLine(MatchItem(line).value)
  {
    ItemStart(line);
    ClassifyItemStart(line);
  }

  /** The indented item pattern reads past the two extra spaces exactly
      what the item pattern reads. */
  lemma IndentedMatch(line: string)
    requires ItemPrefix <= line
    ensures MatchIndentedItem("  " + line) == MatchItem(line)
  {
    var indented := "  " + line;
    assert indented[..|IndentedItemPrefix|] == IndentedItemPrefix;
    assert indented[|IndentedItemPrefix|..] == line[|ItemPrefix|..];
  }

  /** Indenting an item line by two spaces makes it an indented item line
      with the same name and link. */
  lemma IndentationKeepsLink(line: string)
    requires MatchItem(line).Some?
    ensures Classify(line) == ItemLine(MatchItem(line).value)
    ensures Classify("  " + line) == IndentedItemLine(MatchItem(line).value)
  {
    ClassifyItem(line);
    var indented := "  " + line;
    assert indented[0] == ' ';
    MatchHeadingRejects(indented, CategoryPrefix, 0);
    MatchHeadingRejects(indented, SubcategoryPrefix, 0);
    IndentedMatch(line);
    ClassifyIndentedItem(indented);
  }

  /** A title as a heading line carries it: non-empty, one line, and
      already stripped. */
  predicate PlainTitle(title: string)
  {
    title != [] && '\n' !in title && Unpadded(title)
  }

  /** `#### title` is a category line carrying the title, whatever
      whitespace it holds. */
  lemma ClassifyCategoryShape(title: string)
    requires title != [] && '\n' !in title
    ensures Classify(CategoryPrefix + title) == CategoryLine(title)
  {
    MatchHeadingOfTitle(CategoryPrefix, title, []);
    assert CategoryPrefix + title + [] == CategoryPrefix + title;
  }

  /** `- ##### title` is a subcategory line carrying the title, whatever
      whitespace it holds. */
  lemma ClassifySubcategoryShape(title: string)
    requires title != [] && '\n' !in title
    ensures Classify(SubcategoryPrefix + title) == SubcategoryLine(title)
  {
    var line := SubcategoryPrefix + title;
    MatchHeadingOfTitle(SubcategoryPrefix, title, []);
    assert line + [] == line;
    assert line[0] == '-';
    MatchHeadingRejects(line, CategoryPrefix, 0);
  }

  /** The item pattern reads `- [name](link)` back as that link. */
  lemma MatchItemOfRendered(l: Link)
    requires ValidName(l.name) && ValidLink(l.link)
    ensures MatchItem(ItemPrefix + RenderLink(l)) == Some(l)
  {
    var item := ItemPrefix + RenderLink(l);
    MatchLinkOfRendered(l, []);
    assert RenderLink(l) + [] == RenderLink(l);
    assert item[..|ItemPrefix|] == ItemPrefix && item[|ItemPrefix|..] == RenderLink(l);
  }

  /** The indented item prefix is the item prefix after two spaces. */
  lemma IndentedPrefix(x: string)
    ensures "  " + (ItemPrefix + x) == IndentedItemPrefix + x
  {
    assert "  " + ItemPrefix == IndentedItemPrefix;
  }

  /** `- [name](link)` and `  - [name](link)` are item lines carrying the
      link. */
  lemma ClassifyItemShapes(l: Link)
    requires ValidName(l.name) && ValidLink(l.link)
    ensures Classify(ItemPrefix + RenderLink(l)) == ItemLine(l)
    ensures Classify(IndentedItemPrefix + RenderLink(l)) == IndentedItemLine(l)
  {
    MatchItemOfRendered(l);
    IndentationKeepsLink(ItemPrefix + RenderLink(l));
    IndentedPrefix(RenderLink(l));
  }
}
