# tonutils-helper-bot: the README catalogue, verified in Dafny

The bot answers Telegram inline queries with code examples that are listed in
the Tonutils README. All of its logic is in `ContentManager` (bot/content.py):

1. `_extract_section` / `_extract_guide_section` cut the README's
   "### Guide" section, up to the "## Contribution" heading, out of the text.
   If there is no such span, they raise "Section not found".
2. `_parse_categories` makes one pass over the lines of that section. It keeps
   the current category (`#### X`) and subcategory (`- ##### Y`). It emits one
   `(category, name, link)` entry for each link line, `- [name](link)` or
   `  - [name](link)`.
3. `get_categories` chains the two. `search_items` keeps, in order, the
   entries whose name or category contains the query, ignoring case.

The model takes the README text as a parameter. The `async` class methods
become plain functions and methods:

- `wrappers.dfy`: `Option` for `re.match` results, `Result` for the raised error.
- `strings.dfy` (module `Strings`): the `str` operations the source relies on.
  These are `strip()`, `split('\n')`, `lower()`, `in`, and `re.search` for a
  literal marker, all on `seq<char>`.
- `section.dfy` (module `Section`): section extraction.
- `patterns.dfy` (module `LinePatterns`): the four line patterns, as prefix
  matchers, and `Classify`, the `if`/`elif` chain that tells which of them a
  line matches first.
- `catalog.dfy` (module `Catalog`): the functional specification of the
  parsing loop over classified lines (`Step`, `Run`), and the loop itself,
  the method `ParseCategories`, which is proved to compute `Run`. Reference
  definitions describe each line's context in terms of the most recent
  heading lines.
- `content_manager.dfy` (module `ContentManager`): the search filter,
  `GetCategories` and `SearchItems`.

Notes on how the model reads the source:

- The pattern is `start\s*(.*?)\s*end` with DOTALL. With literal markers, its
  first match starts at the first occurrence of `start`. Its group ends at
  the first occurrence of `end` after that, less the whitespace before it.
  The model therefore returns `Strip(text[i + |start| .. q])`, where `i` is
  the first start occurrence and `q` the first end occurrence at or after
  `i + |start|`. This equivalence needs an end marker that does not begin
  with whitespace; `ExtractSection` requires that (`PlainEndMarker`). Both
  markers the source passes begin with `#`.
- The source interpolates the markers into the pattern without escaping them.
  The model treats them as literal text. The two markers used contain no
  regular-expression metacharacters, so this matches what the code does.
- The source resets the subcategory to `None`. `None` and `""` both count as
  false in `if current_subcategory`, so the model uses `""` for both.
- The four patterns start with different literal prefixes, so no line matches
  two of them (`PatternsDisjoint`). The `if`/`elif` order is kept anyway.
- A link line before any heading gets the empty category. A `####` line whose
  title is only whitespace also gives the empty category. This follows the
  code.

## Model

| member | source | states |
|---|---|---|
| `Strings.Strip` | bot/content.py:24 | `strip()` leaves no whitespace at either end of its result |
| `Strings.IsSpace` | bot/content.py:21-24 | the whitespace skipped by `\s*` and removed by `strip()`; `IsSpaceAscii` proves it is exactly the set of ASCII characters Python treats as whitespace |
| `Strings.IsSpaceAscii` | bot/content.py:21-24 | a character is whitespace exactly when it is one of tab, line feed, vertical tab, form feed, carriage return, the four separators 0x1C-0x1F, or space |
| `Strings.StripPadding` | bot/content.py:24 | the input is the stripped result with only whitespace before and after it |
| `Strings.StripPadded` | bot/content.py:24 | stripping whitespace padding off an unpadded string gives that string back |
| `Strings.StripIdempotent` | bot/content.py:24 | stripping twice is stripping once |
| `Strings.Find` | bot/content.py:21 | an occurrence the search returns lies inside the text, at or after the start position |
| `Strings.FindSpec` | bot/content.py:21 | the search returns an occurrence with none between the start position and it, or there is no occurrence at or after the start position |
| `Strings.FindFirst` | bot/content.py:21 | the first occurrence at or after the start position is what the search finds |
| `Strings.Contains` | bot/content.py:80 | `needle in hay`; `ContainsIff` proves it holds exactly when the needle occurs at some position |
| `Strings.ContainsIff` | bot/content.py:80 | `needle in hay` holds exactly when the needle occurs at some position; the empty needle occurs in every string |
| `Strings.Split` | bot/content.py:46 | `split('\n')` gives at least one piece, and no piece contains a newline |
| `Strings.JoinSplit` | bot/content.py:46 | joining the pieces of a split with the separator gives the text back |
| `Strings.SplitJoin` | bot/content.py:46 | splitting joined separator-free pieces gives the pieces back |
| `Strings.Lower` | bot/content.py:80 | `lower()` keeps the length, leaves no upper-case letter and changes only letters |
| `Strings.LowerIdempotent` | bot/content.py:80 | lower-casing twice is lower-casing once |
| `Section.ExtractSection` | bot/content.py:18-26 | a section that is found is stripped |
| `Section.ExtractSectionFails` | bot/content.py:21-26 | extraction fails with SectionNotFound exactly when no end marker starts after an occurrence of the start marker |
| `Section.ExtractSectionIsFirstSpan` | bot/content.py:21-24 | the section is the text from the end of the first start marker to the first end marker after it, stripped |
| `Section.ExtractSectionOfDocument` | bot/content.py:21-24 | for pre + start + body + end + post, with no earlier start and no end inside the body, the section is the stripped body |
| `Section.ExtractGuideSection` | bot/content.py:28-31 | the Guide section fails exactly when no "## Contribution" follows a "### Guide"; otherwise it is stripped |
| `Section.GuideSectionOfDocument` | bot/content.py:28-31 | the text between the first "### Guide" and the first "## Contribution" after it is returned stripped |
| `Section.GuideSectionMissing` | bot/content.py:26-31 | a README without "### Guide", or without "## Contribution", raises "Section not found" |
| `LinePatterns.MatchHeading` | bot/content.py:36-37 | `#### (.+)` and `- ##### (.+)` match exactly when the prefix is followed by a non-newline character; the group follows the prefix, holds no newline and runs to the end of the line |
| `LinePatterns.MatchHeadingOfTitle` | bot/content.py:36-37 | a heading line gives back the title written after its prefix |
| `LinePatterns.MatchHeadingRejects` | bot/content.py:36-37 | a heading pattern fails on a line that differs from its prefix |
| `LinePatterns.MatchCategory` | bot/content.py:36 | `#### (.+)` matches exactly when the line starts with `#### ` and a character other than a line break follows; the title is the text after the prefix and holds no line break |
| `LinePatterns.MatchSubcategory` | bot/content.py:37 | `- ##### (.+)` matches exactly when the line starts with `- ##### ` and a character other than a line break follows; the title is the text after the prefix and holds no line break |
| `LinePatterns.MatchLink` | bot/content.py:39-40 | a matched link has a non-empty name without `]` and a non-empty link without `)` |
| `LinePatterns.MatchLinkIsPrefix` | bot/content.py:39-40 | the matched `[name](link)` is the text the match starts with |
| `LinePatterns.MatchLinkOfRendered` | bot/content.py:39-40 | every well-formed `[name](link)` matches as exactly that name and link, whatever text follows |
| `LinePatterns.ItemMatchIsPrefix` | bot/content.py:39 | a matched item line starts with `- ` and the link text |
| `LinePatterns.IndentedItemMatchIsPrefix` | bot/content.py:40 | a matched indented item line starts with two spaces, `- ` and the link text |
| `LinePatterns.MatchItem` | bot/content.py:39 | a matched item line starts with `- `, and its name and link are non-empty without `]` and `)` (the text itself: `ItemMatchIsPrefix`; the converse: `MatchItemOfRendered`) |
| `LinePatterns.MatchIndentedItem` | bot/content.py:40 | a matched indented item line starts with `  - `, and its name and link are non-empty without `]` and `)` (the text itself: `IndentedItemMatchIsPrefix`) |
| `LinePatterns.Classify` | bot/content.py:47-62 | the `if`/`elif` chain: a line is the kind of the pattern it matches, carrying what that pattern captured, and `OtherLine` exactly when no pattern matches; with `PatternsDisjoint` the order of the chain never matters |
| `LinePatterns.ItemStart` | bot/content.py:39 | a line the item pattern matches starts with `-`, then `[` in third place |
| `LinePatterns.IndentedItemStart` | bot/content.py:40 | a line the indented item pattern matches starts with a space |
| `LinePatterns.PatternsDisjoint` | bot/content.py:47-59 | no line matches two of the four patterns, so the order of the `elif` chain never decides between matches |
| `LinePatterns.ClassifyWellFormed` | bot/content.py:39-40 | every link line the chain recognises carries a non-empty name without `]` and a non-empty link without `)` |
| `LinePatterns.ClassifyItem` | bot/content.py:47-62 | a line the item pattern matches goes down the whole `elif` chain to the item branch |
| `LinePatterns.IndentedMatch` | bot/content.py:39-40 | after two spaces, the indented item pattern reads what the item pattern reads |
| `LinePatterns.IndentationKeepsLink` | bot/content.py:54-62 | an item line indented by two spaces becomes an indented item line with the same name and link |
| `LinePatterns.ClassifyCategoryShape` | bot/content.py:36 | `#### title` is a category line carrying the title, for any one-line title, padded or not |
| `LinePatterns.ClassifySubcategoryShape` | bot/content.py:37 | `- ##### title` is a subcategory line carrying the title, for any one-line title, padded or not |
| `LinePatterns.MatchItemOfRendered` | bot/content.py:39 | the item pattern reads `- [name](link)` back as that link |
| `LinePatterns.ClassifyItemShapes` | bot/content.py:39-40 | `- [name](link)` and `  - [name](link)` are item and indented item lines carrying the link |
| `Catalog.Label` | bot/content.py:56 | an entry's category text starts with the category; it is the category alone exactly when there is no subcategory, and otherwise continues with ` • ` and the subcategory |
| `Catalog.Step` | bot/content.py:47-62 | one loop iteration only appends entries, one per link line and none otherwise; only a `####` line changes the category, and only heading lines change the context |
| `Catalog.Run` | bot/content.py:42-64 | the loop over classified lines emits at most one entry per line (its context and entries are characterised by `RunContext` and `RunItems`) |
| `Catalog.CatalogOf` | bot/content.py:34-64 | the catalogue of a text has one entry per link line of it |
| `Catalog.ParseCategories` | bot/content.py:34-64 | the loop over the lines returns exactly the catalogue of the functional specification `Run` |
| `Catalog.LastCategoryLine` | bot/content.py:47-49 | the index found is a `####` line with none after it, or there is no `####` line |
| `Catalog.LastSubcategoryLine` | bot/content.py:51-52 | the index found is a `- #####` line with none after it, or there is no `- #####` line |
| `Catalog.CurrentAfterLine` | bot/content.py:47-52 | a `####` line sets the category and clears the subcategory, a `- #####` line sets only the subcategory, any other line changes neither |
| `Catalog.RunContext` | bot/content.py:43-52 | after any prefix of the lines, the category is the stripped title of the last `####` line, or "" before any. The subcategory is the stripped title of the last `- #####` line not followed by a `####` line, or "" |
| `Catalog.RunItems` | bot/content.py:46-62 | the entries are those of the link lines, one each, in line order. Each is labelled by the headings before it; heading and other lines add nothing |
| `Catalog.RunCount` | bot/content.py:54-62 | the number of entries equals the number of link lines |
| `Catalog.RunWellFormed` | bot/content.py:39-40 | every emitted name is non-empty and has no `]`; every emitted link is non-empty and has no `)` |
| `Catalog.CatalogWellFormed` | bot/content.py:34-64 | every entry of the catalogue of any text has such a name and link |
| `Catalog.IndentationIrrelevant` | bot/content.py:54-62 | a two-space-indented item line emits the same entry as the unindented line |
| `Catalog.NoHeadingsEmptyCategory` | bot/content.py:43-44 | without heading lines, the context stays empty and every entry has the empty category |
| `Catalog.CategoryClearsSubcategory` | bot/content.py:47-49 | a `####` line sets the category to its stripped title, clears the subcategory and emits nothing |
| `Catalog.ExampleBareCategory` | bot/content.py:59-62 | a heading followed by two links gives two entries with the bare category |
| `Catalog.ExampleJoinedCategory` | bot/content.py:51-57 | a heading, a subheading and an indented link give the category `A • B` |
| `Catalog.ExampleCategoryResets` | bot/content.py:46-62 | `#### A`, `- ##### B`, an indented link, `#### C`, a link give categories `A • B`, C |
| `ContentManager.Matches` | bot/content.py:80 | the comprehension's condition: the lower-cased query is in the lower-cased name or category (`MatchesIgnoresCaseAndLink`: it never reads the link) |
| `ContentManager.Filter` | bot/content.py:77-81 | the result holds each matching entry as often as the catalogue does and no other entry, and it is an order-preserving subsequence of the catalogue |
| `ContentManager.FilterMembers` | bot/content.py:77-81 | an entry is in the result exactly when it is in the catalogue and matches the query |
| `ContentManager.FilterEmptyQuery` | bot/content.py:80 | the empty query keeps the whole catalogue, in order |
| `ContentManager.FilterCaseInsensitive` | bot/content.py:80 | queries with the same lower-case form select the same entries |
| `ContentManager.MatchesIgnoresCaseAndLink` | bot/content.py:78-80 | the match test never reads the link, and it does not change when name and category are lower-cased |
| `ContentManager.GetCategories` | bot/content.py:66-70 | fails exactly when the Guide section is missing; otherwise returns the catalogue of that section |
| `ContentManager.SearchItems` | bot/content.py:72-81 | fails exactly when the Guide section is missing; otherwise returns the filtered catalogue |

## Left out

- `ContentManager.read_file` (bot/content.py:12-15): async file I/O. The README text is a parameter of every operation instead.
- `async`/`await`: the class methods are modelled as ordinary synchronous functions and methods.
- Regular-expression semantics in general: the five patterns are modelled by the prefix and substring matching they perform.
- Section.ExtractSection: requires an end marker that is empty or does not begin with whitespace. For an end marker that begins with whitespace, the regex's backtracking into the skipped whitespace can pick a later end occurrence, and the model does not capture that.
- Section.ExtractSection: markers are treated as literal text; escaping of regular-expression metacharacters is not modelled (the source does not escape them either).
- Strings.IsSpace: whitespace is the ASCII subset of Python's `\s`/`str.strip()` set; non-ASCII Unicode whitespace is not modelled.
- Strings.Lower: lower-cases ASCII letters only; Python's full Unicode case mapping is not modelled.
- bot/router.py, bot/__main__.py, bot/logger.py, bot/config.py: Telegram handlers, formatting, polling, logging and configuration are not part of this model.
