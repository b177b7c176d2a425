/** `ContentManager._extract_section` and `_extract_guide_section`
    (bot/content.py): cut the part of the README between two heading markers.

    The source runs `re.search(start + r'\s*(.*?)\s*' + end, content, re.DOTALL)`
    and strips group 1. With literal markers and an end marker that does not
    begin with whitespace, that match is: the first occurrence of `start`,
    then the first occurrence of `end` at or after the end of it, and group 1
    is the text between them without its surrounding whitespace. This module
    states it in those terms. */
module Section {

  import opened Wrappers
  import opened Strings

  /** The `RuntimeError("Section not found")` the source raises. */
  datatype Error = SectionNotFound

  /** The markers `_extract_guide_section` passes. */
  const GuideStart: string := "### Guide"
  const GuideEnd: string := "## Contribution"

  /** An end marker for which the regular expression's lazy group and the
      whitespace runs around it agree with plain substring search: it may not
      begin inside the whitespace run the pattern skips. */
  predicate PlainEndMarker(end: string)
  {
    end == [] || !IsSpace(end[0])
  }

  /** No occurrence of `end` starts at or after the end of an occurrence of
      `start`: the case in which the source raises. */
  ghost predicate NoSection(text: string, start: string, end: string)
  {
    forall i: nat, q: nat :: IsAt(text, start, i) && i + |start| <= q ==> !IsAt(text, end, q)
  }

  /** `_extract_section(start, end)` on the README text `text`. */
  function ExtractSection(text: string, start: string, end: string): (r: Result<string, Error>)
    requires PlainEndMarker(end)
    ensures r.Success? ==> Unpadded(r.value)
  {
    match Find(text, start, 0)
    case None => Failure(SectionNotFound)
    case Some(i) =>
      match Find(text, end, i + |start|)
      case None => Failure(SectionNotFound)
      case Some(q) => Success(Strip(text[i + |start|..q]))
  }

  /** The source raises exactly when no end marker follows a start marker. */
  lemma ExtractSectionFails(text: string, start: string, end: string)
    requires PlainEndMarker(end)
    ensures ExtractSection(text, start, end).Failure? <==> NoSection(text, start, end)
  {
    FindSpec(text, start, 0);
    match Find(text, start, 0)
    case None =>
    case Some(i) =>
      FindSpec(text, end, i + |start|);
      if Find(text, end, i + |start|).None? {
        forall i': nat, q: nat | IsAt(text, start, i') && i' + |start| <= q
          ensures !IsAt(text, end, q)
        {
          assert i <= i';
        }
      }
  }

  /** The section is the text from the end of the FIRST start marker to the
      FIRST end marker after it, stripped. */
  lemma ExtractSectionIsFirstSpan(text: string, start: string, end: string, i: nat, q: nat)
    requires PlainEndMarker(end)
    requires FirstAt(text, start, 0, i)
    requires FirstAt(text, end, i + |start|, q)
    ensures ExtractSection(text, start, end) == Success(Strip(text[i + |start|..q]))
  {
    FindFirst(text, start, 0, i);
    FindFirst(text, end, i + |start|, q);
    ExtractSectionOfSpan(text, start, end, i, q);
  }

  /** Once both searches have succeeded, the section is what lies between. */
  lemma ExtractSectionOfSpan(text: string, start: string, end: string, i: nat, q: nat)
    requires PlainEndMarker(end)
    requires Find(text, start, 0) == Some(i) && Find(text, end, i + |start|) == Some(q)
    ensures ExtractSection(text, start, end) == Success(Strip(text[i + |start|..q]))
  {
  }

  /** `_extract_guide_section()`: the README's "### Guide" section, up to the
      "## Contribution" heading; it fails exactly when no "## Contribution"
      follows a "### Guide". */
  function ExtractGuideSection(readme: string): (r: Result<string, Error>)
    ensures r.Failure? <==> NoSection(readme, GuideStart, GuideEnd)
    ensures r.Success? ==> Unpadded(r.value)
  {
    ExtractSectionFails(readme, GuideStart, GuideEnd);
    ExtractSection(readme, GuideStart, GuideEnd)
  }

  /** A document laid out as `pre`, start marker, body, end marker, `post`. */
  function Document(pre: string, start: string, body: string, end: string, post: string): string
  {
    pre + start + body + end + post
  }

  /** When the start marker does not occur earlier and the end marker does
      not occur inside the body, the section is exactly the body, stripped. */
  lemma {:induction false} ExtractSectionOfDocument(pre: string, start: string, body: string, end: string, post: string)
    requires PlainEndMarker(end)
    requires forall j :: 0 <= j < |pre| ==> !IsAt(Document(pre, start, body, end, post), start, j)
    requires forall j :: |pre| + |start| <= j < |pre| + |start| + |body| ==> !IsAt(Document(pre, start, body, end, post), end, j)
    ensures ExtractSection(Document(pre, start, body, end, post), start, end) == Success(Strip(body))
  {
    var text := Document(pre, start, body, end, post);
    var i, q := |pre|, |pre| + |start| + |body|;
    assert text[i..i + |start|] == start;
    assert text[q..q + |end|] == end;
    assert text[i + |start|..q] == body;
    ExtractSectionIsFirstSpan(text, start, end, i, q);
  }

  /** A README with a "### Guide" heading followed by "## Contribution"
      gives the text between them, stripped. */
  lemma GuideSectionOfDocument(pre: string, body: string, post: string)
    requires forall j :: 0 <= j < |pre| ==> !IsAt(Document(pre, GuideStart, body, GuideEnd, post), GuideStart, j)
    requires forall j :: |pre| + |GuideStart| <= j < |pre| + |GuideStart| + |body| ==> !IsAt(Document(pre, GuideStart, body, GuideEnd, post), GuideEnd, j)
    ensures ExtractGuideSection(Document(pre, GuideStart, body, GuideEnd, post)) == Success(Strip(body))
  {
    ExtractSectionOfDocument(pre, GuideStart, body, GuideEnd, post);
  }

  /** A README without a "### Guide" heading, or without a "## Contribution"
      heading, raises. */
  lemma GuideSectionMissing(text: string)
    requires (forall i :: !IsAt(text, GuideStart, i)) || (forall q :: !IsAt(text, GuideEnd, q))
    ensures ExtractGuideSection(text) == Failure(SectionNotFound)
  {
  }
}
