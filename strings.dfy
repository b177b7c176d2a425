/** The Python `str` operations that bot/content.py relies on, on `seq<char>`:
    `strip()`, `split('\n')`, `lower()` (ASCII letters only) and substring
    search (`in`, `re.search` of a literal marker). */
module Strings {

  import opened Wrappers

  /** Python's whitespace characters (`\s` in a `str` pattern and what
      `str.strip()` removes), restricted to the ASCII range. */
  predicate IsSpace(c: char)
  {
    // tab, line feed, vertical tab, form feed and carriage return are the
    // contiguous range 9..13; the four separators 0x1C..0x1F follow
    c == ' ' || ('\t' <= c <= '\r') || ('\U{1C}' <= c <= '\U{1F}')
  }

  /** The ASCII characters for which Python's `str.isspace()` holds. */
  const AsciiWhitespace: set<char> :=
    {'\t', '\n', '\U{0B}', '\U{0C}', '\r', '\U{1C}', '\U{1D}', '\U{1E}', '\U{1F}', ' '}

  /** `IsSpace` is exactly that set. */
  lemma IsSpaceAscii(c: char)
    ensures IsSpace(c) <==> c in AsciiWhitespace
  {
  }

  predicate AllSpace(s: string)
  {
    forall i :: 0 <= i < |s| ==> IsSpace(s[i])
  }

  /** No whitespace at either end. */
  predicate Unpadded(s: string)
  {
    s == [] || (!IsSpace(s[0]) && !IsSpace(s[|s| - 1]))
  }

  /** Number of whitespace characters at the start of `s`. */
  function LeadingSpace(s: string): (n: nat)
    ensures n <= |s|
  {
    if s == [] || !IsSpace(s[0]) then 0 else 1 + LeadingSpace(s[1..])
  }

  /** The leading run is all whitespace and stops at a non-whitespace
      character or at the end. */
  lemma {:induction false} LeadingSpaceRun(s: string)
    ensures forall i :: 0 <= i < LeadingSpace(s) ==> IsSpace(s[i])
    ensures LeadingSpace(s) < |s| ==> !IsSpace(s[LeadingSpace(s)])
  {
    if s != [] && IsSpace(s[0]) {
      LeadingSpaceRun(s[1..]);
    }
  }

  /** Number of whitespace characters at the end of `s`. */
  function TrailingSpace(s: string): (n: nat)
    ensures n <= |s|
  {
    if s == [] || !IsSpace(s[|s| - 1]) then 0 else 1 + TrailingSpace(s[..|s| - 1])
  }

  /** The trailing run is all whitespace and starts after a non-whitespace
      character or at the start. */
  lemma {:induction false} TrailingSpaceRun(s: string)
    ensures forall i :: |s| - TrailingSpace(s) <= i < |s| ==> IsSpace(s[i])
    ensures TrailingSpace(s) < |s| ==> !IsSpace(s[|s| - TrailingSpace(s) - 1])
  {
    if s != [] && IsSpace(s[|s| - 1]) {
      TrailingSpaceRun(s[..|s| - 1]);
    }
  }

  /** `s` is `r` with only whitespace before (the first `a` characters) and
      after it. */
  ghost predicate PaddingOf(s: string, a: nat, r: string)
  {
    a + |r| <= |s| && s[a..a + |r|] == r && AllSpace(s[..a]) && AllSpace(s[a + |r|..])
  }

  /** Python's `str.strip()` with no argument. */
  function Strip(s: string): (r: string)
    ensures Unpadded(r)
  {
    var t := s[LeadingSpace(s)..];
    var r := t[..|t| - TrailingSpace(t)];
    LeadingSpaceRun(s);
    TrailingSpaceRun(t);
    assert r != [] ==> r[0] == t[0] && r[|r| - 1] == t[|t| - TrailingSpace(t) - 1];
    r
  }

  /** `strip()` removes whitespace only, and only from the two ends: the
      result sits in `s` right after its leading whitespace run, with
      nothing but whitespace on either side. */
  lemma StripPadding(s: string)
    ensures PaddingOf(s, LeadingSpace(s), Strip(s))
  {
    var a := LeadingSpace(s);
    var t := s[a..];
    var b := TrailingSpace(t);
    assert Strip(s) == s[a..|s| - b] by {
      assert t[..|t| - b] == s[a..|s| - b];
    }
    assert PaddingOf(s, a, s[a..|s| - b]) by {
      LeadingSpaceRun(s);
      TrailingSpaceRun(t);
      forall i | |s| - b <= i < |s| ensures IsSpace(s[i]) { assert s[i] == t[i - a]; }
      PaddingOfEnds(s, a, b);
    }
  }

  /** Cutting `a` whitespace characters off the front and `b` off the back
      leaves a padding of what is in between. */
  lemma PaddingOfEnds(s: string, a: nat, b: nat)
    requires a + b <= |s|
    requires forall i :: 0 <= i < a ==> IsSpace(s[i])
    requires forall i :: |s| - b <= i < |s| ==> IsSpace(s[i])
    ensures PaddingOf(s, a, s[a..|s| - b])
  {
    var before, after := s[..a], s[|s| - b..];
    assert forall i :: 0 <= i < |before| ==> before[i] == s[i];
    assert forall i :: 0 <= i < |after| ==> after[i] == s[|s| - b + i];
  }

  /** The leading whitespace run is the one that ends at the first
      non-whitespace character. */
  lemma {:induction false} LeadingSpaceUnique(s: string, n: nat)
    requires n <= |s| && (forall i :: 0 <= i < n ==> IsSpace(s[i]))
    requires n < |s| ==> !IsSpace(s[n])
    ensures LeadingSpace(s) == n
  {
    if n > 0 {
      var t := s[1..];
      assert forall i :: 0 <= i < n - 1 ==> t[i] == s[i + 1];
      LeadingSpaceUnique(t, n - 1);
    }
  }

  /** The trailing whitespace run is the one that starts after the last
      non-whitespace character. */
  lemma {:induction false} TrailingSpaceUnique(s: string, n: nat)
    requires n <= |s| && (forall i :: |s| - n <= i < |s| ==> IsSpace(s[i]))
    requires n < |s| ==> !IsSpace(s[|s| - n - 1])
    ensures TrailingSpace(s) == n
  {
    if n > 0 {
      var t := s[..|s| - 1];
      assert forall i :: 0 <= i < |t| ==> t[i] == s[i];
      TrailingSpaceUnique(t, n - 1);
    }
  }

  /** Stripping the padding off a padded unpadded string gives it back. */
  lemma StripPadded(p: string, x: string, q: string)
    requires AllSpace(p) && AllSpace(q) && Unpadded(x)
    ensures Strip(p + x + q) == x
  {
    var s := p + x + q;
    if x == [] {
      assert s == p + q;
      assert AllSpace(s) by {
        forall i | 0 <= i < |s| ensures IsSpace(s[i]) {
          if i < |p| { assert s[i] == p[i]; } else { assert s[i] == q[i - |p|]; }
        }
      }
      assert s[..|s|] == s;
      LeadingSpaceUnique(s, |s|);
      assert s[|s|..] == [];
      TrailingSpaceUnique(s[|s|..], 0);
    } else {
      assert s[..|p|] == p;
      assert s[|p|] == x[0];
      LeadingSpaceUnique(s, |p|);
      var t := s[|p|..];
      assert t == x + q;
      assert t[|t| - |q|..] == q;
      assert t[|t| - |q| - 1] == x[|x| - 1];
      TrailingSpaceUnique(t, |q|);
      assert t[..|t| - |q|] == x;
    }
  }

  /** Stripping twice is stripping once. */
  lemma StripIdempotent(s: string)
    ensures Strip(Strip(s)) == Strip(s)
  {
    StripPadded([], Strip(s), []);
    assert [] + Strip(s) + [] == Strip(s);
  }

  /** Index of the first `c` in `s`, or `|s|` when there is none. */
  function IndexOf(s: string, c: char): (r: nat)
    ensures r <= |s|
    ensures r < |s| ==> s[r] == c
    ensures forall i :: 0 <= i < r ==> s[i] != c
  {
    if s == [] || s[0] == c then 0 else 1 + IndexOf(s[1..], c)
  }

  /** The first `c` is the one with no `c` before it. */
  lemma IndexOfUnique(s: string, c: char, n: nat)
    requires n < |s| && s[n] == c
    requires forall i :: 0 <= i < n ==> s[i] != c
    ensures IndexOf(s, c) == n
  {
  }

  /** Scanning `body + [c] + rest` for `c`, where `body` holds no `c`,
      stops right after `body`. */
  lemma IndexOfAfter(body: string, c: char, rest: string)
    requires c !in body
    ensures IndexOf(body + [c] + rest, c) == |body|
    ensures (body + [c] + rest)[..|body|] == body
    ensures (body + [c] + rest)[|body| + 1..] == rest
  {
    var s := body + [c] + rest;
    assert forall i :: 0 <= i < |body| ==> s[i] == body[i];
    IndexOfUnique(s, c, |body|);
  }

  /** `pat` occurs in `text` at position `i`. */
  predicate IsAt(text: string, pat: string, i: nat)
  {
    i + |pat| <= |text| && text[i..i + |pat|] == pat
  }

  /** `i` is the first position at or after `from` where `pat` occurs. */
  predicate FirstAt(text: string, pat: string, from: nat, i: nat)
  {
    from <= i && IsAt(text, pat, i) && forall j :: from <= j < i ==> !IsAt(text, pat, j)
  }

  /** Python's `text.find(pat, from)`: the first occurrence at or after
      `from` (see `FindSpec`). */
  function Find(text: string, pat: string, from: nat): (r: Option<nat>)
    ensures r.Some? ==> from <= r.value && r.value + |pat| <= |text|
    decreases |text| - from
  {
    if from > |text| then None
    else if IsAt(text, pat, from) then Some(from)
    else Find(text, pat, from + 1)
  }

  /** `Find` gives an occurrence with none before it, or there is none. */
  lemma {:induction false} FindSpec(text: string, pat: string, from: nat)
    ensures Find(text, pat, from).Some? ==> FirstAt(text, pat, from, Find(text, pat, from).value)
    ensures Find(text, pat, from).None? ==> forall i :: from <= i ==> !IsAt(text, pat, i)
    decreases |text| - from
  {
    if from <= |text| && !IsAt(text, pat, from) {
      FindSpec(text, pat, from + 1);
    }
  }

  /** `Find` returns the first occurrence, whichever way it was found. */
  lemma {:induction false} FindFirst(text: string, pat: string, from: nat, i: nat)
    requires FirstAt(text, pat, from, i)
    ensures Find(text, pat, from) == Some(i)
    decreases i - from
  {
    if from < i {
      assert !IsAt(text, pat, from);
      FindFirst(text, pat, from + 1, i);
    }
  }

  /** Python's `needle in hay` on strings. */
  predicate Contains(hay: string, needle: string)
  {
    Find(hay, needle, 0).Some?
  }

  /** `in` holds exactly when the needle occurs somewhere; the empty needle
      occurs in every string. */
  lemma ContainsIff(hay: string, needle: string, i: nat)
    ensures IsAt(hay, needle, i) ==> Contains(hay, needle)
    ensures Contains(hay, needle) ==> IsAt(hay, needle, Find(hay, needle, 0).value)
    ensures Contains(hay, [])
  {
    FindSpec(hay, needle, 0);
    FindSpec(hay, [], 0);
    assert IsAt(hay, [], 0);
  }

  /** Python's `s.split(sep)` with a one-character separator: the pieces
      between separators, including empty ones; never an empty list. */
  function Split(s: string, sep: char): (r: seq<string>)
    ensures |r| >= 1
    ensures forall k :: 0 <= k < |r| ==> sep !in r[k]
    decreases |s|
  {
    var j := IndexOf(s, sep);
    if j == |s| then [s]
    else [s[..j]] + Split(s[j + 1..], sep)
  }

  /** Python's `sep.join(parts)`. */
  function Join(parts: seq<string>, sep: char): string
  {
    if parts == [] then []
    else if |parts| == 1 then parts[0]
    else parts[0] + [sep] + Join(parts[1..], sep)
  }

  /** Splitting loses nothing: joining the pieces gives the text back. */
  lemma {:induction false} JoinSplit(s: string, sep: char)
    ensures Join(Split(s, sep), sep) == s
    decreases |s|
  {
    var j := IndexOf(s, sep);
    if j < |s| {
      var head, tail := s[..j], s[j + 1..];
      var pieces := Split(tail, sep);
      assert Split(s, sep) == [head] + pieces;
      JoinSplit(tail, sep);
      assert Join([head] + pieces, sep) == head + [sep] + Join(pieces, sep) by {
        assert ([head] + pieces)[1..] == pieces;
      }
      assert s == head + [sep] + tail;
    } else {
      assert Split(s, sep) == [s];
    }
  }

  /** Joining separator-free pieces and splitting again gives the pieces back. */
  lemma {:induction false} SplitJoin(parts: seq<string>, sep: char)
    requires |parts| >= 1
    requires forall k :: 0 <= k < |parts| ==> sep !in parts[k]
    ensures Split(Join(parts, sep), sep) == parts
  {
    if |parts| > 1 {
      var s := Join(parts, sep);
      var rest := Join(parts[1..], sep);
      assert s == parts[0] + [sep] + rest;
      IndexOfAfter(parts[0], sep, rest);
      SplitJoin(parts[1..], sep);
    } else {
      assert IndexOf(parts[0], sep) == |parts[0]|;
    }
  }

  /** Python's `str.lower()` on one character, ASCII letters only. */
  function LowerChar(c: char): char
  {
    if 'A' <= c <= 'Z' then (c as int - 'A' as int + 'a' as int) as char else c
  }

  /** Python's `str.lower()`, ASCII letters only. */
  function Lower(s: string): (r: string)
    ensures |r| == |s|
    ensures forall i :: 0 <= i < |s| ==> !('A' <= r[i] <= 'Z')
    ensures forall i :: 0 <= i < |s| ==> r[i] == s[i] || 'A' <= s[i] <= 'Z'
  {
    seq(|s|, i requires 0 <= i < |s| => LowerChar(s[i]))
  }

  /** Lower-casing is idempotent. */
  lemma LowerIdempotent(s: string)
    ensures Lower(Lower(s)) == Lower(s)
  {
  }
}
