/**
 * The Python `str` operations the listing parser applies to the text it has
 * extracted from a page: whitespace tests, `strip`, `lower`, `replace`,
 * `in`, `split`, `join`, `splitlines` and the code-point ordering `sorted`
 * uses. Whitespace, line boundaries and the ordering follow CPython's tables
 * for `str`; `lower` covers the ASCII letters only, and `split`/`join` take
 * the one-character separators the parser passes, so those two stand for
 * CPython only on such separators.
 */
module PyStr {

  /** `c.isspace()`: the characters Python counts as whitespace. */
  predicate IsSpace(c: char) {
    ('\t' <= c <= '\r') || ('\U{1C}' <= c <= ' ') || c == '\U{85}' || c == '\U{A0}'
    || c == '\U{1680}' || ('\U{2000}' <= c <= '\U{200A}') || c == '\U{2028}'
    || c == '\U{2029}' || c == '\U{202F}' || c == '\U{205F}' || c == '\U{3000}'
  }

  /** The line boundaries of `str.splitlines()` (a `\r\n` pair counts as one). */
  predicate IsLineBreak(c: char) {
    ('\n' <= c <= '\r') || ('\U{1C}' <= c <= '\U{1E}') || c == '\U{85}'
    || c == '\U{2028}' || c == '\U{2029}'
  }

  // ---------------------------------------------------------------------------
  // strip and lower
  // ---------------------------------------------------------------------------

  /** Number of whitespace characters that open `s`. */
  function LeadingSpaces(s: string): (n: nat)
    ensures n <= |s|
    ensures forall k :: 0 <= k < n ==> IsSpace(s[k])
    ensures n < |s| ==> !IsSpace(s[n])
  {
    if s != [] && IsSpace(s[0]) then 1 + LeadingSpaces(s[1..]) else 0
  }

  /** Number of whitespace characters that close `s`. */
  function TrailingSpaces(s: string): (n: nat)
    ensures n <= |s|
    ensures forall k :: |s| - n <= k < |s| ==> IsSpace(s[k])
    ensures n < |s| ==> !IsSpace(s[|s| - n - 1])
  {
    if s != [] && IsSpace(s[|s| - 1]) then 1 + TrailingSpaces(s[..|s| - 1]) else 0
  }

  /** `r` is the slice of `s` at `i` and only whitespace lies around it. */
  ghost predicate StrippedAt(s: string, r: string, i: nat) {
    && i + |r| <= |s|
    && r == s[i..i + |r|]
    && (forall k :: 0 <= k < i ==> IsSpace(s[k]))
    && (forall k :: i + |r| <= k < |s| ==> IsSpace(s[k]))
  }

  /** `s.strip()`: `s` without its leading and trailing whitespace. */
  function Strip(s: string): (r: string)
    ensures StrippedAt(s, r, LeadingSpaces(s))
    ensures r == [] || (!IsSpace(r[0]) && !IsSpace(r[|r| - 1]))
  {
    var i := LeadingSpaces(s);
    var rest := s[i..];
    var r := rest[..|rest| - TrailingSpaces(rest)];
    assert r == s[i..i + |r|];
    r
  }

  /** `c.lower()` on the ASCII letters; every other character is kept. */
  function LowerChar(c: char): char {
    if 'A' <= c <= 'Z' then (c as int + 32) as char else c
  }

  /** `s.lower()`, character by character. */
  function Lower(s: string): (r: string)
    ensures |r| == |s|
    ensures forall k :: 0 <= k < |s| ==> r[k] == LowerChar(s[k])
  {
    seq(|s|, k requires 0 <= k < |s| => LowerChar(s[k]))
  }

  // ---------------------------------------------------------------------------
  // in, replace
  // ---------------------------------------------------------------------------

  /** `pat in s`: `pat` occurs in `s` as a contiguous substring. */
  predicate HasSubstring(s: string, pat: string)
    decreases |s|
  {
    |pat| <= |s| && (s[..|pat|] == pat || HasSubstring(s[1..], pat))
  }

  /** `pat` starts at index `i` of `s`. */
  ghost predicate OccursAt(s: string, pat: string, i: nat) {
    i + |pat| <= |s| && s[i..i + |pat|] == pat
  }

  /** An occurrence past the first character is an occurrence in the tail, one place earlier. */
  lemma OccursInTail(s: string, pat: string, i: nat)
    requires s != [] && i > 0
    ensures OccursAt(s, pat, i) <==> OccursAt(s[1..], pat, i - 1)
  {
    if i + |pat| <= |s| {
      assert s[i..i + |pat|] == s[1..][i - 1..i - 1 + |pat|];
    }
  }

  /** `HasSubstring` holds exactly when `pat` starts at some index of `s`. */
  lemma {:induction false} HasSubstringAt(s: string, pat: string)
    ensures HasSubstring(s, pat) <==> exists i :: OccursAt(s, pat, i)
    decreases |s|
  {
    if |pat| <= |s| && s[..|pat|] == pat {
      assert OccursAt(s, pat, 0);
    } else if |pat| <= |s| {
      HasSubstringAt(s[1..], pat);
      if HasSubstring(s[1..], pat) {
        var i: nat :| OccursAt(s[1..], pat, i);
        OccursInTail(s, pat, i + 1);
      } else {
        forall i: nat ensures !OccursAt(s, pat, i) {
          if i == 0 {
            assert s[0..|pat|] == s[..|pat|];
          } else {
            OccursInTail(s, pat, i);
          }
        }
      }
    }
  }

  /** `s.replace(pat, "")`: every non-overlapping occurrence, left to right, removed. */
  function RemoveAll(s: string, pat: string): (r: string)
    requires pat != []
    ensures |r| <= |s|
    ensures !HasSubstring(s, pat) ==> r == s
    decreases |s|
  {
    if |s| < |pat| then s
    else if s[..|pat|] == pat then RemoveAll(s[|pat|..], pat)
    else [s[0]] + RemoveAll(s[1..], pat)
  }

  // ---------------------------------------------------------------------------
  // split and join on one separator character
  // ---------------------------------------------------------------------------

  /** `sep.join(parts)` for a one-character separator. */
  function Join(parts: seq<string>, sep: char): string {
    if parts == [] then ""
    else if |parts| == 1 then parts[0]
    else parts[0] + [sep] + Join(parts[1..], sep)
  }

  /** `s.split(sep)`: the pieces of `s` between occurrences of `sep`. */
  function Split(s: string, sep: char): (parts: seq<string>)
    ensures |parts| >= 1
    ensures forall k :: 0 <= k < |parts| ==> sep !in parts[k]
    ensures Join(parts, sep) == s
    decreases |s|
  {
    if s == [] then [""]
    else
      var rest := Split(s[1..], sep);
      if s[0] == sep then [""] + rest
      else [[s[0]] + rest[0]] + rest[1..]
  }

  /** Splitting a join of separator-free pieces gives the pieces back. */
  lemma {:induction false} SplitJoin(parts: seq<string>, sep: char)
    requires |parts| >= 1
    requires forall k :: 0 <= k < |parts| ==> sep !in parts[k]
    ensures Split(Join(parts, sep), sep) == parts
    decreases |parts|, |parts[0]|
  {
    var p := parts[0];
    if |parts| == 1 {
      if p != [] {
        SplitJoin([p[1..]], sep);
        assert [p[1..]][0] == p[1..];
      }
    } else if p == [] {
      SplitJoin(parts[1..], sep);
      assert Join(parts, sep) == [sep] + Join(parts[1..], sep);
      assert Join(parts, sep)[1..] == Join(parts[1..], sep);
    } else {
      var shorter := [p[1..]] + parts[1..];
      SplitJoin(shorter, sep);
      assert Join(parts, sep) == [p[0]] + Join(shorter, sep);
      assert Join(parts, sep)[1..] == Join(shorter, sep);
      assert Split(Join(parts, sep), sep) == [[p[0]] + p[1..]] + parts[1..];
      assert [p[0]] + p[1..] == p;
    }
  }

  // ---------------------------------------------------------------------------
  // split() on whitespace and splitlines()
  // ---------------------------------------------------------------------------

  /** A piece of `s.split()`: non-empty and free of whitespace. */
  ghost predicate IsWord(w: string) {
    w != [] && forall k :: 0 <= k < |w| ==> !IsSpace(w[k])
  }

  /** Length of the run of non-whitespace characters that opens `s`. */
  function WordLength(s: string): (n: nat)
    ensures n <= |s|
    ensures forall k :: 0 <= k < n ==> !IsSpace(s[k])
    ensures n < |s| ==> IsSpace(s[n])
  {
    if s != [] && !IsSpace(s[0]) then 1 + WordLength(s[1..]) else 0
  }

  /** `s.split()`: the maximal runs of non-whitespace characters, in order. */
  function Words(s: string): (ws: seq<string>)
    ensures forall k :: 0 <= k < |ws| ==> IsWord(ws[k])
    decreases |s|
  {
    if s == [] then []
    else if IsSpace(s[0]) then Words(s[1..])
    else
      var n := WordLength(s);
      [s[..n]] + Words(s[n..])
  }

  /** Length of the line that opens `s`, up to its first line boundary. */
  function LineLength(s: string): (n: nat)
    ensures n <= |s|
    ensures forall k :: 0 <= k < n ==> !IsLineBreak(s[k])
    ensures n < |s| ==> IsLineBreak(s[n])
  {
    if s != [] && !IsLineBreak(s[0]) then 1 + LineLength(s[1..]) else 0
  }

  /** Width of the line boundary at index `n` of `s`: 2 for `\r\n`, else 1. */
  function BreakWidth(s: string, n: nat): (w: nat)
    requires n < |s|
    ensures n + w <= |s|
  {
    if s[n] == '\r' && n + 1 < |s| && s[n + 1] == '\n' then 2 else 1
  }

  /** `s.splitlines()`: the lines of `s` without their boundaries; no line after a final boundary. */
  function SplitLines(s: string): (lines: seq<string>)
    decreases |s|
  {
    if s == [] then []
    else
      var n := LineLength(s);
      if n == |s| then [s]
      else [s[..n]] + SplitLines(s[n + BreakWidth(s, n)..])
  }

  /** The words of every string of `lines`, in order. */
  function WordsOfAll(lines: seq<string>): seq<string> {
    if lines == [] then [] else Words(lines[0]) + WordsOfAll(lines[1..])
  }

  /** A whitespace character separates words: the words around it are those of each side. */
  lemma {:induction false} WordsAcrossSpace(a: string, c: char, b: string)
    requires IsSpace(c)
    ensures Words(a + [c] + b) == Words(a) + Words(b)
    decreases |a|
  {
    var s := a + [c] + b;
    if a == [] {
      assert s == [c] + b;
      assert s[1..] == b;
    } else if IsSpace(a[0]) {
      WordsAcrossSpace(a[1..], c, b);
      assert s[1..] == a[1..] + [c] + b;
    } else {
      var n := WordLength(s);
      WordLengthOfPrefix(a, [c] + b);
      assert s == a + ([c] + b);
      assert n == WordLength(a) && n <= |a|;
      assert s[..n] == a[..n];
      assert s[n..] == a[n..] + [c] + b;
      WordsAcrossSpace(a[n..], c, b);
    }
  }

  /** A word that ends inside `a` is not changed by what follows `a` after a whitespace. */
  lemma {:induction false} WordLengthOfPrefix(a: string, rest: string)
    requires rest != [] && IsSpace(rest[0])
    ensures WordLength(a + rest) == WordLength(a)
    decreases |a|
  {
    if a != [] && !IsSpace(a[0]) {
      WordLengthOfPrefix(a[1..], rest);
      assert (a + rest)[1..] == a[1..] + rest;
    } else if a == [] {
      assert a + rest == rest;
    }
  }

  /** The words of a single-space join are the words of the pieces. */
  lemma {:induction false} WordsOfJoin(lines: seq<string>)
    ensures Words(Join(lines, ' ')) == WordsOfAll(lines)
    decreases |lines|
  {
    if |lines| == 1 {
      assert WordsOfAll(lines[1..]) == [];
      assert Words(lines[0]) + [] == Words(lines[0]);
    } else if |lines| > 1 {
      WordsOfJoin(lines[1..]);
      WordsAcrossSpace(lines[0], ' ', Join(lines[1..], ' '));
    }
  }

  /** Every line boundary is whitespace. */
  lemma LineBreakIsSpace(c: char)
    requires IsLineBreak(c)
    ensures IsSpace(c)
  {
  }

  /** Leading whitespace contributes no word. */
  lemma WordsSkipSpace(t: string)
    requires t != [] && IsSpace(t[0])
    ensures Words(t) == Words(t[1..])
  {
  }

  /** A line boundary separates words: the words are those of the first line and of what follows the boundary. */
  lemma WordsAroundBreak(s: string, n: nat)
    requires n == LineLength(s) && n < |s|
    ensures Words(s) == Words(s[..n]) + Words(s[n + BreakWidth(s, n)..])
  {
    LineBreakIsSpace(s[n]);
    WordsAtSpace(s, n);
    if BreakWidth(s, n) == 2 {
      var t := s[n + 1..];
      assert t[0] == '\n' && t[1..] == s[n + 2..];
      WordsSkipSpace(t);
    }
  }

  /** The words on either side of a whitespace character. */
  lemma WordsAtSpace(s: string, n: nat)
    requires n < |s| && IsSpace(s[n])
    ensures Words(s) == Words(s[..n]) + Words(s[n + 1..])
  {
    assert s == s[..n] + [s[n]] + s[n + 1..];
    WordsAcrossSpace(s[..n], s[n], s[n + 1..]);
  }

  /** Cutting `s` at its line boundaries loses no word and joins none. */
  lemma {:induction false} WordsOfLines(s: string)
    ensures WordsOfAll(SplitLines(s)) == Words(s)
    decreases |s|
  {
    if s != [] {
      var n := LineLength(s);
      if n == |s| {
        assert SplitLines(s) == [s];
        assert WordsOfAll([s]) == Words(s) + WordsOfAll([]);
      } else {
        var next := n + BreakWidth(s, n);
        WordsOfLines(s[next..]);
        WordsAroundBreak(s, n);
        assert SplitLines(s)[1..] == SplitLines(s[next..]);
      }
    }
  }

  /** `" ".join(s.splitlines())` followed by `.split()` gives the words of `s` itself. */
  lemma WordsIgnoreLineJoin(s: string)
    ensures Words(Join(SplitLines(s), ' ')) == Words(s)
  {
    WordsOfJoin(SplitLines(s));
    WordsOfLines(s);
  }

  /** Every whitespace character is a space with no whitespace right after it. */
  ghost predicate SingleSpaced(s: string) {
    forall k :: 0 <= k < |s| && IsSpace(s[k]) ==> s[k] == ' ' && (k + 1 < |s| ==> !IsSpace(s[k + 1]))
  }

  /** Single spaces between non-blank text, and no whitespace at either end. */
  ghost predicate Collapsed(s: string) {
    SingleSpaced(s) && (s == [] || (!IsSpace(s[0]) && !IsSpace(s[|s| - 1])))
  }

  /** `" ".join(s.split())`: every run of whitespace becomes one space, the ends are trimmed. */
  function CollapseSpaces(s: string): (r: string)
    ensures Collapsed(r)
    ensures Words(r) == Words(s)
  {
    var ws := Words(s);
    JoinOfWordsCollapsed(ws);
    WordsOfJoin(ws);
    WordsOfWords(ws);
    Join(ws, ' ')
  }

  /** Joining words with single spaces gives a collapsed string. */
  lemma {:induction false} JoinOfWordsCollapsed(ws: seq<string>)
    requires forall k :: 0 <= k < |ws| ==> IsWord(ws[k])
    ensures Collapsed(Join(ws, ' '))
    decreases |ws|
  {
    if |ws| > 1 {
      JoinOfWordsCollapsed(ws[1..]);
      var j := Join(ws[1..], ' ');
      var s := Join(ws, ' ');
      assert s == ws[0] + [' '] + j;
      assert j != [] by {
        assert |ws[1..]| >= 1;
        JoinStartsWithFirst(ws[1..]);
      }
      forall k | 0 <= k < |s| && IsSpace(s[k])
        ensures s[k] == ' ' && (k + 1 < |s| ==> !IsSpace(s[k + 1]))
      {
        if k == |ws[0]| {
          assert s[k + 1] == j[0];
        } else {
          assert s[k] == j[k - |ws[0]| - 1];
          if k + 1 < |s| {
            assert s[k + 1] == j[k - |ws[0]|];
          }
        }
      }
      assert s[|s| - 1] == j[|j| - 1];
    }
  }

  /** A join of words is non-empty and starts with its first word. */
  lemma JoinStartsWithFirst(ws: seq<string>)
    requires |ws| >= 1 && ws[0] != []
    ensures Join(ws, ' ') != [] && Join(ws, ' ')[0] == ws[0][0]
  {
  }

  /** The words of a list of words are that list. */
  lemma {:induction false} WordsOfWords(ws: seq<string>)
    requires forall k :: 0 <= k < |ws| ==> IsWord(ws[k])
    ensures WordsOfAll(ws) == ws
    decreases |ws|
  {
    if ws != [] {
      WordsOfWords(ws[1..]);
      WordsOfOneWord(ws[0]);
      assert [ws[0]] + ws[1..] == ws;
    }
  }

  /** A word is its own only word. */
  lemma WordsOfOneWord(w: string)
    requires IsWord(w)
    ensures Words(w) == [w]
  {
    assert WordLength(w) == |w|;
    assert w[..|w|] == w && w[|w|..] == [];
  }

  /** A slice of a single-spaced string is single-spaced. */
  lemma SliceSingleSpaced(s: string, i: nat, j: nat)
    requires SingleSpaced(s) && i <= j <= |s|
    ensures SingleSpaced(s[i..j])
  {
    var t := s[i..j];
    forall k | 0 <= k < |t| && IsSpace(t[k])
      ensures t[k] == ' ' && (k + 1 < |t| ==> !IsSpace(t[k + 1]))
    {
      assert t[k] == s[i + k];
      if k + 1 < |t| {
        assert t[k + 1] == s[i + k + 1];
      }
    }
  }

  /** The pieces of a split of a single-spaced string are single-spaced. */
  lemma {:induction false} SplitSingleSpaced(s: string, sep: char)
    requires SingleSpaced(s)
    ensures forall k :: 0 <= k < |Split(s, sep)| ==> SingleSpaced(Split(s, sep)[k])
    decreases |s|
  {
    if s != [] {
      SliceSingleSpaced(s, 1, |s|);
      SplitSingleSpaced(s[1..], sep);
      var rest := Split(s[1..], sep);
      if s[0] != sep {
        var p := [s[0]] + rest[0];
        JoinPrefix(rest, sep);
        assert rest[0] == s[1..][..|rest[0]|];
        assert p == s[..|p|];
        SliceSingleSpaced(s, 0, |p|);
        assert Split(s, sep) == [p] + rest[1..];
      }
    }
  }

  /** The first piece of a join is a prefix of it. */
  lemma JoinPrefix(parts: seq<string>, sep: char)
    requires |parts| >= 1
    ensures |parts[0]| <= |Join(parts, sep)|
    ensures Join(parts, sep)[..|parts[0]|] == parts[0]
  {
  }

  /** Stripping a single-spaced string leaves it collapsed. */
  lemma StripCollapsed(s: string)
    requires SingleSpaced(s)
    ensures Collapsed(Strip(s))
  {
    var i := LeadingSpaces(s);
    SliceSingleSpaced(s, i, i + |Strip(s)|);
  }

  // ---------------------------------------------------------------------------
  // ordering and sorted(set(...))
  // ---------------------------------------------------------------------------

  /** `a < b` on `str`: lexicographic by code point, a proper prefix first. */
  predicate StrLt(a: string, b: string)
    decreases |a|
  {
    if a == [] then b != []
    else if b == [] then false
    else a[0] < b[0] || (a[0] == b[0] && StrLt(a[1..], b[1..]))
  }

  lemma {:induction false} StrLtIrreflexive(a: string)
    ensures !StrLt(a, a)
    decreases |a|
  {
    if a != [] {
      StrLtIrreflexive(a[1..]);
    }
  }

  lemma {:induction false} StrLtTransitive(a: string, b: string, c: string)
    requires StrLt(a, b) && StrLt(b, c)
    ensures StrLt(a, c)
    decreases |a|
  {
    if a != [] && b != [] && c != [] && a[0] == b[0] == c[0] {
      StrLtTransitive(a[1..], b[1..], c[1..]);
    }
  }

  lemma {:induction false} StrLtTotal(a: string, b: string)
    requires a != b
    ensures StrLt(a, b) || StrLt(b, a)
    decreases |a|
  {
    if a != [] && b != [] && a[0] == b[0] {
      assert a == [a[0]] + a[1..] && b == [b[0]] + b[1..];
      StrLtTotal(a[1..], b[1..]);
    }
  }

  /** Strictly increasing, hence free of duplicates. */
  ghost predicate StrictlySorted(s: seq<string>) {
    forall i, j :: 0 <= i < j < |s| ==> StrLt(s[i], s[j])
  }

  /** Puts `x` into its place in a strictly increasing list unless it is already there. */
  function InsertSorted(x: string, s: seq<string>): (r: seq<string>)
    requires StrictlySorted(s)
    ensures StrictlySorted(r)
    ensures forall y :: y in r <==> y in s || y == x
    decreases |s|
  {
    if s == [] then [x]
    else if x == s[0] then s
    else if StrLt(x, s[0]) then
      assert forall j :: 0 < j < |s| ==> StrLt(x, s[j]) by {
        forall j | 0 < j < |s| ensures StrLt(x, s[j]) {
          StrLtTransitive(x, s[0], s[j]);
        }
      }
      [x] + s
    else
      StrLtTotal(x, s[0]);
      var t := InsertSorted(x, s[1..]);
      assert forall j :: 0 <= j < |t| ==> StrLt(s[0], t[j]) by {
        forall j | 0 <= j < |t| ensures StrLt(s[0], t[j]) {
          assert t[j] in t;
        }
      }
      [s[0]] + t
  }

  /** `sorted(set(xs))`: the distinct strings of `xs` in increasing order. */
  function SortedSet(xs: seq<string>): (r: seq<string>)
    ensures StrictlySorted(r)
    ensures forall y :: y in r <==> y in xs
    decreases |xs|
  {
    if xs == [] then []
    else InsertSorted(xs[|xs| - 1], SortedSet(xs[..|xs| - 1]))
  }

  /** Two strictly increasing lists with the same elements are the same list. */
  lemma {:induction false} StrictlySortedUnique(a: seq<string>, b: seq<string>)
    requires StrictlySorted(a) && StrictlySorted(b)
    requires forall y :: y in a <==> y in b
    ensures a == b
    decreases |a|
  {
    assert a == [] <==> b == [] by {
      if a != [] { assert a[0] in a; }
      if b != [] { assert b[0] in b; }
    }
    if a != [] {
      HeadIsLeast(a, b[0]);
      HeadIsLeast(b, a[0]);
      StrLtIrreflexive(a[0]);
      if a[0] != b[0] {
        StrLtTransitive(a[0], b[0], a[0]);
      }
      forall y ensures y in a[1..] <==> y in b[1..] {
        InTail(a, y);
        InTail(b, y);
      }
      StrictlySortedUnique(a[1..], b[1..]);
      assert a == [a[0]] + a[1..] && b == [b[0]] + b[1..];
    }
  }

  /** The head of a strictly increasing list is below every other element. */
  lemma HeadIsLeast(a: seq<string>, y: string)
    requires StrictlySorted(a) && a != [] && y in a
    ensures y == a[0] || StrLt(a[0], y)
  {
  }

  /** In a strictly increasing list, the elements after the head are the others. */
  lemma InTail(a: seq<string>, y: string)
    requires StrictlySorted(a) && a != []
    ensures y in a[1..] <==> y in a && y != a[0]
  {
    if y in a[1..] {
      var j :| 1 <= j < |a| && a[j] == y;
      StrLtIrreflexive(y);
      assert StrLt(a[0], a[j]);
    }
    if y in a && y != a[0] {
      var j :| 0 <= j < |a| && a[j] == y;
      assert a[1..][j - 1] == y;
    }
  }

  // ---------------------------------------------------------------------------
  // decimal digits
  // ---------------------------------------------------------------------------

  function DigitChar(d: nat): (c: char)
    requires d < 10
    ensures '0' <= c <= '9'
  {
    ('0' as int + d) as char
  }

  /** The last `width` decimal digits of `n`, zero padded on the left (`f"{n:0{width}d}"` for small `n`). */
  function Digits(n: nat, width: nat): (r: string)
    ensures |r| == width
    ensures forall k :: 0 <= k < |r| ==> '0' <= r[k] <= '9'
  {
    if width == 0 then "" else Digits(n / 10, width - 1) + [DigitChar(n % 10)]
  }

  /** The number a string of decimal digits denotes. */
  function DecimalValue(s: string): nat
    requires forall k :: 0 <= k < |s| ==> '0' <= s[k] <= '9'
  {
    if s == [] then 0 else 10 * DecimalValue(s[..|s| - 1]) + (s[|s| - 1] as int - '0' as int)
  }

  function Pow10(width: nat): (p: nat)
    ensures p > 0
  {
    if width == 0 then 1 else 10 * Pow10(width - 1)
  }

  /** The digits read back give `n` when `n` fits in `width` digits. */
  lemma {:induction false} DigitsValue(n: nat, width: nat)
    requires n < Pow10(width)
    ensures DecimalValue(Digits(n, width)) == n
  {
    if width > 0 {
      var r := Digits(n, width);
      var q, d := n / 10, n % 10;
      assert n == 10 * q + d && d < 10;
      assert q < Pow10(width - 1);
      assert r[..|r| - 1] == Digits(q, width - 1);
      assert r[|r| - 1] == DigitChar(d);
      DigitsValue(q, width - 1);
    }
  }

  /** `s.count(c)` for one character. */
  function Count(s: string, c: char): nat {
    if s == [] then 0 else (if s[|s| - 1] == c then 1 else 0) + Count(s[..|s| - 1], c)
  }

  lemma {:induction false} CountAppend(a: string, b: string, c: char)
    ensures Count(a + b, c) == Count(a, c) + Count(b, c)
    decreases |b|
  {
    if b != [] {
      assert (a + b)[..|a + b| - 1] == a + b[..|b| - 1];
      CountAppend(a, b[..|b| - 1], c);
    } else {
      assert a + b == a;
    }
  }

  lemma {:induction false} CountAbsent(s: string, c: char)
    requires c !in s
    ensures Count(s, c) == 0
  {
    if s != [] {
      assert s[..|s| - 1] <= s;
      CountAbsent(s[..|s| - 1], c);
    }
  }
}
