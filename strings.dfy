/**
 * The pieces of Rust's string library that the tool relies on, written as
 * functions over `seq<char>`: `str::contains`, `str::replace` with an empty
 * replacement, `str::trim`, `str::split` on one character and the decimal
 * `to_string` of an unsigned integer. Each comes with lemmas that pin it
 * down without its definition: for `DeleteAll`, the text is unchanged
 * exactly when the pattern does not occur, and otherwise the first
 * occurrence is dropped and the scan resumes after it.
 */
module Strings {

  /* ---------------------------------------------------------------------- */
  /* Subsequences                                                            */
  /* ---------------------------------------------------------------------- */

  /** `a` is obtained from `b` by deleting elements, keeping the order of the rest. */
  predicate IsSubsequence<T(==)>(a: seq<T>, b: seq<T>)
    decreases |b|
  {
    a == [] || (b != [] && if a[0] == b[0] then IsSubsequence(a[1..], b[1..]) else IsSubsequence(a, b[1..]))
  }

  lemma {:induction false} SubsequenceDropHead<T>(a: seq<T>, b: seq<T>)
    requires a != [] && IsSubsequence(a, b)
    ensures IsSubsequence(a[1..], b)
    decreases |b|, 1
  {
    if a[0] == b[0] {
      SubsequenceOfTail(a[1..], b);
    } else {
      SubsequenceDropHead(a, b[1..]);
      SubsequenceOfTail(a[1..], b);
    }
  }

  /** Extending the longer sequence at the front keeps a subsequence a subsequence. */
  lemma {:induction false} SubsequenceOfTail<T>(a: seq<T>, b: seq<T>)
    requires b != [] && IsSubsequence(a, b[1..])
    ensures IsSubsequence(a, b)
    decreases |b|, 0
  {
    if a != [] && a[0] == b[0] {
      SubsequenceDropHead(a, b[1..]);
    }
  }

  lemma {:induction false} SubsequenceCons<T>(x: T, a: seq<T>, b: seq<T>)
    requires IsSubsequence(a, b)
    ensures IsSubsequence([x] + a, [x] + b)
  {
    assert ([x] + a)[1..] == a;
    assert ([x] + b)[1..] == b;
  }

  lemma {:induction false} SubsequenceAppendLeft<T>(a: seq<T>, c: seq<T>, b: seq<T>)
    requires IsSubsequence(a, b)
    ensures IsSubsequence(a, c + b)
    decreases |c|
  {
    if c != [] {
      SubsequenceAppendLeft(a, c[1..], b);
      assert (c + b)[1..] == c[1..] + b;
      SubsequenceOfTail(a, c + b);
    } else {
      assert c + b == b;
    }
  }

  lemma {:induction false} SubsequenceReflexive<T>(a: seq<T>)
    ensures IsSubsequence(a, a)
    decreases |a|
  {
    if a != [] {
      SubsequenceReflexive(a[1..]);
    }
  }

  /* ---------------------------------------------------------------------- */
  /* str::contains                                                           */
  /* ---------------------------------------------------------------------- */

  predicate StartsWith(s: string, p: string) {
    |p| <= |s| && s[..|p|] == p
  }

  /** Rust's `str::contains` with a string pattern: `t` occurs somewhere in `s`; the empty text occurs in every string. */
  predicate Contains(s: string, t: string)
    decreases |s|
  {
    StartsWith(s, t) || (s != [] && Contains(s[1..], t))
  }

  /** `t` occurs in `s` starting at index `i`. */
  ghost predicate OccursAt(s: string, t: string, i: int) {
    0 <= i && i + |t| <= |s| && s[i..i + |t|] == t
  }

  lemma {:induction false} OccursAtContains(s: string, t: string, i: int)
    requires OccursAt(s, t, i)
    ensures Contains(s, t)
    decreases i
  {
    if i > 0 {
      assert s[1..][i - 1..i - 1 + |t|] == s[i..i + |t|];
      OccursAtContains(s[1..], t, i - 1);
    }
  }

  /** `Contains` holds exactly when the pattern occurs at some index. */
  lemma {:induction false} ContainsIffOccurs(s: string, t: string)
    ensures Contains(s, t) <==> exists i :: OccursAt(s, t, i)
    decreases |s|
  {
    if StartsWith(s, t) {
      assert OccursAt(s, t, 0);
    } else if s != [] {
      ContainsIffOccurs(s[1..], t);
      if Contains(s[1..], t) {
        var i :| OccursAt(s[1..], t, i);
        assert s[1..][i..i + |t|] == s[i + 1..i + 1 + |t|];
        assert OccursAt(s, t, i + 1);
      }
    }
    if exists i :: OccursAt(s, t, i) {
      var i :| OccursAt(s, t, i);
      OccursAtContains(s, t, i);
    }
  }

  /** A pattern whose first character does not appear in `s` does not occur in `s`. */
  lemma {:induction false} NotContainsFirstChar(s: string, t: string)
    requires t != [] && t[0] !in s
    ensures !Contains(s, t)
    decreases |s|
  {
    if s != [] {
      assert s[0] != t[0];
      NotContainsFirstChar(s[1..], t);
    }
  }

  /* ---------------------------------------------------------------------- */
  /* str::replace(p, "")                                                     */
  /* ---------------------------------------------------------------------- */

  /**
   * Rust's `s.replace(p, "")`: scanning left to right, every non-overlapping
   * occurrence of `p` is deleted. Replacing the empty text by the empty text
   * leaves `s` as it is.
   */
  function DeleteAll(s: string, p: string): (r: string)
    ensures |r| <= |s|
    decreases |s|
  {
    if p == [] || s == [] then s
    else if StartsWith(s, p) then DeleteAll(s[|p|..], p)
    else [s[0]] + DeleteAll(s[1..], p)
  }

  /** Deleting only removes characters: the result is a subsequence of the text. */
  lemma {:induction false} DeleteAllIsSubsequence(s: string, p: string)
    ensures IsSubsequence(DeleteAll(s, p), s)
    decreases |s|
  {
    if p == [] || s == [] {
      SubsequenceReflexive(s);
    } else if StartsWith(s, p) {
      DeleteAllIsSubsequence(s[|p|..], p);
      assert s == s[..|p|] + s[|p|..];
      SubsequenceAppendLeft(DeleteAll(s[|p|..], p), s[..|p|], s[|p|..]);
    } else {
      DeleteAllIsSubsequence(s[1..], p);
      SubsequenceCons(s[0], DeleteAll(s[1..], p), s[1..]);
      assert s == [s[0]] + s[1..];
    }
  }

  /** Every deletion shortens the text by the length of the pattern. */
  lemma {:induction false} DeleteAllShrinks(s: string, p: string)
    requires p != [] && Contains(s, p)
    ensures |DeleteAll(s, p)| <= |s| - |p|
    decreases |s|
  {
    if !StartsWith(s, p) {
      DeleteAllShrinks(s[1..], p);
    }
  }

  /** The text is left unchanged exactly when the (non-empty) pattern does not occur in it. */
  lemma {:induction false} DeleteAllUnchangedIff(s: string, p: string)
    requires p != []
    ensures DeleteAll(s, p) == s <==> !Contains(s, p)
    decreases |s|
  {
    if Contains(s, p) {
      DeleteAllShrinks(s, p);
    } else if s != [] {
      DeleteAllUnchangedIff(s[1..], p);
      assert [s[0]] + s[1..] == s;
    }
  }

  /** An occurrence at the very front is deleted and scanning resumes right after it. */
  lemma DeleteAllLeading(p: string, rest: string)
    requires p != []
    ensures DeleteAll(p + rest, p) == DeleteAll(rest, p)
  {
    assert (p + rest)[..|p|] == p;
    assert (p + rest)[|p|..] == rest;
  }

  /**
   * The first occurrence decides the result: the text before it is kept, the
   * occurrence is deleted, and scanning resumes right after it. Together with
   * `DeleteAllUnchangedIff` for a text without occurrence, this determines
   * `DeleteAll` on every input.
   */
  lemma DeleteAllAtFirst(s: string, p: string, i: nat)
    requires p != [] && OccursAt(s, p, i)
    requires forall j :: 0 <= j < i ==> !OccursAt(s, p, j)
    ensures DeleteAll(s, p) == s[..i] + DeleteAll(s[i + |p|..], p)
  {
    assert s == s[..i] + s[i..];
    DeleteAllKeepsPrefix(s[..i], s[i..], p);
    assert s[i..] == p + s[i + |p|..];
    DeleteAllLeading(p, s[i + |p|..]);
  }

  /** A prefix in which no occurrence starts is kept as it is. */
  lemma {:induction false} DeleteAllKeepsPrefix(a: string, b: string, p: string)
    requires p != []
    requires forall j :: 0 <= j < |a| ==> !OccursAt(a + b, p, j)
    ensures DeleteAll(a + b, p) == a + DeleteAll(b, p)
    decreases |a|
  {
    if a == [] {
      assert a + b == b;
    } else {
      var s := a + b;
      assert !StartsWith(s, p) by {
        assert !OccursAt(s, p, 0);
      }
      assert s[1..] == a[1..] + b;
      forall j | 0 <= j < |a| - 1
        ensures !OccursAt(a[1..] + b, p, j)
      {
        OccursAtTail(s, p, j);
      }
      DeleteAllKeepsPrefix(a[1..], b, p);
      assert DeleteAll(s, p) == [a[0]] + (a[1..] + DeleteAll(b, p));
      ConcatAssoc([a[0]], a[1..], DeleteAll(b, p));
      assert [a[0]] + a[1..] == a;
    }
  }

  /** An occurrence in the tail is an occurrence one position further in the text. */
  lemma OccursAtTail(s: string, p: string, j: nat)
    requires s != []
    ensures OccursAt(s[1..], p, j) <==> OccursAt(s, p, j + 1)
  {
    if j + 1 + |p| <= |s| {
      assert s[1..][j..j + |p|] == s[j + 1..j + 1 + |p|];
    }
  }

  lemma ConcatAssoc<T>(a: seq<T>, b: seq<T>, c: seq<T>)
    ensures a + (b + c) == (a + b) + c
  {
  }

  /** Text before the first occurrence that cannot start a match is kept as it is. */
  lemma {:induction false} DeleteAllKeepsUnmatched(a: string, b: string, p: string)
    requires p != [] && p[0] !in a
    ensures DeleteAll(a + b, p) == a + DeleteAll(b, p)
    decreases |a|
  {
    if a != [] {
      var s := a + b;
      assert s[0] == a[0] != p[0];
      assert |p| <= |s| ==> s[..|p|][0] != p[0];
      assert DeleteAll(s, p) == [s[0]] + DeleteAll(s[1..], p);
      assert s[1..] == a[1..] + b;
      DeleteAllKeepsUnmatched(a[1..], b, p);
      assert [a[0]] + a[1..] == a;
    } else {
      assert a + b == b;
    }
  }

  /** A second occurrence after text that cannot start a match is deleted as well. */
  lemma DeleteAllTwice(p: string, mid: string, rest: string)
    requires p != [] && p[0] !in mid
    ensures DeleteAll(p + (mid + (p + rest)), p) == mid + DeleteAll(rest, p)
  {
    DeleteAllLeading(p, mid + (p + rest));
    DeleteAllKeepsUnmatched(mid, p + rest, p);
    DeleteAllLeading(p, rest);
  }

  /** Text in which the pattern's first character does not appear is left unchanged. */
  lemma DeleteAllNoFirstChar(s: string, p: string)
    requires p != [] && p[0] !in s
    ensures DeleteAll(s, p) == s
  {
    DeleteAllKeepsUnmatched(s, [], p);
    assert s + [] == s;
  }

  /* ---------------------------------------------------------------------- */
  /* Deleting characters                                                     */
  /* ---------------------------------------------------------------------- */

  /** Reference definition: the characters of `s` that are not in `cs`, in their order. */
  function Without(s: string, cs: set<char>): (r: string)
    ensures forall k :: 0 <= k < |r| ==> r[k] !in cs
    decreases |s|
  {
    if s == [] then []
    else if s[0] in cs then Without(s[1..], cs)
    else [s[0]] + Without(s[1..], cs)
  }

  /** Filtering keeps every character outside `cs` as often as it occurs, and no character of `cs`. */
  lemma {:induction false} WithoutCounts(s: string, cs: set<char>)
    ensures forall c :: c !in cs ==> multiset(Without(s, cs))[c] == multiset(s)[c]
    ensures forall c :: c in cs ==> multiset(Without(s, cs))[c] == 0
    decreases |s|
  {
    if s != [] {
      WithoutCounts(s[1..], cs);
      assert s == [s[0]] + s[1..];
    }
  }

  lemma {:induction false} WithoutIsSubsequence(s: string, cs: set<char>)
    ensures IsSubsequence(Without(s, cs), s)
    decreases |s|
  {
    if s != [] {
      WithoutIsSubsequence(s[1..], cs);
      assert s == [s[0]] + s[1..];
      if s[0] in cs {
        SubsequenceOfTail(Without(s[1..], cs), s);
      } else {
        SubsequenceCons(s[0], Without(s[1..], cs), s[1..]);
      }
    }
  }

  /** Filtering distributes over concatenation. */
  lemma {:induction false} WithoutAppend(a: string, b: string, cs: set<char>)
    ensures Without(a + b, cs) == Without(a, cs) + Without(b, cs)
    decreases |a|
  {
    if a == [] {
      assert a + b == b;
    } else {
      assert (a + b)[0] == a[0];
      assert (a + b)[1..] == a[1..] + b;
      WithoutAppend(a[1..], b, cs);
    }
  }

  /** A dropped character in the middle of a text makes no difference. */
  lemma WithoutSkips(before: string, c: char, after: string, cs: set<char>)
    requires c in cs
    ensures Without(before + [c] + after, cs) == Without(before + after, cs)
  {
    WithoutAppend(before + [c], after, cs);
    WithoutAppend(before, [c], cs);
    WithoutAppend(before, after, cs);
    assert Without([c], cs) == [];
  }

  /** Deleting a one-character pattern is filtering out that character. */
  lemma {:induction false} DeleteCharIsWithout(s: string, c: char)
    ensures DeleteAll(s, [c]) == Without(s, {c})
    decreases |s|
  {
    if s != [] {
      DeleteCharIsWithout(s[1..], c);
      if s[0] == c {
        assert StartsWith(s, [c]);
        assert DeleteAll(s, [c]) == DeleteAll(s[1..], [c]);
      } else {
        assert !StartsWith(s, [c]);
        assert DeleteAll(s, [c]) == [s[0]] + DeleteAll(s[1..], [c]);
      }
    }
  }

  /** Filtering twice is filtering once by the union. */
  lemma {:induction false} WithoutWithout(s: string, a: set<char>, b: set<char>)
    ensures Without(Without(s, a), b) == Without(s, a + b)
    decreases |s|
  {
    if s != [] {
      WithoutWithout(s[1..], a, b);
      if s[0] !in a {
        assert ([s[0]] + Without(s[1..], a))[1..] == Without(s[1..], a);
      }
    }
  }

  /** A string none of whose characters is in `cs` is its own filtering. */
  lemma {:induction false} WithoutNoOp(s: string, cs: set<char>)
    requires forall k :: 0 <= k < |s| ==> s[k] !in cs
    ensures Without(s, cs) == s
    decreases |s|
  {
    if s != [] {
      WithoutNoOp(s[1..], cs);
      assert [s[0]] + s[1..] == s;
    }
  }

  /* ---------------------------------------------------------------------- */
  /* str::trim                                                               */
  /* ---------------------------------------------------------------------- */

  /** Rust's `char::is_whitespace`: the Unicode White_Space property. */
  predicate IsWhitespace(c: char) {
    ('\t' <= c <= '\r') || c == ' ' || c == '\U{85}' || c == '\U{A0}' || c == '\U{1680}'
    || ('\U{2000}' <= c <= '\U{200A}') || c == '\U{2028}' || c == '\U{2029}' || c == '\U{202F}'
    || c == '\U{205F}' || c == '\U{3000}'
  }

  /** Rust's `str::trim_start`: `r` is the suffix of `s` left after its leading whitespace. */
  function TrimStart(s: string): (r: string)
    ensures |r| <= |s| && r == s[|s| - |r|..]
    ensures forall k :: 0 <= k < |s| - |r| ==> IsWhitespace(s[k])
    ensures r == [] || !IsWhitespace(r[0])
    decreases |s|
  {
    if s != [] && IsWhitespace(s[0]) then TrimStart(s[1..]) else s
  }

  /** Rust's `str::trim_end`: `r` is the prefix of `s` left before its trailing whitespace. */
  function TrimEnd(s: string): (r: string)
    ensures |r| <= |s| && r == s[..|r|]
    ensures forall k :: |r| <= k < |s| ==> IsWhitespace(s[k])
    ensures r == [] || !IsWhitespace(r[|r| - 1])
    decreases |s|
  {
    if s != [] && IsWhitespace(s[|s| - 1]) then TrimEnd(s[..|s| - 1]) else s
  }

  /** Rust's `str::trim`: both the leading and the trailing whitespace removed. */
  function Trim(s: string): (r: string)
  {
    TrimEnd(TrimStart(s))
  }

  /**
   * The trimmed text is the slice `s[i..j]` whose outside is all whitespace
   * and whose ends are not whitespace.
   */
  lemma TrimIsSlice(s: string) returns (i: nat, j: nat)
    ensures i <= j <= |s| && Trim(s) == s[i..j]
    ensures forall k :: 0 <= k < i ==> IsWhitespace(s[k])
    ensures forall k :: j <= k < |s| ==> IsWhitespace(s[k])
    ensures i < j ==> !IsWhitespace(s[i]) && !IsWhitespace(s[j - 1])
  {
    var t := TrimStart(s);
    i := |s| - |t|;
    j := TrimEndOfSuffix(s, i);
    if i < j {
      SliceEnds(s, i, j);
    }
  }

  /** Trimming the end of the suffix `s[i..]` leaves `s[i..j]`, followed only by whitespace. */
  lemma TrimEndOfSuffix(s: string, i: nat) returns (j: nat)
    requires i <= |s|
    ensures i <= j <= |s| && TrimEnd(s[i..]) == s[i..j]
    ensures forall k :: j <= k < |s| ==> IsWhitespace(s[k])
    ensures i < j ==> !IsWhitespace(s[j - 1])
  {
    var t := s[i..];
    var u := TrimEnd(t);
    j := i + |u|;
    assert u == s[i..j];
    forall k | j <= k < |s|
      ensures IsWhitespace(s[k])
    {
      assert s[k] == t[k - i];
    }
    if i < j {
      SliceEnds(s, i, j);
    }
  }

  lemma SliceEnds<T>(s: seq<T>, i: nat, j: nat)
    requires i < j <= |s|
    ensures s[i..j][0] == s[i] && s[i..j][j - i - 1] == s[j - 1]
  {
  }

  /** A string is its own trimming exactly when it neither starts nor ends with whitespace. */
  lemma TrimFixedPoint(s: string)
    ensures Trim(s) == s <==> s == [] || (!IsWhitespace(s[0]) && !IsWhitespace(s[|s| - 1]))
  {
    var i, j := TrimIsSlice(s);
    var t := Trim(s);
    assert |t| == j - i;
    if t == s {
      assert i == 0;
    }
  }

  /** Trimming is idempotent. */
  lemma TrimIdempotent(s: string)
    ensures Trim(Trim(s)) == Trim(s)
  {
    var i, j := TrimIsSlice(s);
    TrimFixedPoint(Trim(s));
  }

  /** Appending text that neither starts nor ends with whitespace to a trimmed string gives a trimmed string. */
  lemma TrimAppendNoOp(a: string, b: string)
    requires Trim(a) == a
    requires b != [] && !IsWhitespace(b[0]) && !IsWhitespace(b[|b| - 1])
    ensures Trim(a + b) == a + b
  {
    var first := if a == [] then b[0] else a[0];
    assert !IsWhitespace(first) by {
      TrimFixedPoint(a);
    }
    AppendEnds(a, b);
    TrimFixedPoint(a + b);
  }

  lemma AppendEnds(a: string, b: string)
    requires b != []
    ensures (a + b)[0] == (if a == [] then b[0] else a[0])
    ensures (a + b)[|a + b| - 1] == b[|b| - 1]
  {
  }

  /* ---------------------------------------------------------------------- */
  /* str::split on one character                                             */
  /* ---------------------------------------------------------------------- */

  function CountChar(s: string, c: char): (n: nat)
    ensures n <= |s|
    decreases |s|
  {
    if s == [] then 0 else (if s[0] == c then 1 else 0) + CountChar(s[1..], c)
  }

  /** Joins the pieces with `sep` between consecutive pieces, the inverse of `Split`. */
  function Join(pieces: seq<string>, sep: char): string
    decreases |pieces|
  {
    if pieces == [] then []
    else if |pieces| == 1 then pieces[0]
    else pieces[0] + [sep] + Join(pieces[1..], sep)
  }

  /**
   * Rust's `s.split(sep)` with a one-character pattern, collected: the text
   * between consecutive separators, including the empty text before a leading
   * or after a trailing separator. There is one piece more than separators,
   * no piece holds the separator and joining the pieces gives `s` back.
   */
  function Split(s: string, sep: char): (r: seq<string>)
    ensures |r| == CountChar(s, sep) + 1
    ensures forall k :: 0 <= k < |r| ==> sep !in r[k]
    ensures Join(r, sep) == s
    decreases |s|
  {
    if s == [] then [[]]
    else
      var rest := Split(s[1..], sep);
      if s[0] == sep then
        assert [sep] + s[1..] == s;
        [[]] + rest
      else
        JoinExtendFirst(s[0], rest, sep);
        assert s == [s[0]] + s[1..];
        [[s[0]] + rest[0]] + rest[1..]
  }

  /** Putting a character in front of the first piece puts it in front of the joined text. */
  lemma JoinExtendFirst(c: char, pieces: seq<string>, sep: char)
    requires pieces != []
    ensures Join([[c] + pieces[0]] + pieces[1..], sep) == [c] + Join(pieces, sep)
  {
    var r := [[c] + pieces[0]] + pieces[1..];
    assert r[1..] == pieces[1..];
  }

  lemma {:induction false} SplitWithoutSeparator(s: string, sep: char)
    requires sep !in s
    ensures Split(s, sep) == [s]
    decreases |s|
  {
    if s != [] {
      SplitWithoutSeparator(s[1..], sep);
      assert [s[0]] + s[1..] == s;
    }
  }

  lemma {:induction false} SplitAtFirstSeparator(a: string, sep: char, b: string)
    requires sep !in a
    ensures Split(a + [sep] + b, sep) == [a] + Split(b, sep)
    decreases |a|
  {
    var s := a + [sep] + b;
    if a == [] {
      assert s[1..] == b;
    } else {
      assert s[1..] == a[1..] + [sep] + b;
      SplitAtFirstSeparator(a[1..], sep, b);
      assert [a[0]] + a[1..] == a;
    }
  }

  /** Splitting the joined pieces gives back the pieces, when none holds the separator. */
  lemma {:induction false} SplitJoin(pieces: seq<string>, sep: char)
    requires |pieces| >= 1
    requires forall k :: 0 <= k < |pieces| ==> sep !in pieces[k]
    ensures Split(Join(pieces, sep), sep) == pieces
    decreases |pieces|
  {
    if |pieces| == 1 {
      SplitWithoutSeparator(pieces[0], sep);
    } else {
      SplitJoin(pieces[1..], sep);
      SplitAtFirstSeparator(pieces[0], sep, Join(pieces[1..], sep));
      assert [pieces[0]] + pieces[1..] == pieces;
    }
  }

  /* ---------------------------------------------------------------------- */
  /* Decimal to_string                                                       */
  /* ---------------------------------------------------------------------- */

  predicate IsDigit(c: char) {
    '0' <= c <= '9'
  }

  function DigitChar(d: nat): (c: char)
    requires d < 10
    ensures IsDigit(c)
  {
    (d + '0' as int) as char
  }

  function DigitValue(c: char): (d: nat)
    requires IsDigit(c)
  {
    c as int - '0' as int
  }

  /** `to_string` of an unsigned integer: its decimal digits, most significant first, without leading zeros. */
  function Decimal(n: nat): (r: string)
    ensures |r| >= 1
    ensures forall k :: 0 <= k < |r| ==> IsDigit(r[k])
    ensures |r| > 1 ==> r[0] != '0'
    decreases n
  {
    if n < 10 then [DigitChar(n)] else Decimal(n / 10) + [DigitChar(n % 10)]
  }

  /** Reads a string of decimal digits as the number it denotes. */
  function ParseDecimal(s: string): nat
    requires forall k :: 0 <= k < |s| ==> IsDigit(s[k])
    decreases |s|
  {
    if s == [] then 0 else ParseDecimal(s[..|s| - 1]) * 10 + DigitValue(s[|s| - 1])
  }

  /** Reading back the decimal rendering gives the number. */
  lemma {:induction false} DecimalRoundTrip(n: nat)
    ensures ParseDecimal(Decimal(n)) == n
    decreases n
  {
    if n >= 10 {
      DecimalRoundTrip(n / 10);
      var r := Decimal(n);
      assert r[..|r| - 1] == Decimal(n / 10);
    }
  }

  /** Different numbers have different decimal renderings. */
  lemma DecimalInjective(m: nat, n: nat)
    requires Decimal(m) == Decimal(n)
    ensures m == n
  {
    DecimalRoundTrip(m);
    DecimalRoundTrip(n);
  }
}
