/**
 * The three string primitives both halves of the assistant rely on, in
 * Python's meaning restricted to ASCII: substring search (`t in s`),
 * `str.lower()` and `str.strip()` with no argument.
 */
module Text {

  /** What `str.strip()` removes: the ASCII characters Python calls whitespace
      (space, tab, line feed, vertical tab, form feed, carriage return and the
      four separators 0x1C-0x1F). */
  predicate IsSpace(c: char) {
    c == ' ' || 9 <= c as int <= 13 || 28 <= c as int <= 31
  }

  predicate IsDigit(c: char) {
    '0' <= c <= '9'
  }

  predicate IsUpper(c: char) {
    'A' <= c <= 'Z'
  }

  predicate IsAsciiLetter(c: char) {
    IsUpper(c) || 'a' <= c <= 'z'
  }

  /** `\w` of an ASCII regular expression: `[A-Za-z0-9_]`. */
  predicate IsWordChar(c: char) {
    IsAsciiLetter(c) || IsDigit(c) || c == '_'
  }

  /** No whitespace anywhere in `t`. */
  predicate Unspaced(t: string) {
    forall k | 0 <= k < |t| :: !IsSpace(t[k])
  }

  /** `t` is empty or starts and ends with a non-whitespace character,
      so that `str.strip()` leaves it alone. */
  predicate Trimmed(t: string) {
    t == [] || (!IsSpace(t[0]) && !IsSpace(t[|t| - 1]))
  }

  // ---------------------------------------------------------------------
  // Substring search
  // ---------------------------------------------------------------------

  predicate StartsWith(s: string, p: string) {
    |p| <= |s| && s[..|p|] == p
  }

  /** Python's `t in s`; the empty string is in every string. */
  predicate Contains(s: string, t: string)
    decreases |s|
  {
    StartsWith(s, t) || (|s| > 0 && Contains(s[1..], t))
  }

  /** `t` occurs in `s` starting at index `i`: the reference meaning of `Contains`. */
  ghost predicate OccursAt(s: string, t: string, i: int) {
    0 <= i && i + |t| <= |s| && s[i..i + |t|] == t
  }

  /** Every occurrence is found by `Contains`. */
  lemma {:induction false} ContainsOccurrence(s: string, t: string, i: int)
    requires OccursAt(s, t, i)
    ensures Contains(s, t)
    decreases i
  {
    if i == 0 {
      assert s[..|t|] == s[0..|t|];
    } else {
      assert s[1..][i - 1..i - 1 + |t|] == s[i..i + |t|];
      ContainsOccurrence(s[1..], t, i - 1);
    }
  }

  /** `Contains` reports only real occurrences: it yields the index of one. */
  lemma {:induction false} OccurrenceOf(s: string, t: string) returns (i: int)
    requires Contains(s, t)
    ensures OccursAt(s, t, i)
    decreases |s|
  {
    if StartsWith(s, t) {
      i := 0;
      assert s[0..|t|] == s[..|t|];
    } else {
      var i' := OccurrenceOf(s[1..], t);
      i := i' + 1;
      assert s[1..][i'..i' + |t|] == s[i..i + |t|];
    }
  }

  lemma OccursAtChar(s: string, t: string, i: int, k: int)
    ensures OccursAt(s, t, i) && 0 <= k < |t| ==> s[i + k] == t[k]
  {
    if OccursAt(s, t, i) && 0 <= k < |t| {
      assert s[i..i + |t|][k] == s[i + k];
    }
  }

  lemma StartsWithChar(s: string, p: string, k: int)
    ensures StartsWith(s, p) && 0 <= k < |p| ==> s[k] == p[k]
  {
    if StartsWith(s, p) && 0 <= k < |p| {
      assert s[..|p|][k] == s[k];
    }
  }

  /** The empty string is found everywhere. */
  lemma ContainsEmpty(s: string)
    ensures Contains(s, [])
  {
    assert StartsWith(s, []);
  }

  /** An occurrence survives any text put in front of it or behind it. */
  lemma ContainsInfix(a: string, b: string, d: string, t: string)
    requires Contains(b, t)
    ensures Contains(a + b + d, t)
  {
    var i := OccurrenceOf(b, t);
    assert (a + b + d)[|a| + i..|a| + i + |t|] == b[i..i + |t|];
    ContainsOccurrence(a + b + d, t, |a| + i);
  }

  /** A string that has no two adjacent characters equal to the two of `t`
      at `m` and `m + 1` does not contain `t`; this settles containment
      between literals. */
  lemma NotContainedByPair(s: string, t: string, m: int)
    requires 0 <= m < |t| - 1
    requires forall k | 0 <= k < |s| - 1 :: !(s[k] == t[m] && s[k + 1] == t[m + 1])
    ensures !Contains(s, t)
  {
    if Contains(s, t) {
      var i := OccurrenceOf(s, t);
      OccursAtChar(s, t, i, m);
      OccursAtChar(s, t, i, m + 1);
      assert false;
    }
  }

  /** A string that starts with `t` and has the pair of `t` at `m` and
      `m + 1` nowhere after its first character contains `t` exactly once. */
  lemma CountOnceByPair(s: string, t: string, m: int)
    requires StartsWith(s, t) && 0 <= m < |t| - 1
    requires forall k | 1 <= k < |s| - 1 :: !(s[k] == t[m] && s[k + 1] == t[m + 1])
    ensures Count(s, t) == 1
  {
    var r := s[1..];
    forall k | 0 <= k < |r| - 1
      ensures !(r[k] == t[m] && r[k + 1] == t[m + 1])
    {
      assert r[k] == s[k + 1] && r[k + 1] == s[k + 2];
    }
    NotContainedByPair(r, t, m);
    CountPositiveIff(r, t);
  }

  /** Joining two strings with a space creates no new occurrence of a pattern
      without whitespace. */
  lemma ContainsAcrossSpace(a: string, b: string, t: string)
    requires Unspaced(t)
    ensures Contains(a + [' '] + b, t) <==> Contains(a, t) || Contains(b, t)
  {
    var s := a + [' '] + b;
    if Contains(s, t) {
      var i := OccurrenceOf(s, t);
      if i + |t| <= |a| {
        assert a[i..i + |t|] == s[i..i + |t|];
        ContainsOccurrence(a, t, i);
      } else if i >= |a| + 1 {
        var j := i - |a| - 1;
        assert s[|a| + 1..] == b;
        assert s[|a| + 1..][j..j + |t|] == s[i..i + |t|];
        ContainsOccurrence(b, t, j);
      } else {
        OccursAtChar(s, t, i, |a| - i);
        assert false;
      }
    }
    if Contains(a, t) {
      ContainsInfix([], a, [' '] + b, t);
      assert [] + a + ([' '] + b) == s;
    }
    if Contains(b, t) {
      ContainsInfix(a + [' '], b, [], t);
      assert a + [' '] + b + [] == s;
    }
  }

  // ---------------------------------------------------------------------
  // Counting occurrences
  // ---------------------------------------------------------------------

  /** The number of (possibly overlapping) occurrences of `t` in `s`. */
  function Count(s: string, t: string): nat
    decreases |s|
  {
    (if StartsWith(s, t) then 1 else 0) + (if |s| == 0 then 0 else Count(s[1..], t))
  }

  lemma {:induction false} CountPositiveIff(s: string, t: string)
    ensures Count(s, t) > 0 <==> Contains(s, t)
    decreases |s|
  {
    if |s| > 0 {
      CountPositiveIff(s[1..], t);
    }
  }

  /** Occurrences of a non-empty pattern without whitespace add up across a
      cut where the second part starts with a space. */
  lemma {:induction false} CountSplit(a: string, b: string, t: string)
    requires |t| > 0 && Unspaced(t)
    requires b == [] || b[0] == ' '
    ensures Count(a + b, t) == Count(a, t) + Count(b, t)
    decreases |a|
  {
    if a == [] {
      assert a + b == b;
    } else {
      assert (a + b)[1..] == a[1..] + b;
      CountSplit(a[1..], b, t);
      if |t| <= |a| {
        assert (a + b)[..|t|] == a[..|t|];
      } else if StartsWith(a + b, t) {
        StartsWithChar(a + b, t, |a|);
        assert false;
      }
    }
  }

  /** A leading space hides no occurrence of a pattern that starts with a
      non-space. */
  lemma CountAfterSpace(x: string, t: string)
    requires |t| > 0 && !IsSpace(t[0])
    ensures Count([' '] + x, t) == Count(x, t)
  {
    assert ([' '] + x)[1..] == x;
  }

  // ---------------------------------------------------------------------
  // Lower-casing
  // ---------------------------------------------------------------------

  /** `str.lower()` on one ASCII character: an upper-case letter becomes the
      letter at the same place of the lower-case alphabet; every other
      character stays. */
  function LowerChar(c: char): (d: char)
    ensures IsUpper(c) ==> d as int == c as int + 32
    ensures !IsUpper(c) ==> d == c
    ensures !IsUpper(d)
    ensures IsAsciiLetter(c) <==> IsAsciiLetter(d)
  {
    if IsUpper(c) then (c as int + 32) as char else c
  }

  const UpperAlphabet := "ABCDEFGHIJKLMNOPQRSTUVWXYZ"
  const LowerAlphabet := "abcdefghijklmnopqrstuvwxyz"

  /** Each upper-case letter lower-cases to the letter at the same place of
      the lower-case alphabet. */
  lemma LowerCharAlphabet(c: char)
    requires IsUpper(c)
    ensures UpperAlphabet[c as int - 'A' as int] == c
    ensures LowerChar(c) == LowerAlphabet[c as int - 'A' as int]
  {
  }

  /** `str.lower()` on ASCII text: every upper-case letter becomes its
      lower-case partner, every other character stays. */
  function Lower(s: string): (r: string)
    ensures |r| == |s|
    ensures forall k | 0 <= k < |s| :: r[k] == LowerChar(s[k])
    decreases |s|
  {
    if s == [] then [] else [LowerChar(s[0])] + Lower(s[1..])
  }

  /** Lower-casing works character by character, so it distributes over
      concatenation. */
  lemma LowerAppend(a: string, b: string)
    ensures Lower(a + b) == Lower(a) + Lower(b)
  {
    var l, r := Lower(a + b), Lower(a) + Lower(b);
    forall k | 0 <= k < |a| + |b|
      ensures l[k] == r[k]
    {
      if k < |a| {
        assert (a + b)[k] == a[k];
      } else {
        assert (a + b)[k] == b[k - |a|];
      }
    }
  }

  /** Lower-casing a lower-cased string changes nothing. */
  lemma LowerIdempotent(s: string)
    ensures Lower(Lower(s)) == Lower(s)
  {
    assert forall k | 0 <= k < |s| :: Lower(Lower(s))[k] == Lower(s)[k];
  }

  /** Lower-casing preserves occurrences, up to case: a goal that mentions
      "OS" or "Os" also mentions "os" once lowered. */
  lemma ContainsLower(s: string, t: string)
    requires Contains(s, t)
    ensures Contains(Lower(s), Lower(t))
  {
    var i := OccurrenceOf(s, t);
    assert Lower(s)[i..i + |t|] == Lower(t) by {
      forall k | 0 <= k < |t| ensures Lower(s)[i..i + |t|][k] == Lower(t)[k] {
        assert s[i..i + |t|][k] == t[k];
      }
    }
    ContainsOccurrence(Lower(s), Lower(t), i);
  }

  // ---------------------------------------------------------------------
  // Stripping whitespace
  // ---------------------------------------------------------------------

  /** `str.lstrip()`: the longest suffix of `s` that does not start with whitespace. */
  function TrimLeft(s: string): (r: string)
    ensures |r| <= |s| && r == s[|s| - |r|..]
    ensures forall k | 0 <= k < |s| - |r| :: IsSpace(s[k])
    ensures r == [] || !IsSpace(r[0])
    decreases |s|
  {
    if |s| > 0 && IsSpace(s[0]) then TrimLeft(s[1..]) else s
  }

  /** `str.rstrip()`: the longest prefix of `s` that does not end with whitespace. */
  function TrimRight(s: string): (r: string)
    ensures |r| <= |s| && r == s[..|r|]
    ensures forall k | |r| <= k < |s| :: IsSpace(s[k])
    ensures r == [] || !IsSpace(r[|r| - 1])
    decreases |s|
  {
    if |s| > 0 && IsSpace(s[|s| - 1]) then TrimRight(s[..|s| - 1]) else s
  }

  /** `str.strip()`. */
  function Strip(s: string): (r: string)
    ensures Trimmed(r)
    ensures |r| <= |s|
  {
    TrimRight(TrimLeft(s))
  }

  /** What `str.strip()` computes: the part of `s` left once the whitespace
      at both ends is removed. */
  lemma StripRemovesEnds(s: string)
    ensures exists a, b | 0 <= a <= b <= |s| ::
      Strip(s) == s[a..b] && (forall k | 0 <= k < a :: IsSpace(s[k])) && (forall k | b <= k < |s| :: IsSpace(s[k]))
  {
    var l := TrimLeft(s);
    var r := TrimRight(l);
    var a := |s| - |l|;
    assert r == s[a..a + |r|];
    assert forall k | a + |r| <= k < |s| :: s[k] == l[k - a];
  }

  /** Stripping a stripped string changes nothing. */
  lemma StripTrimmed(s: string)
    requires Trimmed(s)
    ensures Strip(s) == s
  {
  }

  lemma {:induction false} TrimLeftKeeps(s: string, t: string)
    requires Trimmed(t) && Contains(s, t)
    ensures Contains(TrimLeft(s), t)
    decreases |s|
  {
    if t == [] {
      ContainsEmpty(TrimLeft(s));
    } else if |s| > 0 && IsSpace(s[0]) {
      assert !StartsWith(s, t) by {
      }
      TrimLeftKeeps(s[1..], t);
    }
  }

  lemma {:induction false} TrimRightKeeps(s: string, t: string)
    requires Trimmed(t) && Contains(s, t)
    ensures Contains(TrimRight(s), t)
    decreases |s|
  {
    if t == [] {
      ContainsEmpty(TrimRight(s));
    } else if |s| > 0 && IsSpace(s[|s| - 1]) {
      var i := OccurrenceOf(s, t);
      if i + |t| == |s| {
        assert false;
      }
      assert s[..|s| - 1][i..i + |t|] == s[i..i + |t|];
      ContainsOccurrence(s[..|s| - 1], t, i);
      TrimRightKeeps(s[..|s| - 1], t);
    }
  }

  /** Stripping never cuts through an occurrence of a pattern that starts and
      ends with non-whitespace. */
  lemma StripKeeps(s: string, t: string)
    requires Trimmed(t) && Contains(s, t)
    ensures Contains(Strip(s), t)
  {
    TrimLeftKeeps(s, t);
    TrimRightKeeps(TrimLeft(s), t);
  }

  lemma {:induction false} CountTrimLeft(s: string, t: string)
    requires |t| > 0 && !IsSpace(t[0])
    ensures Count(TrimLeft(s), t) == Count(s, t)
    decreases |s|
  {
    if |s| > 0 && IsSpace(s[0]) {
      CountTrimLeft(s[1..], t);
    }
  }

  /** Dropping a final whitespace character loses no occurrence of a pattern
      that ends with non-whitespace. */
  lemma {:induction false} CountDropLastSpace(s: string, t: string)
    requires |t| > 0 && !IsSpace(t[|t| - 1])
    requires |s| > 0 && IsSpace(s[|s| - 1])
    ensures Count(s[..|s| - 1], t) == Count(s, t)
    decreases |s|
  {
    var s' := s[..|s| - 1];
    if |t| <= |s'| {
      assert s[..|t|] == s'[..|t|];
    } else if StartsWith(s, t) {
      assert false;
    }
    if |s| >= 2 {
      assert s'[1..] == s[1..][..|s[1..]| - 1];
      CountDropLastSpace(s[1..], t);
    }
  }

  lemma {:induction false} CountTrimRight(s: string, t: string)
    requires |t| > 0 && !IsSpace(t[|t| - 1])
    ensures Count(TrimRight(s), t) == Count(s, t)
    decreases |s|
  {
    if |s| > 0 && IsSpace(s[|s| - 1]) {
      CountDropLastSpace(s, t);
      CountTrimRight(s[..|s| - 1], t);
    }
  }

  /** Stripping keeps the number of occurrences of a pattern that starts and
      ends with non-whitespace. */
  lemma CountStrip(s: string, t: string)
    requires |t| > 0 && Trimmed(t)
    ensures Count(Strip(s), t) == Count(s, t)
  {
    CountTrimLeft(s, t);
    CountTrimRight(TrimLeft(s), t);
  }

  /** What is appended to a string never disturbs the stripped form of what
      was there: `s.strip()` is a prefix of `(s + x).strip()`. */
  lemma StripPrefix(s: string, x: string)
    ensures Strip(s) <= Strip(s + x)
  {
    if TrimLeft(s) != [] {
      TrimLeftAppend(s, x);
      TrimRightPrefix(TrimLeft(s), x);
    }
  }

  lemma TrimRightPrefix(u: string, x: string)
    ensures TrimRight(u) <= TrimRight(u + x)
  {
    var w, v := TrimRight(u), TrimRight(u + x);
    var n := |w|;
    if n > 0 {
      assert w[n - 1] == u[n - 1] == (u + x)[n - 1];
    }
    assert n <= |v|;
    assert w == u[..n] == (u + x)[..n] == v[..n];
  }

  /** Left-stripping a string that has a non-space character ignores what is
      appended to it. */
  lemma {:induction false} TrimLeftAppend(s: string, x: string)
    requires TrimLeft(s) != []
    ensures TrimLeft(s + x) == TrimLeft(s) + x
    decreases |s|
  {
    if IsSpace(s[0]) {
      assert (s + x)[1..] == s[1..] + x;
      TrimLeftAppend(s[1..], x);
    }
  }
}
