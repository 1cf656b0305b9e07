/**
 * The target extractor `extract_ip_or_domain`: a search for a dotted quad,
 * then, failing that, a search for a domain-like name, each with the
 * leftmost-first semantics of Python's `re.search` on ASCII text.
 *
 * Each regular expression is given twice: declaratively, as the predicate
 * `IpMatchAt(s, i, j)` / `DomainMatchAt(s, i, j)` saying that `s[i..j]` is in
 * the pattern's language with a word boundary at both ends, and operationally,
 * as the function `IpAt(s, i)` / `DomainAt(s, i)` that follows the
 * backtracking matcher from start `i`. Lemmas connect the two; the searches
 * are loops over the start position.
 */
module Extractor {
  import opened Text

  datatype Option<T> = None | Some(value: T)

  /** The position of a match: `s[start..end]`. */
  datatype Span = Span(start: nat, end: nat)

  // ---------------------------------------------------------------------
  // Character classes and runs
  // ---------------------------------------------------------------------

  /** The character classes of the two patterns: `\d`, `[a-zA-Z0-9-]` and
      `[a-zA-Z]`. */
  datatype CharClass = Digits | LabelChars | Letters

  predicate InClass(c: char, kind: CharClass) {
    match kind
    case Digits => IsDigit(c)
    case LabelChars => IsAsciiLetter(c) || IsDigit(c) || c == '-'
    case Letters => IsAsciiLetter(c)
  }

  predicate AllIn(t: string, kind: CharClass) {
    forall k | 0 <= k < |t| :: InClass(t[k], kind)
  }

  /** The length of the longest run of `kind` characters starting at `p`:
      what a greedy `[...]+` consumes. */
  function RunLength(s: string, p: nat, kind: CharClass): (n: nat)
    requires p <= |s|
    ensures p + n <= |s|
    ensures forall k | p <= k < p + n :: InClass(s[k], kind)
    ensures p + n == |s| || !InClass(s[p + n], kind)
    decreases |s| - p
  {
    if p < |s| && InClass(s[p], kind) then 1 + RunLength(s, p + 1, kind) else 0
  }

  /** A run of `kind` characters that is not followed by one is the run. */
  lemma {:induction false} RunLengthIs(s: string, p: nat, kind: CharClass, n: nat)
    requires p + n <= |s|
    requires forall k | p <= k < p + n :: InClass(s[k], kind)
    requires p + n == |s| || !InClass(s[p + n], kind)
    ensures RunLength(s, p, kind) == n
    decreases n
  {
    if n > 0 {
      RunLengthIs(s, p + 1, kind, n - 1);
    }
  }

  /** Letters are label characters, so a letter run is never longer than the
      label run at the same place. */
  lemma {:induction false} LetterRunWithinLabelRun(s: string, p: nat)
    requires p <= |s|
    ensures RunLength(s, p, Letters) <= RunLength(s, p, LabelChars)
    decreases |s| - p
  {
    if p < |s| && InClass(s[p], Letters) {
      LetterRunWithinLabelRun(s, p + 1);
    }
  }

  /** `\b`: exactly one of the characters around position `k` is a word
      character (outside the string counts as a non-word character). */
  predicate AtBoundary(s: string, k: int) {
    0 <= k <= |s| && ((0 < k && IsWordChar(s[k - 1])) != (k < |s| && IsWordChar(s[k])))
  }

  /** Before a position whose left neighbour is a word character, a boundary
      means the right neighbour is not one. */
  lemma BoundaryAfterWord(s: string, j: int)
    requires 0 < j <= |s| && IsWordChar(s[j - 1])
    ensures AtBoundary(s, j) <==> j == |s| || !IsWordChar(s[j])
  {
  }

  /** Run lengths only grow with the characters seen. */
  lemma {:induction false} RunLengthAtLeast(s: string, p: nat, kind: CharClass, n: nat)
    requires p + n <= |s|
    requires forall k | p <= k < p + n :: InClass(s[k], kind)
    ensures RunLength(s, p, kind) >= n
    decreases n
  {
    if n > 0 {
      RunLengthAtLeast(s, p + 1, kind, n - 1);
    }
  }

  // ---------------------------------------------------------------------
  // The dotted quad: \b(?:\d{1,3}\.){3}\d{1,3}\b
  // ---------------------------------------------------------------------

  /** `s[a..b]` is a group: one to three digits. */
  ghost predicate GroupSpan(s: string, a: int, b: int) {
    0 <= a && a + 1 <= b <= a + 3 && b <= |s| && forall k | a <= k < b :: IsDigit(s[k])
  }

  /** `s[p..j]` is `n` groups each followed by '.', then one more group. */
  ghost predicate DottedFrom(s: string, p: int, n: nat, j: int)
    decreases n
  {
    if n == 0 then GroupSpan(s, p, j)
    else exists d | p < d < j :: GroupSpan(s, p, d) && d < |s| && s[d] == '.' && DottedFrom(s, d + 1, n - 1, j)
  }

  /** The dotted-quad pattern matches `s[i..j]`. */
  ghost predicate IpMatchAt(s: string, i: int, j: int) {
    0 <= i <= j <= |s| && AtBoundary(s, i) && AtBoundary(s, j) && DottedFrom(s, i, 3, j)
  }

  /** The matcher from position `p` with `n` dotted groups still to go.
      A greedy `\d{1,3}` that must be followed by '.' or by `\b` succeeds only
      with the whole digit run, so each group is that run. */
  function GroupsFrom(s: string, p: nat, n: nat): Option<nat>
    requires p <= |s|
    decreases n
  {
    var len := RunLength(s, p, Digits);
    if len < 1 || len > 3 then None
    else if n == 0 then
      if p + len < |s| && IsWordChar(s[p + len]) then None else Some(p + len)
    else if p + len < |s| && s[p + len] == '.' then GroupsFrom(s, p + len + 1, n - 1)
    else None
  }

  /** Where the dotted-quad pattern ends when tried at start `i`, if it matches. */
  function IpAt(s: string, i: nat): Option<nat>
    requires i <= |s|
  {
    if AtBoundary(s, i) then GroupsFrom(s, i, 3) else None
  }

  lemma {:induction false} DottedFromEnds(s: string, p: int, n: nat, j: int)
    requires DottedFrom(s, p, n, j)
    ensures 0 <= p < j <= |s| && IsDigit(s[p]) && IsDigit(s[j - 1])
    decreases n
  {
    if n > 0 {
      var d :| p < d < j && GroupSpan(s, p, d) && d < |s| && s[d] == '.' && DottedFrom(s, d + 1, n - 1, j);
      DottedFromEnds(s, d + 1, n - 1, j);
    }
  }

  lemma {:induction false} GroupsFromSound(s: string, p: nat, n: nat, j: nat)
    requires p <= |s| && GroupsFrom(s, p, n) == Some(j)
    ensures DottedFrom(s, p, n, j) && j <= |s|
    ensures IsDigit(s[j - 1]) && (j == |s| || !IsWordChar(s[j]))
    decreases n
  {
    if n > 0 {
      var d := p + RunLength(s, p, Digits);
      GroupsFromSound(s, d + 1, n - 1, j);
      DottedFromEnds(s, d + 1, n - 1, j);
    }
  }

  lemma LastGroupComplete(s: string, p: nat, j: int)
    requires GroupSpan(s, p, j)
    requires j == |s| || (0 <= j < |s| && !IsWordChar(s[j]))
    ensures p <= |s| && GroupsFrom(s, p, 0) == Some(j)
  {
    RunLengthIs(s, p, Digits, j - p);
  }

  /** A group followed by '.' hands the matcher on to the next group. */
  lemma GroupStep(s: string, p: nat, n: nat, d: int)
    requires n > 0 && GroupSpan(s, p, d) && d < |s| && s[d] == '.'
    ensures GroupsFrom(s, p, n) == GroupsFrom(s, d + 1, n - 1)
  {
    RunLengthIs(s, p, Digits, d - p);
  }

  /** The first group of `n > 0` dotted groups, with the dot after it, hands
      the matcher on to the rest at `q`. */
  lemma FirstGroup(s: string, p: nat, n: nat, j: int) returns (q: nat)
    requires n > 0 && DottedFrom(s, p, n, j)
    ensures p < q <= |s| && DottedFrom(s, q, n - 1, j)
    ensures GroupsFrom(s, p, n) == GroupsFrom(s, q, n - 1)
  {
    var d :| p < d < j && GroupSpan(s, p, d) && d < |s| && s[d] == '.' && DottedFrom(s, d + 1, n - 1, j);
    GroupStep(s, p, n, d);
    q := d + 1;
  }

  lemma {:induction false} GroupsFromComplete(s: string, p: nat, n: nat, j: int)
    requires DottedFrom(s, p, n, j)
    requires j == |s| || (0 <= j < |s| && !IsWordChar(s[j]))
    ensures p <= |s| && GroupsFrom(s, p, n) == Some(j)
    decreases n
  {
    if n == 0 {
      LastGroupComplete(s, p, j);
    } else {
      var q := FirstGroup(s, p, n, j);
      GroupsFromComplete(s, q, n - 1, j);
    }
  }

  /** The matcher finds exactly the matches of the pattern: at a given start
      there is at most one, and `IpAt` returns it. */
  lemma IpAtExact(s: string, i: nat, j: int)
    requires i <= |s|
    ensures IpMatchAt(s, i, j) <==> IpAt(s, i) == Some(j)
  {
    if IpMatchAt(s, i, j) {
      DottedFromEnds(s, i, 3, j);
      BoundaryAfterWord(s, j);
      GroupsFromComplete(s, i, 3, j);
    }
    if IpAt(s, i) == Some(j) {
      GroupsFromSound(s, i, 3, j);
      DottedFromEnds(s, i, 3, j);
      BoundaryAfterWord(s, j);
    }
  }

  /** At a given start the dotted-quad pattern has at most one match. */
  lemma IpMatchUnique(s: string, i: int, j: int, j': int)
    requires IpMatchAt(s, i, j) && IpMatchAt(s, i, j')
    ensures j == j'
  {
    IpAtExact(s, i, j);
    IpAtExact(s, i, j');
  }

  /** A group of one to three digits. */
  predicate IsGroup(g: string) {
    1 <= |g| <= 3 && AllIn(g, Digits)
  }

  /** Text put in front of a dotted-quad match moves it and keeps it. */
  lemma {:induction false} DottedShift(u: string, s: string, p: int, n: nat, j: int)
    requires DottedFrom(s, p, n, j)
    ensures DottedFrom(u + s, |u| + p, n, |u| + j)
    decreases n
  {
    var t := u + s;
    if n == 0 {
      assert forall k | |u| + p <= k < |u| + j :: t[k] == s[k - |u|];
    } else {
      var d :| p < d < j && GroupSpan(s, p, d) && d < |s| && s[d] == '.' && DottedFrom(s, d + 1, n - 1, j);
      DottedShift(u, s, d + 1, n - 1, j);
      assert forall k | |u| + p <= k < |u| + d :: t[k] == s[k - |u|];
      assert t[|u| + d] == s[d];
    }
  }

  /** A group and a dot in front of `n` dotted groups make `n + 1`. */
  lemma GroupPrepended(g: string, rest: string, n: nat)
    requires IsGroup(g) && DottedFrom(rest, 0, n, |rest|)
    ensures DottedFrom(g + "." + rest, 0, n + 1, |g| + 1 + |rest|)
  {
    var t := g + "." + rest;
    DottedShift(g + ".", rest, 0, n, |rest|);
    assert forall k | 0 <= k < |g| :: t[k] == g[k];
    assert t[|g|] == '.';
  }

  /** No octet range check: any four groups of one to three digits joined by
      dots, standing alone, form a match, `999.999.999.999` among them. */
  lemma FourGroupsMatch(a: string, b: string, c: string, d: string)
    requires IsGroup(a) && IsGroup(b) && IsGroup(c) && IsGroup(d)
    ensures var s := a + "." + (b + "." + (c + "." + d)); IpMatchAt(s, 0, |s|)
  {
    assert DottedFrom(d, 0, 0, |d|);
    GroupPrepended(c, d, 0);
    GroupPrepended(b, c + "." + d, 1);
    GroupPrepended(a, b + "." + (c + "." + d), 2);
    var s := a + "." + (b + "." + (c + "." + d));
    DottedFromEnds(s, 0, 3, |s|);
  }

  lemma NoRangeCheck()
    ensures IpMatchAt("999.999.999.999", 0, 15)
  {
    FourGroupsMatch("999", "999", "999", "999");
    assert "999" + "." + ("999" + "." + ("999" + "." + "999")) == "999.999.999.999";
  }

  /** No match starts at or inside a run of more than three digits, so
      `1234.1.1.1` yields nothing from its first group. */
  lemma LongDigitRunRejected(s: string, p: nat, i: int, j: int)
    requires p + 4 <= |s| && forall k | p <= k < p + 4 :: IsDigit(s[k])
    requires p <= i < p + 4
    ensures !IpMatchAt(s, i, j)
  {
    if i == p {
      RunLengthAtLeast(s, p, Digits, 4);
      IpAtExact(s, i, j);
    } else {
      assert IsWordChar(s[i - 1]) && IsWordChar(s[i]);
    }
  }

  /** Dotted groups hold no run of four digits: every group has at most
      three, and the groups are separated by dots. */
  lemma {:induction false} DottedNoFourDigits(s: string, p: int, n: nat, j: int, q: int)
    requires DottedFrom(s, p, n, j)
    requires p <= q && q + 4 <= j
    ensures 0 <= q && q + 4 <= |s| && exists k | q <= k < q + 4 :: !IsDigit(s[k])
    decreases n
  {
    DottedFromEnds(s, p, n, j);
    if n > 0 {
      var d :| p < d < j && GroupSpan(s, p, d) && d < |s| && s[d] == '.' && DottedFrom(s, d + 1, n - 1, j);
      if q <= d {
        assert !IsDigit(s[d]);
      } else {
        DottedNoFourDigits(s, d + 1, n - 1, j, q);
      }
    }
  }

  /** A match of the dotted quad never contains four digits in a row. */
  lemma IpMatchNoFourDigits(s: string, i: int, j: int, q: int)
    requires IpMatchAt(s, i, j) && i <= q && q + 4 <= j
    ensures exists k | q <= k < q + 4 :: !IsDigit(s[k])
  {
    DottedNoFourDigits(s, i, 3, j, q);
  }

  /** "1234.1.1.1" holds no dotted quad at all: a match starting in the first
      run would contain it, and after it only two dots are left. */
  lemma LongRunExample(s: string)
    requires s == "1234.1.1.1"
    ensures NoIp(s)
  {
    forall i, j
      ensures !IpMatchAt(s, i, j)
    {
      if 0 <= i < 4 {
        LongDigitRunRejected(s, 0, i, j);
      } else if 4 <= i <= |s| {
        IpAtExact(s, i, j);
        assert IpAt(s, i) == None;
      }
    }
  }

  // ---------------------------------------------------------------------
  // The domain-like name: \b(?:[a-zA-Z0-9-]+\.)+[a-zA-Z]{2,}\b
  // ---------------------------------------------------------------------

  /** `s[a..b]` is a label: one or more letters, digits or '-'. */
  ghost predicate LabelSpan(s: string, a: int, b: int) {
    0 <= a < b <= |s| && forall k | a <= k < b :: InClass(s[k], LabelChars)
  }

  /** `s[a..b]` is a top label: two or more letters. */
  ghost predicate TopSpan(s: string, a: int, b: int) {
    0 <= a && a + 2 <= b <= |s| && forall k | a <= k < b :: IsAsciiLetter(s[k])
  }

  /** `s[p..j]` is one or more labels each followed by '.', then a top label. */
  ghost predicate LabelsFrom(s: string, p: int, j: int)
    decreases j - p
  {
    exists d | p < d < j :: LabelSpan(s, p, d) && d < |s| && s[d] == '.' && (TopSpan(s, d + 1, j) || LabelsFrom(s, d + 1, j))
  }

  /** The domain pattern matches `s[i..j]`. */
  ghost predicate DomainMatchAt(s: string, i: int, j: int) {
    0 <= i <= j <= |s| && AtBoundary(s, i) && AtBoundary(s, j) && LabelsFrom(s, i, j)
  }

  /** The top label tried at `q`: a greedy `[a-zA-Z]{2,}` followed by `\b`
      succeeds only with the whole letter run. */
  function TailFrom(s: string, q: nat): Option<nat>
    requires q <= |s|
  {
    var len := RunLength(s, q, Letters);
    if len >= 2 && (q + len == |s| || !IsWordChar(s[q + len])) then Some(q + len) else None
  }

  /** The matcher at the start of a label: the label is the whole label run
      and must be followed by '.'; the greedy `+` then tries a further label
      before it settles for the top label after this one. */
  function DomainFrom(s: string, p: nat): Option<nat>
    requires p <= |s|
    decreases |s| - p
  {
    var len := RunLength(s, p, LabelChars);
    if len == 0 || p + len >= |s| || s[p + len] != '.' then None
    else OrElse(DomainFrom(s, p + len + 1), TailFrom(s, p + len + 1))
  }

  /** The first alternative that succeeds. */
  function OrElse(first: Option<nat>, second: Option<nat>): (r: Option<nat>)
    ensures first.Some? ==> r == first
    ensures first.None? ==> r == second
  {
    if first.Some? then first else second
  }

  /** Where the domain pattern ends when tried at start `i`, if it matches. */
  function DomainAt(s: string, i: nat): Option<nat>
    requires i <= |s|
  {
    if AtBoundary(s, i) then DomainFrom(s, i) else None
  }

  /** A top label the matcher accepts is a top label of the pattern. */
  lemma TailSound(s: string, q: nat, j: nat)
    requires q <= |s| && TailFrom(s, q) == Some(j)
    ensures TopSpan(s, q, j) && IsAsciiLetter(s[j - 1]) && (j == |s| || !IsWordChar(s[j]))
  {
  }

  lemma {:induction false} DomainFromSound(s: string, p: nat, j: nat)
    requires p <= |s| && DomainFrom(s, p) == Some(j)
    ensures p + RunLength(s, p, LabelChars) < j <= |s| && LabelsFrom(s, p, j)
    ensures IsAsciiLetter(s[j - 1]) && (j == |s| || !IsWordChar(s[j]))
    decreases |s| - p
  {
    var d := p + RunLength(s, p, LabelChars);
    var q := d + 1;
    if DomainFrom(s, q).Some? {
      DomainFromSound(s, q, j);
    } else {
      TailSound(s, q, j);
    }
    LabelPrepended(s, p, d, j);
  }

  /** A label and a dot in front of a top label or a label sequence make a
      label sequence. */
  lemma LabelPrepended(s: string, p: int, d: int, j: int)
    requires 0 <= p < d < |s| && s[d] == '.' && forall k | p <= k < d :: InClass(s[k], LabelChars)
    requires TopSpan(s, d + 1, j) || LabelsFrom(s, d + 1, j)
    ensures LabelsFrom(s, p, j)
  {
    assert LabelSpan(s, p, d);
  }

  /** At a top label, the alternatives the matcher tries reach at least its end. */
  lemma TopLongest(s: string, q: nat, j: int)
    requires TopSpan(s, q, j)
    requires j == |s| || (0 <= j < |s| && !IsWordChar(s[j]))
    ensures q <= |s| && OrElse(DomainFrom(s, q), TailFrom(s, q)).Some?
    ensures j <= OrElse(DomainFrom(s, q), TailFrom(s, q)).value
  {
    RunLengthIs(s, q, Letters, j - q);
    if DomainFrom(s, q).Some? {
      DomainFromSound(s, q, DomainFrom(s, q).value);
      LetterRunWithinLabelRun(s, q);
    }
  }

  /** The first label of a label sequence, with the dot after it, hands the
      matcher on to the alternatives at `q`, where the rest of the sequence
      starts. */
  lemma LabelStep(s: string, p: nat, j: int) returns (q: nat)
    requires LabelsFrom(s, p, j)
    ensures p < q <= |s| && q < j && (TopSpan(s, q, j) || LabelsFrom(s, q, j))
    ensures DomainFrom(s, p) == OrElse(DomainFrom(s, q), TailFrom(s, q))
  {
    var d :| p < d < j && LabelSpan(s, p, d) && d < |s| && s[d] == '.' && (TopSpan(s, d + 1, j) || LabelsFrom(s, d + 1, j));
    LabelThenDot(s, p, d);
    q := d + 1;
  }

  lemma LabelThenDot(s: string, p: nat, d: int)
    requires LabelSpan(s, p, d) && d < |s| && s[d] == '.'
    ensures DomainFrom(s, p) == OrElse(DomainFrom(s, d + 1), TailFrom(s, d + 1))
  {
    RunLengthIs(s, p, LabelChars, d - p);
  }

  /** Every match at a start is at most as long as what the matcher returns
      there: the greedy `+` yields the longest match. */
  lemma {:induction false} DomainFromLongest(s: string, p: nat, j: int)
    requires LabelsFrom(s, p, j)
    requires j == |s| || (0 <= j < |s| && !IsWordChar(s[j]))
    ensures p <= |s| && DomainFrom(s, p).Some? && j <= DomainFrom(s, p).value
    decreases j - p
  {
    var q := LabelStep(s, p, j);
    if TopSpan(s, q, j) {
      TopLongest(s, q, j);
    } else {
      DomainFromLongest(s, q, j);
    }
  }

  lemma {:induction false} LabelsFromEnd(s: string, p: int, j: int)
    requires LabelsFrom(s, p, j)
    ensures 0 <= p && p + 4 <= j <= |s| && IsAsciiLetter(s[j - 2]) && IsAsciiLetter(s[j - 1])
    decreases j - p
  {
    var d :| p < d < j && LabelSpan(s, p, d) && d < |s| && s[d] == '.' && (TopSpan(s, d + 1, j) || LabelsFrom(s, d + 1, j));
    if !TopSpan(s, d + 1, j) {
      LabelsFromEnd(s, d + 1, j);
    }
  }

  /** What `DomainAt` returns is a match, and the longest one at that start;
      when it returns nothing there is no match at that start. */
  lemma DomainAtLongest(s: string, i: nat, j: int)
    requires i <= |s|
    ensures DomainAt(s, i) == Some(j) ==> DomainMatchAt(s, i, j)
    ensures DomainMatchAt(s, i, j) ==> DomainAt(s, i).Some? && j <= DomainAt(s, i).value
  {
    if DomainAt(s, i) == Some(j) {
      DomainFromSound(s, i, j);
      BoundaryAfterWord(s, j);
    }
    if DomainMatchAt(s, i, j) {
      LabelsFromEnd(s, i, j);
      BoundaryAfterWord(s, j);
      DomainFromLongest(s, i, j);
    }
  }

  /** A domain match has a dot, consists of letters, digits, '-' and '.'
      only, and ends with at least two letters. */
  lemma {:induction false} LabelsFromShape(s: string, p: int, j: int)
    requires LabelsFrom(s, p, j)
    ensures 0 <= p < j <= |s|
    ensures exists k | p < k < j :: s[k] == '.'
    ensures forall k | p <= k < j :: InClass(s[k], LabelChars) || s[k] == '.'
    decreases j - p
  {
    var d :| p < d < j && LabelSpan(s, p, d) && d < |s| && s[d] == '.' && (TopSpan(s, d + 1, j) || LabelsFrom(s, d + 1, j));
    if !TopSpan(s, d + 1, j) {
      LabelsFromShape(s, d + 1, j);
    }
  }

  lemma DomainMatchShape(s: string, i: int, j: int)
    requires DomainMatchAt(s, i, j)
    ensures j - i >= 4 && exists k | i < k < j :: s[k] == '.'
    ensures forall k | i <= k < j :: InClass(s[k], LabelChars) || s[k] == '.'
    ensures IsAsciiLetter(s[j - 2]) && IsAsciiLetter(s[j - 1])
  {
    LabelsFromShape(s, i, j);
    LabelsFromEnd(s, i, j);
  }

  // ---------------------------------------------------------------------
  // The searches and the extractor
  // ---------------------------------------------------------------------

  /** `Span(i, j)` is the match `re.search` reports for the dotted quad. */
  ghost predicate FirstIp(s: string, i: int, j: int) {
    IpMatchAt(s, i, j) && forall i', j' | 0 <= i' < i :: !IpMatchAt(s, i', j')
  }

  /** `Span(i, j)` is the match `re.search` reports for the domain pattern:
      the leftmost start, and the longest match there. */
  ghost predicate FirstDomain(s: string, i: int, j: int) {
    DomainMatchAt(s, i, j)
    && (forall i', j' | 0 <= i' < i :: !DomainMatchAt(s, i', j'))
    && (forall j' :: DomainMatchAt(s, i, j') ==> j' <= j)
  }

  ghost predicate NoIp(s: string) {
    forall i, j :: !IpMatchAt(s, i, j)
  }

  ghost predicate NoDomain(s: string) {
    forall i, j :: !DomainMatchAt(s, i, j)
  }

  /** What `re.search` reports is determined by the text. */
  lemma FirstIpUnique(s: string, i: int, j: int, i': int, j': int)
    requires FirstIp(s, i, j) && FirstIp(s, i', j')
    ensures i == i' && j == j'
  {
    IpMatchUnique(s, i, j, j');
  }

  lemma FirstDomainUnique(s: string, i: int, j: int, i': int, j': int)
    requires FirstDomain(s, i, j) && FirstDomain(s, i', j')
    ensures i == i' && j == j'
  {
  }

  /** Both patterns need a dot, so a goal without one, such as "scan my
      local box", yields no target. */
  lemma DotlessHasNoMatch(s: string)
    requires forall k | 0 <= k < |s| :: s[k] != '.'
    ensures NoIp(s) && NoDomain(s)
  {
    forall i, j
      ensures !IpMatchAt(s, i, j) && !DomainMatchAt(s, i, j)
    {
      if DomainMatchAt(s, i, j) {
        DomainMatchShape(s, i, j);
        assert false;
      }
    }
  }

  /** A goal with no digit holds no dotted quad. */
  lemma DigitlessHasNoIp(s: string)
    requires forall k | 0 <= k < |s| :: !IsDigit(s[k])
    ensures NoIp(s)
  {
    forall i, j
      ensures !IpMatchAt(s, i, j)
    {
      if IpMatchAt(s, i, j) {
        DottedFromEnds(s, i, 3, j);
        assert false;
      }
    }
  }

  /** A start where the matcher succeeds, with the matcher failing at every
      earlier start, is what `re.search` reports for the domain pattern. */
  lemma MatcherFindsFirstDomain(s: string, i: nat)
    requires i <= |s| && DomainAt(s, i).Some?
    requires forall i' | 0 <= i' < i :: DomainAt(s, i') == None
    ensures FirstDomain(s, i, DomainAt(s, i).value)
  {
    DomainAtLongest(s, i, DomainAt(s, i).value);
    forall j | DomainMatchAt(s, i, j)
      ensures j <= DomainAt(s, i).value
    {
      DomainAtLongest(s, i, j);
    }
    forall i', j | 0 <= i' < i
      ensures !DomainMatchAt(s, i', j)
    {
      DomainAtLongest(s, i', j);
    }
  }

  /** "scan example.com please" holds no dotted quad, and its domain-like
      name is "example.com" at positions 5 to 16. */
  lemma DomainExample(s: string)
    requires s == "scan example.com please"
    ensures NoIp(s) && FirstDomain(s, 5, 16) && s[5..16] == "example.com"
  {
    ExampleLayout(s);
    DigitlessHasNoIp(s);
    LayoutMatcherAt(s);
    forall i' | 0 <= i' < 5
      ensures DomainAt(s, i') == None
    {
      LayoutMatcherBefore(s, i');
    }
    MatcherFindsFirstDomain(s, 5);
  }

  /** The characters of the example that the two searches look at:
      "scan", a space, "example", a dot, "com", a space. */
  predicate ExampleShaped(s: string) {
    |s| >= 17 && s[4] == ' ' && s[12] == '.' && s[16] == ' '
    && (forall k | 0 <= k < 4 :: IsAsciiLetter(s[k]))
    && (forall k | 5 <= k < 12 :: IsAsciiLetter(s[k]))
    && (forall k | 13 <= k < 16 :: IsAsciiLetter(s[k]))
  }

  lemma ExampleLayout(s: string)
    requires s == "scan example.com please"
    ensures ExampleShaped(s) && forall k | 0 <= k < |s| :: !IsDigit(s[k])
  {
  }

  /** The matcher's run at the start of "example.com". */
  lemma LayoutMatcherAt(s: string)
    requires ExampleShaped(s)
    ensures DomainAt(s, 5) == Some(16)
  {
    assert AtBoundary(s, 5);
    assert LabelSpan(s, 5, 12);
    LabelThenDot(s, 5, 12);
    RunLengthIs(s, 13, LabelChars, 3);
    RunLengthIs(s, 13, Letters, 3);
  }

  /** No start before "example.com" gets past the matcher. */
  lemma LayoutMatcherBefore(s: string, i: nat)
    requires ExampleShaped(s) && i < 5
    ensures DomainAt(s, i) == None
  {
    if i == 0 {
      RunLengthIs(s, 0, LabelChars, 4);
    } else if i == 4 {
      RunLengthIs(s, 4, LabelChars, 0);
    } else {
      assert IsWordChar(s[i - 1]) && IsWordChar(s[i]);
    }
  }

  /** `re.search` with the dotted-quad pattern: the leftmost match. */
  method SearchIp(s: string) returns (m: Option<Span>)
    ensures m.Some? ==> FirstIp(s, m.value.start, m.value.end)
    ensures m.None? <==> NoIp(s)
  {
    var i := 0;
    while i <= |s|
      invariant 0 <= i <= |s| + 1
      invariant forall i', j | 0 <= i' < i :: !IpMatchAt(s, i', j)
    {
      var r := IpAt(s, i);
      forall j ensures IpMatchAt(s, i, j) <==> r == Some(j) {
        IpAtExact(s, i, j);
      }
      if r.Some? {
        return Some(Span(i, r.value));
      }
      i := i + 1;
    }
    return None;
  }

  /** `re.search` with the domain pattern: the leftmost start, and there the
      longest match. */
  method SearchDomain(s: string) returns (m: Option<Span>)
    ensures m.Some? ==> FirstDomain(s, m.value.start, m.value.end)
    ensures m.None? <==> NoDomain(s)
  {
    var i := 0;
    while i <= |s|
      invariant 0 <= i <= |s| + 1
      invariant forall i', j | 0 <= i' < i :: !DomainMatchAt(s, i', j)
    {
      var r := DomainAt(s, i);
      forall j ensures (r == Some(j) ==> DomainMatchAt(s, i, j)) && (DomainMatchAt(s, i, j) ==> r.Some? && j <= r.value) {
        DomainAtLongest(s, i, j);
      }
      if r.Some? {
        return Some(Span(i, r.value));
      }
      i := i + 1;
    }
    return None;
  }

  /** `extract_ip_or_domain`: the leftmost dotted quad if there is one, even
      when a domain-like name comes earlier; otherwise the leftmost, longest
      domain-like name; otherwise nothing. */
  method ExtractIpOrDomain(goal: string) returns (target: Option<string>)
    ensures target.None? <==> NoIp(goal) && NoDomain(goal)
    ensures target.Some? ==> exists i, j | 0 <= i <= j <= |goal| ::
      target.value == goal[i..j] && (FirstIp(goal, i, j) || (NoIp(goal) && FirstDomain(goal, i, j)))
    ensures !NoIp(goal) ==> exists i, j | FirstIp(goal, i, j) :: target == Some(goal[i..j])
  {
    var ip := SearchIp(goal);
    if ip.Some? {
      return Some(goal[ip.value.start..ip.value.end]);
    }
    var domain := SearchDomain(goal);
    if domain.Some? {
      return Some(goal[domain.value.start..domain.value.end]);
    }
    return None;
  }
}
