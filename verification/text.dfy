/** String operations the parsers are built from: JavaScript whitespace and
    `trim`, literal pattern search with optional ASCII case folding (what the
    source's regular expressions reduce to), first-match delimited search
    (`/<open>([\s\S]*?)<close>/`), and `String.prototype.replace` with a
    literal pattern and an empty replacement. */
module Text {
  import opened Wrappers

  /** The characters `String.prototype.trim` removes: ECMAScript WhiteSpace
      (tab, vertical tab, form feed, space, no-break space, byte order mark
      and the Zs category) and LineTerminator (LF, CR, LS, PS). */
  predicate IsJsSpace(c: char) {
    var n := c as int;
    n == 0x09 || n == 0x0A || n == 0x0B || n == 0x0C || n == 0x0D || n == 0x20
    || n == 0xA0 || n == 0x1680 || (0x2000 <= n <= 0x200A)
    || n == 0x2028 || n == 0x2029 || n == 0x202F || n == 0x205F || n == 0x3000 || n == 0xFEFF
  }

  predicate AllSpace(s: string) {
    forall i :: 0 <= i < |s| ==> IsJsSpace(s[i])
  }

  /** Neither end of `s` is whitespace. */
  predicate IsTrimmed(s: string) {
    s == [] || (!IsJsSpace(s[0]) && !IsJsSpace(s[|s| - 1]))
  }

  /** `s` without its leading whitespace. */
  function TrimStart(s: string): (r: string)
    ensures |r| <= |s| && r == s[|s| - |r|..]
    ensures r == [] || !IsJsSpace(r[0])
  {
    if |s| > 0 && IsJsSpace(s[0]) then
      var r := TrimStart(s[1..]);
      assert s[1..][|s| - 1 - |r|..] == s[|s| - |r|..];
      r
    else s
  }

  /** `s` without its trailing whitespace. */
  function TrimEnd(s: string): (r: string)
    ensures |r| <= |s| && r == s[..|r|]
    ensures r == [] || !IsJsSpace(r[|r| - 1])
  {
    if |s| > 0 && IsJsSpace(s[|s| - 1]) then
      var r := TrimEnd(s[..|s| - 1]);
      assert s[..|s| - 1][..|r|] == s[..|r|];
      r
    else s
  }

  /** `String.prototype.trim`. */
  function Trim(s: string): (r: string)
    ensures |r| <= |s|
    ensures IsTrimmed(r)
  {
    TrimEnd(TrimStart(s))
  }

  lemma {:induction false} TrimStartOfPadded(a: string, t: string)
    requires AllSpace(a)
    requires t == [] || !IsJsSpace(t[0])
    ensures TrimStart(a + t) == t
    decreases |a|
  {
    if |a| > 0 {
      assert (a + t)[1..] == a[1..] + t;
      TrimStartOfPadded(a[1..], t);
    } else {
      assert a + t == t;
    }
  }

  lemma {:induction false} TrimEndOfPadded(t: string, b: string)
    requires AllSpace(b)
    requires t == [] || !IsJsSpace(t[|t| - 1])
    ensures TrimEnd(t + b) == t
    decreases |b|
  {
    if |b| > 0 {
      assert (t + b)[..|t + b| - 1] == t + b[..|b| - 1];
      TrimEndOfPadded(t, b[..|b| - 1]);
    } else {
      assert t + b == t;
    }
  }

  /** `trim` is characterised by its result alone: whatever whitespace
      surrounds a string with non-blank ends, trimming gives that string back. */
  lemma TrimOfPadded(a: string, t: string, b: string)
    requires AllSpace(a) && AllSpace(b) && IsTrimmed(t)
    ensures Trim(a + t + b) == t
  {
    if t == [] {
      assert a + t + b == a + b;
      assert AllSpace(a + b);
      TrimStartOfPadded(a + b, []);
      assert a + b + [] == a + b;
      TrimEndOfPadded([], []);
    } else {
      assert a + t + b == a + (t + b);
      TrimStartOfPadded(a, t + b);
      TrimEndOfPadded(t, b);
    }
  }

  /** ASCII upper-casing. Regular expressions with the `i` flag and without
      the `u` flag never fold a non-ASCII character onto an ASCII one, so for
      the source's ASCII tag names this is exactly the case folding used. */
  function UpperAscii(c: char): (r: char)
    ensures 'a' <= c <= 'z' ==> 'A' <= r <= 'Z' && r as int + 32 == c as int
    ensures !('a' <= c <= 'z') ==> r == c
  {
    if 'a' <= c <= 'z' then (c as int - 32) as char else c
  }

  predicate CharMatches(c: char, p: char, ignoreCase: bool) {
    if ignoreCase then UpperAscii(c) == UpperAscii(p) else c == p
  }

  /** The pattern `pat` occurs in `s` starting at index `i`. */
  predicate MatchesAt(s: string, i: int, pat: string, ignoreCase: bool)
    decreases |s| - i
  {
    0 <= i && i + |pat| <= |s|
    && (pat == [] || (CharMatches(s[i], pat[0], ignoreCase) && MatchesAt(s, i + 1, pat[1..], ignoreCase)))
  }

  /** A case-sensitive match is an equal slice. */
  lemma {:induction false} MatchesAtExact(s: string, i: int, pat: string)
    ensures MatchesAt(s, i, pat, false) <==> 0 <= i && i + |pat| <= |s| && s[i..i + |pat|] == pat
    decreases |pat|
  {
    if 0 <= i && i + |pat| <= |s| && pat != [] {
      MatchesAtExact(s, i + 1, pat[1..]);
      assert s[i..i + |pat|] == [s[i]] + s[i + 1..i + 1 + |pat[1..]|];
      assert pat == [pat[0]] + pat[1..];
    }
  }

  /** A case-insensitive search finds everything a case-sensitive one does. */
  lemma {:induction false} ExactMatchIsCaselessMatch(s: string, i: int, pat: string)
    requires MatchesAt(s, i, pat, false)
    ensures MatchesAt(s, i, pat, true)
    decreases |pat|
  {
    if pat != [] {
      ExactMatchIsCaselessMatch(s, i + 1, pat[1..]);
    }
  }

  /** A case-insensitive search for `pat` is a search for any ASCII
      case variant of `pat`, for instance an upper-cased tag. */
  lemma {:induction false} CaselessMatchIgnoresPatternCase(s: string, i: int, pat: string, pat': string)
    requires |pat| == |pat'|
    requires forall k :: 0 <= k < |pat| ==> UpperAscii(pat[k]) == UpperAscii(pat'[k])
    ensures MatchesAt(s, i, pat, true) <==> MatchesAt(s, i, pat', true)
    decreases |pat|
  {
    if pat != [] {
      assert forall k :: 0 <= k < |pat[1..]| ==> pat[1..][k] == pat[k + 1] && pat'[1..][k] == pat'[k + 1];
      CaselessMatchIgnoresPatternCase(s, i + 1, pat[1..], pat'[1..]);
    }
  }

  /** The first index at or after `from` where `pat` occurs (what a
      search from `lastIndex == from` reports). */
  function Find(s: string, pat: string, from: nat, ignoreCase: bool): (r: Option<nat>)
    ensures r.Some? ==> from <= r.value && r.value + |pat| <= |s|
    decreases |s| - from
  {
    if from + |pat| > |s| then None
    else if MatchesAt(s, from, pat, ignoreCase) then Some(from)
    else Find(s, pat, from + 1, ignoreCase)
  }

  /** `Find` reports the first occurrence at or after `from`, and reports
      nothing only when there is none. */
  lemma {:induction false} FindIsFirst(s: string, pat: string, from: nat, ignoreCase: bool)
    ensures match Find(s, pat, from, ignoreCase)
            case Some(i) =>
              && from <= i && MatchesAt(s, i, pat, ignoreCase)
              && forall j :: from <= j < i ==> !MatchesAt(s, j, pat, ignoreCase)
            case None => forall j :: from <= j ==> !MatchesAt(s, j, pat, ignoreCase)
    decreases |s| - from
  {
    if from + |pat| > |s| {
    } else if MatchesAt(s, from, pat, ignoreCase) {
    } else {
      FindIsFirst(s, pat, from + 1, ignoreCase);
    }
  }

  /** The first occurrence is determined by where the pattern occurs. */
  lemma {:induction false} FindIs(s: string, pat: string, from: nat, ignoreCase: bool, i: nat)
    requires from <= i && MatchesAt(s, i, pat, ignoreCase)
    requires forall j :: from <= j < i ==> !MatchesAt(s, j, pat, ignoreCase)
    ensures Find(s, pat, from, ignoreCase) == Some(i)
  {
    FindIsFirst(s, pat, from, ignoreCase);
  }

  /** A search may skip a stretch in which the pattern does not occur. */
  lemma {:induction false} FindSkip(s: string, pat: string, from: nat, k: nat, ignoreCase: bool)
    requires from <= k
    requires forall j :: from <= j < k ==> !MatchesAt(s, j, pat, ignoreCase)
    ensures Find(s, pat, from, ignoreCase) == Find(s, pat, k, ignoreCase)
    decreases k - from
  {
    if from < k {
      FindSkip(s, pat, from + 1, k, ignoreCase);
    }
  }

  /** An occurrence at or after `from` is always found. */
  lemma FindFindsOccurrence(s: string, pat: string, from: nat, ignoreCase: bool, i: nat)
    requires from <= i && MatchesAt(s, i, pat, ignoreCase)
    ensures Find(s, pat, from, ignoreCase).Some?
  {
    FindIsFirst(s, pat, from, ignoreCase);
  }

  /** The first two characters of a match. */
  lemma MatchesAtHead(s: string, j: int, pat: string, ignoreCase: bool)
    requires |pat| >= 2 && MatchesAt(s, j, pat, ignoreCase)
    ensures 0 <= j && j + |pat| <= |s|
    ensures CharMatches(s[j], pat[0], ignoreCase) && CharMatches(s[j + 1], pat[1], ignoreCase)
  {
    assert MatchesAt(s, j + 1, pat[1..], ignoreCase);
    assert pat[1..][0] == pat[1];
  }

  /** Every slice of `s` occurs in `s`. */
  lemma SliceOccurs(s: string, i: nat, j: nat)
    requires i <= j <= |s|
    ensures Find(s, s[i..j], 0, false).Some?
  {
    MatchesAtExact(s, i, s[i..j]);
    FindFindsOccurrence(s, s[i..j], 0, false, i);
  }

  /** An exact match begins with the pattern's first two characters. */
  lemma MatchesAtFirstTwo(s: string, j: int, pat: string)
    requires |pat| >= 2
    ensures MatchesAt(s, j, pat, false) ==> 0 <= j && j + 1 < |s| && s[j] == pat[0] && s[j + 1] == pat[1]
  {
    if MatchesAt(s, j, pat, false) {
      MatchesAtHead(s, j, pat, false);
    }
  }

  /** Case folding never maps another character onto `<`, `/` or `>`. */
  lemma PunctuationMatchesOnlyItself(c: char, p: char, ignoreCase: bool)
    requires p == '<' || p == '/' || p == '>'
    ensures CharMatches(c, p, ignoreCase) <==> c == p
  {
  }

  lemma {:induction false} MatchesAtPrefix(a: string, t: string, i: int, pat: string, ignoreCase: bool)
    requires i + |pat| <= |a|
    ensures MatchesAt(a + t, i, pat, ignoreCase) <==> MatchesAt(a, i, pat, ignoreCase)
    decreases |pat|
  {
    if 0 <= i && pat != [] {
      MatchesAtPrefix(a, t, i + 1, pat[1..], ignoreCase);
    }
  }

  lemma {:induction false} MatchesAtShift(a: string, t: string, i: int, pat: string, ignoreCase: bool)
    requires 0 <= i
    ensures MatchesAt(a + t, |a| + i, pat, ignoreCase) <==> MatchesAt(t, i, pat, ignoreCase)
    decreases |pat|
  {
    if pat != [] && i + |pat| <= |t| {
      MatchesAtShift(a, t, i + 1, pat[1..], ignoreCase);
      assert |a| + i + 1 == |a| + (i + 1);
    }
  }

  /** Searching past a prefix `a` is searching the rest, shifted by `|a|`. */
  lemma {:induction false} FindShift(a: string, t: string, pat: string, from: nat, ignoreCase: bool)
    ensures Find(a + t, pat, |a| + from, ignoreCase)
         == (match Find(t, pat, from, ignoreCase)
             case None => None
             case Some(i) => Some(|a| + i))
    decreases |t| - from
  {
    MatchesAtShift(a, t, from, pat, ignoreCase);
    var s := a + t;
    if from + |pat| > |t| {
      assert Find(s, pat, |a| + from, ignoreCase) == None;
      assert Find(t, pat, from, ignoreCase) == None;
    } else if MatchesAt(t, from, pat, ignoreCase) {
      assert Find(s, pat, |a| + from, ignoreCase) == Some(|a| + from);
      assert Find(t, pat, from, ignoreCase) == Some(from);
    } else {
      FindShift(a, t, pat, from + 1, ignoreCase);
      assert Find(s, pat, |a| + from, ignoreCase) == Find(s, pat, |a| + (from + 1), ignoreCase);
      assert Find(t, pat, from, ignoreCase) == Find(t, pat, from + 1, ignoreCase);
    }
  }

  /** A regular-expression match of `open ([\s\S]*?) close`: where the whole
      match starts and ends, and the captured group between the delimiters. */
  datatype Match = Match(start: nat, end: nat, inner: string)

  /** `m` is the match of `open…close` a search from `from` reports: the
      opening delimiter is the first one at or after `from`, and the closing
      delimiter is the nearest one after it (a lazy group). */
  predicate IsFirstDelimited(s: string, open: string, close: string, from: nat, ignoreCase: bool, m: Match) {
    && from <= m.start
    && m.start + |open| + |close| <= m.end <= |s|
    && MatchesAt(s, m.start, open, ignoreCase)
    && MatchesAt(s, m.end - |close|, close, ignoreCase)
    && m.inner == s[m.start + |open|..m.end - |close|]
    && (forall j :: from <= j < m.start ==> !MatchesAt(s, j, open, ignoreCase))
    && (forall j :: m.start + |open| <= j < m.end - |close| ==> !MatchesAt(s, j, close, ignoreCase))
  }

  /** No opening delimiter at or after `from` is followed by a closing one. */
  predicate NoDelimitedFrom(s: string, open: string, close: string, from: nat, ignoreCase: bool) {
    forall p, q :: from <= p <= |s| && p + |open| <= q <= |s| && MatchesAt(s, p, open, ignoreCase)
      ==> !MatchesAt(s, q, close, ignoreCase)
  }

  /** `exec` of a delimited pattern whose search starts at `from`. */
  function FindDelimited(s: string, open: string, close: string, from: nat, ignoreCase: bool): (r: Option<Match>)
  {
    match Find(s, open, from, ignoreCase)
    case None => None
    case Some(p) =>
      match Find(s, close, p + |open|, ignoreCase)
      case None => None
      case Some(q) => Some(Match(p, q + |close|, s[p + |open|..q]))
  }

  lemma {:induction false} FirstDelimitedOfSearches(s: string, open: string, close: string, from: nat, ignoreCase: bool, p: nat, q: nat)
    requires Find(s, open, from, ignoreCase) == Some(p)
    requires Find(s, close, p + |open|, ignoreCase) == Some(q)
    ensures IsFirstDelimited(s, open, close, from, ignoreCase, Match(p, q + |close|, s[p + |open|..q]))
  {
    FindIsFirst(s, open, from, ignoreCase);
    FindIsFirst(s, close, p + |open|, ignoreCase);
  }

  lemma {:induction false} NoDelimitedOfSearch(s: string, open: string, close: string, from: nat, ignoreCase: bool, p: nat)
    requires Find(s, open, from, ignoreCase) == Some(p)
    requires Find(s, close, p + |open|, ignoreCase) == None
    ensures NoDelimitedFrom(s, open, close, from, ignoreCase)
  {
    FindIsFirst(s, open, from, ignoreCase);
    FindIsFirst(s, close, p + |open|, ignoreCase);
    forall p', q' | from <= p' <= |s| && p' + |open| <= q' <= |s| && MatchesAt(s, p', open, ignoreCase)
      ensures !MatchesAt(s, q', close, ignoreCase)
    {
      assert p <= p';
    }
  }

  /** Where a delimited match can lie. */
  lemma FindDelimitedBounds(s: string, open: string, close: string, from: nat, ignoreCase: bool)
    ensures match FindDelimited(s, open, close, from, ignoreCase)
            case Some(m) => from <= m.start && m.start + |open| + |close| <= m.end <= |s|
            case None => true
  {
  }

  /** What `FindDelimited` reports is the first delimited match, and when it
      reports nothing there is none. */
  lemma {:induction false} FindDelimitedIsFirst(s: string, open: string, close: string, from: nat, ignoreCase: bool)
    ensures match FindDelimited(s, open, close, from, ignoreCase)
            case Some(m) => IsFirstDelimited(s, open, close, from, ignoreCase, m)
            case None => NoDelimitedFrom(s, open, close, from, ignoreCase)
  {
    match Find(s, open, from, ignoreCase)
    case None => NoDelimitedOfNoOpen(s, open, close, from, ignoreCase);
    case Some(p) =>
      match Find(s, close, p + |open|, ignoreCase)
      case Some(q) => FoundDelimitedIsFirst(s, open, close, from, ignoreCase, p, q);
      case None => NoDelimitedOfSearch(s, open, close, from, ignoreCase, p);
  }

  lemma NoDelimitedOfNoOpen(s: string, open: string, close: string, from: nat, ignoreCase: bool)
    requires Find(s, open, from, ignoreCase) == None
    ensures FindDelimited(s, open, close, from, ignoreCase) == None
    ensures NoDelimitedFrom(s, open, close, from, ignoreCase)
  {
    FindIsFirst(s, open, from, ignoreCase);
  }

  lemma FoundDelimitedIsFirst(s: string, open: string, close: string, from: nat, ignoreCase: bool, p: nat, q: nat)
    requires Find(s, open, from, ignoreCase) == Some(p)
    requires Find(s, close, p + |open|, ignoreCase) == Some(q)
    ensures FindDelimited(s, open, close, from, ignoreCase) == Some(Match(p, q + |close|, s[p + |open|..q]))
    ensures IsFirstDelimited(s, open, close, from, ignoreCase, Match(p, q + |close|, s[p + |open|..q]))
  {
    FirstDelimitedOfSearches(s, open, close, from, ignoreCase, p, q);
  }

  /** There is only one first match. */
  lemma {:induction false} FirstDelimitedUnique(s: string, open: string, close: string, from: nat, ignoreCase: bool, m: Match, m': Match)
    requires IsFirstDelimited(s, open, close, from, ignoreCase, m)
    requires IsFirstDelimited(s, open, close, from, ignoreCase, m')
    ensures m == m'
  {
  }

  /** `FindDelimited` is characterised by the first-match predicate: it
      reports nothing exactly when there is no delimited match, and
      otherwise the one first match. */
  lemma FindDelimitedSpec(s: string, open: string, close: string, from: nat, ignoreCase: bool)
    ensures FindDelimited(s, open, close, from, ignoreCase).None? <==> NoDelimitedFrom(s, open, close, from, ignoreCase)
    ensures forall m :: IsFirstDelimited(s, open, close, from, ignoreCase, m)
                ==> FindDelimited(s, open, close, from, ignoreCase) == Some(m)
  {
    FindDelimitedIsFirst(s, open, close, from, ignoreCase);
    var r := FindDelimited(s, open, close, from, ignoreCase);
    if r.Some? {
      var m := r.value;
      assert !NoDelimitedFrom(s, open, close, from, ignoreCase) by {
        assert from <= m.start <= |s| && m.start + |open| <= m.end - |close| <= |s|;
        assert MatchesAt(s, m.start, open, ignoreCase) && MatchesAt(s, m.end - |close|, close, ignoreCase);
      }
      forall m' | IsFirstDelimited(s, open, close, from, ignoreCase, m') ensures r == Some(m') {
        FirstDelimitedUnique(s, open, close, from, ignoreCase, m, m');
      }
    }
  }

  lemma {:induction false} FindDelimitedOfSearches(s: string, open: string, close: string, from: nat, ignoreCase: bool, p: nat, x: nat, q: nat)
    requires Find(s, open, from, ignoreCase) == Some(p)
    requires x == p + |open|
    requires Find(s, close, x, ignoreCase) == Some(q)
    ensures FindDelimited(s, open, close, from, ignoreCase) == Some(Match(p, q + |close|, s[p + |open|..q]))
  {
  }

  lemma {:induction false} FindDelimitedOfSearchesAs(s: string, open: string, close: string, from: nat, ignoreCase: bool,
                                                      p: nat, x: nat, q: nat, end: nat, inner: string)
    requires Find(s, open, from, ignoreCase) == Some(p)
    requires x == p + |open|
    requires Find(s, close, x, ignoreCase) == Some(q)
    requires end == q + |close| && inner == s[x..q]
    ensures FindDelimited(s, open, close, from, ignoreCase) == Some(Match(p, end, inner))
  {
    FindDelimitedOfSearches(s, open, close, from, ignoreCase, p, x, q);
  }

  lemma {:induction false} FindShiftSome(a: string, t: string, pat: string, from: nat, ignoreCase: bool, i: nat, from': nat)
    requires Find(t, pat, from, ignoreCase) == Some(i)
    requires from' == |a| + from
    ensures Find(a + t, pat, from', ignoreCase) == Some(|a| + i)
  {
    FindShift(a, t, pat, from, ignoreCase);
  }

  lemma {:induction false} FindShiftNone(a: string, t: string, pat: string, from: nat, ignoreCase: bool)
    requires Find(t, pat, from, ignoreCase) == None
    ensures Find(a + t, pat, |a| + from, ignoreCase) == None
  {
    FindShift(a, t, pat, from, ignoreCase);
  }

  lemma SliceShift(a: string, t: string, i: nat, j: nat, i': nat, j': nat)
    requires i <= j <= |t| && i' == |a| + i && j' == |a| + j
    ensures (a + t)[i'..j'] == t[i..j]
  {
  }

  lemma {:induction false} FindDelimitedShiftSome(a: string, t: string, open: string, close: string, from: nat, ignoreCase: bool, p: nat, q: nat)
    requires Find(t, open, from, ignoreCase) == Some(p)
    requires Find(t, close, p + |open|, ignoreCase) == Some(q)
    ensures FindDelimited(a + t, open, close, |a| + from, ignoreCase)
         == Some(Match(|a| + p, |a| + q + |close|, t[p + |open|..q]))
  {
    FindShiftSome(a, t, open, from, ignoreCase, p, |a| + from);
    FindShiftSome(a, t, close, p + |open|, ignoreCase, q, |a| + p + |open|);
    SliceShift(a, t, p + |open|, q, |a| + p + |open|, |a| + q);
    FindDelimitedOfSearchesAs(a + t, open, close, |a| + from, ignoreCase, |a| + p, |a| + p + |open|, |a| + q,
                              |a| + q + |close|, t[p + |open|..q]);
  }

  lemma {:induction false} FindDelimitedShiftNoOpen(a: string, t: string, open: string, close: string, from: nat, ignoreCase: bool)
    requires Find(t, open, from, ignoreCase) == None
    ensures FindDelimited(a + t, open, close, |a| + from, ignoreCase) == None
  {
    FindShiftNone(a, t, open, from, ignoreCase);
  }

  lemma {:induction false} FindDelimitedShiftNoClose(a: string, t: string, open: string, close: string, from: nat, ignoreCase: bool, p: nat)
    requires Find(t, open, from, ignoreCase) == Some(p)
    requires Find(t, close, p + |open|, ignoreCase) == None
    ensures FindDelimited(a + t, open, close, |a| + from, ignoreCase) == None
  {
    FindShiftSome(a, t, open, from, ignoreCase, p, |a| + from);
    FindShiftNone(a, t, close, p + |open|, ignoreCase);
    assert |a| + (p + |open|) == |a| + p + |open|;
  }

  /** A delimited search may skip a stretch in which the opening delimiter
      does not occur. */
  lemma FindDelimitedSkip(s: string, open: string, close: string, from: nat, k: nat, ignoreCase: bool)
    requires from <= k
    requires forall j :: from <= j < k ==> !MatchesAt(s, j, open, ignoreCase)
    ensures FindDelimited(s, open, close, from, ignoreCase) == FindDelimited(s, open, close, k, ignoreCase)
  {
    FindSkip(s, open, from, k, ignoreCase);
  }

  /** A delimited search past a prefix `a` is a search of the rest, shifted. */
  lemma {:induction false} FindDelimitedShift(a: string, t: string, open: string, close: string, from: nat, ignoreCase: bool)
    ensures FindDelimited(a + t, open, close, |a| + from, ignoreCase)
         == (match FindDelimited(t, open, close, from, ignoreCase)
             case None => None
             case Some(m) => Some(Match(|a| + m.start, |a| + m.end, m.inner)))
  {
    match Find(t, open, from, ignoreCase)
    case None =>
      FindDelimitedShiftNoOpen(a, t, open, close, from, ignoreCase);
    case Some(p) =>
      match Find(t, close, p + |open|, ignoreCase)
      case None =>
        FindDelimitedShiftNoClose(a, t, open, close, from, ignoreCase, p);
      case Some(q) =>
        FindDelimitedShiftSome(a, t, open, close, from, ignoreCase, p, q);
  }

  /** A delimited search from the start of `a + t` where no opening
      delimiter begins inside `a` is a search of `t`, shifted. */
  lemma FindDelimitedPastPrefix(a: string, t: string, open: string, close: string, ignoreCase: bool)
    requires forall j :: 0 <= j < |a| ==> !MatchesAt(a + t, j, open, ignoreCase)
    ensures FindDelimited(a + t, open, close, 0, ignoreCase)
         == (match FindDelimited(t, open, close, 0, ignoreCase)
             case None => None
             case Some(m) => Some(Match(|a| + m.start, |a| + m.end, m.inner)))
  {
    FindDelimitedSkip(a + t, open, close, 0, |a| + 0, ignoreCase);
    FindDelimitedShift(a, t, open, close, 0, ignoreCase);
  }

  /** Two patterns that agree up to ASCII case. */
  predicate SameUpToCase(pat: string, pat': string) {
    |pat| == |pat'| && forall k :: 0 <= k < |pat| ==> UpperAscii(pat[k]) == UpperAscii(pat'[k])
  }

  /** A case-insensitive search cannot tell patterns that agree up to case
      apart. */
  lemma {:induction false} FindIgnoresPatternCase(s: string, pat: string, pat': string, from: nat)
    requires SameUpToCase(pat, pat')
    ensures Find(s, pat, from, true) == Find(s, pat', from, true)
    decreases |s| - from
  {
    if from + |pat| <= |s| {
      CaselessMatchIgnoresPatternCase(s, from, pat, pat');
      FindIgnoresPatternCase(s, pat, pat', from + 1);
    }
  }

  lemma FindDelimitedIgnoresPatternCase(s: string, open: string, close: string, open': string, close': string, from: nat)
    requires SameUpToCase(open, open') && SameUpToCase(close, close')
    ensures FindDelimited(s, open, close, from, true) == FindDelimited(s, open', close', from, true)
  {
    FindIgnoresPatternCase(s, open, open', from);
    match Find(s, open, from, true)
    case None =>
    case Some(p) =>
      FindIgnoresPatternCase(s, close, close', p + |open|);
  }

  /** `s.replace(pat, '')` with a literal `pat`: the first occurrence of
      `pat` is cut out; without one, `s` is returned as it is. */
  function RemoveFirst(s: string, pat: string): (r: string)
    ensures match Find(s, pat, 0, false)
            case None => r == s
            case Some(i) => |r| + |pat| == |s| && i <= |r| && r[..i] + pat + r[i..] == s
  {
    FindIsFirst(s, pat, 0, false);
    match Find(s, pat, 0, false)
    case None => s
    case Some(i) =>
      MatchesAtExact(s, i, pat);
      var r := s[..i] + s[i + |pat|..];
      assert r[..i] == s[..i] && r[i..] == s[i + |pat|..];
      assert s[i..i + |pat|] == pat;
      assert s == s[..i] + s[i..i + |pat|] + s[i + |pat|..];
      r
  }
}
