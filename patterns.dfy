/** Hand-written matchers for the fixed regular expressions the two checkers use.
    Each comes twice: a ghost predicate saying which substrings the expression matches
    (and, where the checker reads the match, which one Python's backtracking search
    reports), and an executable scan proved to agree with it. */
module Patterns {
  import opened Text

  // ---------------------------------------------------------------------------
  // `^key\s*(.+)$` under re.MULTILINE, as `re.search` runs it
  // ---------------------------------------------------------------------------

  /** The pattern matches at line start `p`; its `\s*` covers `[p + |key|, q)` and its
      group is `s[q..e]`. */
  ghost predicate KeyValueMatch(s: string, key: string, p: int, q: int, e: int) {
    LineStart(s, p) && StartsWithAt(s, p, key) && p + |key| <= q < e <= |s| &&
    (forall k :: p + |key| <= k < q ==> IsSpace(s[k])) &&
    NoNewlineIn(s, q, e) && (e == |s| || s[e] == '\n')
  }

  /** Offsets of a reported match: where it starts and where its group starts and ends. */
  datatype Span = Span(start: nat, groupStart: nat, groupEnd: nat)

  /** The order in which the search tries matches: an earlier start first, then (greedy
      `\s*`) a later group start, then (greedy `.+`) a later group end. The reported
      match is the first that succeeds, so it is preferred to every other match. */
  ghost predicate Preferred(m: Span, p: int, q: int, e: int) {
    m.start < p || (m.start == p && (q < m.groupStart || (q == m.groupStart && e <= m.groupEnd)))
  }

  /** The last offset in `[lo, hi)` that holds something other than a line feed. */
  function LastNonNewline(s: string, lo: nat, hi: nat): (r: Option<nat>)
    requires lo <= hi <= |s|
    ensures r.Some? ==> lo <= r.value < hi && s[r.value] != '\n'
    ensures r.Some? ==> forall k :: r.value < k < hi ==> s[k] == '\n'
    ensures r.None? ==> forall k :: lo <= k < hi ==> s[k] == '\n'
    decreases hi - lo
  {
    if lo == hi then None
    else if s[hi - 1] != '\n' then Some(hi - 1)
    else LastNonNewline(s, lo, hi - 1)
  }

  /** The match backtracking finds at `p`, if any. `\s*` first takes the whole run of
      whitespace, which may cross line feeds; only when that run reaches the end of
      the text does it give characters back, until `.+` can take one that is not a
      line feed. */
  function KeyValueAt(s: string, key: string, p: nat): (m: Option<Span>)
    ensures m.Some? ==> m.value.start == p &&
                        KeyValueMatch(s, key, p, m.value.groupStart, m.value.groupEnd)
    ensures m.Some? ==> forall q, e :: KeyValueMatch(s, key, p, q, e) ==> Preferred(m.value, p, q, e)
    ensures m.None? ==> forall q, e :: !KeyValueMatch(s, key, p, q, e)
  {
    if !(LineStart(s, p) && StartsWithAt(s, p, key)) then None
    else
      var q := SkipSpace(s, p + |key|);
      if q < |s| then
        assert IsSpace('\n');
        var e := LineEnd(s, q);
        assert forall q', e' :: KeyValueMatch(s, key, p, q', e') ==> q' <= q && (q' == q ==> e' <= e);
        Some(Span(p, q, e))
      else
        assert forall q', e' :: KeyValueMatch(s, key, p, q', e') ==>
                 p + |key| <= q' < |s| && s[q'] != '\n';
        match LastNonNewline(s, p + |key|, |s|)
        case None => None
        case Some(k) =>
          assert k + 1 < |s| ==> s[k + 1] == '\n';
          assert forall q', e' :: KeyValueMatch(s, key, p, q', e') && q' == k ==> e' <= k + 1;
          Some(Span(p, k, k + 1))
  }

  /** `re.search` from offset `from` on. */
  function KeyValueSearchFrom(s: string, key: string, from: nat): (m: Option<Span>)
    ensures m.Some? ==> from <= m.value.start &&
                        KeyValueMatch(s, key, m.value.start, m.value.groupStart, m.value.groupEnd)
    ensures m.Some? ==> forall p, q, e :: from <= p && KeyValueMatch(s, key, p, q, e) ==>
                                           Preferred(m.value, p, q, e)
    ensures m.None? ==> forall p, q, e :: from <= p ==> !KeyValueMatch(s, key, p, q, e)
    decreases |s| - from
  {
    if from >= |s| then None
    else match KeyValueAt(s, key, from)
      case Some(m) => Some(m)
      case None => KeyValueSearchFrom(s, key, from + 1)
  }

  /** `re.search(r'^key\s*(.+)$', s, re.MULTILINE)`: the match it reports, or none. */
  function KeyValueSearch(s: string, key: string): (m: Option<Span>)
    ensures m.Some? ==> KeyValueMatch(s, key, m.value.start, m.value.groupStart, m.value.groupEnd)
    ensures m.Some? ==> forall p, q, e :: KeyValueMatch(s, key, p, q, e) ==> Preferred(m.value, p, q, e)
    ensures m.None? <==> forall p, q, e :: !KeyValueMatch(s, key, p, q, e)
  {
    KeyValueSearchFrom(s, key, 0)
  }

  /** `\s*` may cross line feeds: when the key ends its line, or is followed only by
      whitespace, the value is read from the next character that is not whitespace,
      however many lines down, to the end of that line. */
  lemma ValueAfterBlankRun(s: string, key: string, p: nat, q: nat)
    requires LineStart(s, p) && StartsWithAt(s, p, key)
    requires p + |key| <= q < |s| && !IsSpace(s[q])
    requires forall k :: p + |key| <= k < q ==> IsSpace(s[k])
    ensures KeyValueAt(s, key, p) == Some(Span(p, q, LineEnd(s, q)))
  {
    SkipSpaceStops(s, p + |key|, q);
  }

  // ---------------------------------------------------------------------------
  // `A.*B.*C` with literal parts: `re.search` success
  // ---------------------------------------------------------------------------

  /** One element of a part: a literal character, or `.` (any character but a line feed). */
  datatype Atom = Char(c: char) | AnyChar

  predicate AtomMatches(a: Atom, c: char) {
    match a
    case Char(x) => c == x
    case AnyChar => c != '\n'
  }

  /** The atoms between two `.*`. */
  type Piece = seq<Atom>

  function Literal(t: string): (p: Piece)
    ensures |p| == |t| && forall k :: 0 <= k < |t| ==> p[k] == Char(t[k])
  {
    seq(|t|, k requires 0 <= k < |t| => Char(t[k]))
  }

  predicate PieceAt(s: string, piece: Piece, i: int) {
    0 <= i && i + |piece| <= |s| && forall k :: 0 <= k < |piece| ==> AtomMatches(piece[k], s[i + k])
  }

  /** A part that cannot match a line feed. */
  predicate NewlineFree(piece: Piece) {
    forall k :: 0 <= k < |piece| ==> piece[k] != Char('\n')
  }

  /** `ps[0].*ps[1].* ... ps[n-1]` matches starting at `i`. */
  ghost predicate GappedMatchAt(s: string, ps: seq<Piece>, i: int)
    decreases |ps|, 0
  {
    ps == [] || (PieceAt(s, ps[0], i) && GappedReach(s, ps[1..], i + |ps[0]|))
  }

  /** After a `.*` that starts at `from`: the rest matches further along the same line. */
  ghost predicate GappedReach(s: string, ps: seq<Piece>, from: int)
    decreases |ps|, 1
  {
    exists j :: 0 <= from <= j <= |s| && NoNewlineIn(s, from, j) && GappedMatchAt(s, ps, j)
  }

  /** The pattern matches somewhere in `s`. */
  ghost predicate Gapped(s: string, ps: seq<Piece>) {
    exists i :: 0 <= i <= |s| && GappedMatchAt(s, ps, i)
  }

  /** The earliest offset from `from` on, before the next line feed, where `piece` matches. */
  function FirstOnLine(s: string, piece: Piece, from: nat): (r: Option<nat>)
    requires from <= |s|
    ensures r.Some? ==> from <= r.value <= |s| && NoNewlineIn(s, from, r.value) &&
                        PieceAt(s, piece, r.value)
    ensures r.Some? ==> forall j :: from <= j < r.value ==> !PieceAt(s, piece, j)
    ensures r.None? ==> forall j :: from <= j <= |s| && NoNewlineIn(s, from, j) ==> !PieceAt(s, piece, j)
    decreases |s| - from
  {
    if PieceAt(s, piece, from) then Some(from)
    else if from == |s| || s[from] == '\n' then None
    else FirstOnLine(s, piece, from + 1)
  }

  /** Takes each part at its earliest place on the line, after the previous one. */
  function Greedy(s: string, ps: seq<Piece>, from: nat): bool
    requires from <= |s|
    decreases |ps|
  {
    if ps == [] then true
    else match FirstOnLine(s, ps[0], from)
      case None => false
      case Some(j) => Greedy(s, ps[1..], j + |ps[0]|)
  }

  function SearchFrom(s: string, ps: seq<Piece>, i: nat): bool
    requires i <= |s|
    decreases |s| - i
  {
    (ps == [] || (PieceAt(s, ps[0], i) && Greedy(s, ps[1..], i + |ps[0]|))) ||
    (i < |s| && SearchFrom(s, ps, i + 1))
  }

  /** `re.search` of the gapped pattern succeeds. */
  function Search(s: string, ps: seq<Piece>): bool {
    SearchFrom(s, ps, 0)
  }

  predicate AllNewlineFree(ps: seq<Piece>) {
    forall k :: 0 <= k < |ps| ==> NewlineFree(ps[k])
  }

  /** Taking every part at its earliest place loses no match: a later place for a part
      only leaves less of the line for the parts after it. */
  lemma {:induction false} GreedyIsComplete(s: string, ps: seq<Piece>, from: nat)
    requires from <= |s| && AllNewlineFree(ps)
    ensures Greedy(s, ps, from) <==> GappedReach(s, ps, from)
    decreases |ps|
  {
    if ps == [] {
      assert NoNewlineIn(s, from, from) && GappedMatchAt(s, ps, from);
    } else {
      var p0 := ps[0];
      assert NewlineFree(p0);
      assert AllNewlineFree(ps[1..]);
      match FirstOnLine(s, p0, from)
      case None =>
        if GappedReach(s, ps, from) {
          var j :| 0 <= from <= j <= |s| && NoNewlineIn(s, from, j) && GappedMatchAt(s, ps, j);
          assert false;
        }
      case Some(j0) =>
        GreedyIsComplete(s, ps[1..], j0 + |p0|);
        if Greedy(s, ps, from) {
          assert GappedMatchAt(s, ps, j0);
        }
        if GappedReach(s, ps, from) {
          var j :| 0 <= from <= j <= |s| && NoNewlineIn(s, from, j) && GappedMatchAt(s, ps, j);
          assert j0 <= j;
          assert GappedReach(s, ps[1..], j + |p0|);
          var k :| 0 <= j + |p0| <= k <= |s| && NoNewlineIn(s, j + |p0|, k) && GappedMatchAt(s, ps[1..], k);
          forall t | j0 + |p0| <= t < k
            ensures s[t] != '\n'
          {
            if t < j {
            } else if t < j + |p0| {
              assert AtomMatches(p0[t - j], s[t]) && p0[t - j] != Char('\n');
            }
          }
          assert GappedReach(s, ps[1..], j0 + |p0|);
        }
    }
  }

  lemma {:induction false} SearchFromIsComplete(s: string, ps: seq<Piece>, i: nat)
    requires i <= |s| && AllNewlineFree(ps)
    ensures SearchFrom(s, ps, i) <==> exists k :: i <= k <= |s| && GappedMatchAt(s, ps, k)
    decreases |s| - i
  {
    var here := ps == [] || (PieceAt(s, ps[0], i) && Greedy(s, ps[1..], i + |ps[0]|));
    if ps != [] && PieceAt(s, ps[0], i) {
      assert AllNewlineFree(ps[1..]);
      GreedyIsComplete(s, ps[1..], i + |ps[0]|);
    }
    assert here <==> GappedMatchAt(s, ps, i);
    if i < |s| {
      SearchFromIsComplete(s, ps, i + 1);
    }
    if exists k :: i <= k <= |s| && GappedMatchAt(s, ps, k) {
      var k :| i <= k <= |s| && GappedMatchAt(s, ps, k);
      if k > i {
        assert i + 1 <= k <= |s| && GappedMatchAt(s, ps, k);
      }
    }
    if SearchFrom(s, ps, i) {
      if !here {
        var k :| i + 1 <= k <= |s| && GappedMatchAt(s, ps, k);
        assert i <= k;
      }
    }
  }

  /** The executable search agrees with the pattern's meaning. */
  lemma SearchIsComplete(s: string, ps: seq<Piece>)
    requires AllNewlineFree(ps)
    ensures Search(s, ps) <==> Gapped(s, ps)
  {
    SearchFromIsComplete(s, ps, 0);
    assert Search(s, ps) == SearchFrom(s, ps, 0);
    if Gapped(s, ps) {
      var i :| 0 <= i <= |s| && GappedMatchAt(s, ps, i);
      assert exists k :: 0 <= k <= |s| && GappedMatchAt(s, ps, k);
    }
    if Search(s, ps) {
      var k :| 0 <= k <= |s| && GappedMatchAt(s, ps, k);
      assert Gapped(s, ps);
    }
  }

  // ---------------------------------------------------------------------------
  // `key([0-9]+\.[0-9]+\.[0-9]+)`, as `re.search` runs it
  // ---------------------------------------------------------------------------

  /** The pattern matches at `i` with its dots at `d1` and `d2`, its group ending at `e`. */
  ghost predicate VersionMatch(s: string, key: string, i: int, d1: int, d2: int, e: int) {
    StartsWithAt(s, i, key) && i + |key| < d1 && d1 + 1 < d2 && d2 + 1 < e <= |s| &&
    AllDigits(s, i + |key|, d1) && s[d1] == '.' && AllDigits(s, d1 + 1, d2) && s[d2] == '.' &&
    AllDigits(s, d2 + 1, e)
  }

  datatype VersionSpan = VersionSpan(start: nat, dot1: nat, dot2: nat, end: nat)

  /** The match at `i`: each digit run is taken whole (the two dots leave no choice, and
      the last run is greedy). */
  function VersionAt(s: string, key: string, i: nat): (m: Option<VersionSpan>)
    ensures m.Some? ==> m.value.start == i && VersionMatch(s, key, i, m.value.dot1, m.value.dot2, m.value.end)
    ensures m.Some? ==> m.value.end == |s| || !IsDigit(s[m.value.end])
    ensures m.Some? ==> forall d1, d2, e :: VersionMatch(s, key, i, d1, d2, e) ==>
                          d1 == m.value.dot1 && d2 == m.value.dot2 && e <= m.value.end
    ensures m.None? ==> forall d1, d2, e :: !VersionMatch(s, key, i, d1, d2, e)
  {
    if !StartsWithAt(s, i, key) then None
    else
      var d1 := DigitRunEnd(s, i + |key|);
      if d1 == i + |key| || d1 == |s| || s[d1] != '.' then None
      else
        var d2 := DigitRunEnd(s, d1 + 1);
        if d2 == d1 + 1 || d2 == |s| || s[d2] != '.' then None
        else
          var e := DigitRunEnd(s, d2 + 1);
          if e == d2 + 1 then None else Some(VersionSpan(i, d1, d2, e))
  }

  function VersionSearchFrom(s: string, key: string, from: nat): (m: Option<VersionSpan>)
    ensures m.Some? ==> from <= m.value.start &&
                        VersionMatch(s, key, m.value.start, m.value.dot1, m.value.dot2, m.value.end)
    ensures m.Some? ==> m.value.end == |s| || !IsDigit(s[m.value.end])
    ensures m.Some? ==> forall i, d1, d2, e :: from <= i && VersionMatch(s, key, i, d1, d2, e) ==>
                          m.value.start < i ||
                          (m.value.start == i && d1 == m.value.dot1 && d2 == m.value.dot2 && e <= m.value.end)
    ensures m.None? ==> forall i, d1, d2, e :: from <= i ==> !VersionMatch(s, key, i, d1, d2, e)
    decreases |s| - from
  {
    if from >= |s| then None
    else match VersionAt(s, key, from)
      case Some(m) => Some(m)
      case None => VersionSearchFrom(s, key, from + 1)
  }

  /** `re.search(key + r'([0-9]+\.[0-9]+\.[0-9]+)', s)`: the leftmost match, with its
      last digit run taken whole. */
  function VersionSearch(s: string, key: string): (m: Option<VersionSpan>)
    ensures m.Some? ==> VersionMatch(s, key, m.value.start, m.value.dot1, m.value.dot2, m.value.end)
    ensures m.Some? ==> m.value.end == |s| || !IsDigit(s[m.value.end])
    ensures m.Some? ==> forall i, d1, d2, e :: VersionMatch(s, key, i, d1, d2, e) ==>
                          m.value.start < i ||
                          (m.value.start == i && d1 == m.value.dot1 && d2 == m.value.dot2 && e <= m.value.end)
    ensures m.None? <==> forall i, d1, d2, e :: !VersionMatch(s, key, i, d1, d2, e)
  {
    VersionSearchFrom(s, key, 0)
  }

  // ---------------------------------------------------------------------------
  // `re.findall` of a line-anchored pattern under re.MULTILINE
  // ---------------------------------------------------------------------------

  /** The two patterns the post checker counts: `^```` and `^#{1,6}[^# \n]`. */
  datatype LinePattern = Fence | UnspacedHeader

  /** `^#{1,6}[^# \n]` matches at `p` with `k` hash marks. */
  ghost predicate HeaderMatch(s: string, p: int, k: int) {
    LineStart(s, p) && 1 <= k <= 6 && 0 <= p && p + k < |s| &&
    (forall t :: p <= t < p + k ==> s[t] == '#') &&
    s[p + k] != '#' && s[p + k] != ' ' && s[p + k] != '\n'
  }

  ghost predicate HeaderFlagged(s: string, p: int) {
    exists k :: HeaderMatch(s, p, k)
  }

  function HashRunEnd(s: string, i: nat): (e: nat)
    requires i <= |s|
    ensures i <= e <= |s| && (e == |s| || s[e] != '#')
    ensures forall t :: i <= t < e ==> s[t] == '#'
    decreases |s| - i
  {
    if i == |s| || s[i] != '#' then i else HashRunEnd(s, i + 1)
  }

  /** The length of the match of `pat` at `p`, or 0 when it does not match there. */
  function MatchLength(pat: LinePattern, s: string, p: nat): (n: nat)
    ensures n > 0 ==> LineStart(s, p) && p + n <= |s| && NoNewlineIn(s, p, p + n)
    ensures pat == Fence ==> (n > 0 <==> LineStart(s, p) && StartsWithAt(s, p, "```"))
    ensures pat == UnspacedHeader ==> (n > 0 <==> HeaderFlagged(s, p))
    ensures pat == UnspacedHeader && n > 0 ==> HeaderMatch(s, p, n - 1)
  {
    if !LineStart(s, p) || p > |s| then 0
    else match pat
      case Fence =>
        if StartsWithAt(s, p, "```") then
          assert s[p..p + 3] == "```";
          assert forall t :: p <= t < p + 3 ==> s[t] == s[p..p + 3][t - p];
          3
        else 0
      case UnspacedHeader =>
        var h := HashRunEnd(s, p) - p;
        if 1 <= h <= 6 && p + h < |s| && s[p + h] != ' ' && s[p + h] != '\n' then
          assert HeaderMatch(s, p, h);
          h + 1
        else
          assert forall k :: HeaderMatch(s, p, k) ==> k == h;
          0
  }

  /** `re.findall` from offset `i`: a match is counted and skipped, a miss advances by one. */
  function FindAllFrom(pat: LinePattern, s: string, i: nat): nat
    decreases |s| + 1 - i
  {
    if i > |s| then 0
    else
      var n := MatchLength(pat, s, i);
      if n > 0 then 1 + FindAllFrom(pat, s, i + n) else FindAllFrom(pat, s, i + 1)
  }

  /** `len(re.findall(pat, s, re.MULTILINE))`. */
  function FindAllCount(pat: LinePattern, s: string): nat {
    FindAllFrom(pat, s, 0)
  }

  ghost function MatchesFrom(pat: LinePattern, s: string, i: nat): set<nat> {
    set p: nat | i <= p <= |s| && MatchLength(pat, s, p) > 0
  }

  /** No match is skipped over: a match holds no line feed, so no other line starts
      inside it. */
  lemma {:induction false} FindAllCountsMatches(pat: LinePattern, s: string, i: nat)
    ensures FindAllFrom(pat, s, i) == |MatchesFrom(pat, s, i)|
    decreases |s| + 1 - i
  {
    if i > |s| {
      assert MatchesFrom(pat, s, i) == {};
    } else {
      var n := MatchLength(pat, s, i);
      if n > 0 {
        FindAllCountsMatches(pat, s, i + n);
        MatchesAfterMatch(pat, s, i);
      } else {
        FindAllCountsMatches(pat, s, i + 1);
        MatchesAfterMiss(pat, s, i);
      }
    }
  }

  lemma MatchesAfterMatch(pat: LinePattern, s: string, i: nat)
    requires i <= |s| && MatchLength(pat, s, i) > 0
    ensures |MatchesFrom(pat, s, i)| == 1 + |MatchesFrom(pat, s, i + MatchLength(pat, s, i))|
  {
    var n := MatchLength(pat, s, i);
    var a, b := MatchesFrom(pat, s, i), MatchesFrom(pat, s, i + n);
    assert i !in b;
    assert b <= a;
    forall p | p in a
      ensures p == i || p in b
    {
      if i < p < i + n {
        NothingInsideMatch(pat, s, i, p);
      }
    }
    OneMore(a, b, i);
  }

  lemma OneMore(a: set<nat>, b: set<nat>, i: nat)
    requires i in a && i !in b && b <= a
    requires forall p :: p in a ==> p == i || p in b
    ensures |a| == |b| + 1
  {
    assert a == {i} + b;
  }

  lemma MatchesAfterMiss(pat: LinePattern, s: string, i: nat)
    requires i <= |s| && MatchLength(pat, s, i) == 0
    ensures MatchesFrom(pat, s, i) == MatchesFrom(pat, s, i + 1)
  {
  }

  lemma NothingInsideMatch(pat: LinePattern, s: string, i: nat, p: nat)
    requires i < p < i + MatchLength(pat, s, i)
    ensures MatchLength(pat, s, p) == 0
  {
    var n := MatchLength(pat, s, i);
    assert NoNewlineIn(s, i, i + n);
    assert s[p - 1] != '\n';
    assert !LineStart(s, p);
  }

  /** The line starts that begin with three backticks. */
  ghost function FenceLines(s: string): set<nat> {
    set p: nat | p <= |s| && LineStart(s, p) && StartsWithAt(s, p, "```")
  }

  /** The line starts that `^#{1,6}[^# \n]` flags. */
  ghost function UnspacedHeaderLines(s: string): set<nat> {
    set p: nat | p <= |s| && HeaderFlagged(s, p)
  }

  /** `len(re.findall(r'^```', s, re.MULTILINE))` counts the lines that open with a fence. */
  lemma FenceCountIsLineCount(s: string)
    ensures FindAllCount(Fence, s) == |FenceLines(s)|
  {
    FindAllCountsMatches(Fence, s, 0);
    assert MatchesFrom(Fence, s, 0) == FenceLines(s);
  }

  /** `len(re.findall(r'^#{1,6}[^# \n]', s, re.MULTILINE))` counts the flagged lines. */
  lemma HeaderCountIsLineCount(s: string)
    ensures FindAllCount(UnspacedHeader, s) == |UnspacedHeaderLines(s)|
  {
    FindAllCountsMatches(UnspacedHeader, s, 0);
    assert MatchesFrom(UnspacedHeader, s, 0) == UnspacedHeaderLines(s);
  }

  /** A line that opens with seven or more hash marks is never flagged. */
  lemma SevenHashesNotFlagged(s: string, p: nat)
    requires StartsWithAt(s, p, "#######")
    ensures !HeaderFlagged(s, p)
  {
    forall k | 1 <= k <= 6
      ensures !HeaderMatch(s, p, k)
    {
      assert s[p + k] == s[p..p + 7][k];
    }
  }
}
