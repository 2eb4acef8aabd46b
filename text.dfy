/** Character classes and the handful of `str` operations both checkers rely on.
    A string is a sequence of Unicode code points, as a Python `str` is. */
module Text {

  datatype Option<+T> = None | Some(value: T)

  /** Python's `str.isspace()`: the characters `\s` matches in a `str` pattern and
      the characters `str.strip()` removes. */
  predicate IsSpace(c: char) {
    var n := c as int;
    9 <= n <= 13 || 0x1C <= n <= 0x20 || n == 0x85 || n == 0xA0 || n == 0x1680 ||
    0x2000 <= n <= 0x200A || n == 0x2028 || n == 0x2029 || n == 0x202F ||
    n == 0x205F || n == 0x3000
  }

  /** `\d` and `[0-9]`, both taken as the ASCII digits. */
  predicate IsDigit(c: char) {
    '0' <= c <= '9'
  }

  /** The two characters `strip('"\'')` removes. */
  predicate IsQuote(c: char) {
    c == '"' || c == '\''
  }

  /** `sub` occurs in `s` at offset `i`. */
  predicate StartsWithAt(s: string, i: int, sub: string) {
    0 <= i && i + |sub| <= |s| && s[i..i + |sub|] == sub
  }

  predicate NoNewlineIn(s: string, i: int, j: int)
    requires 0 <= i <= j <= |s|
  {
    forall k :: i <= k < j ==> s[k] != '\n'
  }

  predicate AllDigits(s: string, i: int, j: int)
    requires 0 <= i <= j <= |s|
  {
    forall k :: i <= k < j ==> IsDigit(s[k])
  }

  /** `^` under `re.MULTILINE`: the start of the text or just after a line feed. */
  predicate LineStart(s: string, p: int) {
    p == 0 || (0 < p <= |s| && s[p - 1] == '\n')
  }

  /** `s[:n]`: the first `n` characters, or all of them when there are fewer. */
  function Prefix(s: string, n: nat): (r: string)
    ensures |r| == if |s| < n then |s| else n
    ensures r == s[..|r|]
  {
    if |s| < n then s else s[..n]
  }

  /** `s.find(sub)`: the offset of the first occurrence, or -1 when there is none. */
  function Find(s: string, sub: string): (r: int)
    ensures -1 <= r <= |s|
    ensures r >= 0 ==> StartsWithAt(s, r, sub) && forall i :: 0 <= i < r ==> !StartsWithAt(s, i, sub)
    ensures r == -1 <==> forall i :: !StartsWithAt(s, i, sub)
  {
    FindFrom(s, sub, 0)
  }

  function FindFrom(s: string, sub: string, from: nat): (r: int)
    ensures r == -1 || (from <= r <= |s| && StartsWithAt(s, r, sub))
    ensures r >= 0 ==> forall i :: from <= i < r ==> !StartsWithAt(s, i, sub)
    ensures r == -1 <==> forall i :: from <= i ==> !StartsWithAt(s, i, sub)
    decreases |s| - from
  {
    if from + |sub| > |s| then -1
    else if s[from..from + |sub|] == sub then from
    else FindFrom(s, sub, from + 1)
  }

  /** `sub in s`. */
  function Contains(s: string, sub: string): (b: bool)
    ensures b <==> exists i :: StartsWithAt(s, i, sub)
  {
    Find(s, sub) >= 0
  }

  /** `sub` occurs in `s[..n]` exactly when it occurs in `s` and ends by `n`. */
  lemma ContainsInPrefix(s: string, n: nat, sub: string)
    requires n <= |s|
    ensures Contains(s[..n], sub) <==> exists i :: StartsWithAt(s, i, sub) && i + |sub| <= n
  {
    var t := s[..n];
    if Contains(t, sub) {
      var i :| StartsWithAt(t, i, sub);
      assert s[i..i + |sub|] == t[i..i + |sub|];
      assert StartsWithAt(s, i, sub);
    }
    if exists i :: StartsWithAt(s, i, sub) && i + |sub| <= n {
      var i :| StartsWithAt(s, i, sub) && i + |sub| <= n;
      assert t[i..i + |sub|] == s[i..i + |sub|];
      assert StartsWithAt(t, i, sub);
    }
  }

  /** Whatever contains `a + b` contains `b`. */
  lemma ContainsTail(s: string, a: string, b: string)
    ensures Contains(s, a + b) ==> Contains(s, b)
  {
    if Contains(s, a + b) {
      var i :| StartsWithAt(s, i, a + b);
      assert s[i + |a|..i + |a| + |b|] == s[i..i + |a| + |b|][|a|..];
      assert StartsWithAt(s, i + |a|, b);
    }
  }

  /** `s.count(sub)`: occurrences found scanning left to right, resuming after
      each occurrence, so overlapping occurrences are counted once. */
  function Count(s: string, sub: string): nat
    decreases |s|
  {
    if sub == [] then |s| + 1
    else if |s| < |sub| then 0
    else if s[..|sub|] == sub then 1 + Count(s[|sub|..], sub)
    else Count(s[1..], sub)
  }

  /** Two `---` lines in a row share their line feed, so `count` finds the delimiter
      line `\n---\n` only once in them. */
  lemma AdjacentDelimitersCountOnce()
    ensures Count("\n---\n---\n", "\n---\n") == 1
  {
    var s := "\n---\n---\n";
    assert s[..5] == "\n---\n";
    assert s[5..] == "---\n";
  }

  /** A non-empty pattern is counted at least once exactly when it occurs. */
  lemma {:induction false} CountPositive(s: string, sub: string)
    requires sub != []
    ensures Count(s, sub) > 0 <==> Contains(s, sub)
    decreases |s|
  {
    if |s| < |sub| {
      assert forall i :: !StartsWithAt(s, i, sub);
    } else if s[..|sub|] == sub {
      assert StartsWithAt(s, 0, sub);
    } else {
      CountPositive(s[1..], sub);
      assert !StartsWithAt(s, 0, sub);
      forall i | StartsWithAt(s, i, sub)
        ensures StartsWithAt(s[1..], i - 1, sub)
      {
        assert s[1..][i - 1..i - 1 + |sub|] == s[i..i + |sub|];
      }
      forall i | StartsWithAt(s[1..], i, sub)
        ensures StartsWithAt(s, i + 1, sub)
      {
        assert s[1..][i..i + |sub|] == s[i + 1..i + 1 + |sub|];
      }
    }
  }

  /** The end of the line holding offset `i`: the first line feed at or after `i`,
      or the end of the text. */
  function LineEnd(s: string, i: nat): (e: nat)
    requires i <= |s|
    ensures i <= e <= |s| && (e == |s| || s[e] == '\n')
    ensures NoNewlineIn(s, i, e)
    decreases |s| - i
  {
    if i == |s| || s[i] == '\n' then i else LineEnd(s, i + 1)
  }

  /** The end of the run of whitespace that starts at `i` (greedy `\s*`). */
  function SkipSpace(s: string, i: nat): (e: nat)
    requires i <= |s|
    ensures i <= e <= |s| && (e == |s| || !IsSpace(s[e]))
    ensures forall k :: i <= k < e ==> IsSpace(s[k])
    decreases |s| - i
  {
    if i == |s| || !IsSpace(s[i]) then i else SkipSpace(s, i + 1)
  }

  /** `SkipSpace` stops at the first character that is not whitespace. */
  lemma {:induction false} SkipSpaceStops(t: string, i: nat, j: nat)
    requires i <= j < |t| && (forall k :: i <= k < j ==> IsSpace(t[k])) && !IsSpace(t[j])
    ensures SkipSpace(t, i) == j
    decreases j - i
  {
    if i < j {
      SkipSpaceStops(t, i + 1, j);
    }
  }

  /** The end of the run of digits that starts at `i` (greedy `[0-9]*`). */
  function DigitRunEnd(s: string, i: nat): (e: nat)
    requires i <= |s|
    ensures i <= e <= |s| && (e == |s| || !IsDigit(s[e]))
    ensures AllDigits(s, i, e)
    decreases |s| - i
  {
    if i == |s| || !IsDigit(s[i]) then i else DigitRunEnd(s, i + 1)
  }

  /** `s.split('\n')`. */
  function Split(s: string): (lines: seq<string>)
    ensures |lines| >= 1
    ensures forall k :: 0 <= k < |lines| ==> '\n' !in lines[k]
    decreases |s|
  {
    var e := LineEnd(s, 0);
    if e == |s| then [s] else [s[..e]] + Split(s[e + 1..])
  }

  /** `'\n'.join(lines)`. */
  function Join(lines: seq<string>): string
  {
    if lines == [] then []
    else if |lines| == 1 then lines[0]
    else lines[0] + "\n" + Join(lines[1..])
  }

  /** Joining the pieces of a split gives the text back. */
  lemma {:induction false} JoinSplit(s: string)
    ensures Join(Split(s)) == s
    decreases |s|
  {
    var e := LineEnd(s, 0);
    if e < |s| {
      JoinSplit(s[e + 1..]);
      assert s == s[..e] + "\n" + s[e + 1..];
    }
  }

  /** Splitting a join of line-feed-free pieces gives the pieces back. */
  lemma {:induction false} SplitJoin(lines: seq<string>)
    requires |lines| >= 1
    requires forall k :: 0 <= k < |lines| ==> '\n' !in lines[k]
    ensures Split(Join(lines)) == lines
    decreases |lines|
  {
    var s := Join(lines);
    var first := lines[0];
    assert forall k :: 0 <= k < |first| ==> first[k] != '\n';
    if |lines| == 1 {
      LineEndOfFreeText(s, 0, |first|);
    } else {
      assert s == first + "\n" + Join(lines[1..]);
      LineEndOfFreeText(s, 0, |first|);
      assert s[..|first|] == first;
      assert s[|first| + 1..] == Join(lines[1..]);
      SplitJoin(lines[1..]);
    }
  }

  /** When `[i, j)` has no line feed and `j` ends the line, `LineEnd` finds `j`. */
  lemma {:induction false} LineEndOfFreeText(s: string, i: nat, j: nat)
    requires i <= j <= |s|
    requires NoNewlineIn(s, i, j) && (j == |s| || s[j] == '\n')
    ensures LineEnd(s, i) == j
    decreases j - i
  {
    if i < j {
      LineEndOfFreeText(s, i + 1, j);
    }
  }

  /** A line runs at least to the end of any word without a line feed that starts at `i`,
      and the text up to its end holds no line feed. */
  lemma LineEndPastWord(s: string, i: nat, word: string)
    requires StartsWithAt(s, i, word) && '\n' !in word
    ensures i + |word| <= LineEnd(s, i) && '\n' !in s[i..LineEnd(s, i)]
  {
    forall k | i <= k < i + |word| ensures s[k] != '\n' {
      assert s[k] == s[i..i + |word|][k - i];
    }
    var e := LineEnd(s, i);
    forall k | 0 <= k < e - i ensures s[i..e][k] != '\n' {
      assert s[i..e][k] == s[i + k];
    }
  }

  /** `len(s.split('\n'))` is one more than the number of line feeds. */
  lemma {:induction false} SplitLength(s: string)
    ensures |Split(s)| == Count(s, "\n") + 1
    decreases |s|
  {
    var e := LineEnd(s, 0);
    if e == |s| {
      NoNewlineCount(s);
    } else {
      SplitLength(s[e + 1..]);
      NoNewlineCount(s[..e]);
      CountSingleAppend(s[..e], s[e + 1..]);
      assert s == s[..e] + ("\n" + s[e + 1..]);
    }
  }

  lemma {:induction false} NoNewlineCount(s: string)
    requires NoNewlineIn(s, 0, |s|)
    ensures Count(s, "\n") == 0
    decreases |s|
  {
    if |s| > 0 {
      assert s[..1] == [s[0]];
      NoNewlineCount(s[1..]);
    }
  }

  /** A line feed followed by `t` after a line-feed-free `u` adds one to the count. */
  lemma {:induction false} CountSingleAppend(u: string, t: string)
    requires NoNewlineIn(u, 0, |u|)
    ensures Count(u + ("\n" + t), "\n") == Count(t, "\n") + 1
    decreases |u|
  {
    var s := u + ("\n" + t);
    if |u| == 0 {
      assert s[..1] == "\n";
      assert s[1..] == t;
    } else {
      assert s[..1] == [u[0]];
      assert s[1..] == u[1..] + ("\n" + t);
      CountSingleAppend(u[1..], t);
    }
  }

  function TrimLeft(s: string, drop: char -> bool): (r: string)
    ensures |r| <= |s| && r == s[|s| - |r|..]
    ensures forall k :: 0 <= k < |s| - |r| ==> drop(s[k])
    ensures r == [] || !drop(r[0])
    decreases |s|
  {
    if s == [] || !drop(s[0]) then s else TrimLeft(s[1..], drop)
  }

  function TrimRight(s: string, drop: char -> bool): (r: string)
    ensures |r| <= |s| && r == s[..|r|]
    ensures forall k :: |r| <= k < |s| ==> drop(s[k])
    ensures r == [] || !drop(r[|r| - 1])
    decreases |s|
  {
    if s == [] || !drop(s[|s| - 1]) then s else TrimRight(s[..|s| - 1], drop)
  }

  /** `r` is the slice of `s` at `i`, and everything before and after it is dropped. */
  predicate StrippedAt(s: string, i: int, r: string, drop: char -> bool) {
    0 <= i && i + |r| <= |s| && r == s[i..i + |r|] &&
    (forall k :: 0 <= k < i ==> drop(s[k])) && (forall k :: i + |r| <= k < |s| ==> drop(s[k]))
  }

  /** `s.strip(chars)`: `s` less its longest prefix and suffix of dropped characters. */
  function Trim(s: string, drop: char -> bool): (r: string)
    ensures r == [] || (!drop(r[0]) && !drop(r[|r| - 1]))
    ensures r == [] <==> forall k :: 0 <= k < |s| ==> drop(s[k])
    ensures s != [] && !drop(s[0]) ==> r != [] && r[0] == s[0]
    ensures exists i :: StrippedAt(s, i, r, drop)
  {
    var left := TrimLeft(s, drop);
    TrimIsSlice(s, left, drop);
    TrimKeepsFirst(s, left, drop);
    TrimRight(left, drop)
  }

  /** The text left after trimming both ends is the slice between the dropped prefix and
      the dropped suffix. */
  lemma TrimIsSlice(s: string, left: string, drop: char -> bool)
    requires left == TrimLeft(s, drop)
    ensures StrippedAt(s, |s| - |left|, TrimRight(left, drop), drop)
  {
    var n := |s| - |left|;
    var r := TrimRight(left, drop);
    SuffixOfSuffix(s, left, r, n, drop);
    assert r == s[n..n + |r|];
    assert forall k :: 0 <= k < n ==> drop(s[k]);
    assert StrippedAt(s, n, r, drop);
  }

  /** A prefix `r` of the suffix `left` of `s` that starts at `n` is a slice of `s`, and
      what follows `r` in `left` follows it in `s`. */
  lemma SuffixOfSuffix(s: string, left: string, r: string, n: nat, drop: char -> bool)
    requires n <= |s| && left == s[n..] && |r| <= |left| && r == left[..|r|]
    requires forall k :: |r| <= k < |left| ==> drop(left[k])
    ensures r == s[n..n + |r|]
    ensures forall k :: n + |r| <= k < |s| ==> drop(s[k])
  {
    forall k | n + |r| <= k < |s| ensures drop(s[k]) {
      assert s[k] == left[k - n];
    }
  }

  /** Trimming the right end of the left-trimmed text keeps its first character, and so
      leaves nothing exactly when every character is dropped. */
  lemma TrimKeepsFirst(s: string, left: string, drop: char -> bool)
    requires left == TrimLeft(s, drop)
    ensures left != [] ==> TrimRight(left, drop) != [] && TrimRight(left, drop)[0] == left[0]
    ensures left == [] <==> forall k :: 0 <= k < |s| ==> drop(s[k])
  {
    if forall k :: 0 <= k < |s| ==> drop(s[k]) {
      assert left == [];
    }
  }

  /** `Path.read_text()` in text mode with universal newlines: every `\r\n` and every
      lone `\r` becomes `\n`; nothing else changes. */
  function ReadText(raw: string): (t: string)
    ensures '\r' !in t && |t| <= |raw|
    decreases |raw|
  {
    if raw == [] then []
    else if raw[0] == '\r' then
      "\n" + ReadText(if |raw| > 1 && raw[1] == '\n' then raw[2..] else raw[1..])
    else [raw[0]] + ReadText(raw[1..])
  }

  /** Reading leaves a text unchanged exactly when it holds no carriage return. */
  lemma {:induction false} ReadTextUnchanged(raw: string)
    ensures ReadText(raw) == raw <==> '\r' !in raw
    decreases |raw|
  {
    if raw != [] && raw[0] != '\r' {
      ReadTextUnchanged(raw[1..]);
      assert raw == [raw[0]] + raw[1..];
    }
  }

  /** Characters before the first carriage return are read as they are stored. */
  lemma {:induction false} ReadTextKeeps(a: string, t: string)
    requires '\r' !in a
    ensures ReadText(a + t) == a + ReadText(t)
    decreases |a|
  {
    if a == [] {
      assert a + t == t;
    } else {
      assert a[0] != '\r';
      assert (a + t)[0] == a[0] && (a + t)[1..] == a[1..] + t;
      ReadTextKeeps(a[1..], t);
      assert a == [a[0]] + a[1..];
    }
  }

  /** A carriage return not followed by a line feed is read as one line feed. */
  lemma LoneCr(a: string, t: string)
    requires '\r' !in a && (t == [] || t[0] != '\n')
    ensures ReadText(a + "\r" + t) == a + "\n" + ReadText(t)
  {
    ReadTextKeeps(a, "\r" + t);
    assert a + "\r" + t == a + ("\r" + t);
    assert ("\r" + t)[1..] == t;
  }

  /** Lines joined with `\r\n`. */
  function JoinCrlf(lines: seq<string>): string
  {
    if lines == [] then []
    else if |lines| == 1 then lines[0]
    else lines[0] + "\r\n" + JoinCrlf(lines[1..])
  }

  /** Lines stored with Windows line endings are read as the same lines joined with
      line feeds. */
  lemma {:induction false} ReadTextCrlf(lines: seq<string>)
    requires forall k :: 0 <= k < |lines| ==> '\r' !in lines[k]
    ensures ReadText(JoinCrlf(lines)) == Join(lines)
    decreases |lines|
  {
    if |lines| == 1 {
      ReadTextKeeps(lines[0], []);
      assert lines[0] + [] == lines[0];
    } else if |lines| > 1 {
      var rest := JoinCrlf(lines[1..]);
      ReadTextCrlf(lines[1..]);
      ReadTextKeeps(lines[0], "\r\n" + rest);
      assert lines[0] + "\r\n" + rest == lines[0] + ("\r\n" + rest);
      assert ("\r\n" + rest)[2..] == rest;
      assert ReadText("\r\n" + rest) == "\n" + ReadText(rest);
    }
  }

  /** `a` is `b` with some elements left out. */
  ghost predicate Subsequence<T>(a: seq<T>, b: seq<T>)
    decreases |b|
  {
    a == [] || (b != [] && ((a[0] == b[0] && Subsequence(a[1..], b[1..])) || Subsequence(a, b[1..])))
  }

  /** `[item for item in items if item not in text]`: the items that do not occur in
      `text`, in their original order. */
  function NotFoundIn(items: seq<string>, text: string): (missing: seq<string>)
    ensures forall x :: x in missing <==> x in items && !Contains(text, x)
    ensures Subsequence(missing, items)
  {
    if items == [] then []
    else if Contains(text, items[0]) then
      var rest := NotFoundIn(items[1..], text);
      assert Subsequence(rest, items[1..]);
      rest
    else
      var rest := NotFoundIn(items[1..], text);
      assert Subsequence(rest, items[1..]);
      [items[0]] + rest
  }
}
