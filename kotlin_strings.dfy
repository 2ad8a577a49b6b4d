/**
 * The Kotlin standard-library string operations the plugin relies on:
 * `indexOf`, `split` (one delimiter, no limit) and `trim`.
 */
module KotlinStrings {
  import opened Wrappers

  /** `d` occurs in `s` starting at position `i`. */
  predicate Occurs(s: string, d: string, i: int) {
    0 <= i && i + |d| <= |s| && s[i..i + |d|] == d
  }

  predicate Contains(s: string, d: string) {
    exists i :: 0 <= i <= |s| && Occurs(s, d, i)
  }

  /** `String.indexOf(d)`: the first position where `d` occurs, or `None` (Kotlin's -1). */
  function Find(s: string, d: string): (r: Option<nat>)
    requires |d| > 0
    ensures r.Some? ==> Occurs(s, d, r.value)
    ensures r.Some? ==> forall j :: 0 <= j < r.value ==> !Occurs(s, d, j)
    ensures r.None? <==> !Contains(s, d)
    decreases |s|
  {
    if |s| < |d| then
      None
    else if s[..|d|] == d then
      assert Occurs(s, d, 0);
      Some(0)
    else
      var rest := Find(s[1..], d);
      OccursShift(s, d);
      match rest
      case None => None
      case Some(i) => Some(i + 1)
  }

  /** Occurrences in `s` past position 0 are the occurrences in `s[1..]`, shifted by one. */
  lemma OccursShift(s: string, d: string)
    requires |s| > 0
    ensures forall j :: 1 <= j ==> (Occurs(s, d, j) <==> Occurs(s[1..], d, j - 1))
    ensures forall j :: 0 <= j ==> (Occurs(s[1..], d, j) <==> Occurs(s, d, j + 1))
  {
    forall j | 0 <= j ensures Occurs(s[1..], d, j) <==> Occurs(s, d, j + 1) {
      if j + 1 + |d| <= |s| {
        assert s[1..][j..j + |d|] == s[j + 1..j + 1 + |d|];
      }
    }
    forall j | 1 <= j ensures Occurs(s, d, j) <==> Occurs(s[1..], d, j - 1) {
      if j + |d| <= |s| {
        assert s[1..][j - 1..j - 1 + |d|] == s[j..j + |d|];
      }
    }
  }

  /** `Find` returns exactly the first occurrence. */
  lemma {:induction false} FindFirst(s: string, d: string, i: nat)
    requires |d| > 0
    requires Occurs(s, d, i)
    requires forall j :: 0 <= j < i ==> !Occurs(s, d, j)
    ensures Find(s, d) == Some(i)
    decreases i
  {
    if i > 0 {
      OccursShift(s, d);
      FindFirst(s[1..], d, i - 1);
    }
  }

  /**
   * `String.split(d)` with a non-empty delimiter and no limit: the pieces
   * between non-overlapping occurrences of `d`, scanned left to right;
   * empty pieces, including a trailing one, are kept.
   */
  function Split(s: string, d: string): (parts: seq<string>)
    requires |d| > 0
    ensures |parts| >= 1
    ensures |parts| >= 2 <==> Contains(s, d)
    ensures forall k :: 0 <= k < |parts| ==> !Contains(parts[k], d)
    decreases |s|
  {
    match Find(s, d)
    case None => [s]
    case Some(i) =>
      PrefixBeforeFirst(s, d, i);
      [s[..i]] + Split(s[i + |d|..], d)
  }

  /** The text before the first occurrence holds no occurrence. */
  lemma PrefixBeforeFirst(s: string, d: string, i: nat)
    requires |d| > 0 && i <= |s|
    requires forall j :: 0 <= j < i ==> !Occurs(s, d, j)
    ensures !Contains(s[..i], d)
  {
    forall j | 0 <= j <= i ensures !Occurs(s[..i], d, j) {
      if j + |d| <= i {
        assert s[..i][j..j + |d|] == s[j..j + |d|];
        assert !Occurs(s, d, j);
      }
    }
  }

  /** Joining pieces back with the delimiter: the inverse of `Split`. */
  function Join(parts: seq<string>, d: string): string
    requires |parts| >= 1
    decreases |parts|
  {
    if |parts| == 1 then parts[0] else parts[0] + d + Join(parts[1..], d)
  }

  lemma {:induction false} SplitJoin(s: string, d: string)
    requires |d| > 0
    ensures Join(Split(s, d), d) == s
    decreases |s|
  {
    match Find(s, d)
    case None =>
    case Some(i) =>
      var rest := s[i + |d|..];
      SplitJoin(rest, d);
      var parts := Split(s, d);
      assert parts[1..] == Split(rest, d);
      assert s == s[..i] + s[i..i + |d|] + rest;
  }

  /**
   * The first two pieces of a split at the first occurrence `i`: the text
   * before it, and the text after it up to the next occurrence or the end.
   */
  lemma SplitFirstTwo(s: string, d: string, i: nat)
    requires |d| > 0
    requires Occurs(s, d, i)
    requires forall j :: 0 <= j < i ==> !Occurs(s, d, j)
    ensures |Split(s, d)| >= 2
    ensures Split(s, d)[0] == s[..i]
    ensures Split(s, d)[1] == FirstPiece(s[i + |d|..], d)
  {
    FindFirst(s, d, i);
    var rest := Split(s[i + |d|..], d);
    assert Split(s, d) == [s[..i]] + rest;
    assert rest[0] == FirstPiece(s[i + |d|..], d);
    assert ([s[..i]] + rest)[1] == rest[0];
  }

  /**
   * The first piece of a split: the text up to the first occurrence, or all
   * of it; it holds no occurrence and is followed by one or by the end.
   */
  function FirstPiece(s: string, d: string): (r: string)
    requires |d| > 0
    ensures |r| <= |s| && r == s[..|r|]
    ensures !Contains(r, d)
    ensures |r| == |s| || Occurs(s, d, |r|)
    ensures r == Split(s, d)[0]
  {
    match Find(s, d)
    case None => s
    case Some(k) =>
      PrefixBeforeFirst(s, d, k);
      s[..k]
  }

  /** For a one-character delimiter, containment is membership. */
  lemma ContainsChar(s: string, c: char)
    ensures Contains(s, [c]) <==> c in s
  {
    if c in s {
      var i :| 0 <= i < |s| && s[i] == c;
      assert s[i..i + 1] == [c];
      assert Occurs(s, [c], i);
    }
    if Contains(s, [c]) {
      var i :| 0 <= i <= |s| && Occurs(s, [c], i);
      assert s[i..i + 1][0] == c;
    }
  }

  /**
   * A character that is not part of the delimiter cannot be inside an
   * occurrence, so gluing two occurrence-free strings around it creates none.
   */
  lemma NoOccurrenceAcross(x: string, c: char, y: string, d: string)
    requires |d| > 0 && c !in d
    requires !Contains(x, d) && !Contains(y, d)
    ensures !Contains(x + [c] + y, d)
  {
    var s := x + [c] + y;
    forall j | 0 <= j <= |s| ensures !Occurs(s, d, j) {
      if j + |d| <= |x| {
        assert s[j..j + |d|] == x[j..j + |d|];
        assert !Occurs(x, d, j);
      } else if j > |x| && j + |d| <= |s| {
        assert s[j..j + |d|] == y[j - |x| - 1..j - |x| - 1 + |d|];
        assert !Occurs(y, d, j - |x| - 1);
      } else if j + |d| <= |s| {
        assert s[j..j + |d|][|x| - j] == c;
      }
    }
  }

  lemma EmptyContainsNothing(d: string)
    requires |d| > 0
    ensures !Contains([], d)
  {
  }

  /**
   * Kotlin's `Char.isWhitespace()`: Java whitespace or a Unicode space
   * separator. The space is whitespace; the characters of Gradle project
   * paths, layer names and the report's arrow and parentheses are not.
   */
  predicate IsWhitespace(c: char): (b: bool)
    ensures c == ' ' ==> b
    ensures ('a' <= c <= 'z' || 'A' <= c <= 'Z' || '0' <= c <= '9') ==> !b
    ensures c in ":-_>()'" ==> !b
  {
    || c == '\t' || c == '\n' || c == '\U{000B}' || c == '\U{000C}' || c == '\r'
    || ('\U{001C}' <= c <= '\U{001F}')
    || c == ' ' || c == '\U{00A0}' || c == '\U{1680}'
    || ('\U{2000}' <= c <= '\U{200A}')
    || c == '\U{2028}' || c == '\U{2029}' || c == '\U{202F}' || c == '\U{205F}' || c == '\U{3000}'
  }

  predicate AllWhitespace(s: string) {
    forall k :: 0 <= k < |s| ==> IsWhitespace(s[k])
  }

  /** `s` with its leading whitespace removed. */
  function TrimStart(s: string): (r: string)
    ensures r == [] || !IsWhitespace(r[0])
    decreases |s|
  {
    if s != [] && IsWhitespace(s[0]) then TrimStart(s[1..]) else s
  }

  /** What `TrimStart` drops is a whitespace prefix: the result is the rest of `s`. */
  lemma {:induction false} TrimStartSuffix(s: string)
    ensures var r := TrimStart(s); |r| <= |s| && r == s[|s| - |r|..] && AllWhitespace(s[..|s| - |r|])
    decreases |s|
  {
    if s != [] && IsWhitespace(s[0]) {
      TrimStartSuffix(s[1..]);
      var r := TrimStart(s);
      assert s[1..][|s| - 1 - |r|..] == s[|s| - |r|..];
      assert s[..|s| - |r|] == [s[0]] + s[1..][..|s| - 1 - |r|];
    }
  }

  /** `s` with its trailing whitespace removed. */
  function TrimEnd(s: string): (r: string)
    ensures r == [] || !IsWhitespace(r[|r| - 1])
    decreases |s|
  {
    if s != [] && IsWhitespace(s[|s| - 1]) then TrimEnd(s[..|s| - 1]) else s
  }

  /** What `TrimEnd` drops is a whitespace suffix: the result is the beginning of `s`. */
  lemma {:induction false} TrimEndPrefix(s: string)
    ensures var r := TrimEnd(s); |r| <= |s| && r == s[..|r|] && AllWhitespace(s[|r|..])
    decreases |s|
  {
    if s != [] && IsWhitespace(s[|s| - 1]) {
      TrimEndPrefix(s[..|s| - 1]);
      var r := TrimEnd(s);
      assert s[..|s| - 1][..|r|] == s[..|r|];
      assert s[|r|..] == s[..|s| - 1][|r|..] + [s[|s| - 1]];
    }
  }

  /** `String.trim()`: both ends' whitespace removed. */
  function Trim(s: string): (r: string)
    ensures r == [] || (!IsWhitespace(r[0]) && !IsWhitespace(r[|r| - 1]))
  {
    TrimEndPrefix(TrimStart(s));
    TrimEnd(TrimStart(s))
  }

  /** Leading whitespace in front of a non-whitespace start is exactly what `TrimStart` drops. */
  lemma {:induction false} TrimStartDrops(pre: string, rest: string)
    requires AllWhitespace(pre)
    requires rest == [] || !IsWhitespace(rest[0])
    ensures TrimStart(pre + rest) == rest
    decreases |pre|
  {
    if pre != [] {
      assert (pre + rest)[1..] == pre[1..] + rest;
      TrimStartDrops(pre[1..], rest);
    }
  }

  /** Trailing whitespace after a non-whitespace end is exactly what `TrimEnd` drops. */
  lemma {:induction false} TrimEndDrops(rest: string, post: string)
    requires AllWhitespace(post)
    requires rest == [] || !IsWhitespace(rest[|rest| - 1])
    ensures TrimEnd(rest + post) == rest
    decreases |post|
  {
    if post != [] {
      var p := post[..|post| - 1];
      assert (rest + post)[..|rest + post| - 1] == rest + p;
      TrimEndDrops(rest, p);
    }
  }

  /** Trimming whitespace around a core that starts and ends with non-whitespace gives the core. */
  lemma TrimCore(pre: string, core: string, post: string)
    requires AllWhitespace(pre) && AllWhitespace(post)
    requires core != [] && !IsWhitespace(core[0]) && !IsWhitespace(core[|core| - 1])
    ensures Trim(pre + core + post) == core
  {
    assert pre + core + post == pre + (core + post);
    TrimStartDrops(pre, core + post);
    TrimEndDrops(core, post);
  }
}
