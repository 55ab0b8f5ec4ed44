/**
 * The ECMAScript string primitives the segmenters rely on: trim, includes,
 * indexOf, startsWith, split(sep)[1], replace(".", ""), split("\n") and the
 * decimal rendering of a non-negative integer.
 */
module JsString {
  import opened Wrappers

  /** The WhiteSpace and LineTerminator code points that String.prototype.trim removes. */
  predicate IsWhitespace(c: char) {
    c == '\t' || c == '\n' || c == '\U{000B}' || c == '\U{000C}' || c == '\r' || c == ' '
    || c == '\U{00A0}' || c == '\U{1680}' || ('\U{2000}' <= c <= '\U{200A}')
    || c == '\U{2028}' || c == '\U{2029}' || c == '\U{202F}' || c == '\U{205F}'
    || c == '\U{3000}' || c == '\U{FEFF}'
  }

  predicate AllWhitespace(s: string) {
    forall i :: 0 <= i < |s| ==> IsWhitespace(s[i])
  }

  /** What trim returns: empty, or neither end is whitespace. */
  predicate IsTrimmed(s: string) {
    s == [] || (!IsWhitespace(s[0]) && !IsWhitespace(s[|s| - 1]))
  }

  function TrimStart(s: string): (r: string)
    ensures |r| <= |s|
    ensures r == [] || !IsWhitespace(r[0])
  {
    if s != [] && IsWhitespace(s[0]) then TrimStart(s[1..]) else s
  }

  function TrimEnd(s: string): (r: string)
    ensures |r| <= |s|
    ensures r == [] || !IsWhitespace(r[|r| - 1])
    ensures r != [] ==> r[0] == s[0]
  {
    if s != [] && IsWhitespace(s[|s| - 1]) then TrimEnd(s[..|s| - 1]) else s
  }

  /** String.prototype.trim: drops whitespace at both ends. */
  function Trim(s: string): (r: string)
    ensures IsTrimmed(r)
    ensures |r| <= |s|
  {
    TrimEnd(TrimStart(s))
  }

  /** TrimStart drops a whitespace prefix. */
  lemma {:induction false} TrimStartIsSuffix(s: string)
    ensures var r := TrimStart(s); r == s[|s| - |r|..] && AllWhitespace(s[..|s| - |r|])
  {
    if s != [] && IsWhitespace(s[0]) {
      TrimStartIsSuffix(s[1..]);
      var r := TrimStart(s[1..]);
      assert s[..|s| - |r|] == [s[0]] + s[1..][..|s| - 1 - |r|];
    }
  }

  /** TrimEnd drops a whitespace suffix. */
  lemma {:induction false} TrimEndIsPrefix(s: string)
    ensures var r := TrimEnd(s); r == s[..|r|] && AllWhitespace(s[|r|..])
  {
    if s != [] && IsWhitespace(s[|s| - 1]) {
      TrimEndIsPrefix(s[..|s| - 1]);
      var r := TrimEnd(s[..|s| - 1]);
      assert s[|r|..] == s[..|s| - 1][|r|..] + [s[|s| - 1]];
    }
  }

  /** What trim leaves is the slice of `s` between a whitespace prefix and a whitespace suffix. */
  lemma TrimIsSlice(s: string)
    ensures var r := Trim(s);
      exists i :: 0 <= i <= |s| - |r| && r == s[i..i + |r|] && AllWhitespace(s[..i]) && AllWhitespace(s[i + |r|..])
  {
    var t := TrimStart(s);
    var r := TrimEnd(t);
    TrimStartIsSuffix(s);
    TrimEndIsPrefix(t);
    var i := |s| - |t|;
    assert t == s[i..];
    assert r == s[i..i + |r|];
    assert s[i + |r|..] == t[|r|..];
    assert 0 <= i <= |s| - |r| && r == s[i..i + |r|] && AllWhitespace(s[..i]) && AllWhitespace(s[i + |r|..]);
  }

  lemma {:induction false} TrimStartOfWhitespacePrefix(a: string, t: string)
    requires AllWhitespace(a)
    requires t == [] || !IsWhitespace(t[0])
    ensures TrimStart(a + t) == t
  {
    if a != [] {
      assert (a + t)[1..] == a[1..] + t;
      TrimStartOfWhitespacePrefix(a[1..], t);
    }
  }

  lemma {:induction false} TrimEndOfWhitespaceSuffix(t: string, b: string)
    requires AllWhitespace(b)
    requires t == [] || !IsWhitespace(t[|t| - 1])
    ensures TrimEnd(t + b) == t
  {
    if b != [] {
      assert (t + b)[..|t + b| - 1] == t + b[..|b| - 1];
      TrimEndOfWhitespaceSuffix(t, b[..|b| - 1]);
    }
  }

  /** Trimming strips exactly the whitespace around an already-trimmed core. */
  lemma TrimOfPadded(a: string, s: string, b: string)
    requires AllWhitespace(a) && IsTrimmed(s) && AllWhitespace(b)
    ensures Trim(a + s + b) == s
  {
    if s == [] {
      assert a + s + b == a + b + [];
      TrimStartOfWhitespacePrefix(a + b, []);
    } else {
      assert a + s + b == a + (s + b);
      TrimStartOfWhitespacePrefix(a, s + b);
      TrimEndOfWhitespaceSuffix(s, b);
    }
  }

  /** Trim is the identity exactly on trimmed strings. */
  lemma TrimIdentity(s: string)
    ensures Trim(s) == s <==> IsTrimmed(s)
  {
    if IsTrimmed(s) {
      TrimOfPadded([], s, []);
      assert [] + s + [] == s;
    }
  }

  /** A string trims to nothing exactly when it is all whitespace. */
  lemma TrimEmpty(s: string)
    ensures Trim(s) == [] <==> AllWhitespace(s)
  {
    if AllWhitespace(s) {
      TrimOfPadded(s, [], []);
      assert s + [] + [] == s;
    }
    if Trim(s) == [] {
      var t := TrimStart(s);
      TrimStartIsSuffix(s);
      TrimEndIsPrefix(t);
      assert t == [];
      assert s[..|s|] == s;
    }
  }

  // ----- searching -----

  predicate MatchAt(s: string, p: string, k: int) {
    0 <= k && k + |p| <= |s| && s[k..k + |p|] == p
  }

  /** StringIndexOf(s, p, from): the first occurrence of `p` at or after `from`. */
  function IndexOfFrom(s: string, p: string, from: nat): (r: Option<nat>)
    requires from <= |s|
    ensures r.Some? ==> from <= r.value && MatchAt(s, p, r.value)
    ensures r.Some? ==> forall k :: from <= k < r.value ==> !MatchAt(s, p, k)
    ensures r.None? ==> forall k :: from <= k ==> !MatchAt(s, p, k)
    decreases |s| - from
  {
    if from + |p| > |s| then None
    else if s[from..from + |p|] == p then Some(from)
    else if from == |s| then None
    else IndexOfFrom(s, p, from + 1)
  }

  /** String.prototype.includes */
  predicate Includes(s: string, p: string) {
    IndexOfFrom(s, p, 0).Some?
  }

  lemma IncludesIff(s: string, p: string)
    ensures Includes(s, p) <==> exists k :: MatchAt(s, p, k)
  {
    if exists k :: MatchAt(s, p, k) {
      var k :| MatchAt(s, p, k);
      assert 0 <= k;
    }
  }

  /** A slice of the second part of `a + b`. */
  lemma SliceOfAppend(a: string, b: string, i: nat, j: nat)
    requires i <= j <= |b|
    ensures (a + b)[|a| + i..|a| + j] == b[i..j]
  {
    forall k | 0 <= k < j - i
      ensures (a + b)[|a| + i..|a| + j][k] == b[i..j][k]
    {
      assert (a + b)[|a| + i + k] == b[i + k];
    }
  }

  /** Past `a`, the matches in `a + b` are the matches in `b`, shifted by |a|. */
  lemma MatchShift(a: string, b: string, p: string, k: nat)
    ensures MatchAt(a + b, p, |a| + k) <==> MatchAt(b, p, k)
  {
    if k + |p| <= |b| {
      SliceOfAppend(a, b, k, k + |p|);
    }
  }

  /** A first match in `b` is the first match in `a + b` past `a`. */
  lemma IndexOfShiftFound(a: string, b: string, p: string, from: nat, k: nat)
    requires from <= |b| && IndexOfFrom(b, p, from) == Some(k)
    ensures IndexOfFrom(a + b, p, |a| + from) == Some(|a| + k)
  {
    var r' := IndexOfFrom(a + b, p, |a| + from);
    MatchShift(a, b, p, k);
    if r'.Some? && r'.value < |a| + k {
      MatchShift(a, b, p, r'.value - |a|);
    }
  }

  /** Searching the suffix `b` of `a + b` is searching `b` alone, shifted by |a|. */
  lemma IndexOfShift(a: string, b: string, p: string, from: nat)
    requires from <= |b|
    ensures IndexOfFrom(b, p, from).None? ==> IndexOfFrom(a + b, p, |a| + from).None?
    ensures IndexOfFrom(b, p, from).Some? ==> IndexOfFrom(a + b, p, |a| + from) == Some(|a| + IndexOfFrom(b, p, from).value)
  {
    var r := IndexOfFrom(b, p, from);
    var r' := IndexOfFrom(a + b, p, |a| + from);
    if r.Some? {
      IndexOfShiftFound(a, b, p, from, r.value);
    } else if r'.Some? {
      MatchShift(a, b, p, r'.value - |a|);
    }
  }

  /** String.prototype.startsWith */
  predicate StartsWith(s: string, p: string) {
    |p| <= |s| && s[..|p|] == p
  }

  /** The number of UTF-16 code units of `s`: two for a character above U+FFFF, one for any other. */
  function Utf16Length(s: string): (n: nat)
    ensures n >= |s|
    ensures (forall i :: 0 <= i < |s| ==> s[i] as int <= 0xFFFF) ==> n == |s|
    decreases |s|
  {
    if s == [] then 0 else (if s[0] as int > 0xFFFF then 2 else 1) + Utf16Length(s[1..])
  }

  /**
   * The second UTF-16 code unit of `s`, as a character. When it is half of a
   * surrogate pair (the low half of a first character above U+FFFF, or the
   * high half of a second one), a `char` cannot hold it and it is U+FFFD.
   */
  function SecondCodeUnit(s: string): (c: char)
    requires Utf16Length(s) >= 2
    ensures |s| >= 2 && s[0] as int <= 0xFFFF && s[1] as int <= 0xFFFF ==> c == s[1]
    ensures s[0] as int > 0xFFFF ==> c == '\U{FFFD}'
  {
    if s[0] as int > 0xFFFF then '\U{FFFD}'
    else
      assert Utf16Length(s[1..]) >= 1;
      if s[1] as int > 0xFFFF then '\U{FFFD}' else s[1]
  }

  /**
   * `s.split(sep)[1]`: with an empty separator the string is split into its
   * UTF-16 code units and the second one is taken; otherwise it is the text
   * between the first occurrence of `sep` and the next one (or the end).
   * `None` is JavaScript's `undefined`.
   */
  function SplitSecond(s: string, sep: string): (r: Option<string>)
    ensures sep == [] ==> (r.Some? <==> Utf16Length(s) >= 2)
    ensures sep == [] && r.Some? ==> r.value == [SecondCodeUnit(s)]
    ensures sep != [] ==> (r.Some? <==> Includes(s, sep))
    ensures sep != [] && r.Some? ==> !Includes(r.value, sep)
  {
    if sep == [] then
      if Utf16Length(s) >= 2 then Some([SecondCodeUnit(s)]) else None
    else
      match IndexOfFrom(s, sep, 0)
      case None => None
      case Some(i) =>
        var e := i + |sep|;
        var j := IndexOfFrom(s, sep, e);
        var hi := if j.Some? then j.value else |s|;
        NoMatchInside(s, sep, e, hi);
        Some(s[e..hi])
  }

  /** A string that starts with `p` includes it. */
  lemma IncludesPrefix(p: string, rest: string)
    ensures Includes(p + rest, p)
  {
    assert (p + rest)[0..|p|] == p;
    assert MatchAt(p + rest, p, 0);
  }

  /** `(sep + rest).split(sep)[1]` is `rest` when `rest` holds no further `sep`. */
  lemma SplitSecondAfterPrefix(sep: string, rest: string)
    requires sep != [] && !Includes(rest, sep)
    ensures SplitSecond(sep + rest, sep) == Some(rest)
  {
    var s := sep + rest;
    assert s[0..|sep|] == sep;
    assert IndexOfFrom(s, sep, 0) == Some(0);
    IndexOfShift(sep, rest, sep, 0);
    assert IndexOfFrom(s, sep, |sep|).None?;
    assert s[|sep|..|s|] == rest;
  }

  /** A match inside a slice is a match in the whole string, inside the slice's bounds. */
  lemma SliceMatch(s: string, p: string, lo: nat, hi: nat, k: int)
    requires lo <= hi <= |s| && p != []
    ensures MatchAt(s[lo..hi], p, k) ==> lo <= lo + k < hi && MatchAt(s, p, lo + k)
  {
    var t := s[lo..hi];
    if MatchAt(t, p, k) {
      forall i | 0 <= i < |p|
        ensures s[lo + k..lo + k + |p|][i] == p[i]
      {
        assert t[k..k + |p|][i] == p[i];
      }
      assert s[lo + k..lo + k + |p|] == p;
    }
  }

  /** A slice over which no match starts does not include the pattern. */
  lemma NoMatchInside(s: string, p: string, lo: nat, hi: nat)
    requires lo <= hi <= |s|
    requires forall k :: lo <= k < hi ==> !MatchAt(s, p, k)
    requires p != []
    ensures !Includes(s[lo..hi], p)
  {
    forall k
      ensures !MatchAt(s[lo..hi], p, k)
    {
      SliceMatch(s, p, lo, hi, k);
    }
    IncludesIff(s[lo..hi], p);
  }

  /** The first position of `c` in `s`, if any. */
  function FirstIndexOfChar(s: string, c: char): (r: Option<nat>)
    ensures r.Some? ==> r.value < |s| && s[r.value] == c && c !in s[..r.value]
    ensures r.None? ==> c !in s
  {
    if s == [] then None
    else if s[0] == c then Some(0)
    else
      match FirstIndexOfChar(s[1..], c)
      case None => None
      case Some(k) =>
        assert s[..k + 1] == [s[0]] + s[1..][..k];
        Some(k + 1)
  }

  /** `s.replace(".", "")`: only the first period is removed. */
  function ReplaceFirstDot(s: string): (r: string)
    ensures '.' !in s ==> r == s
    ensures '.' in s ==> exists k :: 0 <= k < |s| && s[k] == '.' && '.' !in s[..k] && r == s[..k] + s[k + 1..]
  {
    match FirstIndexOfChar(s, '.')
    case None => s
    case Some(k) => s[..k] + s[k + 1..]
  }

  /** `/^[A-Z]\./`: an upper-case letter followed by a period. */
  predicate IsChoiceMarker(s: string) {
    |s| >= 2 && 'A' <= s[0] <= 'Z' && s[1] == '.'
  }

  // ----- split("\n") and its inverse -----

  /** `s.split("\n")` */
  function SplitLines(s: string): (r: seq<string>)
    ensures |r| >= 1
    ensures forall k :: 0 <= k < |r| ==> '\n' !in r[k]
  {
    if s == [] then [[]]
    else
      var init := SplitLines(s[..|s| - 1]);
      var c := s[|s| - 1];
      if c == '\n' then init + [[]]
      else init[..|init| - 1] + [init[|init| - 1] + [c]]
  }

  /** `lines.join("\n")` */
  function JoinLines(lines: seq<string>): string
    requires |lines| >= 1
  {
    if |lines| == 1 then lines[0]
    else JoinLines(lines[..|lines| - 1]) + "\n" + lines[|lines| - 1]
  }

  lemma {:induction false} SplitLinesAppend(x: string, tail: string)
    requires '\n' !in tail
    ensures SplitLines(x + "\n" + tail) == SplitLines(x) + [tail]
    decreases |tail|
  {
    var s := x + "\n" + tail;
    if tail == [] {
      assert s[..|s| - 1] == x;
    } else {
      var t' := tail[..|tail| - 1];
      assert s[..|s| - 1] == x + "\n" + t';
      SplitLinesAppend(x, t');
      assert t' + [tail[|tail| - 1]] == tail;
    }
  }

  lemma {:induction false} SplitLinesSingle(line: string)
    requires '\n' !in line
    ensures SplitLines(line) == [line]
  {
    if line != [] {
      SplitLinesSingle(line[..|line| - 1]);
      assert line[..|line| - 1] + [line[|line| - 1]] == line;
    }
  }

  /** Splitting undoes joining lines that hold no line feed. */
  lemma {:induction false} SplitJoin(lines: seq<string>)
    requires |lines| >= 1
    requires forall k :: 0 <= k < |lines| ==> '\n' !in lines[k]
    ensures SplitLines(JoinLines(lines)) == lines
  {
    if |lines| == 1 {
      SplitLinesSingle(lines[0]);
    } else {
      var init := lines[..|lines| - 1];
      SplitJoin(init);
      SplitLinesAppend(JoinLines(init), lines[|lines| - 1]);
    }
  }

  /** A newline opens an empty last line. */
  lemma {:induction false} JoinNewLine(init: seq<string>)
    requires |init| >= 1
    ensures JoinLines(init + [[]]) == JoinLines(init) + "\n"
  {
    assert (init + [[]])[..|init|] == init;
  }

  /** Any other character extends the last line. */
  lemma {:induction false} JoinExtendLast(init: seq<string>, c: char)
    requires |init| >= 1
    ensures JoinLines(init[..|init| - 1] + [init[|init| - 1] + [c]]) == JoinLines(init) + [c]
  {
    var r := init[..|init| - 1] + [init[|init| - 1] + [c]];
    if |init| > 1 {
      assert r[..|r| - 1] == init[..|init| - 1];
    }
  }

  /** Joining undoes splitting. */
  lemma {:induction false} JoinSplit(s: string)
    ensures JoinLines(SplitLines(s)) == s
  {
    if s != [] {
      var x := s[..|s| - 1];
      var c := s[|s| - 1];
      var init := SplitLines(x);
      assert x + [c] == s;
      JoinSplit(x);
      if c == '\n' {
        assert SplitLines(s) == init + [[]];
        JoinNewLine(init);
      } else {
        assert SplitLines(s) == init[..|init| - 1] + [init[|init| - 1] + [c]];
        JoinExtendLast(init, c);
      }
    }
  }

  // ----- Number.prototype.toString for non-negative integers -----

  function DigitChar(d: nat): (c: char)
    requires d < 10
    ensures '0' <= c <= '9'
  {
    ('0' as int + d) as char
  }

  predicate IsDigit(c: char) { '0' <= c <= '9' }

  /** The decimal rendering of `n` (as JavaScript prints an integer below 10^21). */
  function NumberToString(n: nat): (r: string)
    ensures |r| >= 1
    ensures forall i :: 0 <= i < |r| ==> IsDigit(r[i])
    ensures r[0] == '0' ==> n == 0
  {
    if n < 10 then [DigitChar(n)]
    else NumberToString(n / 10) + [DigitChar(n % 10)]
  }

  function ParseDigits(s: string): nat
    requires forall i :: 0 <= i < |s| ==> IsDigit(s[i])
  {
    if s == [] then 0
    else
      assert IsDigit(s[|s| - 1]);
      ParseDigits(s[..|s| - 1]) * 10 + (s[|s| - 1] as int - '0' as int)
  }

  /** Reading the digits back gives the number. */
  lemma {:induction false} ParseNumberToString(n: nat)
    ensures ParseDigits(NumberToString(n)) == n
  {
    if n >= 10 {
      var r := NumberToString(n);
      assert r[..|r| - 1] == NumberToString(n / 10);
      ParseNumberToString(n / 10);
    }
  }

  lemma NumberToStringInjective(m: nat, n: nat)
    requires NumberToString(m) == NumberToString(n)
    ensures m == n
  {
    ParseNumberToString(m);
    ParseNumberToString(n);
  }
}
