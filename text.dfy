/** The handful of Python string operations the service relies on, written
    over `seq<char>`: `startswith`, one-character `replace`, `in` on strings,
    `"\n".join`, `split("\n")` and the decimal rendering of an `int`. */
module Text {

  /** `s.startswith(prefix)`. */
  predicate StartsWith(s: string, prefix: string)
  {
    |prefix| <= |s| && s[..|prefix|] == prefix
  }

  /** `sub` occurs in `s` starting at index `i`. */
  predicate OccursAt(s: string, sub: string, i: int)
  {
    0 <= i <= |s| - |sub| && s[i..i + |sub|] == sub
  }

  /** `sub in s` for strings: `sub` occurs somewhere in `s`. */
  predicate Contains(s: string, sub: string)
  {
    exists i | 0 <= i <= |s| - |sub| :: OccursAt(s, sub, i)
  }

  /** `s.replace(target, replacement)` for one-character arguments. */
  function ReplaceChar(s: string, target: char, replacement: char): (r: string)
    ensures |r| == |s|
    ensures forall i :: 0 <= i < |s| ==> r[i] == (if s[i] == target then replacement else s[i])
  {
    if s == [] then []
    else ReplaceChar(s[..|s| - 1], target, replacement)
         + [if s[|s| - 1] == target then replacement else s[|s| - 1]]
  }

  lemma ReplaceCharRemoves(s: string, target: char, replacement: char)
    requires target != replacement
    ensures target !in ReplaceChar(s, target, replacement)
  {
    var r := ReplaceChar(s, target, replacement);
    forall i | 0 <= i < |r| ensures r[i] != target {
    }
  }

  /** Replacing distributes over concatenation. */
  lemma ReplaceCharConcat(a: string, b: string, target: char, replacement: char)
    ensures ReplaceChar(a + b, target, replacement)
         == ReplaceChar(a, target, replacement) + ReplaceChar(b, target, replacement)
  {
    var l := ReplaceChar(a + b, target, replacement);
    var r := ReplaceChar(a, target, replacement) + ReplaceChar(b, target, replacement);
    forall i | 0 <= i < |l| ensures l[i] == r[i] {
      if i >= |a| {
        assert (a + b)[i] == b[i - |a|];
      }
    }
  }

  /** Replacing a character that does not occur changes nothing. */
  lemma ReplaceCharAbsent(s: string, target: char, replacement: char)
    requires target !in s
    ensures ReplaceChar(s, target, replacement) == s
  {
    var r := ReplaceChar(s, target, replacement);
    forall i | 0 <= i < |s| ensures r[i] == s[i] {
      assert s[i] in s;
    }
  }

  /** `sep.join(lines)` for a one-character separator. */
  function JoinWith(lines: seq<string>, sep: char): (r: string)
    decreases |lines|
  {
    if |lines| == 0 then ""
    else if |lines| == 1 then lines[0]
    else JoinWith(lines[..|lines| - 1], sep) + [sep] + lines[|lines| - 1]
  }

  /** Index of the first element of `s` equal to `c`, or `|s|` when there is
      none: the position `str.index` finds and `list.remove` deletes. */
  function IndexOf<T(==)>(s: seq<T>, c: T): (i: nat)
    ensures i <= |s|
    ensures i < |s| ==> s[i] == c
    ensures forall j :: 0 <= j < i ==> s[j] != c
    ensures i == |s| <==> c !in s
  {
    if s == [] then 0
    else if s[0] == c then 0
    else 1 + IndexOf(s[1..], c)
  }

  /** `s.split(sep)` for a one-character separator: always at least one piece. */
  function SplitOn(s: string, sep: char): (r: seq<string>)
    ensures |r| >= 1
    ensures forall k :: 0 <= k < |r| ==> sep !in r[k]
    decreases |s|
  {
    var i := IndexOf(s, sep);
    if i == |s| then [s] else [s[..i]] + SplitOn(s[i + 1..], sep)
  }

  lemma {:induction false} JoinWithCons(head: string, tail: seq<string>, sep: char)
    requires |tail| >= 1
    ensures JoinWith([head] + tail, sep) == head + [sep] + JoinWith(tail, sep)
    decreases |tail|
  {
    var all := [head] + tail;
    var last := tail[|tail| - 1];
    assert all[|all| - 1] == last;
    if |tail| == 1 {
      assert all[..|all| - 1] == [head];
      assert JoinWith(all, sep) == JoinWith([head], sep) + [sep] + last;
    } else {
      var init := tail[..|tail| - 1];
      assert all[..|all| - 1] == [head] + init;
      JoinWithCons(head, init, sep);
      assert JoinWith(all, sep) == (head + [sep] + JoinWith(init, sep)) + [sep] + last;
      assert JoinWith(tail, sep) == JoinWith(init, sep) + [sep] + last;
    }
  }

  /** Splitting what was joined gives back the lines, provided there is at
      least one line and no line contains the separator. */
  lemma {:induction false} SplitJoin(lines: seq<string>, sep: char)
    requires |lines| >= 1
    requires forall k :: 0 <= k < |lines| ==> sep !in lines[k]
    ensures SplitOn(JoinWith(lines, sep), sep) == lines
    decreases |lines|
  {
    if |lines| == 1 {
      assert JoinWith(lines, sep) == lines[0];
    } else {
      var tail := lines[1..];
      assert lines == [lines[0]] + tail;
      JoinWithCons(lines[0], tail, sep);
      var s := JoinWith(lines, sep);
      assert s == lines[0] + [sep] + JoinWith(tail, sep);
      assert s[|lines[0]|] == sep;
      assert s[..|lines[0]|] == lines[0];
      forall j | 0 <= j < |lines[0]| ensures s[j] != sep {
        assert s[j] == lines[0][j];
        assert lines[0][j] in lines[0];
      }
      assert IndexOf(s, sep) == |lines[0]|;
      assert s[|lines[0]| + 1..] == JoinWith(tail, sep);
      SplitJoin(tail, sep);
    }
  }

  /** Joining what was split gives back the string. */
  lemma {:induction false} JoinSplit(s: string, sep: char)
    ensures JoinWith(SplitOn(s, sep), sep) == s
    decreases |s|
  {
    var i := IndexOf(s, sep);
    if i < |s| {
      var head, tail := s[..i], s[i + 1..];
      var rest := SplitOn(tail, sep);
      assert SplitOn(s, sep) == [head] + rest;
      JoinSplit(tail, sep);
      JoinWithCons(head, rest, sep);
      SplitAround(s, i);
    } else {
      assert SplitOn(s, sep) == [s];
    }
  }

  /** A string is its prefix, the character at `i`, and its suffix. */
  lemma SplitAround(s: string, i: nat)
    requires i < |s|
    ensures s == s[..i] + [s[i]] + s[i + 1..]
  {
  }

  predicate IsDigit(c: char)
  {
    '0' <= c <= '9'
  }

  predicate AllDigits(s: string)
  {
    forall i :: 0 <= i < |s| ==> IsDigit(s[i])
  }

  function DigitChar(d: nat): (c: char)
    requires d < 10
    ensures IsDigit(c)
  {
    ['0', '1', '2', '3', '4', '5', '6', '7', '8', '9'][d]
  }

  function DigitValue(c: char): (d: nat)
    requires IsDigit(c)
    ensures d < 10
  {
    (c as int - '0' as int) as nat
  }

  lemma DigitRoundTrip(d: nat)
    requires d < 10
    ensures DigitValue(DigitChar(d)) == d
  {
  }

  /** `str(n)` for a non-negative `int`: decimal, no leading zeros. */
  function DecimalString(n: nat): (r: string)
    ensures |r| >= 1 && AllDigits(r)
    ensures n >= 10 ==> |r| >= 2
  {
    if n < 10 then [DigitChar(n)] else DecimalString(n / 10) + [DigitChar(n % 10)]
  }

  /** `int(s)` for a string of ASCII digits (leading zeros allowed). */
  function ParseDecimal(s: string): nat
    requires AllDigits(s)
  {
    if s == [] then 0 else 10 * ParseDecimal(s[..|s| - 1]) + DigitValue(s[|s| - 1])
  }

  lemma {:induction false} DecimalRoundTrip(n: nat)
    ensures ParseDecimal(DecimalString(n)) == n
  {
    if n >= 10 {
      var s := DecimalString(n);
      assert s[..|s| - 1] == DecimalString(n / 10);
      DecimalRoundTrip(n / 10);
      DigitRoundTrip(n % 10);
    } else {
      DigitRoundTrip(n);
    }
  }

  /** `str(int(...))` is injective on the values it renders. */
  lemma DecimalStringInjective(m: nat, n: nat)
    requires DecimalString(m) == DecimalString(n)
    ensures m == n
  {
    DecimalRoundTrip(m);
    DecimalRoundTrip(n);
  }
}
