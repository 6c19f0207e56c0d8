/** The archive-name pattern of the service,
      python-(?P<major>\d+).(?P<minor>[0-9a-zA-Z]{,4}).(?P<tag>[0-9a-zA-Z]{,5})-embed-(?P<arch>.*).zip$
    applied with `re.match` (anchored at the start).

    The three unescaped dots match any character except a newline, `.*` is
    greedy, `$` matches at the very end or just before one final newline,
    and `\d` is taken as the ASCII digits.  A way for the pattern to match a
    name is given by the four group lengths (`Lengths`); `Valid` says that
    those lengths make the whole pattern match.  A backtracking matcher tries
    the greedy quantifiers from the longest length down, the leftmost
    quantifier varying slowest, so the match it reports is the
    lexicographically greatest valid `Lengths`: that is what `MatchLengths`
    is proved to return. */
module ArchivePattern {
  import opened Wrappers
  import opened Text

  const Prefix: string := "python-"

  /** The bounds of `{,4}` on the minor group and `{,5}` on the tag group. */
  const MinorMax: nat := 4
  const TagMax: nat := 5

  predicate IsAlnum(c: char)
  {
    ('0' <= c <= '9') || ('a' <= c <= 'z') || ('A' <= c <= 'Z')
  }

  /** Every index in [i, j) is inside `s` and holds an ASCII digit. */
  predicate DigitsBetween(s: string, i: int, j: int)
  {
    0 <= i && j <= |s| && forall k {:trigger IsDigit(s[k])} :: i <= k < j ==> IsDigit(s[k])
  }

  /** Every index in [i, j) is inside `s` and holds an ASCII letter or digit. */
  predicate AlnumBetween(s: string, i: int, j: int)
  {
    0 <= i && j <= |s| && forall k {:trigger IsAlnum(s[k])} :: i <= k < j ==> IsAlnum(s[k])
  }

  /** A character an unescaped `.` matches: anything but a newline. */
  predicate Dot(c: char)
  {
    c != '\n'
  }

  /** Every index in [i, j) is inside `s` and holds a character `.` matches. */
  predicate AnyBetween(s: string, i: int, j: int)
  {
    0 <= i && j <= |s| && forall k {:trigger Dot(s[k])} :: i <= k < j ==> Dot(s[k])
  }

  /** The literal `python-` at the start of `s`, character by character. */
  predicate PrefixAt(s: string)
  {
    && 7 <= |s|
    && s[0] == 'p' && s[1] == 'y' && s[2] == 't' && s[3] == 'h' && s[4] == 'o' && s[5] == 'n' && s[6] == '-'
  }

  /** The literal `-embed-` at index q. */
  predicate EmbedInfixAt(s: string, q: int)
  {
    && 0 <= q && q + 7 <= |s|
    && s[q] == '-' && s[q + 1] == 'e' && s[q + 2] == 'm' && s[q + 3] == 'b'
    && s[q + 4] == 'e' && s[q + 5] == 'd' && s[q + 6] == '-'
  }

  /** The literal `zip` at index q. */
  predicate ExtensionAt(s: string, q: int)
  {
    0 <= q && q + 3 <= |s| && s[q] == 'z' && s[q + 1] == 'i' && s[q + 2] == 'p'
  }

  /** Lengths of the groups major, minor, tag and arch of one way to match. */
  datatype Lengths = Lengths(major: nat, minor: nat, tag: nat, arch: nat)

  /** `python-`, the major digits, any character, the minor, any character
      and the tag, for group lengths a, b and c. */
  predicate HeadMatches(s: string, a: nat, b: nat, c: nat)
  {
    && 9 + a + b + c <= |s|
    && PrefixAt(s)
    && 1 <= a && DigitsBetween(s, 7, 7 + a) && s[7 + a] != '\n'
    && b <= MinorMax && AlnumBetween(s, 8 + a, 8 + a + b) && s[8 + a + b] != '\n'
    && c <= TagMax && AlnumBetween(s, 9 + a + b, 9 + a + b + c)
  }

  /** `-embed-`, an arch of length d, any character, `zip` and the end of
      the name (or one final newline), starting at index q. */
  predicate TailMatches(s: string, q: nat, d: nat)
  {
    && q + 11 + d <= |s|
    && EmbedInfixAt(s, q)
    && AnyBetween(s, q + 7, q + 7 + d) && s[q + 7 + d] != '\n'
    && ExtensionAt(s, q + 8 + d)
    && (|s| == q + 11 + d || (|s| == q + 12 + d && s[q + 11 + d] == '\n'))
  }

  predicate Valid(s: string, x: Lengths)
  {
    HeadMatches(s, x.major, x.minor, x.tag) && TailMatches(s, 9 + x.major + x.minor + x.tag, x.arch)
  }

  /** The priority order of a backtracking matcher: leftmost group first,
      longer before shorter. */
  predicate LexAtMost(x: Lengths, y: Lengths)
  {
    || x.major < y.major
    || (x.major == y.major && x.minor < y.minor)
    || (x.major == y.major && x.minor == y.minor && x.tag < y.tag)
    || (x.major == y.major && x.minor == y.minor && x.tag == y.tag && x.arch <= y.arch)
  }

  lemma DigitsShift(s: string, i: int, j: int)
    requires DigitsBetween(s, i, j) && i < j
    ensures DigitsBetween(s, i + 1, j) && IsDigit(s[i])
  {
  }

  lemma AlnumShift(s: string, i: int, j: int)
    requires AlnumBetween(s, i, j) && i < j
    ensures AlnumBetween(s, i + 1, j) && IsAlnum(s[i])
  {
  }

  /** Longest run of digits starting at i. */
  function DigitRun(s: string, i: nat): (r: nat)
    decreases |s| - i
  {
    if i < |s| && IsDigit(s[i]) then 1 + DigitRun(s, i + 1) else 0
  }

  /** The digit run is made of digits, and no longer run of digits starts at i. */
  lemma {:induction false} DigitRunLongest(s: string, i: nat)
    ensures DigitsBetween(s, i, i + DigitRun(s, i)) || (DigitRun(s, i) == 0 && i > |s|)
    ensures forall j :: i + DigitRun(s, i) < j ==> !DigitsBetween(s, i, j)
    decreases |s| - i
  {
    if i < |s| && IsDigit(s[i]) {
      DigitRunLongest(s, i + 1);
      forall j | i + DigitRun(s, i) < j && DigitsBetween(s, i, j) ensures false {
        DigitsShift(s, i, j);
      }
    }
  }

  /** Longest run of at most `cap` letters or digits starting at i. */
  function AlnumRun(s: string, i: nat, cap: nat): (r: nat)
    ensures r <= cap
    decreases cap
  {
    if cap > 0 && i < |s| && IsAlnum(s[i]) then 1 + AlnumRun(s, i + 1, cap - 1) else 0
  }

  /** The run is made of letters and digits, and no longer run within the cap
      starts at i. */
  lemma {:induction false} AlnumRunLongest(s: string, i: nat, cap: nat)
    ensures AlnumBetween(s, i, i + AlnumRun(s, i, cap)) || (AlnumRun(s, i, cap) == 0 && i > |s|)
    ensures forall j :: i + AlnumRun(s, i, cap) < j <= i + cap ==> !AlnumBetween(s, i, j)
    decreases cap
  {
    if cap > 0 && i < |s| && IsAlnum(s[i]) {
      AlnumRunLongest(s, i + 1, cap - 1);
      forall j | i + AlnumRun(s, i, cap) < j <= i + cap && AlnumBetween(s, i, j) ensures false {
        AlnumShift(s, i, j);
      }
    }
  }

  /** How a tail ends: the last character is the `p` of `zip`, or the one
      final newline `$` allows. */
  lemma TailEnd(s: string, q: nat, d: nat)
    requires TailMatches(s, q, d)
    ensures |s| == q + 11 + d ==> s[|s| - 1] == 'p'
    ensures |s| != q + 11 + d ==> |s| == q + 12 + d && s[|s| - 1] == '\n'
  {
  }

  /** The arch length that completes the match from index q, if any.
      At most one does: the name's end fixes it. */
  function ArchLength(s: string, q: nat): (r: Option<nat>)
  {
    if q + 11 <= |s| && TailMatches(s, q, |s| - q - 11) then Some(|s| - q - 11)
    else if q + 12 <= |s| && TailMatches(s, q, |s| - q - 12) then Some(|s| - q - 12)
    else None
  }

  lemma ArchLengthSound(s: string, q: nat)
    ensures ArchLength(s, q).Some? ==> TailMatches(s, q, ArchLength(s, q).value)
  {
  }

  lemma ArchLengthUnique(s: string, q: nat, d: nat)
    requires TailMatches(s, q, d)
    ensures ArchLength(s, q) == Some(d)
  {
    TailEnd(s, q, d);
  }

  /** A greedy quantifier retried from its longest length down: the
      greatest k in [lo, hi] for which the rest of the pattern, f(k),
      succeeds. */
  function GreedyChoice(f: nat -> Option<Lengths>, lo: nat, hi: nat): (k: Option<nat>)
    ensures k.Some? ==> lo <= k.value <= hi && f(k.value).Some?
    ensures k.Some? ==> forall j :: k.value < j <= hi ==> f(j).None?
    ensures k.None? ==> forall j :: lo <= j <= hi ==> f(j).None?
    decreases hi
  {
    if hi < lo then None
    else if f(hi).Some? then Some(hi)
    else if hi == lo then None
    else GreedyChoice(f, lo, hi - 1)
  }

  /** The whole pattern for fixed major, minor and tag lengths. */
  function Attempt(s: string, a: nat, b: nat, c: nat): (r: Option<Lengths>)
    ensures r.Some? ==> r.value.major == a && r.value.minor == b && r.value.tag == c
  {
    if HeadMatches(s, a, b, c) then
      match ArchLength(s, 9 + a + b + c)
      case None => None
      case Some(d) => Some(Lengths(a, b, c, d))
    else None
  }

  lemma AttemptSound(s: string, a: nat, b: nat, c: nat)
    ensures Attempt(s, a, b, c).Some? ==> Valid(s, Attempt(s, a, b, c).value)
  {
    ArchLengthSound(s, 9 + a + b + c);
  }

  lemma AttemptFinds(s: string, x: Lengths)
    requires Valid(s, x)
    ensures Attempt(s, x.major, x.minor, x.tag) == Some(x)
  {
    ArchLengthUnique(s, 9 + x.major + x.minor + x.tag, x.arch);
  }

  /** The tag lengths, tried for fixed major and minor lengths. */
  function TagChoices(s: string, a: nat, b: nat): nat -> Option<Lengths>
  {
    (c: nat) => Attempt(s, a, b, c)
  }

  lemma TagChoicesAt(s: string, a: nat, b: nat, c: nat)
    ensures TagChoices(s, a, b)(c) == Attempt(s, a, b, c)
  {
  }

  /** Backtracking over the tag length, from c down to 0. */
  function SearchTag(s: string, a: nat, b: nat, c: nat): (r: Option<Lengths>)
    ensures r.Some? ==> r.value.major == a && r.value.minor == b && r.value.tag <= c
  {
    var k := GreedyChoice(TagChoices(s, a, b), 0, c);
    if k.Some? then TagChoicesAt(s, a, b, k.value); TagChoices(s, a, b)(k.value) else None
  }

  lemma SearchTagSound(s: string, a: nat, b: nat, c: nat)
    ensures SearchTag(s, a, b, c).Some? ==> Valid(s, SearchTag(s, a, b, c).value)
  {
    var k := GreedyChoice(TagChoices(s, a, b), 0, c);
    if k.Some? {
      AttemptSound(s, a, b, k.value);
    }
  }

  lemma SearchTagGreatest(s: string, a: nat, b: nat, c: nat, x: Lengths)
    requires Valid(s, x) && x.major == a && x.minor == b && x.tag <= c
    ensures SearchTag(s, a, b, c).Some? && LexAtMost(x, SearchTag(s, a, b, c).value)
  {
    AttemptFinds(s, x);
    assert TagChoices(s, a, b)(x.tag).Some?;
    var k := GreedyChoice(TagChoices(s, a, b), 0, c);
    assert k.Some? && x.tag <= k.value;
  }

  /** In a valid match the tag is no longer than the alphanumeric run the
      search starts from, and the minor no longer than its own run. */
  lemma TagWithinRun(s: string, x: Lengths)
    requires Valid(s, x)
    ensures x.tag <= AlnumRun(s, 9 + x.major + x.minor, TagMax)
  {
    AlnumRunLongest(s, 9 + x.major + x.minor, TagMax);
  }

  lemma MinorWithinRun(s: string, x: Lengths)
    requires Valid(s, x)
    ensures x.minor <= AlnumRun(s, 8 + x.major, MinorMax)
  {
    AlnumRunLongest(s, 8 + x.major, MinorMax);
  }

  /** The minor lengths, tried for a fixed major length; the tag starts from
      the longest alphanumeric run `{,5}` can take. */
  function MinorChoices(s: string, a: nat): nat -> Option<Lengths>
  {
    (b: nat) => SearchTag(s, a, b, AlnumRun(s, 9 + a + b, TagMax))
  }

  lemma MinorChoicesAt(s: string, a: nat, b: nat)
    ensures MinorChoices(s, a)(b) == SearchTag(s, a, b, AlnumRun(s, 9 + a + b, TagMax))
  {
  }

  /** Backtracking over the minor length, from b down to 0. */
  function SearchMinor(s: string, a: nat, b: nat): (r: Option<Lengths>)
    ensures r.Some? ==> r.value.major == a && r.value.minor <= b
  {
    var k := GreedyChoice(MinorChoices(s, a), 0, b);
    if k.Some? then MinorChoicesAt(s, a, k.value); MinorChoices(s, a)(k.value) else None
  }

  lemma SearchMinorSound(s: string, a: nat, b: nat)
    ensures SearchMinor(s, a, b).Some? ==> Valid(s, SearchMinor(s, a, b).value)
  {
    var k := GreedyChoice(MinorChoices(s, a), 0, b);
    if k.Some? {
      SearchTagSound(s, a, k.value, AlnumRun(s, 9 + a + k.value, TagMax));
    }
  }

  lemma SearchMinorGreatest(s: string, a: nat, b: nat, x: Lengths)
    requires Valid(s, x) && x.major == a && x.minor <= b
    ensures SearchMinor(s, a, b).Some? && LexAtMost(x, SearchMinor(s, a, b).value)
  {
    TagWithinRun(s, x);
    SearchTagGreatest(s, a, x.minor, AlnumRun(s, 9 + a + x.minor, TagMax), x);
    MinorPick(s, a, b, x);
  }

  /** Once x's own minor length reaches a match no earlier than x, so does
      the search from any longer minor length. */
  lemma MinorPick(s: string, a: nat, b: nat, x: Lengths)
    requires x.major == a && x.minor <= b
    requires var t := SearchTag(s, a, x.minor, AlnumRun(s, 9 + a + x.minor, TagMax));
             t.Some? && LexAtMost(x, t.value)
    ensures SearchMinor(s, a, b).Some? && LexAtMost(x, SearchMinor(s, a, b).value)
  {
    MinorChoicesAt(s, a, x.minor);
    var k := GreedyChoice(MinorChoices(s, a), 0, b);
    assert k.Some? && x.minor <= k.value;
    MinorChoicesAt(s, a, k.value);
  }

  /** The major lengths; the minor starts from the longest alphanumeric run
      `{,4}` can take. */
  function MajorChoices(s: string): nat -> Option<Lengths>
  {
    (a: nat) => SearchMinor(s, a, AlnumRun(s, 8 + a, MinorMax))
  }

  lemma MajorChoicesAt(s: string, a: nat)
    ensures MajorChoices(s)(a) == SearchMinor(s, a, AlnumRun(s, 8 + a, MinorMax))
  {
  }

  /** Backtracking over the major length, from a down to 1 (`\d+` takes at
      least one digit). */
  function SearchMajor(s: string, a: nat): (r: Option<Lengths>)
    ensures r.Some? ==> r.value.major <= a
  {
    var k := GreedyChoice(MajorChoices(s), 1, a);
    if k.Some? then MajorChoicesAt(s, k.value); MajorChoices(s)(k.value) else None
  }

  lemma SearchMajorSound(s: string, a: nat)
    ensures SearchMajor(s, a).Some? ==> Valid(s, SearchMajor(s, a).value)
  {
    var k := GreedyChoice(MajorChoices(s), 1, a);
    if k.Some? {
      SearchMinorSound(s, k.value, AlnumRun(s, 8 + k.value, MinorMax));
    }
  }

  lemma SearchMajorGreatest(s: string, a: nat, x: Lengths)
    requires Valid(s, x) && x.major <= a
    ensures SearchMajor(s, a).Some? && LexAtMost(x, SearchMajor(s, a).value)
  {
    MinorWithinRun(s, x);
    SearchMinorGreatest(s, x.major, AlnumRun(s, 8 + x.major, MinorMax), x);
    MajorPick(s, a, x);
  }

  /** Once x's own major length reaches a match no earlier than x, so does
      the search from any longer major length. */
  lemma MajorPick(s: string, a: nat, x: Lengths)
    requires 1 <= x.major <= a
    requires var m := SearchMinor(s, x.major, AlnumRun(s, 8 + x.major, MinorMax));
             m.Some? && LexAtMost(x, m.value)
    ensures SearchMajor(s, a).Some? && LexAtMost(x, SearchMajor(s, a).value)
  {
    MajorChoicesAt(s, x.major);
    var k := GreedyChoice(MajorChoices(s), 1, a);
    assert k.Some? && x.major <= k.value;
    MajorChoicesAt(s, k.value);
  }

  /** `PYTHON_PATTERN.match(s)`, as group lengths: a valid way to match.
      `\d+` starts from the longest run of digits after `python-`. */
  function MatchLengths(s: string): (r: Option<Lengths>)
    ensures r.Some? ==> Valid(s, r.value)
  {
    SearchMajorSound(s, DigitRun(s, 7));
    SearchMajor(s, DigitRun(s, 7))
  }

  /** The match reported is the greatest valid one in backtracking priority,
      and there is one whenever the pattern can match at all. */
  lemma MatchLengthsGreatest(s: string, x: Lengths)
    requires Valid(s, x)
    ensures MatchLengths(s).Some? && LexAtMost(x, MatchLengths(s).value)
  {
    DigitRunLongest(s, 7);
    assert x.major <= DigitRun(s, 7);
    SearchMajorGreatest(s, DigitRun(s, 7), x);
  }

  /** Two ways to match that agree on major, minor and tag agree on arch:
      the end of the name fixes it. */
  lemma ValidDeterminedByHead(s: string, x: Lengths, y: Lengths)
    requires Valid(s, x) && Valid(s, y)
    requires x.major == y.major && x.minor == y.minor && x.tag == y.tag
    ensures x == y
  {
    ArchLengthUnique(s, 9 + x.major + x.minor + x.tag, x.arch);
    ArchLengthUnique(s, 9 + y.major + y.minor + y.tag, y.arch);
  }

  /** No valid way to match comes after one whose greedy groups all take
      their longest runs. */
  lemma LongestIsLast(s: string, x: Lengths, y: Lengths)
    requires Valid(s, x) && Valid(s, y) && LexAtMost(x, y)
    requires x.major == DigitRun(s, 7)
    requires x.minor == AlnumRun(s, 8 + x.major, MinorMax)
    requires x.tag == AlnumRun(s, 9 + x.major + x.minor, TagMax)
    ensures y == x
  {
    DigitRunLongest(s, 7);
    assert y.major == x.major;
    MinorWithinRun(s, y);
    TagWithinRun(s, y);
    ValidDeterminedByHead(s, x, y);
  }

  /** When every greedy group can take its longest run and the rest still
      matches, that is the match reported. */
  lemma MatchLengthsLongest(s: string, x: Lengths)
    requires Valid(s, x)
    requires x.major == DigitRun(s, 7)
    requires x.minor == AlnumRun(s, 8 + x.major, MinorMax)
    requires x.tag == AlnumRun(s, 9 + x.major + x.minor, TagMax)
    ensures MatchLengths(s) == Some(x)
  {
    MatchLengthsGreatest(s, x);
    LongestIsLast(s, x, MatchLengths(s).value);
  }

  /** The named groups of a match. */
  datatype Groups = Groups(major: string, minor: string, tag: string, arch: string)

  /** The four groups of `x` lie inside `s`. */
  predicate InBounds(s: string, x: Lengths)
  {
    16 + x.major + x.minor + x.tag + x.arch <= |s|
  }

  function GroupsOf(s: string, x: Lengths): (g: Groups)
    requires InBounds(s, x)
    ensures |g.major| == x.major && |g.minor| == x.minor && |g.tag| == x.tag && |g.arch| == x.arch
  {
    var t := 9 + x.major + x.minor;
    var q := t + x.tag + 7;
    Groups(s[7..7 + x.major], s[8 + x.major..t - 1], s[t..t + x.tag], s[q..q + x.arch])
  }

  /** What each group of a valid match is made of. */
  lemma GroupsShape(s: string, x: Lengths)
    requires Valid(s, x)
    ensures var g := GroupsOf(s, x);
            && |g.major| >= 1 && AllDigits(g.major)
            && |g.minor| <= MinorMax && AlnumBetween(g.minor, 0, |g.minor|)
            && |g.tag| <= TagMax && AlnumBetween(g.tag, 0, |g.tag|)
            && '\n' !in g.arch
            && StartsWith(s, Prefix + g.major)
  {
    var g := GroupsOf(s, x);
    var t := 9 + x.major + x.minor;
    var q := t + x.tag + 7;
    forall k | 0 <= k < |g.major| ensures IsDigit(g.major[k]) {
      assert g.major[k] == s[7 + k];
    }
    forall k | 0 <= k < |g.minor| ensures IsAlnum(g.minor[k]) {
      assert g.minor[k] == s[8 + x.major + k];
    }
    forall k | 0 <= k < |g.tag| ensures IsAlnum(g.tag[k]) {
      assert g.tag[k] == s[t + k];
    }
    forall k | 0 <= k < |g.arch| ensures g.arch[k] != '\n' {
      assert g.arch[k] == s[q + k] && Dot(s[q + k]);
    }
    assert s[..7 + x.major] == Prefix + g.major;
  }

  /** `PYTHON_PATTERN.match(s)` with its groups; None when it does not match. */
  function Match(s: string): (r: Option<Groups>)
    ensures r.Some? ==> |r.value.major| >= 1 && AllDigits(r.value.major)
    ensures r.Some? ==> |r.value.minor| <= MinorMax && AlnumBetween(r.value.minor, 0, |r.value.minor|)
    ensures r.Some? ==> |r.value.tag| <= TagMax && AlnumBetween(r.value.tag, 0, |r.value.tag|)
    ensures r.Some? ==> '\n' !in r.value.arch
    ensures r.Some? ==> StartsWith(s, Prefix + r.value.major)
  {
    match MatchLengths(s)
    case None => None
    case Some(x) =>
      GroupsShape(s, x);
      Some(GroupsOf(s, x))
  }

  /** The pattern matches a name exactly when some way to match it exists. */
  lemma MatchIffMatchable(s: string)
    ensures Match(s).Some? <==> exists x :: Valid(s, x)
  {
    if x :| Valid(s, x) {
      MatchLengthsGreatest(s, x);
    }
  }

  /** The release archive of the tests. */
  const ReleaseName: string := "python-3.9.12-embed-amd64.zip"

  /** `s` is `python-3.9.12-embed-amd64.zip`, character by character. */
  predicate ReleaseSpelled(s: string)
  {
    && |s| == 29 && s[0] == 'p' && s[1] == 'y' && s[2] == 't' && s[3] == 'h' && s[4] == 'o' && s[5] == 'n' && s[6] == '-'
    && s[7] == '3' && s[8] == '.' && s[9] == '9' && s[10] == '.' && s[11] == '1' && s[12] == '2' && s[13] == '-' && s[14] == 'e'
    && s[15] == 'm' && s[16] == 'b' && s[17] == 'e' && s[18] == 'd' && s[19] == '-' && s[20] == 'a' && s[21] == 'm' && s[22] == 'd'
    && s[23] == '6' && s[24] == '4' && s[25] == '.' && s[26] == 'z' && s[27] == 'i' && s[28] == 'p'
  }

  lemma ReleaseSpelledChars(s: string)
    requires s == ReleaseName
    ensures ReleaseSpelled(s)
  {
    assert s[0] == 'p';
    assert s[10] == '.';
    assert s[20] == 'a';
  }

  lemma ReleaseLengths(s: string)
    requires ReleaseSpelled(s)
    ensures MatchLengths(s) == Some(Lengths(1, 1, 2, 5))
  {
    var x := Lengths(1, 1, 2, 5);
    assert Valid(s, x);
    assert DigitRun(s, 7) == 1;
    assert AlnumRun(s, 9, MinorMax) == 1;
    assert AlnumRun(s, 11, TagMax) == 2;
    MatchLengthsLongest(s, x);
  }

  lemma ReleaseGroups(s: string)
    requires ReleaseSpelled(s)
    ensures InBounds(s, Lengths(1, 1, 2, 5))
    ensures GroupsOf(s, Lengths(1, 1, 2, 5)) == Groups("3", "9", "12", "amd64")
  {
    var g := GroupsOf(s, Lengths(1, 1, 2, 5));
    assert g.major == [s[7]] == "3";
    assert g.minor == [s[9]] == "9";
    assert g.tag == [s[11], s[12]] == "12";
    assert g.arch == [s[20], s[21], s[22], s[23], s[24]] == "amd64";
  }

  /** `python-3.9.12-embed-amd64.zip` gives major `3`, minor `9`, tag `12`
      and architecture `amd64`. */
  lemma ReleaseArchive()
    ensures Match(ReleaseName) == Some(Groups("3", "9", "12", "amd64"))
  {
    ReleaseSpelledChars(ReleaseName);
    ReleaseLengths(ReleaseName);
    ReleaseGroups(ReleaseName);
  }

  /** The archive of the tests with a letter in the minor. */
  const LetterMinorName: string := "python-3.9rc.12-embed-amd64.zip"

  /** `s` is `python-3.9rc.12-embed-amd64.zip`, character by character. */
  predicate LetterMinorSpelled(s: string)
  {
    && |s| == 31 && s[0] == 'p' && s[1] == 'y' && s[2] == 't' && s[3] == 'h' && s[4] == 'o' && s[5] == 'n' && s[6] == '-'
    && s[7] == '3' && s[8] == '.' && s[9] == '9' && s[10] == 'r' && s[11] == 'c' && s[12] == '.' && s[13] == '1' && s[14] == '2'
    && s[15] == '-' && s[16] == 'e' && s[17] == 'm' && s[18] == 'b' && s[19] == 'e' && s[20] == 'd' && s[21] == '-' && s[22] == 'a'
    && s[23] == 'm' && s[24] == 'd' && s[25] == '6' && s[26] == '4' && s[27] == '.' && s[28] == 'z' && s[29] == 'i' && s[30] == 'p'
  }

  lemma LetterMinorSpelledChars(s: string)
    requires s == LetterMinorName
    ensures LetterMinorSpelled(s)
  {
    assert s[0] == 'p';
    assert s[10] == 'r';
    assert s[20] == 'd';
    assert s[30] == 'p';
  }

  lemma LetterMinorLengths(s: string)
    requires LetterMinorSpelled(s)
    ensures MatchLengths(s) == Some(Lengths(1, 3, 2, 5))
  {
    var x := Lengths(1, 3, 2, 5);
    assert Valid(s, x);
    assert DigitRun(s, 7) == 1;
    assert AlnumRun(s, 9, MinorMax) == 3;
    assert AlnumRun(s, 13, TagMax) == 2;
    MatchLengthsLongest(s, x);
  }

  lemma LetterMinorGroups(s: string)
    requires LetterMinorSpelled(s)
    ensures InBounds(s, Lengths(1, 3, 2, 5))
    ensures GroupsOf(s, Lengths(1, 3, 2, 5)) == Groups("3", "9rc", "12", "amd64")
  {
    var g := GroupsOf(s, Lengths(1, 3, 2, 5));
    assert g.major == [s[7]] == "3";
    assert g.minor == [s[9], s[10], s[11]] == "9rc";
    assert g.tag == [s[13], s[14]] == "12";
    assert g.arch == [s[22], s[23], s[24], s[25], s[26]] == "amd64";
  }

  /** `python-3.9rc.12-embed-amd64.zip`: the minor group takes `9rc`. */
  lemma LetterMinorArchive()
    ensures Match(LetterMinorName) == Some(Groups("3", "9rc", "12", "amd64"))
  {
    LetterMinorSpelledChars(LetterMinorName);
    LetterMinorLengths(LetterMinorName);
    LetterMinorGroups(LetterMinorName);
  }

  /** A name with only two version parts: the unescaped dots let the minor
      group give back its last digit, so `3.10` is read as minor `1` with an
      empty tag. */
  const TwoPartName: string := "python-3.10-embed-amd64.zip"

  /** `s` is `python-3.10-embed-amd64.zip`, character by character. */
  predicate TwoPartSpelled(s: string)
  {
    && |s| == 27 && s[0] == 'p' && s[1] == 'y' && s[2] == 't' && s[3] == 'h' && s[4] == 'o' && s[5] == 'n' && s[6] == '-'
    && s[7] == '3' && s[8] == '.' && s[9] == '1' && s[10] == '0' && s[11] == '-' && s[12] == 'e' && s[13] == 'm' && s[14] == 'b'
    && s[15] == 'e' && s[16] == 'd' && s[17] == '-' && s[18] == 'a' && s[19] == 'm' && s[20] == 'd' && s[21] == '6' && s[22] == '4'
    && s[23] == '.' && s[24] == 'z' && s[25] == 'i' && s[26] == 'p'
  }

  lemma TwoPartSpelledChars(s: string)
    requires s == TwoPartName
    ensures TwoPartSpelled(s)
  {
    assert s[0] == 'p';
    assert s[10] == '0';
    assert s[20] == 'd';
  }

  lemma TwoPartLengths(s: string)
    requires TwoPartSpelled(s)
    ensures MatchLengths(s) == Some(Lengths(1, 1, 0, 5))
  {
    var x := Lengths(1, 1, 0, 5);
    assert Valid(s, x);
    MatchLengthsGreatest(s, x);
    TwoPartOnly(s, x, MatchLengths(s).value);
  }

  /** No valid way to match the two-part name is later than `x`: a minor of
      `10` would leave the tag to start at `embed`, with no `-embed-` after
      it. */
  lemma TwoPartOnly(s: string, x: Lengths, y: Lengths)
    requires TwoPartSpelled(s) && x == Lengths(1, 1, 0, 5)
    requires Valid(s, x) && Valid(s, y) && LexAtMost(x, y)
    ensures y == x
  {
    DigitRunLongest(s, 7);
    assert DigitRun(s, 7) == 1;
    MinorWithinRun(s, y);
    assert AlnumRun(s, 9, MinorMax) == 2;
    assert y.minor == 1 && y.tag == 0;
    ValidDeterminedByHead(s, x, y);
  }

  lemma TwoPartGroups(s: string)
    requires TwoPartSpelled(s)
    ensures InBounds(s, Lengths(1, 1, 0, 5))
    ensures GroupsOf(s, Lengths(1, 1, 0, 5)) == Groups("3", "1", "", "amd64")
  {
    var g := GroupsOf(s, Lengths(1, 1, 0, 5));
    assert g.major == [s[7]] == "3";
    assert g.minor == [s[9]] == "1";
    assert g.arch == [s[18], s[19], s[20], s[21], s[22]] == "amd64";
  }

  lemma TwoPartArchive()
    ensures Match(TwoPartName) == Some(Groups("3", "1", "", "amd64"))
  {
    TwoPartSpelledChars(TwoPartName);
    TwoPartLengths(TwoPartName);
    TwoPartGroups(TwoPartName);
  }
}
