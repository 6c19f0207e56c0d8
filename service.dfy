/** The service layer: the embedded-Python version record and its names,
    the user site-packages location, `.pth` path normalisation and
    serialisation, the save plan, archive discovery and lookup by name.
    File-system access is replaced by its inputs (directory listings, file
    contents) and outputs (an action plan). */
module Service {
  import opened Wrappers
  import opened Text
  import ArchivePattern

  /** A path as the sequence of its parts; `p / part` appends one. */
  datatype Path = Path(parts: seq<string>)

  function Join(p: Path, part: string): (r: Path)
    ensures r.parts == p.parts + [part]
  {
    Path(p.parts + [part])
  }

  /** `Path.name`: the last part, or "" for the empty path. */
  function Name(p: Path): string
  {
    if |p.parts| == 0 then "" else p.parts[|p.parts| - 1]
  }

  /** A `.pth` file: where it lives and its lines. */
  datatype PythonPathFile = PythonPathFile(path: Path, content: seq<string>)

  predicate IsEmpty(f: PythonPathFile)
  {
    |f.content| == 0
  }

  /** An embedded Python found as an archive; `minor` and `tag` are the
      strings the archive name gives. */
  datatype EmbedPython = EmbedPython(path: Path, major: nat, minor: string, tag: string, architecture: string)

  /** Dataclass equality: `tag` and `architecture` are declared with
      `compare=False`, so only path, major and minor take part. */
  predicate SameEmbed(a: EmbedPython, b: EmbedPython)
  {
    a.path == b.path && a.major == b.major && a.minor == b.minor
  }

  /** Equality is record equality once tag and architecture are forgotten. */
  lemma SameEmbedForgets(a: EmbedPython, b: EmbedPython)
    ensures SameEmbed(a, b) <==> a.(tag := "", architecture := "") == b.(tag := "", architecture := "")
  {
    if a.(tag := "", architecture := "") == b.(tag := "", architecture := "") {
      assert a.(tag := "", architecture := "").path == b.(tag := "", architecture := "").path;
    }
  }

  lemma SameEmbedEquivalence(a: EmbedPython, b: EmbedPython, c: EmbedPython)
    ensures SameEmbed(a, a)
    ensures SameEmbed(a, b) ==> SameEmbed(b, a)
    ensures SameEmbed(a, b) && SameEmbed(b, c) ==> SameEmbed(a, c)
  {
  }

  /** `f"{major}.{minor}"`. */
  function ShortVersion(e: EmbedPython): string
  {
    DecimalString(e.major) + "." + e.minor
  }

  /** `f"{major}.{minor}.{tag}"`. */
  function LongVersion(e: EmbedPython): string
  {
    ShortVersion(e) + "." + e.tag
  }

  /** `f"Python {long_version}"`, the name shown in the version list. */
  function FullName(e: EmbedPython): string
  {
    "Python " + LongVersion(e)
  }

  lemma DecimalStringNoDot(n: nat)
    ensures '.' !in DecimalString(n)
  {
    var d := DecimalString(n);
    forall i | 0 <= i < |d| ensures d[i] != '.' {
      assert IsDigit(d[i]);
    }
  }

  /** The first `.` of the short version ends the major's digits. */
  lemma ShortVersionParts(e: EmbedPython)
    ensures var v := ShortVersion(e);
            var k := IndexOf(v, '.');
            k == |DecimalString(e.major)| < |v| && v[..k] == DecimalString(e.major) && v[k + 1..] == e.minor
  {
    var d := DecimalString(e.major);
    DecimalStringNoDot(e.major);
    IndexOfPrefix(d, "." + e.minor, '.');
    assert ShortVersion(e) == d + ("." + e.minor);
  }

  /** The short version gives back major and minor. */
  lemma ShortVersionInjective(a: EmbedPython, b: EmbedPython)
    requires ShortVersion(a) == ShortVersion(b)
    ensures a.major == b.major && a.minor == b.minor
  {
    ShortVersionParts(a);
    ShortVersionParts(b);
    DecimalStringInjective(a.major, b.major);
  }

  lemma IndexOfPrefix(u: string, v: string, c: char)
    requires c !in u && |v| >= 1 && v[0] == c
    ensures IndexOf(u + v, c) == |u|
  {
    var w := u + v;
    assert w[|u|] == c;
    forall j | 0 <= j < |u| ensures w[j] != c {
      assert w[j] == u[j];
    }
  }

  /** The full name contains the short version, right after `Python `. */
  lemma FullNameContainsShortVersion(e: EmbedPython)
    ensures Contains(FullName(e), ShortVersion(e))
  {
    var f := FullName(e);
    var sv := ShortVersion(e);
    assert f == "Python " + sv + ("." + e.tag);
    assert f[7..7 + |sv|] == sv;
    assert OccursAt(f, sv, 7);
  }

  /** The user site root `USERPROFILE/AppData/Roaming/Python`; an unset
      profile gives the relative path `AppData/Roaming/Python`. */
  function UserSitePath(profile: string): (r: Path)
    ensures |r.parts| >= 3
  {
    Path((if profile == "" then [] else [profile]) + ["AppData", "Roaming", "Python"])
  }

  /** The folder of a version under the user site root: `Python` followed
      by major and minor with nothing in between. */
  function SiteFolder(e: EmbedPython): string
  {
    "Python" + DecimalString(e.major) + e.minor
  }

  /** `user_site_pkg_path`. */
  function UserSitePkgPath(profile: string, e: EmbedPython): (r: Path)
    ensures |r.parts| == |UserSitePath(profile).parts| + 2
    ensures r.parts[..|r.parts| - 2] == UserSitePath(profile).parts
    ensures r.parts[|r.parts| - 2] == SiteFolder(e) && r.parts[|r.parts| - 1] == "site-packages"
  {
    Join(Join(UserSitePath(profile), SiteFolder(e)), "site-packages")
  }

  /** The location depends on major and minor only. */
  lemma UserSitePkgPathVersionOnly(profile: string, a: EmbedPython, b: EmbedPython)
    requires a.major == b.major && a.minor == b.minor
    ensures UserSitePkgPath(profile, a) == UserSitePkgPath(profile, b)
  {
  }

  /** With nothing between major and minor, 3.11 and 31.1 share a folder. */
  lemma UserSitePkgPathShared(profile: string, p: Path)
    ensures UserSitePkgPath(profile, EmbedPython(p, 3, "11", "", ""))
         == UserSitePkgPath(profile, EmbedPython(p, 31, "1", "", ""))
  {
    assert DecimalString(3) == "3";
    assert DecimalString(31) == DecimalString(3) + ['1'];
    assert SiteFolder(EmbedPython(p, 3, "11", "", "")) == "Python311";
    assert SiteFolder(EmbedPython(p, 31, "1", "", "")) == "Python311";
  }

  const WslMount: string := "/mnt/c/"

  /** `_get_path`: a WSL mount prefix becomes the drive `C:/`, then every
      backslash becomes a slash. */
  function GetPath(path: string): (r: string)
    ensures '\\' !in r
    ensures StartsWith(path, WslMount) ==> r == "C:/" + ReplaceChar(path[|WslMount|..], '\\', '/')
    ensures !StartsWith(path, WslMount) ==> |r| == |path|
    ensures !StartsWith(path, WslMount) ==> forall i :: 0 <= i < |path| ==> r[i] == (if path[i] == '\\' then '/' else path[i])
  {
    var rest := if StartsWith(path, WslMount) then "C:/" + path[|WslMount|..] else path;
    ReplaceCharRemoves(rest, '\\', '/');
    if StartsWith(path, WslMount) then
      ReplaceCharConcat("C:/", path[|WslMount|..], '\\', '/');
      ReplaceCharAbsent("C:/", '\\', '/');
      ReplaceChar(rest, '\\', '/')
    else
      ReplaceChar(rest, '\\', '/')
  }

  /** Normalising twice is normalising once exactly when the normalised
      path does not itself begin with the WSL mount. */
  lemma {:induction false} GetPathIdempotent(path: string)
    ensures GetPath(GetPath(path)) == GetPath(path) <==> !StartsWith(GetPath(path), WslMount)
  {
    var once := GetPath(path);
    if StartsWith(once, WslMount) {
      assert |GetPath(once)| == 3 + |once| - 7;
    } else {
      ReplaceCharAbsent(once, '\\', '/');
      forall i | 0 <= i < |once| ensures GetPath(once)[i] == once[i] {
        assert once[i] != '\\' by {
          assert once[i] in once;
        }
      }
    }
  }

  /** Backslashes can produce the WSL mount: `\mnt\c\x` normalises to
      `/mnt/c/x`, and that to `C:/x`. */
  lemma GetPathTwice()
    ensures GetPath("\\mnt\\c\\x") == "/mnt/c/x"
    ensures GetPath("/mnt/c/x") == "C:/x"
  {
    BackslashesMakeMount("\\mnt\\c\\x");
    MountBecomesDrive("/mnt/c/x");
  }

  lemma BackslashesMakeMount(p: string)
    requires p == "\\mnt\\c\\x"
    ensures GetPath(p) == "/mnt/c/x"
  {
    assert p[0] != WslMount[0];
    var r := GetPath(p);
    assert |r| == 8;
    assert r[0] == '/' && r[1] == 'm' && r[2] == 'n' && r[3] == 't';
    assert r[4] == '/' && r[5] == 'c' && r[6] == '/' && r[7] == 'x';
  }

  lemma MountBecomesDrive(p: string)
    requires p == "/mnt/c/x"
    ensures GetPath(p) == "C:/x"
  {
    assert StartsWith(p, WslMount);
    var rest := p[|WslMount|..];
    assert rest == "x";
    ReplaceCharAbsent(rest, '\\', '/');
    assert GetPath(p) == "C:/" + rest;
  }

  /** Normalisation neither adds nor removes newlines. */
  lemma GetPathNewlines(path: string)
    requires '\n' !in path
    ensures '\n' !in GetPath(path)
  {
    var r := GetPath(path);
    if StartsWith(path, WslMount) {
      var rest := path[|WslMount|..];
      var t := ReplaceChar(rest, '\\', '/');
      forall i | 0 <= i < |r| ensures r[i] != '\n' {
        if i >= 3 {
          assert r[i] == t[i - 3];
          assert rest[i - 3] == path[i - 3 + 7];
          assert path[i - 3 + 7] in path;
        }
      }
    } else {
      forall i | 0 <= i < |r| ensures r[i] != '\n' {
        assert path[i] in path;
      }
    }
  }

  /** The lines `write_path_file` writes: each one normalised. */
  function NormalisedLines(lines: seq<string>): seq<string>
  {
    seq(|lines|, i requires 0 <= i < |lines| => GetPath(lines[i]))
  }

  /** The text `write_path_file` writes: the normalised lines joined by
      newlines, with no newline after the last one. */
  function WriteContent(f: PythonPathFile): string
  {
    JoinWith(NormalisedLines(f.content), '\n')
  }

  /** Reading back what was written gives the normalised lines, provided
      there is a line and no line holds a newline. */
  lemma WriteContentRoundTrip(f: PythonPathFile)
    requires |f.content| >= 1
    requires forall i :: 0 <= i < |f.content| ==> '\n' !in f.content[i]
    ensures SplitOn(WriteContent(f), '\n') == NormalisedLines(f.content)
  {
    var lines := NormalisedLines(f.content);
    forall k | 0 <= k < |lines| ensures '\n' !in lines[k] {
      GetPathNewlines(f.content[k]);
    }
    SplitJoin(lines, '\n');
  }

  /** The last line written is the normalised last line: nothing follows it. */
  lemma {:induction false} WriteContentEnds(f: PythonPathFile)
    requires |f.content| >= 1
    ensures var w := WriteContent(f);
            var last := GetPath(f.content[|f.content| - 1]);
            |last| <= |w| && w[|w| - |last|..] == last
  {
    var lines := NormalisedLines(f.content);
    var last := lines[|lines| - 1];
    if |lines| > 1 {
      assert JoinWith(lines, '\n') == JoinWith(lines[..|lines| - 1], '\n') + ['\n'] + last;
    }
  }

  /** What saving does to one file. */
  datatype Action = Delete(path: Path) | Write(path: Path, data: string)

  /** `save_site_package` for one file: an empty file is removed, any other
      is written. */
  function ActionFor(f: PythonPathFile): (a: Action)
    ensures a.path == f.path
    ensures a.Delete? <==> IsEmpty(f)
    ensures a.Write? ==> a.data == WriteContent(f)
  {
    if IsEmpty(f) then Delete(f.path) else Write(f.path, WriteContent(f))
  }

  /** `save_site_package`: one action per path file, in order. */
  method SaveSitePackage(files: seq<PythonPathFile>) returns (plan: seq<Action>)
    ensures |plan| == |files|
    ensures forall i :: 0 <= i < |files| ==> plan[i] == ActionFor(files[i])
  {
    plan := [];
    var i := 0;
    while i < |files|
      invariant 0 <= i <= |files|
      invariant |plan| == i
      invariant forall j :: 0 <= j < i ==> plan[j] == ActionFor(files[j])
    {
      plan := plan + [ActionFor(files[i])];
      i := i + 1;
    }
  }

  /** The version an archive's name describes, if it matches the pattern.
      `int(...)` reads the major digits, so leading zeros go. */
  function EmbedFrom(path: Path): (r: Option<EmbedPython>)
    ensures r.Some? <==> ArchivePattern.Match(Name(path)).Some?
    ensures r.Some? ==> r.value.path == path
  {
    match ArchivePattern.Match(Name(path))
    case None => None
    case Some(g) => Some(EmbedPython(path, ParseDecimal(g.major), g.minor, g.tag, g.arch))
  }

  /** The results of `parse` over `xs` that are present, in order. */
  function FilterMap<A, B>(parse: A -> Option<B>, xs: seq<A>): (r: seq<B>)
    ensures |r| <= |xs|
  {
    if xs == [] then []
    else
      var rest := FilterMap(parse, xs[..|xs| - 1]);
      match parse(xs[|xs| - 1])
      case None => rest
      case Some(y) => rest + [y]
  }

  /** A value is kept exactly when some element parses to it. */
  lemma {:induction false} FilterMapMembers<A, B>(parse: A -> Option<B>, xs: seq<A>, y: B)
    ensures y in FilterMap(parse, xs) <==> exists i :: 0 <= i < |xs| && parse(xs[i]) == Some(y)
  {
    if xs != [] {
      var init := xs[..|xs| - 1];
      FilterMapMembers(parse, init, y);
      if exists i :: 0 <= i < |init| && parse(init[i]) == Some(y) {
        var i :| 0 <= i < |init| && parse(init[i]) == Some(y);
        assert xs[i] == init[i];
      }
      if exists i :: 0 <= i < |xs| && parse(xs[i]) == Some(y) {
        var i :| 0 <= i < |xs| && parse(xs[i]) == Some(y);
        if i < |init| {
          assert init[i] == xs[i];
        }
      }
    }
  }

  /** Filtering keeps order: what a concatenation keeps is what each part keeps. */
  lemma {:induction false} FilterMapAppend<A, B>(parse: A -> Option<B>, a: seq<A>, b: seq<A>)
    ensures FilterMap(parse, a + b) == FilterMap(parse, a) + FilterMap(parse, b)
    decreases |b|
  {
    if b == [] {
      assert a + b == a;
    } else {
      var init := b[..|b| - 1];
      assert (a + b)[..|a + b| - 1] == a + init;
      assert (a + b)[|a + b| - 1] == b[|b| - 1];
      FilterMapAppend(parse, a, init);
    }
  }

  /** The versions the archives of a listing describe, in listing order. */
  function Discovered(listing: seq<Path>): seq<EmbedPython>
  {
    FilterMap(EmbedFrom, listing)
  }

  /** A version is discovered exactly when some archive of the listing
      describes it. */
  lemma DiscoveredMembers(listing: seq<Path>, e: EmbedPython)
    ensures e in Discovered(listing) <==> exists i :: 0 <= i < |listing| && EmbedFrom(listing[i]) == Some(e)
  {
    FilterMapMembers(EmbedFrom, listing, e);
  }

  /** `embed_versions`: the listing filtered and parsed, in order. */
  method EmbedVersions(listing: seq<Path>) returns (versions: seq<EmbedPython>)
    ensures versions == Discovered(listing)
  {
    versions := [];
    var i := 0;
    while i < |listing|
      invariant 0 <= i <= |listing|
      invariant versions == Discovered(listing[..i])
    {
      assert listing[..i + 1][..i] == listing[..i];
      var found := EmbedFrom(listing[i]);
      assert Discovered(listing[..i + 1]) == FilterMap(EmbedFrom, listing[..i + 1]);
      if found.Some? {
        versions := versions + [found.value];
      }
      i := i + 1;
    }
    assert listing[..i] == listing;
  }

  /** `_is_embed_python`: the short version occurs in the name. */
  predicate IsEmbedPython(name: string, e: EmbedPython)
  {
    Contains(name, ShortVersion(e))
  }

  /** The first version, in order, whose short version occurs in the name. */
  function FirstMatch(name: string, versions: seq<EmbedPython>): (r: Option<EmbedPython>)
    ensures r.Some? ==> r.value in versions && IsEmbedPython(name, r.value)
    ensures r.None? <==> forall i :: 0 <= i < |versions| ==> !IsEmbedPython(name, versions[i])
  {
    if versions == [] then None
    else if IsEmbedPython(name, versions[0]) then Some(versions[0])
    else
      var r := FirstMatch(name, versions[1..]);
      assert forall i :: 1 <= i < |versions| ==> versions[i] == versions[1..][i - 1];
      r
  }

  /** No earlier version matches the name than the one found. */
  lemma {:induction false} FirstMatchIsFirst(name: string, versions: seq<EmbedPython>)
    requires FirstMatch(name, versions).Some?
    ensures exists i :: 0 <= i < |versions| && versions[i] == FirstMatch(name, versions).value
                        && forall j :: 0 <= j < i ==> !IsEmbedPython(name, versions[j])
  {
    if !IsEmbedPython(name, versions[0]) {
      FirstMatchIsFirst(name, versions[1..]);
      var i :| 0 <= i < |versions[1..]| && versions[1..][i] == FirstMatch(name, versions[1..]).value
               && forall j :: 0 <= j < i ==> !IsEmbedPython(name, versions[1..][j]);
      assert versions[i + 1] == FirstMatch(name, versions).value;
      forall j | 0 <= j < i + 1 ensures !IsEmbedPython(name, versions[j]) {
        if j > 0 {
          assert versions[j] == versions[1..][j - 1];
        }
      }
    } else {
      assert versions[0] == FirstMatch(name, versions).value;
    }
  }

  /** A listed version's own full name always resolves, though not
      necessarily to that version. */
  lemma FullNameResolves(e: EmbedPython, versions: seq<EmbedPython>)
    requires e in versions
    ensures FirstMatch(FullName(e), versions).Some?
  {
    FullNameContainsShortVersion(e);
  }

  /** The short version of 3.1 occurs in `Python 3.10.2`, so 3.1 listed
      first captures the full name of 3.10. */
  lemma FullNameCapturedByPrefix(p: Path, q: Path)
    ensures var v31 := EmbedPython(p, 3, "1", "0", "amd64");
            var v310 := EmbedPython(q, 3, "10", "2", "amd64");
            FirstMatch(FullName(v310), [v31, v310]) == Some(v31)
  {
    var v31 := EmbedPython(p, 3, "1", "0", "amd64");
    var v310 := EmbedPython(q, 3, "10", "2", "amd64");
    assert DecimalString(3) == "3";
    assert ShortVersion(v31) == "3.1";
    var f := FullName(v310);
    assert f == "Python 3.10.2";
    assert f[7..10] == "3.1";
    assert OccursAt(f, ShortVersion(v31), 7);
  }

  /** The lookup as evidently intended: the first version whose full name
      is the name chosen in the version list. */
  function FirstNamed(name: string, versions: seq<EmbedPython>): (r: Option<EmbedPython>)
    ensures r.Some? ==> r.value in versions && FullName(r.value) == name
    ensures r.None? <==> forall i :: 0 <= i < |versions| ==> FullName(versions[i]) != name
  {
    if versions == [] then None
    else if FullName(versions[0]) == name then Some(versions[0])
    else
      var r := FirstNamed(name, versions[1..]);
      assert forall i :: 1 <= i < |versions| ==> versions[i] == versions[1..][i - 1];
      r
  }

  /** With a minor free of dots, the long version gives back major, minor
      and tag. */
  lemma LongVersionInjective(a: EmbedPython, b: EmbedPython)
    requires '.' !in a.minor && '.' !in b.minor
    requires LongVersion(a) == LongVersion(b)
    ensures a.major == b.major && a.minor == b.minor && a.tag == b.tag
  {
    var da, db := DecimalString(a.major), DecimalString(b.major);
    var ra, rb := a.minor + "." + a.tag, b.minor + "." + b.tag;
    DecimalStringNoDot(a.major);
    DecimalStringNoDot(b.major);
    assert LongVersion(a) == da + "." + ra;
    assert LongVersion(b) == db + "." + rb;
    SplitAtFirst(da, ra, db, rb, '.');
    DecimalStringInjective(a.major, b.major);
    SplitAtFirst(a.minor, a.tag, b.minor, b.tag, '.');
  }

  /** A string cut at the first occurrence of `c`: both sides are determined. */
  lemma SplitAtFirst(u1: string, v1: string, u2: string, v2: string, c: char)
    requires c !in u1 && c !in u2
    requires u1 + [c] + v1 == u2 + [c] + v2
    ensures u1 == u2 && v1 == v2
  {
    var w := u1 + [c] + v1;
    IndexOfPrefix(u1, [c] + v1, c);
    IndexOfPrefix(u2, [c] + v2, c);
    assert w == u1 + ([c] + v1) == u2 + ([c] + v2);
    assert u1 == w[..|u1|] && u2 == w[..|u2|];
    assert v1 == w[|u1| + 1..] && v2 == w[|u2| + 1..];
  }

  /** Every discovered minor is alphanumeric, so it holds no dot. */
  lemma DiscoveredDotFree(listing: seq<Path>, e: EmbedPython)
    requires e in Discovered(listing)
    ensures '.' !in e.minor
  {
    DiscoveredMembers(listing, e);
    var i :| 0 <= i < |listing| && EmbedFrom(listing[i]) == Some(e);
    var g := ArchivePattern.Match(Name(listing[i])).value;
    assert e.minor == g.minor;
    forall k | 0 <= k < |e.minor| ensures e.minor[k] != '.' {
      assert ArchivePattern.IsAlnum(g.minor[k]);
    }
  }

  /** The corrected lookup finds, for the full name of any discovered
      version, a version with the same major, minor and tag. */
  lemma FirstNamedFindsListed(listing: seq<Path>, e: EmbedPython)
    requires e in Discovered(listing)
    ensures var r := FirstNamed(FullName(e), Discovered(listing));
            r.Some? && r.value.major == e.major && r.value.minor == e.minor && r.value.tag == e.tag
  {
    var vs := Discovered(listing);
    var i :| 0 <= i < |vs| && vs[i] == e;
    var r := FirstNamed(FullName(e), vs);
    assert r.Some?;
    DiscoveredDotFree(listing, e);
    DiscoveredDotFree(listing, r.value);
    assert LongVersion(r.value) == FullName(r.value)[7..];
    assert LongVersion(e) == FullName(e)[7..];
    LongVersionInjective(r.value, e);
  }

  /** Where the substring lookup picks 3.1, the corrected one picks 3.10. */
  lemma FirstNamedKeepsPrefixApart(p: Path, q: Path)
    ensures var v31 := EmbedPython(p, 3, "1", "0", "amd64");
            var v310 := EmbedPython(q, 3, "10", "2", "amd64");
            FirstNamed(FullName(v310), [v31, v310]) == Some(v310)
  {
    var v31 := EmbedPython(p, 3, "1", "0", "amd64");
    var v310 := EmbedPython(q, 3, "10", "2", "amd64");
    assert DecimalString(3) == "3";
    assert |FullName(v31)| == 12 && |FullName(v310)| == 13;
  }

  /** `embed_python_by`: scan the discovered versions, stop at the first
      whose short version occurs in the name. */
  method EmbedPythonBy(name: string, listing: seq<Path>) returns (r: Option<EmbedPython>)
    ensures r == FirstMatch(name, Discovered(listing))
  {
    var versions := EmbedVersions(listing);
    var i := 0;
    while i < |versions|
      invariant 0 <= i <= |versions|
      invariant FirstMatch(name, versions) == FirstMatch(name, versions[i..])
    {
      if IsEmbedPython(name, versions[i]) {
        return Some(versions[i]);
      }
      assert versions[i..][1..] == versions[i + 1..];
      i := i + 1;
    }
    return None;
  }

  /** Characters `str.strip()` removes: the characters Python reports as
      whitespace. */
  predicate IsSpace(c: char)
  {
    || c == ' ' || ('\t' <= c <= '\r') || ('\U{1c}' <= c <= '\U{1f}')
    || c == '\U{85}' || c == '\U{a0}' || c == '\U{1680}' || ('\U{2000}' <= c <= '\U{200a}')
    || c == '\U{2028}' || c == '\U{2029}' || c == '\U{202f}' || c == '\U{205f}' || c == '\U{3000}'
  }

  /** `len(name.strip()) == 0`. */
  predicate IsBlank(name: string)
  {
    forall i :: 0 <= i < |name| ==> IsSpace(name[i])
  }

  /** `PythonConfigService.embed_python_by`: a missing or blank name finds
      nothing without scanning. */
  method ServiceEmbedPythonBy(name: Option<string>, listing: seq<Path>) returns (r: Option<EmbedPython>)
    ensures name.None? || IsBlank(name.value) ==> r.None?
    ensures name.Some? && !IsBlank(name.value) ==> r == FirstMatch(name.value, Discovered(listing))
  {
    if name.None? || IsBlank(name.value) {
      return None;
    }
    r := EmbedPythonBy(name.value, listing);
  }
}
