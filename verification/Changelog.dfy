/** The changelog scanner: a flag-driven line machine refining a declarative description of the
    unreleased section. A line holding only "## " and blanks makes the scanner panic. */
module Changelog {
  import opened Domain

  datatype Summary = Summary(unreleasedBullets: nat, unreleasedIsFirst: bool, latestVersion: string)

  /** What one line is to the scanner. BlankHeading is the line on which heading[3:] is out of range. */
  datatype LineKind = VersionHeading(version: string) | OtherHeading | BlankHeading | Bullet | Prose {
    predicate IsH2() {
      VersionHeading? || OtherHeading? || BlankHeading?
    }
  }

  const H2: string := "## "

  /** strings.TrimRight(line, " \t") */
  function TrimRightBlanks(s: string): (t: string)
    ensures t <= s
    ensures forall i | |t| <= i < |s| :: s[i] == ' ' || s[i] == '\t'
    ensures t == "" || (t[|t| - 1] != ' ' && t[|t| - 1] != '\t')
  {
    if s != "" && (s[|s| - 1] == ' ' || s[|s| - 1] == '\t') then TrimRightBlanks(s[..|s| - 1]) else s
  }

  predicate IsDigit(c: char) {
    '0' <= c <= '9'
  }

  predicate IsNumber(s: string) {
    s != "" && forall c | c in s :: '0' <= c <= '9'
  }

  /** Number of leading digits. */
  function Digits(s: string): (n: nat)
    ensures n <= |s| && forall i | 0 <= i < n :: IsDigit(s[i])
    ensures n < |s| ==> !IsDigit(s[n])
  {
    if s == "" || !IsDigit(s[0]) then 0 else 1 + Digits(s[1..])
  }

  /** Digit-by-digit reading of ^v?\d+\.\d+\.\d+$ */
  predicate MatchesVersion(s: string) {
    MatchesMajor(if s != "" && s[0] == 'v' then s[1..] else s)
  }

  predicate MatchesMajor(s: string) {
    var i := Digits(s);
    0 < i < |s| && s[i] == '.' && MatchesMinor(s[i + 1..])
  }

  predicate MatchesMinor(s: string) {
    var i := Digits(s);
    0 < i < |s| && s[i] == '.' && s[i + 1..] != "" && Digits(s[i + 1..]) == |s| - i - 1
  }

  /** The version pattern read as a set of texts. */
  ghost predicate IsVersionText(s: string) {
    exists prefix: string, major: string, minor: string, patch: string ::
      IsVersionOf(s, prefix, major, minor, patch)
  }

  predicate IsVersionOf(s: string, prefix: string, major: string, minor: string, patch: string) {
    && (prefix == "" || prefix == "v")
    && IsNumber(major) && IsNumber(minor) && IsNumber(patch)
    && s == prefix + (major + "." + (minor + "." + patch))
  }

  /** isVersionHeader on a trimmed heading, together with the panic on a heading shorter than its prefix. */
  function HeadingKind(heading: string): LineKind {
    if |heading| < 3 then BlankHeading
    else if MatchesVersion(heading[3..]) then VersionHeading(heading[3..])
    else OtherHeading
  }

  function Kind(line: string): LineKind {
    if H2 <= line then HeadingKind(TrimRightBlanks(line))
    else if "- " <= line then Bullet
    else Prose
  }

  /** The kinds of a changelog's lines. */
  ghost function Kinds(lines: seq<string>): (ks: seq<LineKind>)
    ensures |ks| == |lines|
  {
    if lines == [] then [] else Kinds(lines[..|lines| - 1]) + [Kind(lines[|lines| - 1])]
  }

  lemma {:induction false} KindsAt(lines: seq<string>, i: nat)
    requires i < |lines|
    ensures Kinds(lines)[i] == Kind(lines[i])
  {
    if i < |lines| - 1 {
      KindsAt(lines[..|lines| - 1], i);
    }
  }

  // ---- The declarative reading ----

  /** Line h is the heading that opens the unreleased section. */
  ghost predicate OpensUnreleased(ks: seq<LineKind>, h: int) {
    && 0 <= h < |ks|
    && ks[h].OtherHeading?
    && forall j | 0 <= j < h :: !ks[j].OtherHeading?
  }

  /** Line i lies strictly between the opening heading and the next H2. */
  ghost predicate InSection(ks: seq<LineKind>, i: int) {
    && 0 <= i < |ks|
    && exists h :: h < i && OpensUnreleased(ks, h) && forall j | h < j <= i :: !ks[j].IsH2()
  }

  ghost function SectionBullets(ks: seq<LineKind>): set<int> {
    set i | 0 <= i < |ks| && ks[i].Bullet? && InSection(ks, i)
  }

  /** Line i is the first H2 of all. */
  ghost predicate IsFirstH2(ks: seq<LineKind>, i: int) {
    && 0 <= i < |ks|
    && ks[i].IsH2()
    && forall j | 0 <= j < i :: !ks[j].IsH2()
  }

  ghost predicate FirstH2IsOther(ks: seq<LineKind>) {
    exists i :: IsFirstH2(ks, i) && ks[i].OtherHeading?
  }

  /** Line i is the first version heading. */
  ghost predicate IsFirstVersion(ks: seq<LineKind>, i: int) {
    && 0 <= i < |ks|
    && ks[i].VersionHeading?
    && forall j | 0 <= j < i :: !ks[j].VersionHeading?
  }

  ghost function LatestVersion(ks: seq<LineKind>): string {
    if i :| IsFirstVersion(ks, i) then ks[i].version else ""
  }

  ghost function Summarize(ks: seq<LineKind>): Option<Summary> {
    if exists i :: 0 <= i < |ks| && ks[i].BlankHeading? then None
    else Some(Summary(|SectionBullets(ks)|, FirstH2IsOther(ks), LatestVersion(ks)))
  }

  /** The summary of a changelog, or None when scanning it panics. */
  ghost function Parse(lines: seq<string>): Option<Summary> {
    Summarize(Kinds(lines))
  }

  // ---- The scanner ----

  /** The scanner's flags and counters. */
  datatype Flags = Flags(inUnreleased: bool, seenAnyH2: bool, sectionOpened: bool, isFirst: bool, bullets: nat,
                         latest: string)

  /** What the flags mean after n lines. */
  ghost predicate Scanned(ks: seq<LineKind>, n: nat, f: Flags)
    requires n <= |ks|
  {
    && (forall i | 0 <= i < n :: !ks[i].BlankHeading?)
    && (f.seenAnyH2 <==> exists i :: 0 <= i < n && ks[i].IsH2())
    && (f.sectionOpened <==> exists i :: 0 <= i < n && ks[i].OtherHeading?)
    && (f.inUnreleased <==> n > 0 && (InSection(ks, n - 1) || OpensUnreleased(ks, n - 1)))
    && (f.isFirst <==> FirstH2IsOther(ks[..n]))
    && f.bullets == |BulletsBefore(ks, n)|
    && f.latest == LatestVersion(ks[..n])
    && (f.latest == "" <==> !exists i :: 0 <= i < n && ks[i].VersionHeading?)
  }

  /** ParseChangelog from the already split lines; None is the index-out-of-range panic. */
  method ParseChangelog(lines: seq<string>) returns (r: Option<Summary>)
    ensures r == Parse(lines)
  {
    hide Scanned, MatchesVersion, Summarize;
    var inUnreleased, seenAnyH2, unreleasedOpened, unreleasedIsFirstH2 := false, false, false, false;
    var unreleasedBullets := 0;
    var latestVersion := "";
    ghost var ks := Kinds(lines);
    ScanStart(ks);
    for n := 0 to |lines|
      invariant Scanned(ks, n, Flags(inUnreleased, seenAnyH2, unreleasedOpened, unreleasedIsFirstH2, unreleasedBullets,
                                     latestVersion))
    {
      var line := lines[n];
      KindsAt(lines, n);
      ScanStep(ks, n, Flags(inUnreleased, seenAnyH2, unreleasedOpened, unreleasedIsFirstH2, unreleasedBullets,
                            latestVersion));
      if !(H2 <= line) {
        if inUnreleased && "- " <= line {
          unreleasedBullets := unreleasedBullets + 1;
        }
        continue;
      }
      var heading := TrimRightBlanks(line);
      var isFirstH2 := !seenAnyH2;
      seenAnyH2 := true;
      if |heading| < 3 {
        return None;
      }
      if MatchesVersion(heading[3..]) {
        if latestVersion == "" {
          latestVersion := heading[3..];
        }
        inUnreleased := false;
        continue;
      }
      if !unreleasedOpened {
        if isFirstH2 {
          unreleasedIsFirstH2 := true;
        }
        inUnreleased := true;
        unreleasedOpened := true;
      } else {
        inUnreleased := false;
      }
    }
    ScanEnd(ks, Flags(inUnreleased, seenAnyH2, unreleasedOpened, unreleasedIsFirstH2, unreleasedBullets,
                      latestVersion));
    return Some(Summary(unreleasedBullets, unreleasedIsFirstH2, latestVersion));
  }

  /** The flags after one more line. */
  function Advance(f: Flags, k: LineKind): Flags {
    match k
    case Prose => f
    case Bullet => if f.inUnreleased then f.(bullets := f.bullets + 1) else f
    case BlankHeading => f
    case VersionHeading(v) =>
      f.(seenAnyH2 := true, inUnreleased := false, latest := if f.latest == "" then v else f.latest)
    case OtherHeading =>
      if f.sectionOpened then f.(seenAnyH2 := true, inUnreleased := false)
      else f.(seenAnyH2 := true, inUnreleased := true, sectionOpened := true, isFirst := f.isFirst || !f.seenAnyH2)
  }

  lemma ScanStart(ks: seq<LineKind>)
    ensures Scanned(ks, 0, Flags(false, false, false, false, 0, ""))
  {
    assert BulletsBefore(ks, 0) == {};
  }

  lemma ScanStep(ks: seq<LineKind>, n: nat, f: Flags)
    requires n < |ks| && Scanned(ks, n, f)
    requires ks[n].VersionHeading? ==> ks[n].version != ""
    ensures ks[n].BlankHeading? ==> Summarize(ks) == None
    ensures !ks[n].BlankHeading? ==> Scanned(ks, n + 1, Advance(f, ks[n]))
  {
    SectionStep(ks, n);
    BulletStep(ks, n);
    FirstH2Step(ks, n);
    LatestStep(ks, n);
  }

  lemma ScanEnd(ks: seq<LineKind>, f: Flags)
    requires Scanned(ks, |ks|, f)
    ensures Summarize(ks) == Some(Summary(f.bullets, f.isFirst, f.latest))
  {
    assert ks[..|ks|] == ks;
    assert BulletsBefore(ks, |ks|) == SectionBullets(ks);
  }

  ghost function BulletsBefore(ks: seq<LineKind>, n: nat): set<int>
    requires n <= |ks|
  {
    set i | 0 <= i < n && ks[i].Bullet? && InSection(ks, i)
  }

  lemma SectionStep(ks: seq<LineKind>, n: nat)
    requires n < |ks|
    ensures InSection(ks, n) <==>
            !ks[n].IsH2() && n > 0 && (InSection(ks, n - 1) || OpensUnreleased(ks, n - 1))
  {
    if InSection(ks, n) {
      var h :| h < n && OpensUnreleased(ks, h) && forall j | h < j <= n :: !ks[j].IsH2();
      if h < n - 1 {
        assert InSection(ks, n - 1);
      }
    }
    if n > 0 && !ks[n].IsH2() && InSection(ks, n - 1) {
      var h :| h < n - 1 && OpensUnreleased(ks, h) && forall j | h < j <= n - 1 :: !ks[j].IsH2();
      assert forall j | h < j <= n :: !ks[j].IsH2();
    }
  }

  lemma BulletStep(ks: seq<LineKind>, n: nat)
    requires n < |ks|
    ensures |BulletsBefore(ks, n + 1)| ==
            |BulletsBefore(ks, n)| + if ks[n].Bullet? && InSection(ks, n) then 1 else 0
  {
    hide InSection;
    var before := BulletsBefore(ks, n);
    if ks[n].Bullet? && InSection(ks, n) {
      assert BulletsBefore(ks, n + 1) == before + {n};
    } else {
      assert BulletsBefore(ks, n + 1) == before;
    }
  }

  lemma FirstH2Step(ks: seq<LineKind>, n: nat)
    requires n < |ks|
    ensures FirstH2IsOther(ks[..n + 1]) <==>
            || FirstH2IsOther(ks[..n])
            || (ks[n].OtherHeading? && !exists i :: 0 <= i < n && ks[i].IsH2())
  {
    var long, short := ks[..n + 1], ks[..n];
    if FirstH2IsOther(long) {
      var i :| IsFirstH2(long, i) && long[i].OtherHeading?;
      if i < n {
        assert IsFirstH2(short, i);
      }
    }
    if FirstH2IsOther(short) {
      var i :| IsFirstH2(short, i) && short[i].OtherHeading?;
      assert IsFirstH2(long, i);
    }
    if ks[n].OtherHeading? && !exists i :: 0 <= i < n && ks[i].IsH2() {
      assert IsFirstH2(long, n);
    }
  }

  lemma FirstVersion(ks: seq<LineKind>, k: nat) returns (i: int)
    requires k < |ks| && ks[k].VersionHeading?
    ensures 0 <= i <= k && IsFirstVersion(ks, i) && LatestVersion(ks) == ks[i].version
  {
    i := 0;
    while !ks[i].VersionHeading?
      invariant 0 <= i <= k
      invariant forall j | 0 <= j < i :: !ks[j].VersionHeading?
      decreases k - i
    {
      i := i + 1;
    }
    assert IsFirstVersion(ks, i);
    forall other | IsFirstVersion(ks, other)
      ensures other == i
    {
    }
  }

  lemma LatestStep(ks: seq<LineKind>, n: nat)
    requires n < |ks|
    ensures LatestVersion(ks[..n + 1]) ==
            if (exists i :: 0 <= i < n && ks[i].VersionHeading?) then LatestVersion(ks[..n])
            else if ks[n].VersionHeading? then ks[n].version
            else ""
  {
    var long, short := ks[..n + 1], ks[..n];
    if k :| 0 <= k < n && ks[k].VersionHeading? {
      var i := FirstVersion(short, k);
      assert IsFirstVersion(long, i);
    } else if ks[n].VersionHeading? {
      assert IsFirstVersion(long, n);
    }
  }

  // ---- Properties of the parse ----

  ghost predicate IsBlankHeading(line: string) {
    H2 <= line && forall j | 3 <= j < |line| :: line[j] == ' ' || line[j] == '\t'
  }

  lemma BlankHeadingExact(line: string)
    ensures Kind(line).BlankHeading? <==> IsBlankHeading(line)
  {
    if H2 <= line {
      var t := TrimRightBlanks(line);
      assert line[0] == '#' && line[1] == '#' && line[2] == ' ';
      if |t| >= 3 {
        var k := |t| - 1;
        assert t[k] == line[k];
        assert k != 2;
      }
    }
  }

  /** The scanner is total exactly when no line is "## " followed only by blanks. */
  lemma TotalExactly(lines: seq<string>)
    ensures Parse(lines).Some? <==> forall i | 0 <= i < |lines| :: !IsBlankHeading(lines[i])
  {
    var ks := Kinds(lines);
    forall i | 0 <= i < |lines|
      ensures ks[i].BlankHeading? <==> IsBlankHeading(lines[i])
    {
      KindsAt(lines, i);
      BlankHeadingExact(lines[i]);
    }
  }

  lemma NumberEnds(s: string, n: string, rest: string)
    requires IsNumber(n) && s == n + rest && (rest == "" || !IsDigit(rest[0]))
    ensures Digits(s) == |n|
  {
    assert forall i | 0 <= i < |n| :: s[i] == n[i] && s[i] in n;
    assert rest != "" ==> s[|n|] == rest[0];
  }

  lemma MinorComposes(minor: string, patch: string)
    requires IsNumber(minor) && IsNumber(patch)
    ensures MatchesMinor(minor + "." + patch)
  {
    var s := minor + "." + patch;
    assert s == minor + ("." + patch);
    NumberEnds(s, minor, "." + patch);
    assert s[|minor| + 1..] == patch;
    NumberEnds(patch, patch, "");
  }

  lemma MajorComposes(major: string, rest: string)
    requires IsNumber(major) && MatchesMinor(rest)
    ensures MatchesMajor(major + "." + rest)
  {
    var s := major + "." + rest;
    assert s == major + ("." + rest);
    NumberEnds(s, major, "." + rest);
    assert s[|major| + 1..] == rest;
  }

  lemma VersionComposes(s: string, prefix: string, major: string, minor: string, patch: string)
    requires IsVersionOf(s, prefix, major, minor, patch)
    ensures MatchesVersion(s)
  {
    MinorComposes(minor, patch);
    var a := major + "." + (minor + "." + patch);
    MajorComposes(major, minor + "." + patch);
    assert a[0] == major[0] && major[0] in major;
    assert (if s[0] == 'v' then s[1..] else s) == a;
  }

  lemma MinorDecomposes(s: string) returns (minor: string, patch: string)
    requires MatchesMinor(s)
    ensures IsNumber(minor) && IsNumber(patch) && s == minor + "." + patch
  {
    var i := Digits(s);
    minor, patch := s[..i], s[i + 1..];
  }

  lemma MajorDecomposes(s: string) returns (major: string, minor: string, patch: string)
    requires MatchesMajor(s)
    ensures IsNumber(major) && IsNumber(minor) && IsNumber(patch)
    ensures s == major + "." + (minor + "." + patch)
  {
    var i := Digits(s);
    major := s[..i];
    var rest := s[i + 1..];
    assert s == major + "." + rest;
    minor, patch := MinorDecomposes(rest);
  }

  lemma VersionDecomposes(s: string) returns (prefix: string, major: string, minor: string, patch: string)
    requires MatchesVersion(s)
    ensures IsVersionOf(s, prefix, major, minor, patch)
  {
    if s[0] == 'v' {
      prefix := "v";
      assert s == prefix + s[1..];
      major, minor, patch := MajorDecomposes(s[1..]);
    } else {
      prefix := "";
      assert s == prefix + s;
      major, minor, patch := MajorDecomposes(s);
    }
  }

  /** The matcher accepts exactly the texts of the version pattern. */
  lemma MatcherAgrees(s: string)
    ensures MatchesVersion(s) <==> IsVersionText(s)
  {
    if MatchesVersion(s) {
      var prefix, major, minor, patch := VersionDecomposes(s);
    } else if IsVersionText(s) {
      var prefix, major, minor, patch :| IsVersionOf(s, prefix, major, minor, patch);
      VersionComposes(s, prefix, major, minor, patch);
    }
  }

  lemma VersionEndsInDigit(v: string)
    requires MatchesVersion(v)
    ensures v != "" && IsDigit(v[|v| - 1])
  {
    var prefix, major, minor, patch := VersionDecomposes(v);
    assert v[|v| - 1] == patch[|patch| - 1];
    assert patch[|patch| - 1] in patch;
  }

  /** A written version heading is read back as that version. */
  lemma VersionHeadingReadsBack(v: string)
    requires MatchesVersion(v)
    ensures Kind(H2 + v) == VersionHeading(v)
  {
    hide MatchesVersion;
    VersionEndsInDigit(v);
    var line := H2 + v;
    assert line[|line| - 1] == v[|v| - 1];
    assert line[3..] == v;
  }

  /** A changelog with one unreleased bullet. */
  const ONE_BULLET: seq<string> := ["## Next", "- x"]

  lemma OneBulletKinds()
    ensures Kinds(ONE_BULLET) == [OtherHeading, Bullet]
  {
    hide Kind;
    OneBulletLines();
    KindsAt(ONE_BULLET, 0);
    KindsAt(ONE_BULLET, 1);
  }

  lemma OneBulletLines()
    ensures Kind("## Next") == OtherHeading && Kind("- x") == Bullet
  {
    assert TrimRightBlanks("## Next") == "## Next";
    assert "## Next"[3..] == "Next";
    assert Digits("Next") == 0;
  }

  lemma OneBulletParses()
    ensures Parse(ONE_BULLET) == Some(Summary(1, true, ""))
  {
    hide Kinds;
    OneBulletKinds();
    var ks := [OtherHeading, Bullet];
    assert OpensUnreleased(ks, 0) && InSection(ks, 1);
    assert SectionBullets(ks) == {1};
    assert IsFirstH2(ks, 0);
  }

  /** Cutting a release: turning the only non-version heading into a version heading leaves no
      unreleased bullet, and the new version is the latest unless an older heading stood before it. */
  lemma CutRelease(lines: seq<string>, h: nat, v: string)
    requires Parse(lines).Some? && MatchesVersion(v)
    requires h < |lines| && Kind(lines[h]).OtherHeading?
    requires forall i | 0 <= i < |lines| && i != h :: !Kind(lines[i]).OtherHeading?
    ensures var cut := Parse(lines[h := H2 + v]);
            && cut.Some? && cut.value.unreleasedBullets == 0 && !cut.value.unreleasedIsFirst
            && cut.value.latestVersion ==
               if exists i | 0 <= i < h :: Kind(lines[i]).VersionHeading?
               then Parse(lines).value.latestVersion else v
  {
    var after := lines[h := H2 + v];
    var ks, ks' := Kinds(lines), Kinds(after);
    forall i | 0 <= i < |lines|
      ensures ks[i] == Kind(lines[i]) && ks'[i] == if i == h then VersionHeading(v) else ks[i]
    {
      KindsAt(lines, i);
      KindsAt(after, i);
      VersionHeadingReadsBack(v);
    }
    CutKinds(ks, ks', h, v);
    if k :| 0 <= k < h && Kind(lines[k]).VersionHeading? {
      assert ks[k].VersionHeading?;
    } else {
      assert forall k | 0 <= k < h :: ks[k] == Kind(lines[k]);
    }
  }

  lemma CutKinds(ks: seq<LineKind>, ks': seq<LineKind>, h: nat, v: string)
    requires h < |ks| && ks' == ks[h := VersionHeading(v)]
    requires forall i | 0 <= i < |ks| && i != h :: !ks[i].OtherHeading?
    requires Summarize(ks).Some?
    ensures var cut := Summarize(ks');
            && cut.Some? && cut.value.unreleasedBullets == 0 && !cut.value.unreleasedIsFirst
            && cut.value.latestVersion ==
               if exists i | 0 <= i < h :: ks[i].VersionHeading? then LatestVersion(ks) else v
  {
    assert forall i :: !OpensUnreleased(ks', i);
    assert SectionBullets(ks') == {};
    if k :| 0 <= k < h && ks[k].VersionHeading? {
      var i := FirstVersion(ks, k);
      assert IsFirstVersion(ks', i);
    } else {
      assert IsFirstVersion(ks', h);
    }
  }

  // ---- The summary, read off the lines ----

  predicate AllBlank(s: string) {
    forall c | c in s :: c == ' ' || c == '\t'
  }

  /** The line is "## ", this version text, and blanks. */
  ghost predicate IsVersionLine(line: string, version: string) {
    IsVersionText(version) && exists blanks :: AllBlank(blanks) && line == "## " + version + blanks
  }

  /** The line is an H2 with something in it that is not just a version. */
  ghost predicate IsSectionLine(line: string) {
    "## " <= line && !IsBlankHeading(line) && forall version :: !IsVersionLine(line, version)
  }

  lemma TrimUnique(line: string, t: string, blanks: string)
    requires line == t + blanks && AllBlank(blanks)
    requires t != "" && t[|t| - 1] != ' ' && t[|t| - 1] != '\t'
    ensures TrimRightBlanks(line) == t
  {
    var u := TrimRightBlanks(line);
    assert forall i | |t| <= i < |line| :: line[i] in blanks;
    assert line[|t| - 1] == t[|t| - 1];
    assert u == line[..|u|];
  }

  lemma VersionLineExact(line: string, version: string)
    ensures Kind(line) == VersionHeading(version) <==> IsVersionLine(line, version)
  {
    hide MatchesVersion, IsVersionText;
    MatcherAgrees(version);
    if Kind(line) == VersionHeading(version) {
      var t := TrimRightBlanks(line);
      assert t == "## " + version;
      assert line == t + line[|t|..];
    }
    if IsVersionLine(line, version) {
      var blanks :| AllBlank(blanks) && line == "## " + version + blanks;
      VersionEndsInDigit(version);
      var t := "## " + version;
      assert t[|t| - 1] == version[|version| - 1];
      TrimUnique(line, t, blanks);
      assert t[3..] == version;
    }
  }

  /** What each line is to the scanner, in the text's own terms. */
  lemma KindExactly(line: string)
    ensures Kind(line).IsH2() <==> IsH2Line(line)
    ensures Kind(line).OtherHeading? <==> IsSectionLine(line)
    ensures Kind(line).Bullet? <==> IsBulletLine(line)
  {
    hide MatchesVersion, IsVersionLine;
    BlankHeadingExact(line);
    assert line != "" && line[0] == '-' ==> !("## " <= line);
    if Kind(line).VersionHeading? {
      VersionLineExact(line, Kind(line).version);
    }
    forall version
      ensures IsVersionLine(line, version) ==> Kind(line) == VersionHeading(version)
    {
      VersionLineExact(line, version);
    }
  }

  predicate IsH2Line(line: string) {
    "## " <= line
  }

  predicate IsBulletLine(line: string) {
    "- " <= line
  }

  /** Line h opens the unreleased section. */
  ghost predicate OpensSection(lines: seq<string>, h: int) {
    0 <= h < |lines| && IsSectionLine(lines[h]) && forall j | 0 <= j < h :: !IsSectionLine(lines[j])
  }

  /** Line i is a bullet of the unreleased section. */
  ghost predicate IsSectionBullet(lines: seq<string>, i: int) {
    && 0 <= i < |lines| && IsBulletLine(lines[i])
    && exists h :: h < i && OpensSection(lines, h) && forall j | h < j <= i :: !IsH2Line(lines[j])
  }

  /** The first H2 of all opens the unreleased section. */
  ghost predicate SectionIsFirst(lines: seq<string>) {
    exists i :: 0 <= i < |lines| && IsSectionLine(lines[i]) && forall j | 0 <= j < i :: !IsH2Line(lines[j])
  }

  /** Line i is the first version line, and carries this version. */
  ghost predicate IsFirstVersionLine(lines: seq<string>, i: int, version: string) {
    && 0 <= i < |lines| && IsVersionLine(lines[i], version)
    && forall j, other | 0 <= j < i :: !IsVersionLine(lines[j], other)
  }

  ghost predicate HasVersionLine(lines: seq<string>) {
    exists i, version :: 0 <= i < |lines| && IsVersionLine(lines[i], version)
  }

  /** The kinds of the lines, one by one, in the text's own terms. */
  ghost predicate KindsRead(ks: seq<LineKind>, lines: seq<string>) {
    && |ks| == |lines|
    && (forall j | 0 <= j < |lines| :: ks[j].IsH2() <==> IsH2Line(lines[j]))
    && (forall j | 0 <= j < |lines| :: ks[j].OtherHeading? <==> IsSectionLine(lines[j]))
    && (forall j | 0 <= j < |lines| :: ks[j].Bullet? <==> IsBulletLine(lines[j]))
  }

  lemma LinesRead(lines: seq<string>)
    ensures KindsRead(Kinds(lines), lines)
  {
    hide Kind, IsSectionLine, IsH2Line, IsBulletLine;
    forall j | 0 <= j < |lines|
      ensures Kinds(lines)[j] == Kind(lines[j])
      ensures Kind(lines[j]).IsH2() <==> IsH2Line(lines[j])
      ensures Kind(lines[j]).OtherHeading? <==> IsSectionLine(lines[j])
      ensures Kind(lines[j]).Bullet? <==> IsBulletLine(lines[j])
    {
      KindsAt(lines, j);
      KindExactly(lines[j]);
    }
  }

  lemma OpensExactly(ks: seq<LineKind>, lines: seq<string>, h: int)
    requires KindsRead(ks, lines)
    ensures OpensUnreleased(ks, h) <==> OpensSection(lines, h)
  {
    hide IsSectionLine, IsH2Line, IsBulletLine;
  }

  lemma BulletExactly(ks: seq<LineKind>, lines: seq<string>, i: int)
    requires KindsRead(ks, lines)
    ensures 0 <= i < |lines| && ks[i].Bullet? && InSection(ks, i) <==> IsSectionBullet(lines, i)
  {
    hide IsSectionLine, IsH2Line, IsBulletLine;
    if 0 <= i < |lines| && ks[i].Bullet? && InSection(ks, i) {
      var h :| h < i && OpensUnreleased(ks, h) && forall j | h < j <= i :: !ks[j].IsH2();
      OpensExactly(ks, lines, h);
    }
    if IsSectionBullet(lines, i) {
      var h :| h < i && OpensSection(lines, h) && forall j | h < j <= i :: !IsH2Line(lines[j]);
      OpensExactly(ks, lines, h);
    }
  }

  lemma FirstIsExactly(ks: seq<LineKind>, lines: seq<string>)
    requires KindsRead(ks, lines)
    ensures FirstH2IsOther(ks) <==> SectionIsFirst(lines)
  {
    hide IsSectionLine, IsH2Line, IsBulletLine;
    if SectionIsFirst(lines) {
      var i :| 0 <= i < |lines| && IsSectionLine(lines[i]) && forall j | 0 <= j < i :: !IsH2Line(lines[j]);
      assert IsFirstH2(ks, i);
    }
  }

  lemma VersionLineAt(lines: seq<string>, j: nat, version: string)
    requires j < |lines|
    ensures Kinds(lines)[j] == VersionHeading(version) <==> IsVersionLine(lines[j], version)
  {
    hide Kind, IsVersionLine;
    KindsAt(lines, j);
    VersionLineExact(lines[j], version);
  }

  lemma LatestExactly(lines: seq<string>)
    ensures forall i, version :: IsFirstVersionLine(lines, i, version) ==> LatestVersion(Kinds(lines)) == version
    ensures LatestVersion(Kinds(lines)) != "" <==> HasVersionLine(lines)
  {
    hide Kind, Kinds, IsVersionLine, LatestVersion;
    var ks := Kinds(lines);
    if k :| 0 <= k < |lines| && ks[k].VersionHeading? {
      var first := FirstVersion(ks, k);
      var v := ks[first].version;
      VersionLineAt(lines, first, v);
      VersionIsNotEmpty(lines, first);
      forall i, version | IsFirstVersionLine(lines, i, version)
        ensures version == v
      {
        VersionLineAt(lines, i, version);
      }
    } else {
      NoVersion(ks);
      forall j, version | 0 <= j < |lines|
        ensures !IsVersionLine(lines[j], version)
      {
        VersionLineAt(lines, j, version);
      }
    }
  }

  lemma VersionIsNotEmpty(lines: seq<string>, i: nat)
    requires i < |lines| && Kinds(lines)[i].VersionHeading?
    ensures Kinds(lines)[i].version != ""
  {
    KindsAt(lines, i);
  }

  lemma NoVersion(ks: seq<LineKind>)
    requires forall i | 0 <= i < |ks| :: !ks[i].VersionHeading?
    ensures LatestVersion(ks) == ""
  {
  }

  /** The summary of every changelog that parses, read off its lines: how many bullets the unreleased section
      has, whether it comes first, and the first version line. */
  lemma SummaryExactly(lines: seq<string>, r: Summary)
    requires Parse(lines) == Some(r)
    ensures r.unreleasedBullets == |set i | 0 <= i < |lines| && IsSectionBullet(lines, i)|
    ensures r.unreleasedIsFirst <==> SectionIsFirst(lines)
    ensures forall i, version :: IsFirstVersionLine(lines, i, version) ==> r.latestVersion == version
    ensures r.latestVersion != "" <==> HasVersionLine(lines)
  {
    hide Kinds, KindsRead, LatestVersion, FirstH2IsOther, InSection;
    hide IsSectionBullet, SectionIsFirst, IsFirstVersionLine, HasVersionLine;
    LatestExactly(lines);
    LinesRead(lines);
    FirstIsExactly(Kinds(lines), lines);
    var raw := set i | 0 <= i < |lines| && IsSectionBullet(lines, i);
    forall i
      ensures i in SectionBullets(Kinds(lines)) <==> i in raw
    {
      BulletExactly(Kinds(lines), lines, i);
    }
    assert SectionBullets(Kinds(lines)) == raw;
  }
}
