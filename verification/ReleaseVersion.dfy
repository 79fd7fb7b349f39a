/** scripts/release_artifacts.py, `ci_successor_product`, over the version grammar and order of
    backend/core/update/version.py. */
module ReleaseVersion {
  import opened Outcome
  import opened Sorting
  import opened VersionText

  datatype Version = Version(major: nat, minor: nat, patch: nat, pre: seq<string>)

  const MAX_LENGTH := 128

  predicate IsIdentifierChar(c: char) {
    IsDigit(c) || 'a' <= c <= 'z' || 'A' <= c <= 'Z' || c == '-'
  }

  /** Where the letters and digits of identifiers begin and end. */
  lemma IdentifierCharsEnd()
    ensures forall c :: c in "09AZaz-" ==> IsIdentifierChar(c)
    ensures forall c :: c in "/:@[`{_.+" ==> !IsIdentifierChar(c)
  {
  }

  predicate IsIdentifier(s: string) {
    s != [] && forall i | 0 <= i < |s| :: IsIdentifierChar(s[i])
  }

  /** `str.isdigit`. */
  predicate IsNumeric(s: string) { s != [] && AllDigits(s) }

  /** A prerelease identifier: a numeric one has no leading zero. */
  predicate IsPrerelease(s: string) {
    IsIdentifier(s) && (IsNumeric(s) ==> Canonical(s))
  }

  predicate WellFormed(v: Version) {
    forall i | 0 <= i < |v.pre| :: IsPrerelease(v.pre[i])
  }

  /** The parts of a version text: core, prerelease and build metadata. */
  datatype Parts = Parts(core: seq<string>, pre: Option<seq<string>>, build: Option<seq<string>>)

  function SplitVersion(s: string): Parts {
    var plus := Find(s, '+');
    var main := s[..plus];
    var dash := Find(main, '-');
    Parts(
      Split(main[..dash], '.'),
      if dash < |main| then Some(Split(main[dash + 1..], '.')) else None,
      if plus < |s| then Some(Split(s[plus + 1..], '.')) else None)
  }

  predicate AllIdentifiers(parts: Option<seq<string>>) {
    parts.Some? ==> forall i | 0 <= i < |parts.value| :: IsIdentifier(parts.value[i])
  }

  /** `Version.parse`; None where it rejects. */
  function Parse(s: string): Option<Version> {
    var p := SplitVersion(s);
    if |s| > MAX_LENGTH || |p.core| != 3 || !(forall i | 0 <= i < 3 :: Canonical(p.core[i]))
       || !AllIdentifiers(p.pre) || !AllIdentifiers(p.build) then None
    else
      var v := Version(Value(p.core[0]), Value(p.core[1]), Value(p.core[2]), p.pre.GetOr([]));
      if WellFormed(v) then Some(v) else None
  }

  function Print(v: Version): string {
    Join([Decimal(v.major), Decimal(v.minor), Decimal(v.patch)], '.')
    + (if v.pre == [] then [] else "-" + Join(v.pre, '.'))
  }

  lemma NotIn(s: string, c: char)
    requires forall i :: 0 <= i < |s| ==> IsIdentifierChar(s[i])
    requires !IsIdentifierChar(c)
    ensures c !in s
  {
  }

  /** A printed version splits into its core numbers and prerelease identifiers. */
  lemma SplitPrinted(v: Version)
    requires forall i :: 0 <= i < |v.pre| ==> IsIdentifier(v.pre[i])
    ensures SplitVersion(Print(v))
            == Parts([Decimal(v.major), Decimal(v.minor), Decimal(v.patch)],
                     if v.pre == [] then None else Some(v.pre), None)
  {
    var core := [Decimal(v.major), Decimal(v.minor), Decimal(v.patch)];
    var head, tail := Join(core, '.'), Join(v.pre, '.');
    ValueOfDecimal(v.major);
    ValueOfDecimal(v.minor);
    ValueOfDecimal(v.patch);
    forall i | 0 <= i < 3 ensures '.' !in core[i] && '-' !in core[i] && '+' !in core[i] {
      assert AllDigits(core[i]);
    }
    SplitJoin(core, '.');
    JoinChars(core, '.', '-');
    JoinChars(core, '.', '+');
    forall i | 0 <= i < |v.pre| ensures '.' !in v.pre[i] && '+' !in v.pre[i] {
      NotIn(v.pre[i], '.');
      NotIn(v.pre[i], '+');
    }
    JoinChars(v.pre, '.', '+');
    var s := Print(v);
    assert '+' !in s;
    FindAt(s, '+', []);
    assert s[..|s|] == s;
    if v.pre == [] {
      assert s == head;
      FindAt(s, '-', []);
    } else {
      assert s == head + ['-'] + tail;
      FindAt(head, '-', tail);
      assert s[..|head|] == head && s[|head| + 1..] == tail;
      SplitJoin(v.pre, '.');
    }
  }

  /** Parsing undoes printing, up to the length bound. */
  lemma ParsePrinted(v: Version)
    requires WellFormed(v)
    ensures Parse(Print(v)) == if |Print(v)| <= 128 then Some(v) else None
  {
    hide SplitVersion, Print;
    SplitPrinted(v);
    ValueOfDecimal(v.major);
    ValueOfDecimal(v.minor);
    ValueOfDecimal(v.patch);
  }

  /** Printing undoes parsing, but for build metadata. */
  lemma PrintParsed(s: string)
    requires Parse(s).Some?
    ensures WellFormed(Parse(s).value) && Print(Parse(s).value) == s[..Find(s, '+')]
  {
    hide Split, Join, Find, Value, Decimal;
    var p := SplitVersion(s);
    var main := s[..Find(s, '+')];
    var dash := Find(main, '-');
    JoinSplit(main[..dash], '.');
    DecimalOfValue(p.core[0]);
    DecimalOfValue(p.core[1]);
    DecimalOfValue(p.core[2]);
    assert p.core == [p.core[0], p.core[1], p.core[2]];
    if dash < |main| {
      JoinSplit(main[dash + 1..], '.');
      assert main == main[..dash] + "-" + main[dash + 1..];
    } else {
      assert main[..dash] == main;
    }
  }

  function Suffix(build: seq<string>): string { if build == [] then "" else "+" + Join(build, '.') }

  /** The texts that are parsed are the printed versions, with or without build metadata. */
  lemma ParsesExactly(s: string)
    ensures Parse(s).Some? <==>
            |s| <= 128 && exists v, build :: WellFormed(v) && (forall i :: 0 <= i < |build| ==> IsIdentifier(build[i]))
                                             && s == Print(v) + Suffix(build)
  {
    hide Print, WellFormed, Split, Join, Value, Canonical;
    if Parse(s).Some? {
      PrintParsed(s);
      var plus := Find(s, '+');
      var build := if plus < |s| then Split(s[plus + 1..], '.') else [];
      if plus < |s| {
        JoinSplit(s[plus + 1..], '.');
        assert s == s[..plus] + ("+" + s[plus + 1..]);
      }
      assert s == Print(Parse(s).value) + Suffix(build);
      assert forall i :: 0 <= i < |build| ==> IsIdentifier(build[i]);
    }
    if v, build :| WellFormed(v) && (forall i :: 0 <= i < |build| ==> IsIdentifier(build[i]))
                   && s == Print(v) + Suffix(build) {
      PrintedWithBuildParses(v, build);
    }
  }

  lemma PrintedWithBuildParses(v: Version, build: seq<string>)
    requires WellFormed(v) && forall i :: 0 <= i < |build| ==> IsIdentifier(build[i])
    ensures Parse(Print(v) + Suffix(build)).Some? <==> |Print(v) + Suffix(build)| <= 128
  {
    hide Print, Split, Join, Value;
    var main := Print(v);
    ParsePrinted(v);
    SplitPrinted(v);
    ValueOfDecimal(v.major);
    ValueOfDecimal(v.minor);
    ValueOfDecimal(v.patch);
    NoPlusPrinted(v);
    if build == [] {
      assert main + "" == main;
    } else {
      var tail := Join(build, '.');
      var s := main + "+" + tail;
      assert main + ("+" + tail) == s && s == main + ['+'] + tail;
      FindAt(main, '+', tail);
      FindAt(main, '+', []);
      assert s[..|main|] == main && s[|main| + 1..] == tail && main[..|main|] == main;
      forall i | 0 <= i < |build| ensures '.' !in build[i] { NotIn(build[i], '.'); }
      SplitJoin(build, '.');
    }
  }

  lemma NoPlusPrinted(v: Version)
    requires WellFormed(v)
    ensures '+' !in Print(v)
  {
    hide Decimal;
    var core := [Decimal(v.major), Decimal(v.minor), Decimal(v.patch)];
    ValueOfDecimal(v.major);
    ValueOfDecimal(v.minor);
    ValueOfDecimal(v.patch);
    forall i | 0 <= i < 3 ensures '+' !in core[i] { assert AllDigits(core[i]); }
    JoinChars(core, '.', '+');
    forall i | 0 <= i < |v.pre| ensures '+' !in v.pre[i] { NotIn(v.pre[i], '+'); }
    JoinChars(v.pre, '.', '+');
  }

  // ----- precedence, section 11 of Semantic Versioning 2.0.0 -----

  /** Precedence of two different identifiers: numbers by value and before words. */
  predicate IdentifierLess(a: string, b: string) {
    if IsNumeric(a) && IsNumeric(b) then Value(a) < Value(b)
    else if IsNumeric(a) != IsNumeric(b) then IsNumeric(a)
    else a != b && StringLe(a, b)
  }

  predicate PrereleaseLess(a: seq<string>, b: seq<string>) {
    if a == [] || b == [] then a == [] && b != []
    else if a[0] == b[0] then PrereleaseLess(a[1..], b[1..])
    else IdentifierLess(a[0], b[0])
  }

  predicate CoreLess(a: Version, b: Version) {
    a.major < b.major || (a.major == b.major && (a.minor < b.minor || (a.minor == b.minor && a.patch < b.patch)))
  }

  predicate SameCore(a: Version, b: Version) {
    a.major == b.major && a.minor == b.minor && a.patch == b.patch
  }

  /** `Version.__lt__`. */
  predicate Less(a: Version, b: Version) {
    if !SameCore(a, b) then CoreLess(a, b)
    else if a.pre == [] || b.pre == [] then a.pre != [] && b.pre == []
    else PrereleaseLess(a.pre, b.pre)
  }

  lemma IdentifierLessTransitive(a: string, b: string, c: string)
    requires IdentifierLess(a, b) && IdentifierLess(b, c)
    ensures IdentifierLess(a, c)
  {
    if !IsNumeric(a) && !IsNumeric(b) && !IsNumeric(c) {
      StringLeTransitive(a, b, c);
      StringLeTotal(a, b);
    }
  }

  lemma IdentifierLessIrreflexive(a: string)
    ensures !IdentifierLess(a, a)
  {
  }

  lemma {:induction false} PrereleaseLessTransitive(a: seq<string>, b: seq<string>, c: seq<string>)
    requires PrereleaseLess(a, b) && PrereleaseLess(b, c)
    ensures PrereleaseLess(a, c)
  {
    if a != [] {
      if a[0] == b[0] == c[0] {
        PrereleaseLessTransitive(a[1..], b[1..], c[1..]);
      } else if a[0] != b[0] && b[0] != c[0] {
        IdentifierLessTransitive(a[0], b[0], c[0]);
        IdentifierLessIrreflexive(a[0]);
      }
    }
  }

  /** Precedence is a strict order. */
  lemma LessTransitive(a: Version, b: Version, c: Version)
    requires Less(a, b) && Less(b, c)
    ensures Less(a, c)
  {
    if SameCore(a, b) && SameCore(b, c) && a.pre != [] && b.pre != [] && c.pre != [] {
      PrereleaseLessTransitive(a.pre, b.pre, c.pre);
    }
  }

  lemma {:induction false} PrereleaseLessIrreflexive(a: seq<string>)
    ensures !PrereleaseLess(a, a)
  {
    if a != [] { PrereleaseLessIrreflexive(a[1..]); }
  }

  lemma {:induction false} PrereleaseLessTotal(a: seq<string>, b: seq<string>)
    requires a != b
    requires (forall i :: 0 <= i < |a| ==> IsPrerelease(a[i])) && (forall i :: 0 <= i < |b| ==> IsPrerelease(b[i]))
    ensures PrereleaseLess(a, b) || PrereleaseLess(b, a)
  {
    if a != [] && b != [] {
      if a[0] == b[0] {
        assert a == [a[0]] + a[1..] && b == [b[0]] + b[1..];
        PrereleaseLessTotal(a[1..], b[1..]);
      } else if IsNumeric(a[0]) && IsNumeric(b[0]) {
        DecimalOfValue(a[0]);
        DecimalOfValue(b[0]);
      } else {
        StringLeTotal(a[0], b[0]);
      }
    }
  }

  /** Of two parsed versions exactly one is lower unless they are the same. */
  lemma LessTotal(a: Version, b: Version)
    requires WellFormed(a) && WellFormed(b)
    ensures Less(a, b) || Less(b, a) || a == b
    ensures !(Less(a, b) && Less(b, a))
  {
    PrereleaseLessIrreflexive(a.pre);
    if SameCore(a, b) && a.pre != b.pre {
      PrereleaseLessTotal(a.pre, b.pre);
      if PrereleaseLess(a.pre, b.pre) && PrereleaseLess(b.pre, a.pre) {
        PrereleaseLessTransitive(a.pre, b.pre, a.pre);
      }
    }
  }

  /** An identifier comes before another: numbers by value, then words by code points. */
  predicate IdentifierBefore(a: string, b: string) {
    if IsNumeric(a) then !IsNumeric(b) || Value(a) < Value(b) else !IsNumeric(b) && a != b && StringLe(a, b)
  }

  /** The first has fewer identifiers, or the first that differ are in order. */
  ghost predicate Precedes(a: seq<string>, b: seq<string>) {
    (|a| < |b| && a == b[..|a|]) || exists k :: BeforeAt(a, b, k)
  }

  predicate BeforeAt(a: seq<string>, b: seq<string>, k: int) {
    0 <= k < |a| && k < |b| && a[..k] == b[..k] && a[k] != b[k] && IdentifierBefore(a[k], b[k])
  }

  lemma BeforeAtWith(x: string, a: seq<string>, b: seq<string>, k: int)
    ensures BeforeAt([x] + a, [x] + b, k + 1) <==> BeforeAt(a, b, k)
  {
    hide IdentifierBefore;
    if 0 <= k <= |a| && k <= |b| { PrefixWith(x, a, b, k); }
  }

  lemma PrecedesWith(x: string, a: seq<string>, b: seq<string>)
    ensures Precedes([x] + a, [x] + b) <==> Precedes(a, b)
  {
    hide BeforeAt;
    if |a| < |b| {
      PrefixWith(x, a, b, |a|);
      assert ([x] + a)[..|a| + 1] == [x] + a && a[..|a|] == a;
    }
    if k :| BeforeAt(a, b, k) { BeforeAtWith(x, a, b, k); }
    if k :| BeforeAt([x] + a, [x] + b, k) { BeforeAtWith(x, a, b, k - 1); }
  }

  lemma PrecedesAtFirst(a: seq<string>, b: seq<string>)
    requires a != [] && b != [] && a[0] != b[0]
    ensures Precedes(a, b) <==> IdentifierBefore(a[0], b[0])
  {
    hide IdentifierBefore;
    assert a[..0] == b[..0];
    assert BeforeAt(a, b, 0) <==> IdentifierBefore(a[0], b[0]);
    assert |a| < |b| ==> b[..|a|][0] == b[0];
    forall k | k != 0 ensures !BeforeAt(a, b, k) {
      if 0 < k < |a| && k < |b| { assert a[..k][0] == a[0] && b[..k][0] == b[0]; }
    }
  }

  lemma {:induction false} PrereleaseLessIs(a: seq<string>, b: seq<string>)
    ensures PrereleaseLess(a, b) <==> Precedes(a, b)
  {
    if a != [] && b != [] {
      if a[0] == b[0] {
        PrereleaseLessIs(a[1..], b[1..]);
        PrecedesWith(a[0], a[1..], b[1..]);
        assert a == [a[0]] + a[1..] && b == [b[0]] + b[1..];
      } else {
        PrecedesAtFirst(a, b);
      }
    }
  }

  /** Precedence as the standard has it: by major, minor and patch, then a prerelease before its
      release, then by the first identifiers that differ, or more of them after fewer. */
  lemma PrecedenceIs(a: Version, b: Version)
    ensures Less(a, b) <==>
            || a.major < b.major
            || (a.major == b.major && a.minor < b.minor)
            || (a.major == b.major && a.minor == b.minor && a.patch < b.patch)
            || (&& a.major == b.major && a.minor == b.minor && a.patch == b.patch && a.pre != []
                && (b.pre == [] || Precedes(a.pre, b.pre)))
  {
    hide PrereleaseLess, Precedes;
    PrereleaseLessIs(a.pre, b.pre);
  }

  // ----- the successor -----

  datatype Platform = Windows | Linux | Other(name: string)

  function PlatformName(p: Platform): string {
    match p case Windows => "windows" case Linux => "linux" case Other(name) => name
  }

  function Successor(v: Version, platform: Platform): Version {
    Version(v.major, v.minor, if v.pre != [] then v.patch else v.patch + 1, v.pre + [PlatformName(platform), "1"])
  }

  lemma {:induction false} ExtendedIsLater(pre: seq<string>, more: seq<string>)
    requires more != []
    ensures PrereleaseLess(pre, pre + more)
  {
    if pre != [] {
      ExtendedIsLater(pre[1..], more);
      assert (pre + more)[1..] == pre[1..] + more;
    }
  }

  /** The successor has strictly higher precedence and is again well formed. */
  lemma SuccessorIsNewer(v: Version, platform: Platform)
    requires WellFormed(v) && !platform.Other?
    ensures Less(v, Successor(v, platform)) && WellFormed(Successor(v, platform))
  {
    ExtendedIsLater(v.pre, [PlatformName(platform), "1"]);
    var next := Successor(v, platform);
    forall i | 0 <= i < |next.pre| ensures IsPrerelease(next.pre[i]) {
      if i == |v.pre| {
        assert next.pre[i] == PlatformName(platform);
        assert !IsDigit(PlatformName(platform)[0]);
      } else if i > |v.pre| {
        assert next.pre[i] == "1";
      }
    }
  }

  lemma {:induction false} JoinTwo(parts: seq<string>, a: string, b: string)
    requires parts != []
    ensures Join(parts + [a, b], '.') == Join(parts, '.') + "." + a + "." + b
  {
    var more := parts + [a, b];
    assert more[1..] == parts[1..] + [a, b];
    assert Join(more, '.') == more[0] + ['.'] + Join(more[1..], '.');
    if |parts| == 1 {
      assert parts[1..] + [a, b] == [a, b] && [a, b][1..] == [b];
      assert Join([a, b], '.') == a + ['.'] + Join([b], '.');
      assert parts[0] + ['.'] + (a + ['.'] + b) == parts[0] + "." + a + "." + b;
    } else {
      JoinTwo(parts[1..], a, b);
      assert parts[0] + ['.'] + (Join(parts[1..], '.') + "." + a + "." + b)
          == parts[0] + ['.'] + Join(parts[1..], '.') + "." + a + "." + b;
    }
  }

  /** What the candidate's text is: a prerelease goes on with the platform and 1, and a release's
      patch is raised. */
  lemma CandidateText(v: Version, platform: Platform)
    requires !platform.Other?
    ensures var name := if platform == Windows then "windows" else "linux";
            Print(Successor(v, platform))
            == if v.pre != [] then Print(v) + "." + name + ".1"
               else Decimal(v.major) + "." + Decimal(v.minor) + "." + Decimal(v.patch + 1) + "-" + name + ".1"
  {
    hide Decimal, Join;
    var name := PlatformName(platform);
    if v.pre != [] {
      JoinTwo(v.pre, name, "1");
      var core := Join([Decimal(v.major), Decimal(v.minor), Decimal(v.patch)], '.');
      Regroup(core, Join(v.pre, '.'), name);
    } else {
      assert v.pre + [name, "1"] == [name, "1"];
      JoinCore(Decimal(v.major), Decimal(v.minor), Decimal(v.patch + 1), name);
    }
  }

  lemma Regroup(core: string, pre: string, name: string)
    ensures core + ("-" + (pre + "." + name + "." + "1")) == core + ("-" + pre) + "." + name + ".1"
  {
  }

  lemma JoinCore(a: string, b: string, c: string, name: string)
    ensures Join([a, b, c], '.') + ("-" + Join([name, "1"], '.')) == a + "." + b + "." + c + "-" + name + ".1"
  {
    JoinPair(b, c);
    JoinPair(name, "1");
    assert [a, b, c][1..] == [b, c];
    assert Join([a, b, c], '.') == a + ['.'] + Join([b, c], '.');
  }

  function Iterate(v: Version, platforms: seq<Platform>): Version {
    if platforms == [] then v
    else Successor(Iterate(v, platforms[..|platforms| - 1]), platforms[|platforms| - 1])
  }

  /** Repeated successors strictly increase. */
  lemma {:induction false} SuccessorsIncrease(v: Version, platforms: seq<Platform>, n: nat)
    requires WellFormed(v) && n < |platforms| && forall i :: 0 <= i < |platforms| ==> !platforms[i].Other?
    ensures WellFormed(Iterate(v, platforms))
    ensures WellFormed(Iterate(v, platforms[..n])) && Less(Iterate(v, platforms[..n]), Iterate(v, platforms))
  {
    hide Less, WellFormed;
    var m := |platforms| - 1;
    if n == m {
      IteratesWellFormed(v, platforms[..n]);
    } else {
      SuccessorsIncrease(v, platforms[..m], n);
      assert platforms[..m][..n] == platforms[..n];
    }
    SuccessorIsNewer(Iterate(v, platforms[..m]), platforms[m]);
    if n < m {
      LessTransitive(Iterate(v, platforms[..n]), Iterate(v, platforms[..m]), Iterate(v, platforms));
    }
  }

  lemma {:induction false} IteratesWellFormed(v: Version, platforms: seq<Platform>)
    requires WellFormed(v) && forall i :: 0 <= i < |platforms| ==> !platforms[i].Other?
    ensures WellFormed(Iterate(v, platforms))
  {
    hide Less, WellFormed;
    if platforms != [] {
      IteratesWellFormed(v, platforms[..|platforms| - 1]);
      SuccessorIsNewer(Iterate(v, platforms[..|platforms| - 1]), platforms[|platforms| - 1]);
    }
  }

  // ----- the Windows file version -----

  const BASE := 0x1_0000

  /** The parts read as one number in base 65536. */
  function Number(parts: seq<nat>): nat {
    if parts == [] then 0 else Number(parts[..|parts| - 1]) * BASE + parts[|parts| - 1]
  }

  ghost predicate InRange(parts: seq<nat>) {
    forall i :: 0 <= i < |parts| ==> parts[i] < BASE
  }

  lemma NumberNext(parts: seq<nat>, part: nat)
    ensures Number(parts + [part]) == Number(parts) * 65536 + part
  {
    assert (parts + [part])[..|parts|] == parts;
  }

  lemma NumberOfFour(a: nat, b: nat, c: nat, d: nat)
    ensures Number([a, b, c, d]) == ((a * 65536 + b) * 65536 + c) * 65536 + d
  {
    hide Number;
    NumberNext([], a);
    NumberNext([a], b);
    NumberNext([a, b], c);
    NumberNext([a, b, c], d);
    assert Number([]) == 0 by { NumberOfNone(); }
    assert [] + [a] == [a] && [a] + [b] == [a, b] && [a, b] + [c] == [a, b, c];
    assert [a, b, c] + [d] == [a, b, c, d];
  }

  lemma NumberOfNone()
    ensures Number([]) == 0
  {
  }

  function Power(n: nat): nat { if n == 0 then 1 else Power(n - 1) * BASE }

  lemma {:induction false} NumberBelow(parts: seq<nat>)
    requires InRange(parts)
    ensures Number(parts) < Power(|parts|)
    ensures Number(parts) == Power(|parts|) - 1 <==> forall i :: 0 <= i < |parts| ==> parts[i] == BASE - 1
  {
    if parts != [] {
      var n := |parts| - 1;
      NumberBelow(parts[..n]);
      assert forall i :: 0 <= i < n ==> parts[..n][i] == parts[i];
    }
  }

  lemma {:induction false} NumberSplit(a: seq<nat>, b: seq<nat>)
    ensures Number(a + b) == Number(a) * Power(|b|) + Number(b)
  {
    if b == [] {
      assert a + b == a;
    } else {
      var n := |b| - 1;
      NumberSplit(a, b[..n]);
      assert (a + b)[..|a + b| - 1] == a + b[..n];
    }
  }

  lemma {:induction false} NumberOfZeros(n: nat)
    ensures Number(seq(n, _ => 0)) == 0
  {
    if n > 0 {
      NumberOfZeros(n - 1);
      assert seq(n, _ => 0)[..n - 1] == seq(n - 1, _ => 0);
    }
  }

  /** Increment the digit before `tail`, a run of the highest digit that becomes zeros. */
  lemma CarryAdds(head: seq<nat>, digit: nat, tail: nat)
    requires digit < BASE - 1
    ensures Number(head + [digit + 1] + seq(tail, _ => 0)) == Number(head + [digit] + seq(tail, _ => BASE - 1)) + 1
  {
    var full: seq<nat> := seq(tail, _ => BASE - 1);
    NumberSplit(head + [digit + 1], seq(tail, _ => 0));
    NumberSplit(head + [digit], full);
    NumberOfZeros(tail);
    NumberBelow(full);
    assert (head + [digit + 1])[..|head|] == head && (head + [digit])[..|head|] == head;
    var p := Power(tail);
    assert (Number(head) * BASE + digit + 1) * p == (Number(head) * BASE + digit) * p + p;
  }

  /** The carry loop: the parts become the next number, unless none is left. */
  method Increment(windows: array<nat>) returns (ok: bool)
    requires InRange(windows[..])
    modifies windows
    ensures InRange(windows[..])
    ensures ok <==> Number(old(windows[..])) + 1 < Power(windows.Length)
    ensures ok ==> Number(windows[..]) == Number(old(windows[..])) + 1
  {
    ghost var before := windows[..];
    NumberBelow(before);
    var index := windows.Length;
    while index > 0
      invariant 0 <= index <= windows.Length
      invariant windows[..] == before[..index] + seq(windows.Length - index, _ => 0)
      invariant forall i :: index <= i < windows.Length ==> before[i] == BASE - 1
    {
      index := index - 1;
      CarriedAt(before, index);
      if windows[index] < BASE - 1 {
        windows[index] := windows[index] + 1;
        assert windows[..] == Carried(before, index);
        return true;
      }
      windows[index] := 0;
    }
    return false;
  }

  /** The parts once the carry has stopped at `index`. */
  function Carried(parts: seq<nat>, index: nat): seq<nat>
    requires index < |parts|
  {
    parts[..index] + [parts[index] + 1] + seq(|parts| - index - 1, _ => 0)
  }

  lemma CarriedAt(parts: seq<nat>, index: nat)
    requires index < |parts| && InRange(parts)
    requires forall i :: index < i < |parts| ==> parts[i] == BASE - 1
    ensures parts[index] < BASE - 1 ==>
              InRange(Carried(parts, index)) && Number(Carried(parts, index)) == Number(parts) + 1
              && Number(parts) + 1 < Power(|parts|)
  {
    hide Power, Number;
    if parts[index] < BASE - 1 {
      var tail := |parts| - index - 1;
      assert parts == parts[..index] + [parts[index]] + seq(tail, _ => BASE - 1);
      CarryAdds(parts[..index], parts[index], tail);
      NumberBelow(Carried(parts, index));
    }
  }

  // ----- the product -----

  datatype Product = Product(version: string, windowsVersion: string)

  datatype SuccessorError =
    | UnsupportedTarget | InvalidBaseline | InvalidCandidate | NotNewer | InvalidWindows | Exhausted

  /** The numbers of a Windows version text: four texts of `int` between dots, within range. */
  function WindowsParts(s: string): Option<seq<nat>> {
    var parts := Split(s, '.');
    if |parts| == 4 && forall i | 0 <= i < 4 :: IsWindowsPart(parts[i])
    then Some(seq(4, i requires 0 <= i < 4 => assert IsWindowsPart(parts[i]); Int(parts[i]).value))
    else None
  }

  predicate IsWindowsPart(s: string) { Int(s).Some? && 0 <= Int(s).value < BASE }

  function Decimals(numbers: seq<nat>): (r: seq<string>)
    ensures |r| == |numbers| && forall i :: 0 <= i < |r| ==> r[i] == Decimal(numbers[i])
  {
    seq(|numbers|, i requires 0 <= i < |numbers| => Decimal(numbers[i]))
  }

  /** Printed parts read back as the same numbers, in the form that `validate_versions` asks for. */
  lemma WindowsRoundTrip(numbers: seq<nat>)
    requires |numbers| == 4 && InRange(numbers)
    ensures WindowsParts(Join(Decimals(numbers), '.')) == Some(numbers)
    ensures ValidWindows(Join(Decimals(numbers), '.'))
  {
    hide Split, Join, Int;
    var parts := Decimals(numbers);
    forall i | 0 <= i < 4
      ensures IsNumeric(parts[i]) && Int(parts[i]) == Some(numbers[i]) && '.' !in parts[i] {
      ValueOfDecimal(numbers[i]);
      DecimalIsShort(numbers[i]);
      IntOfDigits(parts[i]);
    }
    SplitJoin(parts, '.');
    assert forall i :: 0 <= i < 4 ==> IsWindowsPart(parts[i]);
    assert WindowsParts(Join(parts, '.')).value == numbers;
  }

  // ----- the release grammar of `validate_versions` -----

  predicate IsLowerChar(c: char) { IsDigit(c) || 'a' <= c <= 'z' }

  /** Three groups of digits, then perhaps a dash and lower-case identifiers. */
  predicate ValidVersion(s: string) {
    var dash := Find(s, '-');
    var core := Split(s[..dash], '.');
    && |core| == 3 && (forall i | 0 <= i < 3 :: IsNumeric(core[i]))
    && (dash < |s| ==>
          var pre := Split(s[dash + 1..], '.');
          forall i | 0 <= i < |pre| :: IsLower(pre[i]))
  }

  lemma LowerCharsEnd()
    ensures forall c :: c in "09az" ==> IsLowerChar(c)
    ensures forall c :: c in "/:`{AZ-." ==> !IsLowerChar(c)
  {
  }

  predicate IsLower(s: string) { s != [] && forall i | 0 <= i < |s| :: IsLowerChar(s[i]) }

  /** Four groups of digits that are numbers in range. */
  predicate ValidWindows(s: string) {
    var parts := Split(s, '.');
    |parts| == 4 && forall i | 0 <= i < 4 :: IsNumeric(parts[i]) && IsWindowsPart(parts[i])
  }

  predicate Validated(p: Product) {
    ValidVersion(p.version) && ValidWindows(p.windowsVersion)
  }

  predicate LowerPre(v: Version) {
    forall i, j | 0 <= i < |v.pre| && 0 <= j < |v.pre[i]| :: IsLowerChar(v.pre[i][j])
  }

  lemma ValidatedHasLowerPre(s: string)
    requires ValidVersion(s) && Parse(s).Some?
    ensures LowerPre(Parse(s).value)
  {
    hide Split, Value;
    var dash := Find(s, '-');
    JoinSplit(s[..dash], '.');
    NoPlus(s);
    FindAt(s, '+', []);
    assert s[..|s|] == s;
  }

  lemma NoPlus(s: string)
    requires ValidVersion(s)
    ensures '+' !in s
  {
    hide Split, Join;
    var dash := Find(s, '-');
    var core := Split(s[..dash], '.');
    JoinSplit(s[..dash], '.');
    forall i | 0 <= i < |core| ensures '+' !in core[i] { assert AllDigits(core[i]); }
    JoinChars(core, '.', '+');
    if dash < |s| {
      var pre := Split(s[dash + 1..], '.');
      JoinSplit(s[dash + 1..], '.');
      forall i | 0 <= i < |pre| ensures '+' !in pre[i] {
        assert forall j :: 0 <= j < |pre[i]| ==> IsLowerChar(pre[i][j]);
      }
      JoinChars(pre, '.', '+');
      assert s == s[..dash] + [s[dash]] + s[dash + 1..];
    } else {
      assert s[..dash] == s;
    }
  }

  // ----- which validated versions have a successor -----

  /** No number of the version is written with a leading zero. */
  predicate NoLeadingZero(s: string) {
    var dash := Find(s, '-');
    var core := Split(s[..dash], '.');
    && (forall i | 0 <= i < |core| :: !LeadingZero(core[i]))
    && (dash < |s| ==>
          var pre := Split(s[dash + 1..], '.');
          forall i | 0 <= i < |pre| :: IsNumeric(pre[i]) ==> !LeadingZero(pre[i]))
  }

  predicate LeadingZero(s: string) { |s| > 1 && s[0] == '0' }

  /** The parser accepts a version of the release grammar exactly when it is short enough and
      without leading zeros. */
  lemma ValidatedParses(s: string)
    requires ValidVersion(s)
    ensures Parse(s).Some? <==> |s| <= 128 && NoLeadingZero(s)
  {
    hide Split, Value;
    NoPlus(s);
    FindAt(s, '+', []);
    assert s[..|s|] == s;
    var dash := Find(s, '-');
    var core := Split(s[..dash], '.');
    assert forall i :: 0 <= i < 3 ==> (Canonical(core[i]) <==> !LeadingZero(core[i]));
    if dash < |s| {
      var pre := Split(s[dash + 1..], '.');
      forall i | 0 <= i < |pre|
        ensures IsIdentifier(pre[i]) && (IsPrerelease(pre[i]) <==> (IsNumeric(pre[i]) ==> !LeadingZero(pre[i]))) {
        assert forall j :: 0 <= j < |pre[i]| ==> IsLowerChar(pre[i][j]);
      }
    }
  }

  /** The grammars differ: the release grammar allows leading zeros. */
  lemma LeadingZeroIsRefused()
    ensures ValidVersion("01.0.0") && Parse("01.0.0").None?
    ensures ValidVersion("1.0.0-01") && Parse("1.0.0-01").None?
  {
    hide *;
    assert "01" + ".0.0" + "" == "01.0.0" && "1" + ".0.0" + "-01" == "1.0.0-01" && "-01"[1..] == "01";
    Literals();
    SplitPart("01", [], '.');
    ShortVersion("01", "", []);
    ShortVersion("1", "-01", ["01"]);
    assert ["01"][0] == "01";
    ValidatedParses("01.0.0");
    ValidatedParses("1.0.0-01");
  }

  lemma Literals()
    ensures IsNumeric("01") && LeadingZero("01") && IsLower("01") && '.' !in "01"
    ensures IsNumeric("1") && !LeadingZero("1")
  {
  }

  /** A version of two zeros after its first number, and perhaps prerelease identifiers. */
  lemma ShortVersion(major: string, rest: string, pre: seq<string>)
    requires IsNumeric(major)
    requires rest != [] ==> rest[0] == '-' && Split(rest[1..], '.') == pre
    requires forall i :: 0 <= i < |pre| ==> IsLower(pre[i])
    ensures var s := major + ".0.0" + rest;
            && ValidVersion(s)
            && (NoLeadingZero(s) <==>
                 && !LeadingZero(major)
                 && (rest != [] ==> forall i :: 0 <= i < |pre| && IsNumeric(pre[i]) ==> !LeadingZero(pre[i])))
  {
    hide Split, Find;
    CoreParts(major, rest);
    var s := major + ".0.0" + rest;
    var core := Split(s[..Find(s, '-')], '.');
    assert core[0] == major && core[1] == "0" && core[2] == "0";
  }

  /** How such a version splits. */
  lemma CoreParts(major: string, rest: string)
    requires AllDigits(major) && (rest != [] ==> rest[0] == '-')
    ensures var s := major + ".0.0" + rest;
            var dash := Find(s, '-');
            && dash == |major| + 4 && Split(s[..dash], '.') == [major, "0", "0"]
            && (dash < |s| <==> rest != []) && (dash < |s| ==> s[dash + 1..] == rest[1..])
  {
    var head := major + ".0.0";
    var s := head + rest;
    SplitPart(major, "0.0", '.');
    SplitPart("0", "0", '.');
    SplitPart("0", [], '.');
    assert major + ['.'] + "0.0" == head && "0" + ['.'] + "0" == "0.0";
    assert '-' !in head;
    if rest == [] {
      assert s == head;
      FindAt(head, '-', []);
    } else {
      assert s == head + ['-'] + rest[1..];
      FindAt(head, '-', rest[1..]);
    }
    assert s[..|head|] == head;
  }

  predicate Nines(s: string) { forall i | 0 <= i < |s| :: s[i] == '9' }

  lemma {:induction false} DecimalOfNext(n: nat)
    ensures |Decimal(n + 1)| == |Decimal(n)| + (if Nines(Decimal(n)) then 1 else 0)
  {
    var d := Decimal(n);
    assert Digit(n % 10) == '9' <==> n % 10 == 9;
    if n < 10 {
      assert d[0] == Digit(n);
    } else {
      DecimalOfNext(n / 10);
      assert d == Decimal(n / 10) + [Digit(n % 10)];
      assert d[|d| - 1] == Digit(n % 10);
      if n % 10 == 9 {
        assert (n + 1) / 10 == n / 10 + 1;
        assert forall i :: 0 <= i < |d| - 1 ==> d[i] == Decimal(n / 10)[i];
      } else {
        assert (n + 1) / 10 == n / 10;
      }
    }
  }

  /** The length of the candidate's text, from the version's. */
  function CandidateLength(s: string, platform: Platform): (n: nat)
    requires ValidVersion(s)
    ensures n > |s|
  {
    var dash := Find(s, '-');
    var carried := if dash == |s| && Nines(Split(s[..dash], '.')[2]) then 1 else 0;
    |s| + carried + |PlatformName(platform)| + 3
  }

  lemma JoinPair(a: string, b: string)
    ensures Join([a, b], '.') == a + ['.'] + b
  {
    assert [a, b][1..] == [b];
  }

  lemma PrintLength(v: Version)
    ensures |Print(v)| == |Decimal(v.major)| + |Decimal(v.minor)| + |Decimal(v.patch)| + 2
                          + (if v.pre == [] then 0 else 1 + |Join(v.pre, '.')|)
  {
    hide Decimal;
    var a, b, c := Decimal(v.major), Decimal(v.minor), Decimal(v.patch);
    assert [a, b, c][1..] == [b, c];
    assert Join([a, b, c], '.') == a + ['.'] + Join([b, c], '.');
    JoinPair(b, c);
  }

  lemma CandidateLengthIs(s: string, platform: Platform)
    requires ValidVersion(s) && Parse(s).Some?
    ensures |Print(Successor(Parse(s).value, platform))| == CandidateLength(s, platform)
  {
    hide Split, Value, Print, Join, Decimal, WellFormed, Nines;
    var v := Parse(s).value;
    NoPlus(s);
    FindAt(s, '+', []);
    assert s[..|s|] == s;
    PrintParsed(s);
    PrintLength(v);
    PrintLength(Successor(v, platform));
    var name := PlatformName(platform);
    if v.pre == [] {
      DecimalOfNext(v.patch);
      DecimalOfValue(Split(s[..Find(s, '-')], '.')[2]);
      JoinPair(name, "1");
      assert v.pre + [name, "1"] == [name, "1"];
      assert Find(s, '-') == |s|;
    } else {
      assert Find(s, '-') < |s|;
      JoinTwo(v.pre, name, "1");
    }
  }

  /** A validated version of the greatest length has no successor. */
  lemma LongVersionHasNoSuccessor(platform: Platform)
    ensures var s := "1.0.0-" + Letters(122);
            ValidVersion(s) && Parse(s).Some? && CandidateLength(s, platform) > 128
  {
    hide *;
    var tail := Letters(122);
    LettersAre(122);
    Literals();
    SplitPart(tail, [], '.');
    assert ("-" + tail)[1..] == tail && "1" + ".0.0" + ("-" + tail) == "1.0.0-" + tail;
    ShortVersion("1", "-" + tail, [tail]);
    assert [tail][0] == tail && |"1.0.0-" + tail| == 128;
    ValidatedParses("1.0.0-" + tail);
  }

  lemma LettersAre(n: nat)
    requires n > 0
    ensures |Letters(n)| == n && IsLower(Letters(n)) && !IsNumeric(Letters(n)) && '.' !in Letters(n)
  {
    assert !IsDigit(Letters(n)[0]);
  }

  function Letters(n: nat): string { seq(n, _ => 'a') }

  /** A printed version with lower-case identifiers is in the release grammar. */
  lemma PrintedIsValid(v: Version)
    requires WellFormed(v) && LowerPre(v)
    ensures ValidVersion(Print(v))
  {
    hide Split, Print, Join;
    SplitPrinted(v);
    ValueOfDecimal(v.major);
    ValueOfDecimal(v.minor);
    ValueOfDecimal(v.patch);
    var s := Print(v);
    assert Find(s, '+') == |s|;
    assert s[..|s|] == s;
  }

  lemma SuccessorKeepsLower(v: Version, platform: Platform)
    requires LowerPre(v) && !platform.Other?
    ensures LowerPre(Successor(v, platform))
  {
    var next := Successor(v, platform);
    forall i, j | 0 <= i < |next.pre| && 0 <= j < |next.pre[i]| ensures IsLowerChar(next.pre[i][j]) {
      if i < |v.pre| { assert next.pre[i] == v.pre[i]; }
    }
  }

  /** `ci_successor_product`. The guard against a candidate that is not newer never fires. What a
      validated product can fail on is a leading zero, the length of its candidate's text, and
      the last Windows version. */
  method CiSuccessorProduct(product: Product, platform: Platform) returns (r: Result<Product, SuccessorError>)
    ensures platform.Other? ==> r == Err(UnsupportedTarget)
    ensures !platform.Other? && Parse(product.version).None? ==> r == Err(InvalidBaseline)
    ensures r != Err(NotNewer)
    ensures !platform.Other? && Parse(product.version).Some? ==>
              var candidate := Print(Successor(Parse(product.version).value, platform));
              if |candidate| > 128 then r == Err(InvalidCandidate)
              else if WindowsParts(product.windowsVersion).None? then r == Err(InvalidWindows)
              else if Number(WindowsParts(product.windowsVersion).value) == 0xffff_ffff_ffff_ffff
              then r == Err(Exhausted)
              else r.Ok? && r.value.version == candidate
    ensures r.Ok? ==>
              && Parse(product.version).Some? && Parse(r.value.version).Some?
              && Less(Parse(product.version).value, Parse(r.value.version).value)
              && WindowsParts(product.windowsVersion).Some? && WindowsParts(r.value.windowsVersion).Some?
              && Number(WindowsParts(r.value.windowsVersion).value)
                 == Number(WindowsParts(product.windowsVersion).value) + 1
    ensures Validated(product) && !platform.Other? ==>
              (r.Ok? <==>
                && NoLeadingZero(product.version) && CandidateLength(product.version, platform) <= 128
                && Number(WindowsParts(product.windowsVersion).value) != 0xffff_ffff_ffff_ffff)
    ensures Validated(product) ==> r != Err(InvalidWindows) && (r.Ok? ==> Validated(r.value))
  {
    hide Parse, Print, Less, SplitVersion, ValidVersion, LowerPre, Split, Join, Number, WellFormed, NoLeadingZero,
      CandidateLength;
    if ValidVersion(product.version) {
      ValidatedParses(product.version);
      if Parse(product.version).Some? {
        CandidateLengthIs(product.version, platform);
      }
    }
    if platform.Other? {
      return Err(UnsupportedTarget);
    }
    var previous := Parse(product.version);
    if previous.None? {
      return Err(InvalidBaseline);
    }
    PrintParsed(product.version);
    var next := Successor(previous.value, platform);
    SuccessorIsNewer(previous.value, platform);
    ParsePrinted(next);
    var version := Print(next);
    var parsed := Parse(version);
    if parsed.None? {
      return Err(InvalidCandidate);
    }
    LessTotal(previous.value, parsed.value);
    if Less(parsed.value, previous.value) || parsed.value == previous.value {
      return Err(NotNewer);
    }
    var parts := WindowsParts(product.windowsVersion);
    if parts.None? {
      return Err(InvalidWindows);
    }
    var windows := new nat[4](i requires 0 <= i < 4 => parts.value[i]);
    assert windows[..] == parts.value;
    assert Power(4) == 0x1_0000_0000_0000_0000 by { assert Power(1) == BASE && Power(2) == BASE * BASE; }
    NumberBelow(parts.value);
    var ok := Increment(windows);
    if !ok {
      return Err(Exhausted);
    }
    WindowsRoundTrip(windows[..]);
    if ValidVersion(product.version) {
      ValidatedHasLowerPre(product.version);
      SuccessorKeepsLower(previous.value, platform);
      PrintedIsValid(next);
    }
    return Ok(Product(version, Join(Decimals(windows[..]), '.')));
  }
}
