/** Decimal numbers and separated lists as text, printed and parsed. */
module VersionText {
  import opened Outcome

  predicate IsDigit(c: char) { '0' <= c <= '9' }

  predicate AllDigits(s: string) { forall i | 0 <= i < |s| :: IsDigit(s[i]) }

  /** Digits without a leading zero, or the single zero. */
  predicate Canonical(s: string) {
    s != [] && AllDigits(s) && (|s| > 1 ==> s[0] != '0')
  }

  function Digit(n: nat): char
    requires n < 10
  {
    '0' + n as char
  }

  /** `str` of a natural number. */
  function Decimal(n: nat): string {
    if n < 10 then [Digit(n)] else Decimal(n / 10) + [Digit(n % 10)]
  }

  /** `int` of a string of digits. */
  function Value(s: string): nat
    requires AllDigits(s)
  {
    if s == [] then 0 else Value(s[..|s| - 1]) * 10 + (s[|s| - 1] - '0') as nat
  }

  lemma {:induction false} ValueOfDecimal(n: nat)
    ensures Canonical(Decimal(n)) && (n > 0 ==> Decimal(n)[0] != '0')
    ensures Value(Decimal(n)) == n
  {
    if n < 10 {
      assert Decimal(n)[..0] == [];
    } else {
      ValueOfDecimal(n / 10);
      assert Decimal(n)[..|Decimal(n)| - 1] == Decimal(n / 10);
    }
  }

  lemma {:induction false} DecimalOfValue(s: string)
    requires Canonical(s)
    ensures Decimal(Value(s)) == s && (s[0] != '0' ==> Value(s) > 0)
  {
    var n := |s| - 1;
    if n == 0 {
      assert s[..0] == [];
    } else {
      DecimalOfValue(s[..n]);
      assert s == s[..n] + [s[n]];
      DecimalOfMore(Value(s[..n]), (s[n] - '0') as nat);
      assert Digit((s[n] - '0') as nat) == s[n];
      hide Decimal;
    }
  }

  lemma DecimalOfMore(n: nat, d: nat)
    requires n > 0 && d < 10
    ensures Decimal(n * 10 + d) == Decimal(n) + [Digit(d)]
  {
    assert (n * 10 + d) / 10 == n && (n * 10 + d) % 10 == d;
  }

  // ----- `int` of ASCII text -----

  const MAX_DIGITS: nat := 4300   // Python's own limit on the digits of a number's text

  predicate IsBlank(c: char) { c == ' ' || '\t' <= c <= '\r' }

  lemma BlanksEnd()
    ensures IsBlank(' ') && IsBlank(9 as char) && IsBlank(10 as char) && IsBlank(13 as char)
    ensures !IsBlank(8 as char) && !IsBlank(14 as char) && !IsBlank('0') && !IsBlank('_')
  {
  }

  function Trimmed(s: string): string {
    if s != [] && IsBlank(s[0]) then Trimmed(s[1..])
    else if s != [] && IsBlank(s[|s| - 1]) then Trimmed(s[..|s| - 1])
    else s
  }

  /** Digits, with single underscores between them. */
  predicate Grouped(s: string) {
    && s != [] && s[0] != '_' && s[|s| - 1] != '_'
    && (forall i | 0 <= i < |s| :: IsDigit(s[i]) || s[i] == '_')
    && (forall i | 1 <= i < |s| :: s[i - 1] != '_' || s[i] != '_')
  }

  function Ungrouped(s: string): (r: string)
    ensures forall i :: 0 <= i < |r| ==> r[i] in s && r[i] != '_'
  {
    if s == [] then []
    else
      var rest := Ungrouped(s[1..]);
      if s[0] == '_' then rest else [s[0]] + rest
  }

  /** The number that a text denotes, blanks, sign and underscores allowed; None is its error. */
  function Int(s: string): Option<int> {
    var t := Trimmed(s);
    var signed := t != [] && (t[0] == '-' || t[0] == '+');
    var body := if signed then t[1..] else t;
    if !Grouped(body) then None
    else
      assert AllDigits(Ungrouped(body));
      if |Ungrouped(body)| > MAX_DIGITS then None
      else
        var n: int := Value(Ungrouped(body));
        Some(if signed && t[0] == '-' then -n else n)
  }

  lemma {:induction false} UngroupedDigits(s: string)
    requires AllDigits(s)
    ensures Ungrouped(s) == s
  {
    if s != [] {
      UngroupedDigits(s[1..]);
      assert s == [s[0]] + s[1..];
    }
  }

  /** Plain digits, leading zeros included, denote their value. */
  lemma IntOfDigits(s: string)
    requires s != [] && AllDigits(s) && |s| <= MAX_DIGITS
    ensures Int(s) == Some(Value(s))
  {
    hide Value, Ungrouped;
    UngroupedDigits(s);
    assert IsDigit(s[0]) && IsDigit(s[|s| - 1]);
    TrimmedPlain(s);
  }

  lemma TrimmedPlain(s: string)
    requires s != [] && !IsBlank(s[0]) && !IsBlank(s[|s| - 1])
    ensures Trimmed(s) == s
  {
  }

  predicate AllBlank(s: string) { forall i | 0 <= i < |s| :: IsBlank(s[i]) }

  lemma {:induction false} TrimmedOf(before: string, core: string, after: string)
    requires AllBlank(before) && AllBlank(after)
    requires core != [] && !IsBlank(core[0]) && !IsBlank(core[|core| - 1])
    ensures Trimmed(before + core + after) == core
    decreases |before| + |after|
  {
    var s := before + core + after;
    if before != [] {
      assert s[1..] == before[1..] + core + after;
      TrimmedOf(before[1..], core, after);
    } else if after != [] {
      assert s[..|s| - 1] == before + core + after[..|after| - 1];
      TrimmedOf(before, core, after[..|after| - 1]);
    } else {
      assert s == core;
    }
  }

  lemma {:induction false} UngroupedTwo(a: string, b: string)
    requires AllDigits(a) && AllDigits(b)
    ensures Ungrouped(a + "_" + b) == a + b
  {
    if a == [] {
      assert a + "_" + b == ['_'] + b;
      UngroupedDigits(b);
    } else {
      assert (a + "_" + b)[1..] == a[1..] + "_" + b && a + b == [a[0]] + (a[1..] + b);
      UngroupedTwo(a[1..], b);
    }
  }

  /** Blanks around digits, a sign before and an underscore between them are read over. */
  lemma IntOfDressed(before: string, sign: string, a: string, b: string, after: string)
    requires AllBlank(before) && AllBlank(after) && (sign == "" || sign == "+" || sign == "-")
    requires a != [] && b != [] && AllDigits(a) && AllDigits(b) && |a + b| <= 4300
    ensures var n: int := Value(a + b);
            Int(before + (sign + (a + "_" + b)) + after) == Some(if sign == "-" then -n else n)
  {
    hide Value, Ungrouped, Trimmed;
    var body := a + "_" + b;
    var core := sign + body;
    UngroupedTwo(a, b);
    assert IsDigit(a[0]) && IsDigit(b[|b| - 1]) && body[0] == a[0] && body[|body| - 1] == b[|b| - 1];
    assert core[|core| - 1] == body[|body| - 1];
    TrimmedOf(before, core, after);
    assert Grouped(body);
    if sign == "" { assert core == body; } else { assert core[1..] == body; }
  }

  /** Doubled, leading or trailing underscores, points, and no or too many digits are refused. */
  lemma IntRefuses(a: string, b: string)
    requires AllDigits(a) && AllDigits(b)
    ensures Int("_" + a) == None && Int(a + "_") == None && Int(a + "__" + b) == None && Int(a + "." + b) == None
    ensures a == "" || |a| > 4300 ==> Int(a) == None
  {
    hide Value, Ungrouped;
    var leading, trailing, doubled, dotted := "_" + a, a + "_", a + "__" + b, a + "." + b;
    assert leading[0] == '_' && trailing[|a|] == '_' && doubled[|a|] == '_' && doubled[|a| + 1] == '_';
    assert dotted[|a|] == '.';
    NoBlanks(leading);
    NoBlanks(trailing);
    NoBlanks(doubled);
    NoBlanks(dotted);
    NoBlanks(a);
    UngroupedDigits(a);
    assert !Grouped(leading) && !Grouped(trailing) && !Grouped(doubled) && !Grouped(dotted);
  }

  lemma NoBlanks(s: string)
    requires forall i :: 0 <= i < |s| ==> !IsBlank(s[i])
    ensures Trimmed(s) == s
  {
  }

  lemma DecimalIsShort(n: nat)
    requires n < 0x1_0000
    ensures |Decimal(n)| <= 5
  {
    assert n / 10 / 10 / 10 / 10 < 10;
    assert |Decimal(n / 10 / 10 / 10)| <= 2 && |Decimal(n / 10 / 10)| <= 3 && |Decimal(n / 10)| <= 4;
  }

  // ----- separated lists -----

  /** `s.split(c)`. */
  function Split(s: string, c: char): (parts: seq<string>)
    ensures parts != []
  {
    if s == [] then [[]]
    else
      var rest := Split(s[1..], c);
      if s[0] == c then [[]] + rest else [[s[0]] + rest[0]] + rest[1..]
  }

  /** `c.join(parts)`. */
  function Join(parts: seq<string>, c: char): string {
    if parts == [] then []
    else if |parts| == 1 then parts[0]
    else parts[0] + [c] + Join(parts[1..], c)
  }

  lemma {:induction false} SplitPart(part: string, rest: string, c: char)
    requires c !in part
    ensures Split(part + [c] + rest, c) == [part] + Split(rest, c)
    ensures Split(part, c) == [part]
  {
    if part == [] {
      assert part + [c] + rest == [c] + rest;
    } else {
      SplitPart(part[1..], rest, c);
      assert part[0] in part && part == [part[0]] + part[1..];
      assert (part + [c] + rest)[1..] == part[1..] + [c] + rest;
    }
  }

  lemma {:induction false} SplitJoin(parts: seq<string>, c: char)
    requires parts != [] && forall i :: 0 <= i < |parts| ==> c !in parts[i]
    ensures Split(Join(parts, c), c) == parts
  {
    if |parts| == 1 {
      SplitPart(parts[0], [], c);
    } else {
      SplitPart(parts[0], Join(parts[1..], c), c);
      SplitJoin(parts[1..], c);
    }
  }

  lemma {:induction false} JoinSplit(s: string, c: char)
    ensures Join(Split(s, c), c) == s
    ensures forall i :: 0 <= i < |Split(s, c)| ==> c !in Split(s, c)[i]
  {
    if s != [] {
      JoinSplit(s[1..], c);
      var rest := Split(s[1..], c);
      var parts := Split(s, c);
      assert s == [s[0]] + s[1..];
      if s[0] == c {
        assert parts[1..] == rest;
      } else {
        assert parts[1..] == rest[1..];
        JoinFirst(rest, c, s[0]);
      }
    }
  }

  /** A character put before the first part comes first in the whole. */
  lemma JoinFirst(parts: seq<string>, c: char, x: char)
    requires parts != []
    ensures Join([[x] + parts[0]] + parts[1..], c) == [x] + Join(parts, c)
  {
    var longer := [[x] + parts[0]] + parts[1..];
    assert longer[1..] == parts[1..];
    if |parts| > 1 {
      assert [x] + parts[0] + [c] + Join(parts[1..], c) == [x] + (parts[0] + [c] + Join(parts[1..], c));
    }
  }

  lemma {:induction false} JoinChars(parts: seq<string>, c: char, x: char)
    requires x != c && forall i :: 0 <= i < |parts| ==> x !in parts[i]
    ensures x !in Join(parts, c)
  {
    if |parts| > 1 {
      JoinChars(parts[1..], c, x);
    }
  }

  /** The first place of `c` in `s`, or its length. */
  function Find(s: string, c: char): (i: nat)
    ensures i <= |s| && c !in s[..i] && (i < |s| ==> s[i] == c)
  {
    if s == [] || s[0] == c then 0
    else
      var i := Find(s[1..], c);
      assert s[..i + 1] == [s[0]] + s[1..][..i];
      i + 1
  }

  lemma {:induction false} FindAt(a: string, c: char, b: string)
    requires c !in a
    ensures Find(a + [c] + b, c) == |a| && Find(a, c) == |a|
  {
    if a == [] {
      assert a + [c] + b == [c] + b;
    } else {
      FindAt(a[1..], c, b);
      assert a[0] in a;
      assert (a + [c] + b)[1..] == a[1..] + [c] + b;
    }
  }
}
