/** Cooking and preparation times are ISO 8601 durations (section 4.4.3.2 of ISO
    8601:2004) as accepted by `java.time.Duration.parse` and printed by
    `Duration.toString`.  This module covers the unsigned, whole-second, upper-case
    subset `P[nD][T[nH][nM][nS]]`, measured in seconds. */
module Durations {
  import opened Wrappers

  predicate IsDigit(c: char) {
    '0' <= c <= '9'
  }

  predicate AllDigits(s: string) {
    forall i | 0 <= i < |s| :: IsDigit(s[i])
  }

  /** The number a string of decimal digits denotes. */
  function DigitsValue(s: string): nat
    requires AllDigits(s)
  {
    if s == [] then 0 else DigitsValue(s[..|s| - 1]) * 10 + (s[|s| - 1] - '0') as int
  }

  /** The length of the longest prefix of `s` made of digits. */
  function DigitPrefix(s: string): (n: nat)
    ensures n <= |s|
    ensures AllDigits(s[..n])
    ensures n < |s| ==> !IsDigit(s[n])
  {
    if s == [] || !IsDigit(s[0]) then 0
    else
      var n := 1 + DigitPrefix(s[1..]);
      assert s[..n] == [s[0]] + s[1..][..n - 1];
      n
  }

  /** One optional section `<digits><designator>` at the start of `s`: its value and
      what follows it, or None when the section is absent. */
  function Section(s: string, designator: char): (r: Option<(nat, string)>)
    ensures r.Some? ==> |r.value.1| < |s|
  {
    var n := DigitPrefix(s);
    if 0 < n < |s| && s[n] == designator then Some((DigitsValue(s[..n]), s[n + 1..])) else None
  }

  function ValueOr0(r: Option<(nat, string)>): nat {
    if r.Some? then r.value.0 else 0
  }

  function RestOr(r: Option<(nat, string)>, s: string): string {
    if r.Some? then r.value.1 else s
  }

  /** The time part after the letter T: hours, minutes and seconds sections, each
      optional but at least one present, and nothing after them. */
  function TimeSections(t: string): Option<nat> {
    var h := Section(t, 'H');
    var afterHours := RestOr(h, t);
    var m := Section(afterHours, 'M');
    var afterMinutes := RestOr(m, afterHours);
    var sec := Section(afterMinutes, 'S');
    if RestOr(sec, afterMinutes) != [] || (h.None? && m.None? && sec.None?) then None
    else Some(ValueOr0(h) * 3600 + ValueOr0(m) * 60 + ValueOr0(sec))
  }

  /** The seconds a text of the subset denotes, with no bound on their size: None when
      the text is not a duration (no leading P, a stray character, a T with no time
      section, or no section at all). */
  function ParseAmount(s: string): Option<nat> {
    if s == [] || s[0] != 'P' then None
    else
      var d := Section(s[1..], 'D');
      var afterDays := RestOr(d, s[1..]);
      if afterDays == [] then
        (if d.Some? then Some(ValueOr0(d) * 86400) else None)
      else if afterDays[0] != 'T' then None
      else
        match TimeSections(afterDays[1..])
        case None => None
        case Some(v) => Some(ValueOr0(d) * 86400 + v)
  }

  /** The largest number of seconds a `Duration` holds: `Long.MAX_VALUE`. */
  const LongMax: nat := 0x7FFF_FFFF_FFFF_FFFF

  /** `Duration.parse` on the subset.  Each section is read with `Long.parseLong`,
      scaled with `Math.multiplyExact` and summed with `Math.addExact`; as no amount is
      negative, one of these overflows exactly when the total exceeds `LongMax`, and
      the text is then rejected. */
  function Parse(s: string): (r: Option<nat>)
    ensures r.Some? ==> r.value <= LongMax && ParseAmount(s) == r
    ensures r.None? <==> ParseAmount(s).None? || ParseAmount(s).value > LongMax
  {
    match ParseAmount(s)
    case None => None
    case Some(v) => if v <= LongMax then Some(v) else None
  }

  /** Decimal digits of `n`, without leading zeros. */
  function NatToString(n: nat): (s: string)
    ensures s != [] && AllDigits(s)
    decreases n
  {
    var d := ['0' + (n % 10) as char];
    if n < 10 then d else NatToString(n / 10) + d
  }

  /** A printed section, or nothing when its value is zero. */
  function Piece(v: nat, designator: char): string {
    if v != 0 then NatToString(v) + [designator] else ""
  }

  /** `Duration.toString` for a whole number of seconds: hours, minutes and seconds
      sections, each left out when zero, and `PT0S` for the zero duration. */
  function Format(seconds: nat): (t: string)
    ensures |t| >= 4 && t[..2] == "PT"
    ensures seconds == 0 ==> t == "PT0S"
  {
    if seconds == 0 then "PT0S"
    else "PT" + Piece(seconds / 3600, 'H') + Piece(seconds % 3600 / 60, 'M') + Piece(seconds % 60, 'S')
  }

  lemma {:induction false} NatToStringValue(n: nat)
    ensures DigitsValue(NatToString(n)) == n
    decreases n
  {
    var s := NatToString(n);
    if n >= 10 {
      NatToStringValue(n / 10);
      assert s[..|s| - 1] == NatToString(n / 10);
    }
  }

  lemma {:induction false} DigitPrefixOf(ds: string, tail: string)
    requires AllDigits(ds)
    requires tail == [] || !IsDigit(tail[0])
    ensures DigitPrefix(ds + tail) == |ds|
    decreases |ds|
  {
    if ds != [] {
      assert (ds + tail)[1..] == ds[1..] + tail;
      DigitPrefixOf(ds[1..], tail);
    }
  }

  /** A printed section reads back as itself. */
  lemma SectionOfPrinted(v: nat, designator: char, rest: string)
    requires !IsDigit(designator)
    ensures Section(NatToString(v) + [designator] + rest, designator) == Some((v, rest))
  {
    var ds := NatToString(v);
    var s := ds + [designator] + rest;
    assert s == ds + ([designator] + rest);
    DigitPrefixOf(ds, [designator] + rest);
    assert s[..|ds|] == ds;
    assert s[|ds| + 1..] == rest;
    NatToStringValue(v);
  }

  /** A printed section with another designator is not mistaken for this one. */
  lemma SectionOfOther(v: nat, other: char, designator: char, rest: string)
    requires !IsDigit(other) && other != designator
    ensures Section(NatToString(v) + [other] + rest, designator) == None
  {
    var ds := NatToString(v);
    assert ds + [other] + rest == ds + ([other] + rest);
    DigitPrefixOf(ds, [other] + rest);
  }

  lemma SectionOfNonDigit(s: string, designator: char)
    requires s == [] || !IsDigit(s[0])
    ensures Section(s, designator) == None
  {
  }

  lemma SplitSeconds(n: nat, h: nat, m: nat, s: nat)
    requires h == n / 3600 && m == n % 3600 / 60 && s == n % 60
    ensures n == h * 3600 + m * 60 + s
  {
    var r := n % 3600;
    assert n == h * 3600 + r;
    assert r == m * 60 + r % 60;
    assert n == (h * 60 + m) * 60 + r % 60;
    assert n % 60 == r % 60;
  }

  /** A non-zero printed section reads back as itself. */
  lemma PieceSection(v: nat, designator: char, rest: string)
    requires v != 0 && !IsDigit(designator)
    ensures Section(Piece(v, designator) + rest, designator) == Some((v, rest))
  {
    SectionOfPrinted(v, designator, rest);
  }

  /** A non-zero printed section is not read under another designator. */
  lemma PieceOther(v: nat, other: char, designator: char, rest: string)
    requires v != 0 && !IsDigit(other) && other != designator
    ensures Section(Piece(v, other) + rest, designator) == None
  {
    SectionOfOther(v, other, designator, rest);
  }

  lemma Regroup3(a: string, b: string, c: string)
    ensures a + b + c == a + (b + c)
  {
  }

  /** Minutes and seconds sections hold no hours section. */
  lemma NoHoursIn(m: nat, s: nat)
    ensures Section(Piece(m, 'M') + Piece(s, 'S'), 'H') == None
  {
    if m != 0 {
      PieceOther(m, 'M', 'H', Piece(s, 'S'));
    } else if s != 0 {
      assert Piece(m, 'M') + Piece(s, 'S') == Piece(s, 'S') + [];
      PieceOther(s, 'S', 'H', []);
    } else {
      assert Piece(m, 'M') + Piece(s, 'S') == [];
    }
  }

  lemma SecondsStep(s: nat)
    ensures Section(Piece(s, 'S'), 'S') == if s != 0 then Some((s, [])) else None
  {
    if s != 0 {
      assert Piece(s, 'S') == Piece(s, 'S') + [];
      PieceSection(s, 'S', []);
    }
  }

  lemma MinutesStep(m: nat, s: nat)
    ensures Section(Piece(m, 'M') + Piece(s, 'S'), 'M') == if m != 0 then Some((m, Piece(s, 'S'))) else None
  {
    if m != 0 {
      PieceSection(m, 'M', Piece(s, 'S'));
    } else if s != 0 {
      assert Piece(m, 'M') + Piece(s, 'S') == Piece(s, 'S') + [];
      PieceOther(s, 'S', 'M', []);
    } else {
      assert Piece(m, 'M') + Piece(s, 'S') == [];
    }
  }

  lemma HoursStep(h: nat, m: nat, s: nat)
    ensures Section(Piece(h, 'H') + Piece(m, 'M') + Piece(s, 'S'), 'H')
         == if h != 0 then Some((h, Piece(m, 'M') + Piece(s, 'S'))) else None
  {
    var rest := Piece(m, 'M') + Piece(s, 'S');
    Regroup3(Piece(h, 'H'), Piece(m, 'M'), Piece(s, 'S'));
    if h != 0 {
      PieceSection(h, 'H', rest);
    } else {
      assert Piece(h, 'H') + rest == rest;
      NoHoursIn(m, s);
    }
  }

  /** Time sections recognised one after the other make up the time part. */
  lemma TimeSectionsOf(t: string, a: string, b: string, hp: bool, mp: bool, sp: bool, h: nat, m: nat, s: nat, total: nat)
    requires Section(t, 'H') == (if hp then Some((h, a)) else None) && (!hp ==> t == a && h == 0)
    requires Section(a, 'M') == (if mp then Some((m, b)) else None) && (!mp ==> a == b && m == 0)
    requires Section(b, 'S') == (if sp then Some((s, [])) else None) && (!sp ==> b == [] && s == 0)
    requires hp || mp || sp
    requires total == h * 3600 + m * 60 + s
    ensures TimeSections(t) == Some(total)
  {
    var hs := Section(t, 'H');
    assert RestOr(hs, t) == a && ValueOr0(hs) == h;
    var ms := Section(a, 'M');
    assert RestOr(ms, a) == b && ValueOr0(ms) == m;
    var ss := Section(b, 'S');
    assert RestOr(ss, b) == [] && ValueOr0(ss) == s;
    assert !(hs.None? && ms.None? && ss.None?);
  }

  /** The printed time sections read back as the seconds they stand for. */
  lemma TimeSectionsPrinted(h: nat, m: nat, s: nat, total: nat)
    requires h != 0 || m != 0 || s != 0
    requires total == h * 3600 + m * 60 + s
    ensures TimeSections(Piece(h, 'H') + Piece(m, 'M') + Piece(s, 'S')) == Some(total)
  {
    HoursStep(h, m, s);
    MinutesStep(m, s);
    SecondsStep(s);
    TimeSectionsOf(Piece(h, 'H') + Piece(m, 'M') + Piece(s, 'S'), Piece(m, 'M') + Piece(s, 'S'), Piece(s, 'S'),
                   h != 0, m != 0, s != 0, h, m, s, total);
  }

  lemma ParseTime(t: string)
    ensures ParseAmount("PT" + t) == TimeSections(t)
  {
    var s := "PT" + t;
    var afterP := s[1..];
    assert afterP == ['T'] + t;
    var d := Section(afterP, 'D');
    SectionOfNonDigit(afterP, 'D');
    assert RestOr(d, afterP) == afterP && ValueOr0(d) == 0;
    assert afterP[1..] == t;
  }

  lemma ParsePrinted(h: nat, m: nat, s: nat, total: nat)
    requires h != 0 || m != 0 || s != 0
    requires total == h * 3600 + m * 60 + s
    ensures ParseAmount("PT" + Piece(h, 'H') + Piece(m, 'M') + Piece(s, 'S')) == Some(total)
  {
    var t := Piece(h, 'H') + Piece(m, 'M') + Piece(s, 'S');
    TimeSectionsPrinted(h, m, s, total);
    ParseOfTime(t, total);
    Regroup("PT", Piece(h, 'H'), Piece(m, 'M'), Piece(s, 'S'));
  }

  lemma Regroup(a: string, b: string, c: string, d: string)
    ensures a + b + c + d == a + (b + c + d)
  {
  }

  lemma ParseOfTime(t: string, v: nat)
    requires TimeSections(t) == Some(v)
    ensures ParseAmount("PT" + t) == Some(v)
  {
    ParseTime(t);
  }


  lemma ParseZero()
    ensures ParseAmount(Format(0)) == Some(0)
  {
    var t := "0S";
    assert t == NatToString(0) + ['S'] + [];
    SectionOfOther(0, 'S', 'H', []);
    SectionOfOther(0, 'S', 'M', []);
    SectionOfPrinted(0, 'S', []);
    TimeSectionsOf(t, t, t, false, false, true, 0, 0, 0, 0);
    ParseTime(t);
    assert Format(0) == "PT" + t;
  }

  /** The printed text of any amount denotes that amount. */
  lemma FormatAmount(n: nat)
    ensures ParseAmount(Format(n)) == Some(n)
  {
    if n == 0 {
      ParseZero();
    } else {
      var h, m, sec := n / 3600, n % 3600 / 60, n % 60;
      assert Format(n) == "PT" + Piece(h, 'H') + Piece(m, 'M') + Piece(sec, 'S');
      SplitSeconds(n, h, m, sec);
      ParsePrinted(h, m, sec, n);
    }
  }

  /** Printing a duration and parsing the text back yields the same number of seconds,
      for every amount a `Duration` can hold. */
  lemma ParseFormat(n: nat)
    requires n <= LongMax
    ensures Parse(Format(n)) == Some(n)
  {
    FormatAmount(n);
  }

  /** An amount past `LongMax` written in the same form is rejected. */
  lemma ParseOverflow(n: nat)
    requires n > LongMax
    ensures Parse(Format(n)) == None
  {
    FormatAmount(n);
  }
}
