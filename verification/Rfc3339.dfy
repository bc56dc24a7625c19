/**
Timestamps as text, section 5.6 of RFC 3339: src/detail/rfc3339.cc, ParseRFC3339 and
FormatRFC3339Nano.
 */
module Rfc3339 {
  import opened Options
  import opened Powers
  import opened LimbArith
  import opened DecimalText
  import opened Literals
  import opened Calendar

  datatype Timestamp = Timestamp(seconds: int, nanos: int)

  // ---- Digits of a fixed width ----

  /** The last w digits of n. */
  function Pad(n: nat, w: nat): (s: string)
    ensures |s| == w && AllDigits(s)
    decreases w
  {
    if w == 0 then "" else Pad(n / 10, w - 1) + [DigitChar(n % 10)]
  }

  lemma {:induction false} PadValue(n: nat, w: nat)
    requires n < Pow(10, w)
    ensures DecValue(Pad(n, w)) == n
    decreases w
  {
    hide DecValue;
    if w == 0 {
      DecEmpty();
    } else {
      PadValue(n / 10, w - 1);
      DecSnoc(Pad(n / 10, w - 1), DigitChar(n % 10));
    }
  }

  /** At least w digits. */
  function AtLeast(n: nat, w: nat): string {
    if n < Pow(10, w) then Pad(n, w) else Dec(n)
  }

  /** At least w columns, a sign among them. */
  function Columns(n: int, w: nat): string {
    if n >= 0 then AtLeast(n, w) else "-" + AtLeast(-n, if w > 0 then w - 1 else 0)
  }

  function YearText(y: int): string {
    Columns(y, 4)
  }

  // ---- Writing ----

  /** The date and time of day, to the second. */
  function HeadText(t: Date, tod: nat): string
    requires t.m >= 0 && t.d >= 0
  {
    YearText(t.y) + "-" + AtLeast(t.m, 2) + "-" + AtLeast(t.d, 2)
    + "T" + AtLeast(tod / 3600, 2) + ":" + AtLeast(tod / 60 % 60, 2) + ":" + AtLeast(tod % 60, 2)
  }

  /** n without its trailing zeros, and how many digits of nine are left. */
  function Trimmed9(n: int, w: nat): (int, nat)
    requires n != 0
    decreases w
  {
    if n % 10 == 0 && w > 0 then Trimmed9(n / 10, w - 1) else (n, w)
  }

  function FractionText(nanos: int): string {
    if nanos == 0 then "" else var (n, w) := Trimmed9(nanos, 9); "." + Columns(n, w)
  }

  function FormatText(seconds: int, nanos: int): string {
    var days := seconds / 86400;
    var date := CivilFromDays(days);
    if date.m >= 0 && date.d >= 0 then HeadText(date, seconds % 86400) + FractionText(nanos) + "Z" else ""
  }

  method FormatRFC3339Nano(seconds: int, nanos: I32) returns (s: string)
    ensures s == FormatText(seconds, nanos)
  {
    hide CivilFromDays, AtLeast, YearText, Columns;
    var days := TruncDiv(seconds, 86400);
    var tod := seconds - days * 86400;
    if tod < 0 {
      days := days - 1;
      tod := tod + 86400;
    }
    FloorDay(seconds, days, tod);
    var date := CivilFromDays(days);
    DateOfDay(days);
    var head := HeadText(date, tod);
    if nanos == 0 {
      assert head + "" == head;
      return head + "Z";
    }
    var width, n: int := 9, nanos;
    NinePowers();
    while n % 10 == 0
      invariant n != 0 && 0 <= width <= 9 && InColumns(n, width)
      invariant Trimmed9(n, width) == Trimmed9(nanos, 9)
      decreases width
    {
      FewerDigits(n, width);
      n := TruncDiv(n, 10);
      width := width - 1;
    }
    s := head + ("." + Columns(n, width)) + "Z";
  }

  lemma NinePowers()
    ensures Pow(10, 9) == 1_000_000_000
  {
    WordPowers();
  }

  /** An int32 is below three times 10^9, which leaves it a column for each of its digits but the first. */
  predicate InColumns(n: int, w: nat) {
    -3 * Pow(10, w) < n < 3 * Pow(10, w)
  }

  lemma FewerDigits(n: int, w: nat)
    requires n != 0 && n % 10 == 0 && InColumns(n, w)
    ensures w > 0 && n / 10 != 0 && InColumns(n / 10, w - 1) && TruncDiv(n, 10) == n / 10
  {
  }

  lemma FloorDay(seconds: int, days: int, tod: int)
    requires var q := TruncDiv(seconds, 86400);
             var r := seconds - q * 86400;
             days == (if r < 0 then q - 1 else q) && tod == (if r < 0 then r + 86400 else r)
    ensures days == seconds / 86400 && tod == seconds % 86400
  {
  }

  // ---- Reading ----

  /** Nine digits of a fraction: more are cut, fewer are padded. */
  function FracNanos(ds: string): nat
    requires AllDigits(ds)
  {
    var k := if |ds| > 9 then 9 else |ds|;
    assert AllDigits(ds[..k]);
    DecValue(ds[..k]) * Pow(10, 9 - k)
  }

  /** The offset from UTC in seconds a timestamp ends with. */
  function ZoneText(s: string): Option<int> {
    if s == "Z" then Some(0)
    else if |s| == 6 && (s[0] == '+' || s[0] == '-') && s[3] == ':' && AllDigits(s[1..3]) && AllDigits(s[4..6]) then
      var oh, om := DecValue(s[1..3]), DecValue(s[4..6]);
      if oh > 24 || om > 60 then None
      else Some(if s[0] == '-' then -(oh * 3600 + om * 60) else oh * 3600 + om * 60)
    else None
  }

  /** The fraction and the zone that follow the seconds. */
  function TailText(s: string): Option<(nat, int)> {
    var frac := |s| >= 2 && (s[0] == '.' || s[0] == ',') && IsDigit(s[1]);
    var (ds, rest) := if frac then Span(s[1..]) else ("", s);
    match ZoneText(rest)
    case None => None
    case Some(z) => Some((if frac then FracNanos(ds) else 0, z))
  }

  function ParseText(s: string): Option<Timestamp> {
    if |s| < 19 || s[4] != '-' || s[7] != '-' || s[10] != 'T' then None
    else
      var hd := if IsDigit(s[12]) then 2 else 1;
      var mi := 12 + hd;
      if |s| < mi + 6 || s[mi - 1] != ':' || s[mi + 2] != ':' then None
      else if !(AllDigits(s[0..4]) && AllDigits(s[5..7]) && AllDigits(s[8..10]) && AllDigits(s[11..11 + hd])
                && AllDigits(s[mi..mi + 2]) && AllDigits(s[mi + 3..mi + 5])) then None
      else
        match TailText(s[mi + 5..])
        case None => None
        case Some((nanos, zone)) =>
          var date := Date(DecValue(s[0..4]), DecValue(s[5..7]), DecValue(s[8..10]));
          var h, m, sec := DecValue(s[11..11 + hd]), DecValue(s[mi..mi + 2]), DecValue(s[mi + 3..mi + 5]);
          if !ValidDate(date) || h > 23 || m > 59 || sec > 59 then None
          else Some(Timestamp(DaysFromCivil(date) * 86400 + h * 3600 + m * 60 + sec - zone, nanos))
  }

  method ParseUInt(s: string) returns (ok: bool, out: nat)
    ensures ok == AllDigits(s) && (ok ==> out == DecValue(s))
  {
    hide DecValue;
    out := 0;
    var i := 0;
    assert s[..0] == "";
    DecEmpty();
    while i < |s|
      invariant 0 <= i <= |s| && AllDigits(s[..i]) && out == DecValue(s[..i])
    {
      if !IsDigit(s[i]) {
        return false, 0;
      }
      assert s[..i + 1] == s[..i] + [s[i]];
      DecSnoc(s[..i], s[i]);
      out := out * 10 + DigitValue(s[i]);
      i := i + 1;
    }
    assert s[..i] == s;
    ok := true;
  }

  /** The digits from pos on: where they end, and the nanoseconds they make. */
  method ParseFraction(s: string, pos0: nat) returns (pos: nat, nanos: nat)
    requires pos0 <= |s|
    ensures pos0 <= pos <= |s| && Span(s[pos0..]) == (s[pos0..pos], s[pos..])
    ensures AllDigits(s[pos0..pos]) && nanos == FracNanos(s[pos0..pos])
  {
    hide DecValue, Span;
    pos := pos0;
    var frac, digits := 0, 0;
    DecEmpty();
    assert s[pos0..pos0] == "" && s[pos0..][..0] == "";
    while pos < |s| && IsDigit(s[pos])
      invariant pos0 <= pos <= |s| && AllDigits(s[pos0..pos])
      invariant digits == (if pos - pos0 > 9 then 9 else pos - pos0)
      invariant AllDigits(s[pos0..pos0 + digits]) && frac == DecValue(s[pos0..pos0 + digits])
    {
      assert s[pos0..pos + 1] == s[pos0..pos] + [s[pos]];
      if digits < 9 {
        DecSnoc(s[pos0..pos], s[pos]);
        frac := frac * 10 + DigitValue(s[pos]);
        digits := digits + 1;
      }
      pos := pos + 1;
    }
    SpanIs(s, pos0, pos);
    ghost var k, read := digits, frac;
    assert s[pos0..pos][..k] == s[pos0..pos0 + k];
    assert read * Pow(10, 0) == read;
    while digits < 9
      invariant k <= digits <= 9 && frac == read * Pow(10, digits - k)
    {
      TenMore(read, digits - k);
      frac := frac * 10;
      digits := digits + 1;
    }
    nanos := frac;
  }

  lemma TenMore(a: nat, k: nat)
    ensures a * Pow(10, k) * 10 == a * Pow(10, k + 1)
  {
    MulAssoc(a, Pow(10, k), 10);
  }

  /** A run of digits that something other than a digit ends. */
  lemma SpanIs(s: string, i: nat, j: nat)
    requires i <= j <= |s| && AllDigits(s[i..j]) && (j < |s| ==> !IsDigit(s[j]))
    ensures Span(s[i..]) == (s[i..j], s[j..])
  {
    SpanConcat(s[i..j], s[j..]);
    assert s[i..j] + s[j..] == s[i..];
  }

  method ParseZone(s: string, pos: nat) returns (r: Option<int>)
    requires pos <= |s|
    ensures r == ZoneText(s[pos..])
  {
    hide DecValue;
    var z := s[pos..];
    if pos >= |s| {
      return None;
    }
    if s[pos] == 'Z' {
      assert z[0] == 'Z' && (pos + 1 == |s| ==> z == "Z");
      return if pos + 1 == |s| then Some(0) else None;
    }
    if s[pos] != '+' && s[pos] != '-' {
      return None;
    }
    if |s| - pos != 6 || s[pos + 3] != ':' {
      return None;
    }
    assert z[1..3] == s[pos + 1..pos + 3] && z[4..6] == s[pos + 4..pos + 6];
    var okH, oh := ParseUInt(s[pos + 1..pos + 3]);
    var okM, om := ParseUInt(s[pos + 4..pos + 6]);
    if !okH || !okM || oh > 24 || om > 60 {
      return None;
    }
    var offset: int := oh * 3600 + om * 60;
    r := Some(if s[pos] == '-' then -offset else offset);
  }

  method ParseTail(s: string, pos0: nat) returns (r: Option<(nat, int)>)
    requires pos0 <= |s|
    ensures r == TailText(s[pos0..])
  {
    hide FracNanos, ZoneText, Span;
    var pos, nanos := pos0, 0;
    if pos < |s| && (s[pos] == '.' || s[pos] == ',') && pos + 1 < |s| && IsDigit(s[pos + 1]) {
      pos, nanos := ParseFraction(s, pos + 1);
      assert s[pos0..][1..] == s[pos0 + 1..];
    }
    var zone := ParseZone(s, pos);
    if zone.None? {
      return None;
    }
    r := Some((nanos, zone.value));
  }

  method ParseRFC3339(s: string) returns (r: Option<Timestamp>)
    ensures r == ParseText(s)
  {
    hide DecValue, TailText, ValidDate, DaysFromCivil, AllDigits;
    if |s| < 19 {
      return None;
    }
    if s[4] != '-' || s[7] != '-' || s[10] != 'T' {
      return None;
    }
    var hourDigits := if IsDigit(s[12]) then 2 else 1;
    var minutes := 11 + hourDigits + 1;
    if |s| < minutes + 6 || s[minutes - 1] != ':' || s[minutes + 2] != ':' {
      return None;
    }
    var ok1, year := ParseUInt(s[0..4]);
    var ok2, month := ParseUInt(s[5..7]);
    var ok3, day := ParseUInt(s[8..10]);
    var ok4, hour := ParseUInt(s[11..11 + hourDigits]);
    var ok5, minute := ParseUInt(s[minutes..minutes + 2]);
    var ok6, second := ParseUInt(s[minutes + 3..minutes + 5]);
    if !ok1 || !ok2 || !ok3 || !ok4 || !ok5 || !ok6 {
      return None;
    }
    var tail := ParseTail(s, minutes + 5);
    if tail.None? {
      return None;
    }
    var date := Date(year, month, day);
    if !ValidDate(date) || hour > 23 || minute > 59 || second > 59 {
      return None;
    }
    r := Some(Timestamp(DaysFromCivil(date) * 86400 + hour * 3600 + minute * 60 + second - tail.value.1, tail.value.0));
  }

  // ---- Reading back what was written ----

  lemma {:induction false} Trimmed9Is(n: nat, w: nat)
    requires 0 < n < Pow(10, w) && w <= 9
    ensures var (k, v) := Trimmed9(n, w);
            0 < v <= w && 0 < k < Pow(10, v) && k * Pow(10, 9 - v) == n * Pow(10, 9 - w)
    decreases n
  {
    TenTimes(w);
    hide Pow;
    if n % 10 == 0 && w > 0 {
      var q := n / 10;
      assert n == q * 10 && 0 < q < Pow(10, w - 1);
      Trimmed9Is(q, w - 1);
      MulAssoc(q, 10, Pow(10, 9 - w));
    }
  }

  lemma TenTimes(w: nat)
    ensures w > 0 ==> Pow(10, w) == 10 * Pow(10, w - 1)
    ensures 0 < w <= 9 ==> Pow(10, 9 - (w - 1)) == 10 * Pow(10, 9 - w)
    ensures w == 0 ==> Pow(10, w) == 1
  {
  }

  lemma TrimmedNanos(nanos: nat)
    requires 0 < nanos < 1_000_000_000
    ensures var (k, v) := Trimmed9(nanos, 9); 0 < v <= 9 && 0 < k < Pow(10, v) && k * Pow(10, 9 - v) == nanos
  {
    hide Pow, Trimmed9;
    NinePowers();
    Trimmed9Is(nanos, 9);
    TenToZero();
  }

  /** A fraction and Z, read back. */
  lemma {:induction false} TailReads(nanos: nat)
    requires nanos < 1_000_000_000
    ensures TailText(FractionText(nanos) + "Z") == Some((nanos, 0))
  {
    hide DecValue, Span, Trimmed9, Pow;
    if nanos == 0 {
      assert "" + "Z" == "Z";
    } else {
      hide FracNanos, Pad, AllDigits;
      TrimmedNanos(nanos);
      var (n, w) := Trimmed9(nanos, 9);
      var ds := Pad(n, w);
      PadNanos(n, w);
      SpanConcat(ds, "Z");
      var s := FractionText(nanos) + "Z";
      assert s == "." + (ds + "Z");
      assert s[1..] == ds + "Z";
      assert s[1] == ds[0];
    }
  }

  lemma PadNanos(n: nat, w: nat)
    requires 0 < w <= 9 && n < Pow(10, w)
    ensures FracNanos(Pad(n, w)) == n * Pow(10, 9 - w) && IsDigit(Pad(n, w)[0])
  {
    hide DecValue, Pow;
    var ds := Pad(n, w);
    PadValue(n, w);
    assert ds[..w] == ds;
  }

  lemma SmallPowers()
    ensures Pow(10, 2) == 100 && Pow(10, 4) == 10000
  {
    PowAdd(10, 2, 2);
  }

  /** The columns of a timestamp of a four-digit year. */
  lemma HeadColumns(y: string, m: string, d: string, h: string, i: string, c: string, tail: string)
    requires |y| == 4 && |m| == 2 && |d| == 2 && |h| == 2 && |i| == 2 && |c| == 2
    ensures var s := y + "-" + m + "-" + d + "T" + h + ":" + i + ":" + c + tail;
            && |s| == 19 + |tail| && s[4] == '-' && s[7] == '-' && s[10] == 'T' && s[13] == ':' && s[16] == ':'
            && s[0..4] == y && s[5..7] == m && s[8..10] == d && s[11..13] == h && s[14..16] == i && s[17..19] == c
            && s[19..] == tail && s[12] == h[1]
  {
    var p1 := y + "-";
    var p2 := p1 + m;
    var p3 := p2 + "-";
    var p4 := p3 + d;
    var p5 := p4 + "T";
    var p6 := p5 + h;
    var p7 := p6 + ":";
    var p8 := p7 + i;
    var p9 := p8 + ":";
    var p10 := p9 + c;
    var s := p10 + tail;
    Column(p9, c, s);
    Column(p8, ":", s);
    Column(p7, i, s);
    Column(p6, ":", s);
    Column(p5, h, s);
    Column(p4, "T", s);
    Column(p3, d, s);
    Column(p2, "-", s);
    Column(p1, m, s);
    Column(y, "-", s);
    assert s[12] == s[11..13][1];
  }

  /** The last piece of a prefix of s, and the prefix without it. */
  lemma Column(pre: string, x: string, s: string)
    requires pre + x <= s
    ensures pre <= s && s[|pre|..|pre| + |x|] == x && (|x| == 1 ==> s[|pre|] == x[0])
  {
    assert s[..|pre| + |x|] == pre + x;
  }

  /** A timestamp of years 0000 to 9999, written and read back. */
  lemma {:induction false} TimestampReadsBack(seconds: int, nanos: nat)
    requires nanos < 1_000_000_000 && 0 <= CivilFromDays(seconds / 86400).y <= 9999
    ensures ParseText(FormatText(seconds, nanos)) == Some(Timestamp(seconds, nanos))
  {
    hide DecValue, TailText, FractionText, CivilFromDays, DaysFromCivil, Pad, AllDigits;
    var days, tod := seconds / 86400, seconds % 86400;
    var date := CivilFromDays(days);
    DateOfDay(days);
    SmallPowers();
    var h, i, c := tod / 3600, tod / 60 % 60, tod % 60;
    var tail := FractionText(nanos) + "Z";
    PadTwo(date.m);
    PadTwo(date.d);
    PadTwo(h);
    PadTwo(i);
    PadTwo(c);
    PadValue(date.y, 4);
    HeadColumns(Pad(date.y, 4), Pad(date.m, 2), Pad(date.d, 2), Pad(h, 2), Pad(i, 2), Pad(c, 2), tail);
    TailReads(nanos);
    assert FormatText(seconds, nanos)
        == Pad(date.y, 4) + "-" + Pad(date.m, 2) + "-" + Pad(date.d, 2) + "T" + Pad(h, 2) + ":" + Pad(i, 2) + ":"
            + Pad(c, 2) + tail;
    TimeOfDay(tod);
  }

  lemma PadTwo(n: nat)
    requires n < 100
    ensures AtLeast(n, 2) == Pad(n, 2) && DecValue(Pad(n, 2)) == n && IsDigit(Pad(n, 2)[1])
  {
    SmallPowers();
    PadValue(n, 2);
  }

  lemma TimeOfDay(tod: int)
    requires 0 <= tod < 86400
    ensures tod / 3600 * 3600 + tod / 60 % 60 * 60 + tod % 60 == tod && tod / 3600 <= 23
  {
  }
}
