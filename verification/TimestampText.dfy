/**
Which texts are timestamps and what each one means: src/detail/rfc3339.cc, ParseRFC3339. The grammar is that of
section 5.6 of RFC 3339 and what the code takes beside it: an hour of one digit, a comma for the point, an offset of up
to 24 hours and 60 minutes.
 */
module TimestampText {
  import opened Options
  import opened Powers
  import opened DecimalText
  import opened Literals
  import opened Calendar
  import opened Rfc3339

  datatype Zone = Utc | East(h: string, m: string) | West(h: string, m: string)

  /** The pieces of a timestamp as they are written; the point is empty where there is no fraction. */
  datatype Stamp = Stamp(year: string, month: string, day: string, hour: string, minute: string, second: string,
                         point: string, fraction: string, zone: Zone)

  predicate IsNumber(s: string, n: nat) {
    |s| == n && AllDigits(s)
  }

  predicate Formed(p: Stamp) {
    && IsNumber(p.year, 4) && IsNumber(p.month, 2) && IsNumber(p.day, 2)
    && (IsNumber(p.hour, 1) || IsNumber(p.hour, 2)) && IsNumber(p.minute, 2) && IsNumber(p.second, 2)
    && AllDigits(p.fraction) && p.point in ["", ".", ","] && (p.point == "" <==> p.fraction == "")
    && (p.zone.Utc? || (IsNumber(p.zone.h, 2) && IsNumber(p.zone.m, 2)))
  }

  function ZoneSpelled(z: Zone): string {
    match z
    case Utc => "Z"
    case East(h, m) => "+" + h + ":" + m
    case West(h, m) => "-" + h + ":" + m
  }

  function TailSpelled(p: Stamp): string {
    p.point + p.fraction + ZoneSpelled(p.zone)
  }

  function Spelled(p: Stamp): string {
    p.year + "-" + p.month + "-" + p.day + "T" + p.hour + ":" + p.minute + ":" + p.second + TailSpelled(p)
  }

  function DateOf(p: Stamp): Date
    requires Formed(p)
  {
    Date(DecValue(p.year), DecValue(p.month), DecValue(p.day))
  }

  predicate ZoneInRange(z: Zone)
    requires z.Utc? || (IsNumber(z.h, 2) && IsNumber(z.m, 2))
  {
    z.Utc? || (DecValue(z.h) <= 24 && DecValue(z.m) <= 60)
  }

  predicate InRange(p: Stamp)
    requires Formed(p)
  {
    && ValidDate(DateOf(p)) && DecValue(p.hour) < 24 && DecValue(p.minute) < 60 && DecValue(p.second) < 60
    && ZoneInRange(p.zone)
  }

  /** How far ahead of UTC the clock of the zone is, in seconds. */
  function Ahead(z: Zone): int
    requires z.Utc? || (IsNumber(z.h, 2) && IsNumber(z.m, 2))
  {
    match z
    case Utc => 0
    case East(h, m) => DecValue(h) * 3600 + DecValue(m) * 60
    case West(h, m) => -(DecValue(h) * 3600 + DecValue(m) * 60)
  }

  /** What the clock shows, in seconds. */
  function Clock(p: Stamp): int
    requires Formed(p)
  {
    DaysFromCivil(DateOf(p)) * 86400 + DecValue(p.hour) * 3600 + DecValue(p.minute) * 60 + DecValue(p.second)
  }

  /** The nanoseconds of a fraction, what is below one cut off. */
  function Nanos(fraction: string): int
    requires AllDigits(fraction)
  {
    DecValue(fraction) * Pow(10, 9) / Pow(10, |fraction|)
  }

  lemma FractionCut(ds: string)
    requires AllDigits(ds)
    ensures FracNanos(ds) == Nanos(ds)
  {
    hide DecValue, Pow;
    var n := |ds|;
    if n <= 9 {
      assert ds[..n] == ds;
      PowAdd(10, 9 - n, n);
      MulAssoc(DecValue(ds), Pow(10, 9 - n), Pow(10, n));
      DivUnique(DecValue(ds) * Pow(10, 9), Pow(10, n), DecValue(ds) * Pow(10, 9 - n), 0);
    } else {
      assert ds == ds[..9] + ds[9..];
      assert AllDigits(ds[..9]) && AllDigits(ds[9..]);
      DecSplit(ds[..9], ds[9..]);
      DecBound(ds[9..]);
      CutDivides(DecValue(ds[..9]), DecValue(ds[9..]), n - 9);
      TenToZero();
    }
  }

  lemma {:induction false} DecSplit(a: string, b: string)
    requires AllDigits(a) && AllDigits(b)
    ensures AllDigits(a + b) && DecValue(a + b) == DecValue(a) * Pow(10, |b|) + DecValue(b)
    decreases |b|
  {
    hide DecValue;
    if b == "" {
      assert a + b == a;
      DecEmpty();
      TenToZero();
    } else {
      var m := |b| - 1;
      var c := b[..m];
      assert b == c + [b[m]] && a + b == (a + c) + [b[m]];
      DecSplit(a, c);
      DecSnoc(c, b[m]);
      DecSnoc(a + c, b[m]);
      MulAssoc(DecValue(a), Pow(10, m), 10);
    }
  }

  lemma CutDivides(a: nat, b: nat, k: nat)
    requires b < Pow(10, k)
    ensures (a * Pow(10, k) + b) * Pow(10, 9) / Pow(10, 9 + k) == a
  {
    hide Pow;
    var t, u := Pow(10, k), Pow(10, 9);
    PowAdd(10, 9, k);

    assert (a * t + b) * u == a * (u * t) + b * u by {
      MulAssoc(a, t, u);
    }
    MulLe(b + 1, t, u);
    DivUnique((a * t + b) * u, u * t, a, b * u);
  }

  // ---- The zone and the fraction ----

  lemma ZoneReads(z: Zone)
    requires z.Utc? || (IsNumber(z.h, 2) && IsNumber(z.m, 2))
    ensures ZoneText(ZoneSpelled(z)) == if ZoneInRange(z) then Some(Ahead(z)) else None
  {
    hide DecValue, AllDigits;
    var s := ZoneSpelled(z);
    if !z.Utc? {
      assert s[1..3] == z.h && s[4..6] == z.m && s[3] == ':';
    }
  }

  lemma TailIs(p: Stamp)
    requires Formed(p)
    ensures Rfc3339.TailText(TailSpelled(p))
            == if ZoneInRange(p.zone) then Some((Nanos(p.fraction), Ahead(p.zone))) else None
  {
    hide DecValue, Span, ZoneText, FracNanos, Nanos, ZoneInRange, Ahead;
    var s, z := TailSpelled(p), ZoneSpelled(p.zone);
    ZoneReads(p.zone);
    FractionCut(p.fraction);
    if p.point == "" {
      assert s == z;
      NoFraction();
    } else {
      assert s[1..] == p.fraction + z && s[1] == p.fraction[0];
      SpanConcat(p.fraction, z);
    }
  }

  lemma NoFraction()
    ensures Nanos("") == 0
  {
  }

  // ---- A timestamp ----

  lemma PiecesAt(p: Stamp)
    requires Formed(p)
    ensures var s, n := Spelled(p), |p.hour|;
            && |s| == 17 + n + |TailSpelled(p)| && s[4] == '-' && s[7] == '-' && s[10] == 'T'
            && s[11 + n] == ':' && s[14 + n] == ':' && s[0..4] == p.year && s[5..7] == p.month && s[8..10] == p.day
            && s[11..11 + n] == p.hour && s[12 + n..14 + n] == p.minute && s[15 + n..17 + n] == p.second
            && s[17 + n..] == TailSpelled(p) && (IsDigit(s[12]) <==> n == 2)
  {
    hide TailSpelled;
    var s := Spelled(p);
    var p1 := p.year + "-";
    var p2 := p1 + p.month;
    var p3 := p2 + "-";
    var p4 := p3 + p.day;
    var p5 := p4 + "T";
    var p6 := p5 + p.hour;
    var p7 := p6 + ":";
    var p8 := p7 + p.minute;
    var p9 := p8 + ":";
    var p10 := p9 + p.second;
    Column(p9, p.second, s);
    Column(p8, ":", s);
    Column(p7, p.minute, s);
    Column(p6, ":", s);
    Column(p5, p.hour, s);
    Column(p4, "T", s);
    Column(p3, p.day, s);
    Column(p2, "-", s);
    Column(p1, p.month, s);
    Column(p.year, "-", s);
    if |p.hour| == 2 {
      assert s[12] == s[11..13][1];
    }
  }

  lemma TailLong(p: Stamp)
    requires Formed(p)
    ensures |TailSpelled(p)| >= 1
  {
  }

  /** A text of the grammar is read as its instant: the clock less the offset; out of range it is refused. */
  lemma StampReads(p: Stamp)
    requires Formed(p)
    ensures ParseText(Spelled(p))
            == if InRange(p) then Some(Timestamp(Clock(p) - Ahead(p.zone), Nanos(p.fraction))) else None
  {
    hide DecValue, Rfc3339.TailText, TailSpelled, Spelled, ValidDate, DaysFromCivil, AllDigits;
    hide Nanos, Ahead, ZoneInRange;
    PiecesAt(p);
    TailLong(p);
    TailIs(p);
  }

  /** Only such texts are read. */
  lemma ReadIsStamp(s: string) returns (p: Stamp)
    requires ParseText(s).Some?
    ensures Formed(p) && InRange(p) && s == Spelled(p)
  {
    hide DecValue, Rfc3339.TailText, ValidDate, DaysFromCivil, AllDigits, ZoneSpelled, ZoneInRange;
    var hd := if IsDigit(s[12]) then 2 else 1;
    var mi := 12 + hd;
    var point, fraction, zone := ReadTail(s[mi + 5..]);
    p := Stamp(s[0..4], s[5..7], s[8..10], s[11..11 + hd], s[mi..mi + 2], s[mi + 3..mi + 5], point, fraction, zone);
    Glued(s, hd);
  }

  lemma Glued(s: string, n: nat)
    requires |s| >= 17 + n && s[4] == '-' && s[7] == '-' && s[10] == 'T' && s[11 + n] == ':' && s[14 + n] == ':'
    ensures s == s[0..4] + "-" + s[5..7] + "-" + s[8..10] + "T" + s[11..11 + n] + ":" + s[12 + n..14 + n] + ":"
                 + s[15 + n..17 + n] + s[17 + n..]
  {
    Longer(s, 0, 4);
    Longer(s, 4, 5);
    Longer(s, 5, 7);
    Longer(s, 7, 8);
    Longer(s, 8, 10);
    Longer(s, 10, 11);
    Longer(s, 11, 11 + n);
    Longer(s, 11 + n, 12 + n);
    Longer(s, 12 + n, 14 + n);
    Longer(s, 14 + n, 15 + n);
    Longer(s, 15 + n, 17 + n);
    Longer(s, 17 + n, |s|);
  }

  lemma Longer(s: string, i: nat, j: nat)
    requires i <= j <= |s|
    ensures s[..j] == s[..i] + s[i..j] && (j == i + 1 ==> s[i..j] == [s[i]])
    ensures i == 0 ==> s[..j] == s[0..j]
    ensures j == |s| ==> s[..j] == s && s[i..j] == s[i..]
  {
  }

  lemma ReadTail(s: string) returns (point: string, fraction: string, zone: Zone)
    requires Rfc3339.TailText(s).Some?
    ensures AllDigits(fraction) && point in ["", ".", ","] && (point == "" <==> fraction == "")
    ensures zone.Utc? || (IsNumber(zone.h, 2) && IsNumber(zone.m, 2))
    ensures ZoneInRange(zone) && s == point + fraction + ZoneSpelled(zone)
  {
    hide DecValue, Span, FracNanos, ZoneText;
    if |s| >= 2 && (s[0] == '.' || s[0] == ',') && IsDigit(s[1]) {
      var (ds, rest) := Span(s[1..]);
      zone := ReadZone(rest);
      point, fraction := [s[0]], ds;
      SpanTakes(s[1..]);
      assert s == [s[0]] + s[1..] && s == point + fraction + rest;
    } else {
      zone := ReadZone(s);
      point, fraction := "", "";
    }
  }

  lemma SpanTakes(s: string)
    requires s != "" && IsDigit(s[0])
    ensures Span(s).0 != "" && s == Span(s).0 + Span(s).1 && AllDigits(Span(s).0)
  {
  }

  lemma ReadZone(s: string) returns (zone: Zone)
    requires ZoneText(s).Some?
    ensures zone.Utc? || (IsNumber(zone.h, 2) && IsNumber(zone.m, 2))
    ensures ZoneInRange(zone) && s == ZoneSpelled(zone)
  {
    hide DecValue, AllDigits;
    if s == "Z" {
      zone := Utc;
    } else {
      var h, m := s[1..3], s[4..6];
      zone := if s[0] == '-' then West(h, m) else East(h, m);
      assert s == s[..1] + h + ":" + m;
    }
  }

  // ---- The fraction that is written ----

  lemma {:induction false} TrimsAll(n: nat, w: nat)
    requires 0 < n < Pow(10, w) && w <= 9
    ensures var (k, v) := Trimmed9(n, w); v <= w && k % 10 != 0
    decreases w
  {
    if n % 10 == 0 && w > 0 {
      assert 0 < n / 10 < Pow(10, w - 1);
      TrimsAll(n / 10, w - 1);
    }
  }

  /** A fraction is written without a trailing zero, and not at all when it is zero. */
  lemma FractionWritten(nanos: nat)
    requires 0 < nanos < 1_000_000_000
    ensures var s := FractionText(nanos);
            && 2 <= |s| <= 10 && s[0] == '.' && AllDigits(s[1..]) && s[|s| - 1] != '0' && Nanos(s[1..]) == nanos
  {
    hide DecValue, Trimmed9, Nanos;
    NinePowers();
    TrimsAll(nanos, 9);
    Trimmed9Is(nanos, 9);
    var (n, w) := Trimmed9(nanos, 9);
    var ds := Pad(n, w);
    PadValue(n, w);
    assert FractionText(nanos) == "." + ds && ("." + ds)[1..] == ds && ds[..w] == ds;
    assert ds[w - 1] == DigitChar(n % 10);
    TenToZero();
    FractionCut(ds);
  }
}
