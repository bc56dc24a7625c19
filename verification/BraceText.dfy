/**
What matching braces decides, said of the text: src/pxf/parser.cc, BraceMatch::Scan. A text is made of braces,
strings, comments and other characters, and the brace that closes it is the first where the closing ones
outnumber the opening ones, whatever the strings and comments hold.
 */
module BraceText {
  import opened BraceMatching

  // ---- Text without quotes and comments ----

  predicate Simple(s: string) {
    forall i :: 0 <= i < |s| ==> s[i] != '"' && s[i] != '#' && s[i] != 'b' && s[i] != '/'
  }

  /** How many more braces are opened than closed. */
  function Excess(s: string): int {
    if s == "" then 0
    else Excess(s[..|s| - 1]) + (var c := s[|s| - 1]; if c == '{' then 1 else if c == '}' then -1 else 0)
  }

  /** The closing braces outnumber the opening ones from i on, and not before. */
  predicate ClosesAt(s: string, i: nat) {
    i < |s| && Excess(s[..i + 1]) < 0 && forall j :: 0 <= j <= i ==> Excess(s[..j]) >= 0
  }

  lemma ExcessNext(s: string, i: nat)
    requires i < |s|
    ensures Excess(s[..i + 1]) == Excess(s[..i]) + (if s[i] == '{' then 1 else if s[i] == '}' then -1 else 0)
  {
    assert s[..i + 1][..i] == s[..i];
  }

  /** Closed at i exactly when i is that place; a text without one is open. */
  lemma SimpleScan(s: string, i: nat)
    requires Simple(s)
    ensures var r := ScanFrom(Matcher(1, Code, false, 0), s, 0);
            (r.verdict == Closed && r.at == i <==> ClosesAt(s, i)) && r.verdict != Failed
  {
    SimpleFrom(s, 0, i);
  }

  lemma {:induction false} SimpleFrom(s: string, k: nat, i: nat)
    requires Simple(s) && k <= |s| && forall j :: 0 <= j <= k ==> Excess(s[..j]) >= 0
    ensures var r := ScanFrom(Matcher(1 + Excess(s[..k]), Code, false, 0), s, k);
            (r.verdict == Closed && r.at == i <==> ClosesAt(s, i)) && r.verdict != Failed
    decreases |s| - k
  {
    hide Excess;
    if k < |s| {
      ExcessNext(s, k);
      if Excess(s[..k + 1]) >= 0 {
        SimpleFrom(s, k + 1, i);
      } else {
        ClosesOnce(s, k, i);
      }
    }
  }

  lemma ClosesOnce(s: string, k: nat, i: nat)
    requires ClosesAt(s, k)
    ensures ClosesAt(s, i) <==> i == k
  {
    hide Excess;
    if i < k && i < |s| {
      assert Excess(s[..i + 1]) >= 0;
    }
  }

  // ---- Text of any kind ----

  /** A character of a string, or a backslash and what it escapes. */
  datatype Unit = Char(c: char) | Escaped(c: char)

  datatype Piece =
    | Brace(opens: bool)
    | Other(c: char)
    | Quoted(units: seq<Unit>)
    | Raw(text: string)
    | Bytes(text: string)
    | LineNote(slashes: bool, text: string)
    | BlockNote(text: string)

  predicate GoodUnits(us: seq<Unit>) {
    forall i :: 0 <= i < |us| ==> us[i].Char? ==> us[i].c != '"' && us[i].c != '\\' && us[i].c != '\n'
  }

  predicate OccursAt(s: string, pat: string, i: nat) {
    i + |pat| <= |s| && s[i..i + |pat|] == pat
  }

  /** pat is nowhere in text + pat but at its end. */
  predicate OnlyLast(text: string, pat: string) {
    forall i :: 0 <= i < |text| ==> !OccursAt(text + pat, pat, i)
  }

  const TRIPLE := "\"\"\""

  predicate Good(p: Piece) {
    match p
    case Brace(_) => true
    case Other(c) => c != '{' && c != '}' && c != '"' && c != '#'
    case Quoted(us) => GoodUnits(us)
    case Raw(text) => OnlyLast(text, TRIPLE)
    case Bytes(text) => '"' !in text && '\n' !in text
    case LineNote(_, text) => '\n' !in text
    case BlockNote(text) => OnlyLast(text, "*/")
  }

  function UnitsText(us: seq<Unit>): string {
    if us == [] then "" else (match us[0] case Char(c) => [c] case Escaped(c) => "\\" + [c]) + UnitsText(us[1..])
  }

  function PieceText(p: Piece): (s: string)
    ensures s != ""
  {
    match p
    case Brace(opens) => if opens then "{" else "}"
    case Other(c) => [c]
    case Quoted(us) => "\"" + (UnitsText(us) + "\"")
    case Raw(text) => TRIPLE + (text + TRIPLE)
    case Bytes(text) => "b\"" + (text + "\"")
    case LineNote(slashes, text) => (if slashes then "//" else "#") + (text + "\n")
    case BlockNote(text) => "/*" + (text + "*/")
  }

  /** What comes next does not make another piece of it. */
  predicate MayFollow(p: Piece, t: string) {
    match p
    case Other(c) =>
      && (c == 'b' ==> t != "" && t[0] != '"')
      && (c == '/' ==> t != "" && t[0] != '/' && t[0] != '*')
    case Quoted(us) => us == [] ==> t != "" && t[0] != '"'
    case _ => true
  }

  /** The state after a piece. */
  function After(m: Matcher, p: Piece): Matcher {
    if p.Brace? then m.(depth := m.depth + (if p.opens then 1 else -1)) else m
  }

  /** A scan that stands in code, between pieces. */
  predicate Between(m: Matcher) {
    m.mode.Code? && !m.esc && m.run == 0
  }

  // ---- One piece ----

  /** A scan of s from i goes on from j in state m'. */
  ghost predicate GoesTo(m: Matcher, s: string, i: nat, m': Matcher, j: nat) {
    i <= j <= |s| && ScanFrom(m, s, i) == ScanFrom(m', s, j)
  }

  lemma StepGoes(m: Matcher, s: string, i: nat)
    requires i < |s| && StepAt(m, s, i).Next?
    ensures GoesTo(m, s, i, StepAt(m, s, i).m, StepAt(m, s, i).at)
  {
    hide StepAt;
  }

  lemma {:induction false} UnitsGo(m: Matcher, a: string, us: seq<Unit>, t: string)
    requires m.mode.InString? && !m.esc && GoodUnits(us)
    ensures GoesTo(m, a + (UnitsText(us) + t), |a|, m, |a| + |UnitsText(us)|)
    decreases |us|
  {
    hide StepAt, ScanFrom;
    var s := a + (UnitsText(us) + t);
    if us == [] {
      assert s == a + t;
    } else {
      var u := match us[0] case Char(c) => [c] case Escaped(c) => "\\" + [c];
      assert us[0].Char? ==> us[0].c != '"' && us[0].c != '\\' && us[0].c != '\n';
      assert GoodUnits(us[1..]);
      UnitGoes(m, a, us[0], UnitsText(us[1..]) + t);
      UnitsGo(m, a + u, us[1..], t);
      assert s == (a + u) + (UnitsText(us[1..]) + t) == a + (u + (UnitsText(us[1..]) + t));
    }
  }

  lemma UnitGoes(m: Matcher, a: string, x: Unit, t: string)
    requires m.mode.InString? && !m.esc && GoodUnits([x])
    ensures var u := match x case Char(c) => [c] case Escaped(c) => "\\" + [c];
            GoesTo(m, a + (u + t), |a|, m, |a| + |u|)
  {
    hide ScanFrom;
    var u := match x case Char(c) => [c] case Escaped(c) => "\\" + [c];
    var s := a + (u + t);
    assert [x][0] == x;
    assert s[|a|] == u[0];
    StepGoes(m, s, |a|);
    if x.Escaped? {
      assert s[|a| + 1] == x.c;
      StepGoes(m.(esc := true), s, |a| + 1);
    }
  }

  /** Characters that leave a mode as it is. */
  lemma {:induction false} StaysIn(m: Matcher, a: string, text: string, t: string)
    requires (m.mode.InBytes? && '"' !in text && '\n' !in text) || (m.mode.LineComment? && '\n' !in text)
    ensures GoesTo(m, a + (text + t), |a|, m, |a| + |text|)
    decreases |text|
  {
    hide ScanFrom;
    var s := a + (text + t);
    if text == "" {
      assert s == a + t;
    } else {
      assert s[|a|] == text[0];
      StepGoes(m, s, |a|);
      StaysIn(m, a + text[..1], text[1..], t);
      assert s == (a + text[..1]) + (text[1..] + t);
    }
  }

  /** The quotes that end text, as a raw string counts them. */
  function Trailing(text: string): nat {
    if text == "" || text[|text| - 1] != '"' then 0 else 1 + Trailing(text[..|text| - 1])
  }

  lemma {:induction false} RawGoes(m: Matcher, a: string, text: string, t: string, k: nat)
    requires m.mode.TripleString? && OnlyLast(text, TRIPLE) && k <= |text| && Trailing(text[..k]) < 3
    ensures GoesTo(m.(run := Trailing(text[..k])), a + (text + (TRIPLE + t)), |a| + k, m.(run := 0), |a| + |text|)
    decreases |text| - k
  {
    hide ScanFrom;
    var s := a + (text + (TRIPLE + t));
    if k == |text| {
      NoTrailing(text);
      assert text[..k] == text;
    } else {
      assert s[|a| + k] == text[k];
      var n := m.(run := Trailing(text[..k]));
      assert text[..k + 1][..k] == text[..k];
      assert Trailing(text[..k + 1]) == if text[k] == '"' then 1 + Trailing(text[..k]) else 0;
      if text[k] == '"' {
        NotThree(text, k);
      }
      StepGoes(n, s, |a| + k);
      RawGoes(m, a, text, t, k + 1);
    }
  }

  lemma TrailingAre(text: string)
    ensures Trailing(text) <= |text| && forall j :: |text| - Trailing(text) <= j < |text| ==> text[j] == '"'
  {
  }

  lemma NotThree(text: string, k: nat)
    requires OnlyLast(text, TRIPLE) && k < |text| && text[k] == '"'
    ensures Trailing(text[..k]) < 2
  {
    TrailingAre(text[..k]);
    if Trailing(text[..k]) >= 2 {
      var i := k - 2;
      assert text[..k][i] == '"' && text[..k][i + 1] == '"';
      assert (text + TRIPLE)[i..i + 3] == TRIPLE;
      assert OccursAt(text + TRIPLE, TRIPLE, i);
    }
  }

  lemma NoTrailing(text: string)
    requires OnlyLast(text, TRIPLE)
    ensures Trailing(text) == 0
  {
    if text != "" && text[|text| - 1] == '"' {
      var i := |text| - 1;
      assert (text + TRIPLE)[i..i + 3] == TRIPLE;
      assert OccursAt(text + TRIPLE, TRIPLE, i);
    }
  }

  lemma {:induction false} BlockGoes(m: Matcher, a: string, text: string, t: string, k: nat)
    requires m.mode.BlockComment? && OnlyLast(text, "*/") && k <= |text|
    requires m.run == if k > 0 && text[k - 1] == '*' then 1 else 0
    ensures GoesTo(m, a + (text + ("*/" + t)), |a| + k, m.(mode := Code, run := 0), |a| + |text| + 2)
    decreases |text| - k
  {
    hide ScanFrom;
    var s := a + (text + ("*/" + t));
    if k == |text| {
      assert s[|a| + k] == '*' && s[|a| + k + 1] == '/';
      StepGoes(m, s, |a| + k);
      StepGoes(m.(run := 1), s, |a| + k + 1);
    } else {
      assert s[|a| + k] == text[k];
      NotEnd(text, k);
      StepGoes(m, s, |a| + k);
      BlockGoes(m.(run := if text[k] == '*' then 1 else 0), a, text, t, k + 1);
    }
  }

  lemma NotEnd(text: string, k: nat)
    requires OnlyLast(text, "*/") && 0 <= k < |text|
    ensures !(k > 0 && text[k - 1] == '*' && text[k] == '/')
  {
    if k > 0 {
      assert !OccursAt(text + "*/", "*/", k - 1);
      assert (text + "*/")[k - 1..k + 1] == [text[k - 1], text[k]];
    }
  }

  lemma {:induction false} PieceGoes(m: Matcher, a: string, p: Piece, t: string)
    requires Between(m) && Good(p) && MayFollow(p, t) && (p == Brace(false) ==> m.depth != 1)
    ensures GoesTo(m, a + (PieceText(p) + t), |a|, After(m, p), |a| + |PieceText(p)|)
  {
    hide ScanFrom, StepAt, OnlyLast, GoesTo, UnitsText, GoodUnits, Between;
    match p {
      case Brace(opens) => BraceGoes(m, a, opens, t);
      case Other(c) => OtherGoes(m, a, c, t);
      case Quoted(us) => QuotedGoes(m, a, us, t);
      case Raw(text) => RawPieceGoes(m, a, text, t);
      case Bytes(text) => BytesGo(m, a, text, t);
      case LineNote(slashes, text) => LineGoes(m, a, slashes, text, t);
      case BlockNote(text) => BlockPieceGoes(m, a, text, t);
    }
  }

  lemma BraceGoes(m: Matcher, a: string, opens: bool, t: string)
    requires Between(m) && (!opens ==> m.depth != 1)
    ensures GoesTo(m, a + ((if opens then "{" else "}") + t), |a|, After(m, Brace(opens)), |a| + 1)
  {
    hide ScanFrom;
    var s := a + ((if opens then "{" else "}") + t);
    assert s[|a|] == if opens then '{' else '}';
    StepGoes(m, s, |a|);
  }

  lemma BlockPieceGoes(m: Matcher, a: string, text: string, t: string)
    requires Between(m) && OnlyLast(text, "*/")
    ensures GoesTo(m, a + ("/*" + (text + "*/") + t), |a|, m, |a| + |text| + 4)
  {
    hide ScanFrom, OnlyLast;
    var s := a + ("/*" + (text + "*/") + t);
    assert s[|a|] == '/' && s[|a| + 1] == '*';
    StepGoes(m, s, |a|);
    BlockGoes(m.(mode := BlockComment), a + "/*", text, t, 0);
    assert s == (a + "/*") + (text + ("*/" + t));
  }

  lemma OtherGoes(m: Matcher, a: string, c: char, t: string)
    requires Between(m) && Good(Other(c)) && MayFollow(Other(c), t)
    ensures GoesTo(m, a + ([c] + t), |a|, m, |a| + 1)
  {
    hide ScanFrom;
    var s := a + ([c] + t);
    assert s[|a|] == c;
    if t != "" {
      assert s[|a| + 1] == t[0];
    }
    StepGoes(m, s, |a|);
  }

  lemma QuotedGoes(m: Matcher, a: string, us: seq<Unit>, t: string)
    requires Between(m) && GoodUnits(us) && (us == [] ==> t != "" && t[0] != '"')
    ensures GoesTo(m, a + ("\"" + (UnitsText(us) + "\"") + t), |a|, m, |a| + |UnitsText(us)| + 2)
  {
    hide ScanFrom, UnitsText;
    var u := UnitsText(us);
    var s := a + ("\"" + (u + "\"") + t);
    var b := a + "\"";
    assert s == b + (u + ("\"" + t));
    QuoteOpens(m, a, us, t);
    UnitsGo(m.(mode := InString), b, us, "\"" + t);
    var j := |b| + |u|;
    assert s[j] == '"';
    StepGoes(m.(mode := InString), s, j);
  }

  lemma QuoteOpens(m: Matcher, a: string, us: seq<Unit>, t: string)
    requires Between(m) && GoodUnits(us) && (us == [] ==> t != "" && t[0] != '"')
    ensures GoesTo(m, a + ("\"" + (UnitsText(us) + "\"") + t), |a|, m.(mode := InString), |a| + 1)
  {
    hide ScanFrom;
    var u := UnitsText(us);
    var s := a + ("\"" + (u + "\"") + t);
    assert s[|a|] == '"';
    if us == [] {
      assert u == "" && s[|a| + 2] == t[0];
    } else {
      assert us[0].Char? ==> us[0].c != '"';
      assert s[|a| + 1] == u[0];
    }
    StepGoes(m, s, |a|);
  }

  lemma RawPieceGoes(m: Matcher, a: string, text: string, t: string)
    requires Between(m) && OnlyLast(text, TRIPLE)
    ensures GoesTo(m, a + (TRIPLE + (text + TRIPLE) + t), |a|, m, |a| + |text| + 6)
  {
    hide ScanFrom, OnlyLast;
    var s := a + (TRIPLE + (text + TRIPLE) + t);
    var b := a + TRIPLE;
    assert s == b + (text + (TRIPLE + t));
    assert s[|a|] == '"' && s[|a| + 1] == '"' && s[|a| + 2] == '"';
    StepGoes(m, s, |a|);
    var n := m.(mode := TripleString);
    assert text[..0] == "";
    RawGoes(n, b, text, t, 0);
    var j := |b| + |text|;
    assert s[j] == '"' && s[j + 1] == '"' && s[j + 2] == '"';
    StepGoes(n, s, j);
    StepGoes(n.(run := 1), s, j + 1);
    StepGoes(n.(run := 2), s, j + 2);
  }

  lemma BytesGo(m: Matcher, a: string, text: string, t: string)
    requires Between(m) && '"' !in text && '\n' !in text
    ensures GoesTo(m, a + ("b\"" + (text + "\"") + t), |a|, m, |a| + |text| + 3)
  {
    hide ScanFrom;
    var s := a + ("b\"" + (text + "\"") + t);
    var b := a + "b\"";
    assert s == b + (text + ("\"" + t));
    assert s[|a|] == 'b' && s[|a| + 1] == '"';
    StepGoes(m, s, |a|);
    StaysIn(m.(mode := InBytes), b, text, "\"" + t);
    assert s[|b| + |text|] == '"';
    StepGoes(m.(mode := InBytes), s, |b| + |text|);
  }

  lemma LineGoes(m: Matcher, a: string, slashes: bool, text: string, t: string)
    requires Between(m) && '\n' !in text
    ensures var mark := if slashes then "//" else "#";
            GoesTo(m, a + (mark + (text + "\n") + t), |a|, m, |a| + |mark| + |text| + 1)
  {
    hide ScanFrom;
    var mark := if slashes then "//" else "#";
    var s := a + (mark + (text + "\n") + t);
    var b := a + mark;
    assert s == b + (text + ("\n" + t));
    assert s[|a|] == mark[0] && (slashes ==> s[|a| + 1] == '/');
    StepGoes(m, s, |a|);
    StaysIn(m.(mode := LineComment), b, text, "\n" + t);
    assert s[|b| + |text|] == '\n';
    StepGoes(m.(mode := LineComment), s, |b| + |text|);
  }

  // ---- All of a text ----

  function PiecesText(ps: seq<Piece>): string {
    if ps == [] then "" else PieceText(ps[0]) + PiecesText(ps[1..])
  }

  /** Pieces that stand as they are when t follows them. */
  predicate Stand(ps: seq<Piece>, t: string) {
    ps == [] || (Good(ps[0]) && MayFollow(ps[0], PiecesText(ps[1..]) + t) && Stand(ps[1..], t))
  }

  /** How many more braces pieces open than they close. */
  function Opened(ps: seq<Piece>): int {
    if ps == [] then 0 else (if ps[0].Brace? then if ps[0].opens then 1 else -1 else 0) + Opened(ps[1..])
  }

  /** However far one reads, at least depth more braces are open than were closed. */
  predicate StaysOpen(ps: seq<Piece>, depth: int) {
    depth > 0 && (ps == [] || StaysOpen(ps[1..], depth + Opened(ps[..1])))
  }

  lemma {:induction false} PiecesGo(m: Matcher, a: string, ps: seq<Piece>, t: string)
    requires Between(m) && Stand(ps, t) && StaysOpen(ps, m.depth)
    ensures GoesTo(m, a + (PiecesText(ps) + t), |a|, m.(depth := m.depth + Opened(ps)), |a| + |PiecesText(ps)|)
    ensures m.depth + Opened(ps) > 0
    decreases |ps|
  {
    hide ScanFrom, Good, MayFollow, PieceText;
    var s := a + (PiecesText(ps) + t);
    if ps == [] {
      assert s == a + t;
    } else {
      var p, rest := ps[0], ps[1..];
      var u := PieceText(p);
      assert ps[..1] == [p] && [p][1..] == [];
      assert Opened([p]) == if p.Brace? then if p.opens then 1 else -1 else 0;
      if p == Brace(false) {
        assert StaysOpen(rest, m.depth - 1);
      }
      PieceGoes(m, a, p, PiecesText(rest) + t);
      assert s == a + (u + (PiecesText(rest) + t)) == (a + u) + (PiecesText(rest) + t);
      PiecesGo(After(m, p), a + u, rest, t);
    }
  }

  /** The brace that closes is the first outside strings and comments to outnumber the opening ones there. */
  lemma ClosesThere(ps: seq<Piece>, t: string)
    requires Stand(ps, "}" + t) && StaysOpen(ps, 1) && Opened(ps) == 0
    ensures ScanFrom(Matcher(1, Code, false, 0), PiecesText(ps) + ("}" + t), 0)
            == Scanned(Matcher(0, Code, false, 0), Closed, |PiecesText(ps)|)
  {
    hide Stand, StaysOpen, PiecesText, Opened;
    var m := Matcher(1, Code, false, 0);
    var s := PiecesText(ps) + ("}" + t);
    PiecesGo(m, "", ps, "}" + t);
    assert "" + s == s;
    assert s[|PiecesText(ps)|] == '}';
  }

  /** With no such brace the text is open, at the depth of those it leaves. */
  lemma StaysOpenThere(ps: seq<Piece>)
    requires Stand(ps, "") && StaysOpen(ps, 1)
    ensures ScanFrom(Matcher(1, Code, false, 0), PiecesText(ps), 0)
            == Scanned(Matcher(1 + Opened(ps), Code, false, 0), Open, |PiecesText(ps)|)
  {
    hide Stand, StaysOpen, PiecesText, Opened;
    var m := Matcher(1, Code, false, 0);
    var s := PiecesText(ps);
    PiecesGo(m, "", ps, "");
    assert "" + (s + "") == s;
  }
}
