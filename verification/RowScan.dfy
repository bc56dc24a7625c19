/**
Finding the rows of a dataset in a stream that comes in pieces: src/pxf/dataset_reader.cc, ScanRow,
which keeps its place between reads.
 */
module RowScan {
  import opened Options
  import opened BigEndian
  import opened Tokens
  import opened TokenStability
  import opened TokensTaken
  import opened PxfLexer

  datatype Verdict = NeedMore | Row | EndOfRows | NotRow | BadRow

  /** What a scan finds: start and end are the row's, -1 and 0 where there is none; and where the next scan goes on. */
  datatype Scan = Scan(verdict: Verdict, start: int, end: nat, scanPos: nat, rowStart: int)

  /** A token counts once no later byte can change it, or no later byte can come. */
  predicate IsTaken(tok: Token, s: seq<Byte>, eof: bool) {
    !tok.kind.EOF? && tok.size <= |s| && (eof || Complete(tok, s))
  }

  predicate IsDirective(k: Kind) { k.AtType? || k.AtDirective? || k.AtDataset? || k.AtProto? }

  predicate Skipped(k: Kind) { k.Newline? || k.Comment? }

  /** The token goes to neither a verdict nor the next row: it is skipped, opens a row or is inside one. */
  predicate GoesOn(k: Kind, rowStart: int) {
    Skipped(k) || (if rowStart < 0 then k.LParen? else !k.RParen? && !k.LParen? && !k.Illegal?)
  }

  /** Where the row starts once a token that goes on, at start, is read. */
  function RowAfter(k: Kind, rowStart: int, start: nat): int {
    if !Skipped(k) && rowStart < 0 then start else rowStart
  }

  /** The verdict at a token that does not go on. */
  function Verdicts(tok: Token, start: nat, pos: nat, rowStart: int): Scan {
    if rowStart < 0 then Scan(if IsDirective(tok.kind) then EndOfRows else NotRow, start, 0, pos, rowStart)
    else if tok.kind.RParen? then Scan(Row, rowStart, start + tok.size, start + tok.size, -1)
    else Scan(BadRow, rowStart, start + tok.size, pos, rowStart)
  }

  /** One scan, from pos on. */
  function ScanFrom(rules: Rules, input: seq<Byte>, pos: nat, rowStart: int, eof: bool): (r: Scan)
    requires pos <= |input|
    ensures r.scanPos <= |input|
    decreases |input| - pos
  {
    var (start, tok) := NextToken(rules, input, pos);
    FromNext(rules, input, pos);
    if !IsTaken(tok, input[start..], eof) then Scan(NeedMore, rowStart, 0, if eof then pos else start, rowStart)
    else if GoesOn(tok.kind, rowStart) then
      ScanFrom(rules, input, start + tok.size, RowAfter(tok.kind, rowStart, start), eof)
    else Verdicts(tok, start, pos, rowStart)
  }

  /** The same for whoever asked: where a row ends matters only for a row. */
  predicate Agrees(a: Scan, b: Scan) {
    a.verdict == b.verdict && a.start == b.start && a.rowStart == b.rowStart
    && (a.verdict.Row? ==> a.end == b.end && a.scanPos == b.scanPos)
  }

  // ---- The method ----

  lemma NextShift(rules: Rules, input: seq<Byte>, from: nat, p: nat)
    requires from <= |input| && p <= |input| - from
    ensures var (start, tok) := NextToken(rules, input[from..], p);
            NextToken(rules, input, from + p) == (from + start, tok)
  {
    hide Lex, Run;
    RunShift(Spaces, input, from, p);
    var start := Run(Spaces, input[from..], p);
    assert input[from..][start..] == input[from + start..];
  }

  /** The scanner's state between reads. */
  class Scanner {
    const rules: Rules
    var pending: seq<Byte>
    var scanPos: nat
    var rowStart: int
    var srcEof: bool

    ghost predicate Valid()
      reads this
    {
      scanPos <= |pending|
    }

    constructor (rules: Rules)
      ensures Valid() && this.rules == rules && pending == [] && scanPos == 0 && rowStart == -1 && !srcEof
    {
      this.rules := rules;
      pending, scanPos, rowStart, srcEof := [], 0, -1, false;
    }

    method ScanRow() returns (verdict: Verdict, start: int, end: nat)
      requires Valid()
      modifies this
      ensures Valid() && pending == old(pending) && srcEof == old(srcEof)
      ensures Scan(verdict, start, end, scanPos, rowStart)
              == ScanFrom(rules, pending, old(scanPos), old(rowStart), srcEof)
    {
      hide NextToken, Complete;
      ghost var whole := ScanFrom(rules, pending, scanPos, rowStart, srcEof);
      var from := scanPos;
      var lx := new Lexer(pending[from..], rules);
      start, end := -1, 0;
      while true
        invariant pending == old(pending) && srcEof == old(srcEof) && from <= |pending|
        invariant Valid() && fresh(lx) && lx.Valid() && lx.input == pending[from..] && lx.rules == rules
        invariant scanPos == from + lx.pos && end == 0
        invariant whole == ScanFrom(rules, pending, scanPos, rowStart, srcEof)
        decreases |pending| - scanPos
      {
        NextShift(rules, pending, from, lx.pos);
        FromNext(rules, pending, scanPos);
        var p, tok := lx.Next();
        var at := from + p;
        var tokEnd := at + tok.size;
        if !IsTaken(tok, pending[at..], srcEof) {
          if !srcEof {
            scanPos := at;
          }
          return NeedMore, rowStart, 0;
        }
        if Skipped(tok.kind) {
          scanPos := tokEnd;
          continue;
        }
        if rowStart < 0 {
          if tok.kind.LParen? {
            rowStart := at;
            scanPos := tokEnd;
            continue;
          }
          return if IsDirective(tok.kind) then EndOfRows else NotRow, at, 0;
        }
        if tok.kind.RParen? {
          start, end := rowStart, tokEnd;
          rowStart := -1;
          scanPos := tokEnd;
          return Row, start, end;
        }
        if tok.kind.LParen? || tok.kind.Illegal? {
          return BadRow, rowStart, tokEnd;
        }
        scanPos := tokEnd;
      }
    }
  }

  // ---- Scans of what has arrived are scans of the whole ----

  /** Bytes that were spaces are skipped again. */
  lemma {:induction false} RunLonger(k: Class, s: seq<Byte>, i: nat, t: seq<Byte>)
    requires i <= |s|
    ensures Run(k, s + t, i) == Run(k, s + t, Run(k, s, i))
    decreases |s| - i
  {
    hide In;
    if i < |s| {
      assert (s + t)[i] == s[i];
      if In(k, s[i]) {
        RunLonger(k, s, i + 1, t);
      }
    }
  }

  lemma SpacesAgain(rules: Rules, input: seq<Byte>, pos: nat, t: seq<Byte>)
    requires pos <= |input|
    ensures NextToken(rules, input + t, NextToken(rules, input, pos).0) == NextToken(rules, input + t, pos)
  {
    hide Lex, Run;
    RunLonger(Spaces, input, pos, t);
  }

  /** Spaces before pos or not, the verdict is the same. */
  lemma FromSpaces(rules: Rules, input: seq<Byte>, p: nat, q: nat, rowStart: int, eof: bool)
    requires p <= |input| && q <= |input| && NextToken(rules, input, p) == NextToken(rules, input, q)
    ensures Agrees(ScanFrom(rules, input, p, rowStart, eof), ScanFrom(rules, input, q, rowStart, eof))
  {
    hide NextToken, IsTaken, GoesOn;
    var (start, tok) := NextToken(rules, input, p);
    var e := start + tok.size;
    FromNext(rules, input, p);
    assert e <= |input|;
  }

  /** A token that is taken early and goes on does so in the whole. */
  lemma GoesOnInWhole(rules: Rules, input: seq<Byte>, pos: nat, rowStart: int, t: seq<Byte>)
    requires pos <= |input|
    requires var (start, tok) := NextToken(rules, input, pos);
             start <= |input| && IsTaken(tok, input[start..], false) && GoesOn(tok.kind, rowStart)
    ensures var (start, tok) := NextToken(rules, input, pos);
            && start < start + tok.size <= |input|
            && ScanFrom(rules, input + t, pos, rowStart, true)
               == ScanFrom(rules, input + t, start + tok.size, RowAfter(tok.kind, rowStart, start), true)
  {
    hide NextToken, Complete, RowAfter, Verdicts;
    FromNext(rules, input, pos);
    NextStable(rules, input, pos, t);
  }

  /**
  A scan that needs more, and goes on when all of the stream is there, finds what a scan of the stream
  from the start finds.
   */
  lemma {:induction false} ResumeIsWhole(rules: Rules, input: seq<Byte>, pos: nat, rowStart: int, t: seq<Byte>)
    requires pos <= |input|
    requires ScanFrom(rules, input, pos, rowStart, false).verdict.NeedMore?
    ensures var r := ScanFrom(rules, input, pos, rowStart, false);
            Agrees(ScanFrom(rules, input + t, r.scanPos, r.rowStart, true),
                   ScanFrom(rules, input + t, pos, rowStart, true))
    decreases |input| - pos
  {
    hide NextToken, IsTaken, GoesOn, RowAfter, Agrees;
    var (start, tok) := NextToken(rules, input, pos);
    FromNext(rules, input, pos);
    if !IsTaken(tok, input[start..], false) {
      SpacesAgain(rules, input, pos, t);
      FromSpaces(rules, input + t, start, pos, rowStart, true);
    } else {
      GoesOnInWhole(rules, input, pos, rowStart, t);
      ResumeIsWhole(rules, input, start + tok.size, RowAfter(tok.kind, rowStart, start), t);
    }
  }

  /** The scan is decided inside a row by bytes that end in an eight-digit escape, one that can still be read. */
  predicate RowInEscape(rules: Rules, input: seq<Byte>, pos: nat, rowStart: int)
    requires pos <= |input|
    decreases |input| - pos
  {
    var (start, tok) := NextToken(rules, input, pos);
    FromNext(rules, input, pos);
    if !IsTaken(tok, input[start..], false) then false
    else if GoesOn(tok.kind, rowStart) then
      RowInEscape(rules, input, start + tok.size, RowAfter(tok.kind, rowStart, start))
    else rowStart >= 0 && tok.kind.Illegal? && CutInString(input[start..])
  }

  /** The verdict at a token that does not go on is the same in the whole. */
  lemma VerdictInWhole(rules: Rules, input: seq<Byte>, pos: nat, rowStart: int, t: seq<Byte>)
    requires pos <= |input|
    requires var (start, tok) := NextToken(rules, input, pos);
             && start <= |input| && IsTaken(tok, input[start..], false) && !GoesOn(tok.kind, rowStart)
             && !(rowStart >= 0 && tok.kind.Illegal? && CutInString(input[start..]))
    ensures Agrees(ScanFrom(rules, input, pos, rowStart, false), ScanFrom(rules, input + t, pos, rowStart, true))
  {
    hide NextToken, Complete, CutInString;
    var (start, tok) := NextToken(rules, input, pos);
    FromNext(rules, input + t, pos);
    if !tok.kind.Illegal? {
      NextStable(rules, input, pos, t);
    } else if CutInString(input[start..]) {
      CutStaysString(rules, input, pos, t);
    } else {
      NextErrorStays(rules, input, pos, t);
    }
  }

  /** A string that fails stays a string or an error, at the same place. */
  lemma CutStaysString(rules: Rules, input: seq<Byte>, pos: nat, t: seq<Byte>)
    requires pos <= |input|
    requires var (start, tok) := NextToken(rules, input, pos);
             && start <= |input| && IsTaken(tok, input[start..], false)
             && tok.kind.Illegal? && CutInString(input[start..])
    ensures var (start, tok) := NextToken(rules, input + t, pos);
            start == NextToken(rules, input, pos).0 && (tok.kind.Str? || tok.kind.Illegal?)
  {
    hide Lex, Complete, StartOf, StringToken;
    var (start, tok) := NextToken(rules, input, pos);
    var s := input[start..];
    RunStable(Spaces, input, pos, t);
    assert (input + t)[start..] == s + t;
    StartKnown(rules, s, t);
    ByStart(rules, s + t) by { Quotes(s + t); }
    SimpleKind(s + t);
  }

  /** A verdict given inside a row at an escape that can still be read is not the verdict of every stream. */
  lemma CutDisagrees(rules: Rules, input: seq<Byte>, pos: nat, rowStart: int) returns (t: seq<Byte>)
    requires pos <= |input| && rowStart >= 0
    requires var (start, tok) := NextToken(rules, input, pos);
             && start <= |input| && IsTaken(tok, input[start..], false)
             && tok.kind.Illegal? && CutInString(input[start..])
    ensures !Agrees(ScanFrom(rules, input, pos, rowStart, false), ScanFrom(rules, input + t, pos, rowStart, true))
  {
    hide NextToken, Complete, CutInString;
    t := NextErrorGoes(rules, input, pos);
    var whole := input + t;
    FromNext(rules, whole, pos);
    NothingLeft(rules, whole);
    assert ScanFrom(rules, whole, |whole|, rowStart, true).verdict.NeedMore?;
    assert ScanFrom(rules, input, pos, rowStart, false).verdict.BadRow?;
  }

  lemma NothingLeft(rules: Rules, input: seq<Byte>)
    ensures NextToken(rules, input, |input|) == (|input|, Token(EOF, [], [], 0))
  {
    hide Lex;
    assert input[|input|..] == [];
    NothingThere(rules, input[|input|..]);
  }

  lemma {:induction false} EarlyAgrees(rules: Rules, input: seq<Byte>, pos: nat, rowStart: int, t: seq<Byte>)
    requires pos <= |input|
    requires !ScanFrom(rules, input, pos, rowStart, false).verdict.NeedMore?
    requires !RowInEscape(rules, input, pos, rowStart)
    ensures Agrees(ScanFrom(rules, input, pos, rowStart, false), ScanFrom(rules, input + t, pos, rowStart, true))
    decreases |input| - pos
  {
    hide NextToken, IsTaken, GoesOn, RowAfter, Agrees, CutInString, Verdicts;
    var (start, tok) := NextToken(rules, input, pos);
    FromNext(rules, input, pos);
    if GoesOn(tok.kind, rowStart) {
      GoesOnInWhole(rules, input, pos, rowStart, t);
      EarlyAgrees(rules, input, start + tok.size, RowAfter(tok.kind, rowStart, start), t);
    } else {
      VerdictInWhole(rules, input, pos, rowStart, t);
    }
  }

  lemma {:induction false} EarlyDisagrees(rules: Rules, input: seq<Byte>, pos: nat, rowStart: int)
    returns (t: seq<Byte>)
    requires pos <= |input| && RowInEscape(rules, input, pos, rowStart)
    ensures !Agrees(ScanFrom(rules, input, pos, rowStart, false), ScanFrom(rules, input + t, pos, rowStart, true))
    decreases |input| - pos
  {
    hide NextToken, IsTaken, GoesOn, RowAfter, Agrees, CutInString, Verdicts;
    var (start, tok) := NextToken(rules, input, pos);
    FromNext(rules, input, pos);
    if GoesOn(tok.kind, rowStart) {
      GoesOnInWhole(rules, input, pos, rowStart, []);
      t := EarlyDisagrees(rules, input, start + tok.size, RowAfter(tok.kind, rowStart, start));
      GoesOnInWhole(rules, input, pos, rowStart, t);
    } else {
      t := CutDisagrees(rules, input, pos, rowStart);
    }
  }

  /**
  A verdict given while the stream is open is the verdict of the stream, however it goes on, exactly when it
  was not given inside a row at an escape that can still be read.
   */
  lemma EarlyIsWhole(rules: Rules, input: seq<Byte>, pos: nat, rowStart: int)
    requires pos <= |input|
    requires !ScanFrom(rules, input, pos, rowStart, false).verdict.NeedMore?
    ensures (forall t :: Agrees(ScanFrom(rules, input, pos, rowStart, false),
                                ScanFrom(rules, input + t, pos, rowStart, true)))
            <==> !RowInEscape(rules, input, pos, rowStart)
  {
    hide ScanFrom, RowInEscape, Agrees;
    if RowInEscape(rules, input, pos, rowStart) {
      var t := EarlyDisagrees(rules, input, pos, rowStart);
    } else {
      forall t
        ensures Agrees(ScanFrom(rules, input, pos, rowStart, false), ScanFrom(rules, input + t, pos, rowStart, true))
      {
        EarlyAgrees(rules, input, pos, rowStart, t);
      }
    }
  }

  // ---- Reads of any sizes ----

  function Joined(pieces: seq<seq<Byte>>): seq<Byte> {
    if pieces == [] then [] else pieces[0] + Joined(pieces[1..])
  }

  /** The first verdict of a reader that gets the stream in pieces, and scans after each. */
  function FirstVerdict(rules: Rules, got: seq<Byte>, pieces: seq<seq<Byte>>, pos: nat, rowStart: int): Scan
    requires pos <= |got|
    decreases |pieces|
  {
    if pieces == [] then ScanFrom(rules, got, pos, rowStart, true)
    else
      var r := ScanFrom(rules, got, pos, rowStart, false);
      if r.verdict.NeedMore? then FirstVerdict(rules, got + pieces[0], pieces[1..], r.scanPos, r.rowStart) else r
  }

  /** No read ends where a verdict is given inside a row at an escape that can still be read. */
  predicate NoReadCuts(rules: Rules, got: seq<Byte>, pieces: seq<seq<Byte>>, pos: nat, rowStart: int)
    requires pos <= |got|
    decreases |pieces|
  {
    pieces == [] ||
    var r := ScanFrom(rules, got, pos, rowStart, false);
    if r.verdict.NeedMore? then NoReadCuts(rules, got + pieces[0], pieces[1..], r.scanPos, r.rowStart)
    else !RowInEscape(rules, got, pos, rowStart)
  }

  /** However the stream is cut into reads, the verdict, the row's start and its end are those of the whole. */
  lemma {:induction false} ReadsAreWhole(
      rules: Rules, got: seq<Byte>, pieces: seq<seq<Byte>>, pos: nat, rowStart: int)
    requires pos <= |got| && NoReadCuts(rules, got, pieces, pos, rowStart)
    ensures Agrees(FirstVerdict(rules, got, pieces, pos, rowStart),
                   ScanFrom(rules, got + Joined(pieces), pos, rowStart, true))
    decreases |pieces|
  {
    hide ScanFrom, RowInEscape;
    if pieces == [] {
      assert got + Joined(pieces) == got;
    } else {
      var r := ScanFrom(rules, got, pos, rowStart, false);
      if r.verdict.NeedMore? {
        ResumeIsWhole(rules, got, pos, rowStart, Joined(pieces));
        ReadsAreWhole(rules, got + pieces[0], pieces[1..], r.scanPos, r.rowStart);
        assert got + pieces[0] + Joined(pieces[1..]) == got + Joined(pieces);
      } else {
        EarlyAgrees(rules, got, pos, rowStart, Joined(pieces));
      }
    }
  }

  /** The verdict a reader gives while more may come, and the bytes it has by then. */
  function OpenVerdict(rules: Rules, got: seq<Byte>, pieces: seq<seq<Byte>>, pos: nat, rowStart: int)
    : (r: Option<(Scan, seq<Byte>)>)
    requires pos <= |got|
    ensures r.Some? ==> got <= r.value.1
    decreases |pieces|
  {
    if pieces == [] then None
    else
      var r := ScanFrom(rules, got, pos, rowStart, false);
      if r.verdict.NeedMore? then OpenVerdict(rules, got + pieces[0], pieces[1..], r.scanPos, r.rowStart)
      else Some((r, got))
  }

  /** It is the verdict of the stream, however the stream goes on, exactly when no read cuts. */
  lemma {:induction false} ReadsDecide(
      rules: Rules, got: seq<Byte>, pieces: seq<seq<Byte>>, pos: nat, rowStart: int)
    requires pos <= |got| && OpenVerdict(rules, got, pieces, pos, rowStart).Some?
    ensures var (scan, bytes) := OpenVerdict(rules, got, pieces, pos, rowStart).value;
            (forall t :: Agrees(scan, ScanFrom(rules, bytes + t, pos, rowStart, true)))
            <==> NoReadCuts(rules, got, pieces, pos, rowStart)
    decreases |pieces|
  {
    hide ScanFrom, RowInEscape;
    var r := ScanFrom(rules, got, pos, rowStart, false);
    if !r.verdict.NeedMore? {
      EarlyIsWhole(rules, got, pos, rowStart);
    } else {
      var next := got + pieces[0];
      ReadsDecide(rules, next, pieces[1..], r.scanPos, r.rowStart);
      var (scan, bytes) := OpenVerdict(rules, got, pieces, pos, rowStart).value;
      forall t
        ensures Agrees(scan, ScanFrom(rules, bytes + t, r.scanPos, r.rowStart, true))
                <==> Agrees(scan, ScanFrom(rules, bytes + t, pos, rowStart, true))
      {
        var rest := bytes[|got|..] + t;
        assert bytes + t == got + rest;
        ResumeIsWhole(rules, got, pos, rowStart, rest);
      }
    }
  }
}
