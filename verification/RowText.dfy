/**
What a scan for rows decides, said of the tokens of the stream: src/pxf/dataset_reader.cc, ScanRow. A row is an opening
parenthesis and all up to the first closing one, with no other parenthesis and no error between.
 */
module RowText {
  import opened BigEndian
  import opened Tokens
  import opened TokensTaken
  import opened RowScan

  datatype Place = Place(start: nat, tok: Token)

  /** The tokens from pos on but for line ends and comments, and where each one is. */
  function Places(rules: Rules, input: seq<Byte>, pos: nat): seq<Place>
    requires pos <= |input|
    decreases |input| - pos
  {
    var (start, tok) := NextToken(rules, input, pos);
    FromNext(rules, input, pos);
    if tok.kind.EOF? then []
    else (if Skipped(tok.kind) then [] else [Place(start, tok)]) + Places(rules, input, start + tok.size)
  }

  predicate Breaks(k: Kind) {
    k.LParen? || k.RParen? || k.Illegal?
  }

  /** The first of the tokens that is a parenthesis or an error is the k-th. */
  predicate BreaksAt(ts: seq<Place>, k: nat) {
    k < |ts| && Breaks(ts[k].tok.kind) && forall j :: 0 <= j < k ==> !Breaks(ts[j].tok.kind)
  }

  predicate NeverBreaks(ts: seq<Place>) {
    forall j :: 0 <= j < |ts| ==> !Breaks(ts[j].tok.kind)
  }

  lemma BreaksLater(x: Place, ts: seq<Place>, k: nat)
    requires !Breaks(x.tok.kind)
    ensures BreaksAt([x] + ts, k) ==> k > 0 && BreaksAt(ts, k - 1)
    ensures NeverBreaks([x] + ts) ==> NeverBreaks(ts)
  {
    hide Breaks;
    var all := [x] + ts;
    assert forall j {:trigger ts[j]} :: 0 <= j < |ts| ==> all[j + 1] == ts[j];
  }

  /** The rest of a row: the first parenthesis or error in it decides. */
  lemma {:induction false} RestOfRow(rules: Rules, input: seq<Byte>, pos: nat, rowStart: nat, k: nat)
    requires pos <= |input|
    requires BreaksAt(Places(rules, input, pos), k)
    ensures var r, x := ScanFrom(rules, input, pos, rowStart, true), Places(rules, input, pos)[k];
            && r.verdict == (if x.tok.kind.RParen? then Row else BadRow)
            && r.start == rowStart && r.end == x.start + x.tok.size
    decreases |input| - pos
  {
    hide NextToken, BreaksAt;
    var (start, tok) := NextToken(rules, input, pos);
    FromNext(rules, input, pos);
    NoPlace(k);
    var rest := Places(rules, input, start + tok.size);
    if Skipped(tok.kind) {
      assert [] + rest == rest;
      RestOfRow(rules, input, start + tok.size, rowStart, k);
    } else if !Breaks(tok.kind) {
      BreaksLater(Place(start, tok), rest, k);
      RestOfRow(rules, input, start + tok.size, rowStart, k - 1);
    } else {
      FirstBreaks(Place(start, tok), rest, k);
    }
  }

  lemma NoPlace(k: nat)
    ensures !BreaksAt([], k)
  {
  }

  lemma FirstBreaks(x: Place, ts: seq<Place>, k: nat)
    requires Breaks(x.tok.kind) && BreaksAt([x] + ts, k)
    ensures k == 0
  {
    assert ([x] + ts)[0] == x;
  }

  /** A row that is not closed is waited for. */
  lemma {:induction false} RowOpen(rules: Rules, input: seq<Byte>, pos: nat, rowStart: nat)
    requires pos <= |input| && NeverBreaks(Places(rules, input, pos))
    ensures ScanFrom(rules, input, pos, rowStart, true).verdict.NeedMore?
    decreases |input| - pos
  {
    hide NextToken;
    var (start, tok) := NextToken(rules, input, pos);
    FromNext(rules, input, pos);
    if !tok.kind.EOF? {
      var rest := Places(rules, input, start + tok.size);
      if Skipped(tok.kind) {
        assert [] + rest == rest;
      } else {
        assert ([Place(start, tok)] + rest)[0].tok == tok;
        BreaksLater(Place(start, tok), rest, 0);
      }
      RowOpen(rules, input, start + tok.size, rowStart);
    }
  }

  /** What is found where a row began at rowStart and the tokens follow. */
  ghost predicate RowFrom(r: Scan, rowStart: nat, ts: seq<Place>) {
    && (NeverBreaks(ts) ==> r.verdict.NeedMore?)
    && forall k: nat :: BreaksAt(ts, k) ==>
         && r.verdict == (if ts[k].tok.kind.RParen? then Row else BadRow)
         && r.start == rowStart && r.end == ts[k].start + ts[k].tok.size
  }

  lemma Opened(rules: Rules, input: seq<Byte>, pos: nat, rowStart: nat)
    requires pos <= |input|
    ensures RowFrom(ScanFrom(rules, input, pos, rowStart, true), rowStart, Places(rules, input, pos))
  {
    hide ScanFrom, Places, NeverBreaks;
    var ts := Places(rules, input, pos);
    if NeverBreaks(ts) {
      RowOpen(rules, input, pos, rowStart);
    }
    forall k: nat | BreaksAt(ts, k)
      ensures var r := ScanFrom(rules, input, pos, rowStart, true);
              && r.verdict == (if ts[k].tok.kind.RParen? then Row else BadRow)
              && r.start == rowStart && r.end == ts[k].start + ts[k].tok.size
    {
      RestOfRow(rules, input, pos, rowStart, k);
    }
  }

  /** What is found where no row has begun: the first token decides whether one does. */
  ghost predicate RowAmong(r: Scan, ts: seq<Place>) {
    if ts == [] then r.verdict.NeedMore?
    else
      var x := ts[0];
      if x.tok.kind.LParen? then RowFrom(r, x.start, ts[1..])
      else r.start == x.start && r.verdict == if IsDirective(x.tok.kind) then EndOfRows else NotRow
  }

  lemma {:induction false} RowsAre(rules: Rules, input: seq<Byte>, pos: nat)
    requires pos <= |input|
    ensures RowAmong(ScanFrom(rules, input, pos, -1, true), Places(rules, input, pos))
    decreases |input| - pos
  {
    hide NextToken, RowFrom;
    var (start, tok) := NextToken(rules, input, pos);
    FromNext(rules, input, pos);
    if !tok.kind.EOF? {
      var next := start + tok.size;
      var rest := Places(rules, input, next);
      if Skipped(tok.kind) {
        assert [] + rest == rest;
        RowsAre(rules, input, next);
      } else {
        assert ([Place(start, tok)] + rest)[1..] == rest;
        if tok.kind.LParen? {
          Opened(rules, input, next, start);
        }
      }
    }
  }
}
