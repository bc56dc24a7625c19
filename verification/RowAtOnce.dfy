/**
A row that is there is let through: src/pxf/dataset_reader.cc, Complete and ScanRow. Once its closing parenthesis has
arrived, a scan of the open stream finds the row and waits for nothing more.
 */
module RowAtOnce {
  import opened BigEndian
  import opened Tokens
  import opened TokenStability
  import opened TokensTaken
  import opened RowScan

  const CLOSE: Byte := 0x29

  /** A closing parenthesis is that byte, and a token that starts past ASCII is an error. */
  lemma ByFirstByte(rules: Rules, s: seq<Byte>)
    requires s != []
    ensures Lex(rules, s).kind.RParen? ==> s[0] == CLOSE && Lex(rules, s).size == 1
    ensures s[0] >= 0x80 ==> Lex(rules, s).kind.Illegal?
  {
    hide Find, Run, BytesEnd, NumberToken;
    NumberKinds(rules, s);
  }

  /** A row that is found ends with the parenthesis, after pos. */
  lemma {:induction false} RowEnds(rules: Rules, input: seq<Byte>, pos: nat, rowStart: int)
    requires pos <= |input| && ScanFrom(rules, input, pos, rowStart, true).verdict.Row?
    ensures var e := ScanFrom(rules, input, pos, rowStart, true).end; pos < e <= |input| && input[e - 1] == CLOSE
    decreases |input| - pos
  {
    hide Lex, GoesOn;
    var (start, tok) := NextToken(rules, input, pos);
    FromNext(rules, input, pos);
    if GoesOn(tok.kind, rowStart) {
      RowEnds(rules, input, start + tok.size, RowAfter(tok.kind, rowStart, start));
    } else {
      ByFirstByte(rules, input[start..]);
    }
  }

  /** A token before the parenthesis is not waited for. */
  lemma TakenBefore(rules: Rules, input: seq<Byte>, pos: nat, rowStart: int, e: nat)
    requires pos <= |input|
    requires var (start, tok) := NextToken(rules, input, pos);
             && !tok.kind.EOF? && GoesOn(tok.kind, rowStart) && start + tok.size < e <= |input|
             && input[e - 1] == CLOSE
    ensures var (start, tok) := NextToken(rules, input, pos);
            start <= |input| && IsTaken(tok, input[start..], false)
  {
    hide Lex;
    var (start, tok) := NextToken(rules, input, pos);
    FromNext(rules, input, pos);
    var s := input[start..];
    ByFirstByte(rules, s);
    assert s[tok.size] == input[start + tok.size];
  }

  /** A row of the stream that has arrived is found at once. */
  lemma {:induction false} RowNotHeldUp(rules: Rules, input: seq<Byte>, pos: nat, rowStart: int)
    requires pos <= |input| && ScanFrom(rules, input, pos, rowStart, true).verdict.Row?
    ensures ScanFrom(rules, input, pos, rowStart, false) == ScanFrom(rules, input, pos, rowStart, true)
    decreases |input| - pos
  {
    hide NextToken, Complete, RowAfter, Verdicts;
    var (start, tok) := NextToken(rules, input, pos);
    FromNext(rules, input, pos);
    RowEnds(rules, input, pos, rowStart);
    if GoesOn(tok.kind, rowStart) {
      var next := RowAfter(tok.kind, rowStart, start);
      RowEnds(rules, input, start + tok.size, next);
      TakenBefore(rules, input, pos, rowStart, ScanFrom(rules, input, pos, rowStart, true).end);
      RowNotHeldUp(rules, input, start + tok.size, next);
    } else {
      ParenTaken(rules, input, pos, rowStart);
    }
  }

  lemma ParenTaken(rules: Rules, input: seq<Byte>, pos: nat, rowStart: int)
    requires pos <= |input| && ScanFrom(rules, input, pos, rowStart, true).verdict.Row?
    requires !GoesOn(NextToken(rules, input, pos).1.kind, rowStart)
    ensures var (start, tok) := NextToken(rules, input, pos);
            start <= |input| && IsTaken(tok, input[start..], false)
  {
    hide NextToken;
    FromNext(rules, input, pos);
  }
}
