/**
Matching the braces of an @proto body as its bytes arrive: src/pxf/parser.cc,
BraceMatch::Scan. A scan that ran out of input resumes where it stopped.
 */
module BraceMatching {
  datatype Mode = Code | InString | TripleString | InBytes | LineComment | BlockComment

  datatype Verdict = Open | Closed | Failed

  /** What a scan remembers between calls. */
  datatype Matcher = Matcher(depth: int, mode: Mode, esc: bool, run: int)

  datatype Scanned = Scanned(m: Matcher, verdict: Verdict, at: nat)

  /** One byte on: the next state and position, or a verdict here. */
  datatype Step = Next(m: Matcher, at: nat) | Stop(m: Matcher, verdict: Verdict)

  function StepAt(m: Matcher, s: string, i: nat): (r: Step)
    requires i < |s|
    ensures r.Next? ==> i < r.at <= |s|
  {
    var ch := s[i];
    match m.mode
    case InString =>
      if m.esc then Next(m.(esc := false), i + 1)
      else if ch == '\\' then Next(m.(esc := true), i + 1)
      else if ch == '"' then Next(m.(mode := Code), i + 1)
      else if ch == '\n' then Stop(m, Failed)
      else Next(m, i + 1)
    case TripleString =>
      if ch != '"' then Next(m.(run := 0), i + 1)
      else if m.run + 1 == 3 then Next(m.(mode := Code, run := 0), i + 1)
      else Next(m.(run := m.run + 1), i + 1)
    case InBytes =>
      if ch == '"' then Next(m.(mode := Code), i + 1)
      else if ch == '\n' then Stop(m, Failed)
      else Next(m, i + 1)
    case LineComment => if ch == '\n' then Next(m.(mode := Code), i + 1) else Next(m, i + 1)
    case BlockComment =>
      if ch == '/' && m.run == 1 then Next(m.(mode := Code, run := 0), i + 1)
      else Next(m.(run := if ch == '*' then 1 else 0), i + 1)
    case Code =>
      if ch == '{' then Next(m.(depth := m.depth + 1), i + 1)
      else if ch == '}' then
        var outer := m.(depth := m.depth - 1);
        if outer.depth == 0 then Stop(outer, Closed) else Next(outer, i + 1)
      else if ch == '"' then
        if i + 2 >= |s| then Stop(m, Open)
        else if s[i + 1] == '"' && s[i + 2] == '"' then Next(m.(mode := TripleString), i + 3)
        else Next(m.(mode := InString), i + 1)
      else if ch == '#' then Next(m.(mode := LineComment), i + 1)
      else if ch == 'b' || ch == '/' then
        if i + 1 >= |s| then Stop(m, Open)
        else if ch == 'b' && s[i + 1] == '"' then Next(m.(mode := InBytes), i + 2)
        else if ch == '/' && s[i + 1] == '/' then Next(m.(mode := LineComment), i + 2)
        else if ch == '/' && s[i + 1] == '*' then Next(m.(mode := BlockComment), i + 2)
        else Next(m, i + 1)
      else Next(m, i + 1)
  }

  /** A whole scan of s from i. */
  function ScanFrom(m: Matcher, s: string, i: nat): (r: Scanned)
    requires i <= |s|
    ensures i <= r.at <= |s| && (r.verdict != Open ==> r.at < |s|)
    decreases |s| - i
  {
    if i == |s| then Scanned(m, Open, i)
    else
      match StepAt(m, s, i)
      case Next(m', j) => ScanFrom(m', s, j)
      case Stop(m', v) => Scanned(m', v, i)
  }

  class BraceMatch {
    var depth: int
    var mode: Mode
    var esc: bool
    var run: int

    constructor ()
      ensures State() == Matcher(1, Code, false, 0)
    {
      depth, mode, esc, run := 1, Code, false, 0;
    }

    ghost function State(): Matcher
      reads this
    {
      Matcher(depth, mode, esc, run)
    }

    method Scan(input: string, i0: nat) returns (i: nat, verdict: Verdict)
      requires i0 <= |input|
      modifies this
      ensures Scanned(State(), verdict, i) == ScanFrom(old(State()), input, i0)
    {
      var n := |input|;
      i := i0;
      while i < n
        invariant i0 <= i <= n
        invariant ScanFrom(State(), input, i) == ScanFrom(old(State()), input, i0)
      {
        ghost var step := StepAt(State(), input, i);
        var ch := input[i];
        match mode {
          case InString =>
            if esc {
              esc := false;
            } else if ch == '\\' {
              esc := true;
            } else if ch == '"' {
              mode := Code;
            } else if ch == '\n' {
              return i, Failed;
            }
          case TripleString =>
            if ch != '"' {
              run := 0;
            } else {
              run := run + 1;
              if run == 3 {
                mode, run := Code, 0;
              }
            }
          case InBytes =>
            if ch == '"' {
              mode := Code;
            } else if ch == '\n' {
              return i, Failed;
            }
          case LineComment =>
            if ch == '\n' {
              mode := Code;
            }
          case BlockComment =>
            if ch == '/' && run == 1 {
              mode, run := Code, 0;
            } else {
              run := if ch == '*' then 1 else 0;
            }
          case Code =>
            if ch == '{' {
              depth := depth + 1;
            } else if ch == '}' {
              depth := depth - 1;
              if depth == 0 {
                return i, Closed;
              }
            } else if ch == '"' {
              // One quote or three: undecided at the end of the input.
              if i + 2 >= n {
                return i, Open;
              }
              if input[i + 1] == '"' && input[i + 2] == '"' {
                mode := TripleString;
                i := i + 2;
              } else {
                mode := InString;
              }
            } else if ch == '#' {
              mode := LineComment;
            } else if ch == 'b' || ch == '/' {
              if i + 1 >= n {
                return i, Open;
              }
              var next := input[i + 1];
              if ch == 'b' && next == '"' {
                mode := InBytes;
                i := i + 1;
              } else if ch == '/' && next == '/' {
                mode := LineComment;
                i := i + 1;
              } else if ch == '/' && next == '*' {
                mode := BlockComment;
                i := i + 1;
              }
            }
        }
        i := i + 1;
        assert step == Next(State(), i);
      }
      verdict := Open;
    }
  }

  // ---- Bytes may arrive in any pieces ----

  lemma StepExtends(m: Matcher, s: string, t: string, i: nat)
    requires i < |s| && StepAt(m, s, i) != Stop(m, Open)
    ensures StepAt(m, s + t, i) == StepAt(m, s, i)
  {
  }

  /** A scan that stopped for want of input, resumed on more of it, is one scan of it all. */
  lemma {:induction false} ResumeIsWhole(m: Matcher, s: string, t: string, i: nat)
    requires i <= |s|
    ensures var r := ScanFrom(m, s, i);
            if r.verdict == Open then ScanFrom(r.m, s + t, r.at) == ScanFrom(m, s + t, i)
            else ScanFrom(m, s + t, i) == r
    decreases |s| - i
  {
    hide StepAt;
    if i < |s| && StepAt(m, s, i) != Stop(m, Open) {
      StepExtends(m, s, t, i);
      match StepAt(m, s, i) {
        case Next(m', j) => ResumeIsWhole(m', s, t, j);
        case Stop(m', v) => OnlyWaits(m, s, i);
      }
    }
  }

  /** A step that stops with no verdict leaves the state as it was. */
  lemma OnlyWaits(m: Matcher, s: string, i: nat)
    requires i < |s|
    ensures StepAt(m, s, i).Stop? && StepAt(m, s, i).verdict == Open ==> StepAt(m, s, i).m == m
  {
  }

  /** Scanning s each time it has grown to one of the lengths in cuts, until there is a verdict. */
  function ScanPieces(m: Matcher, s: string, i: nat, cuts: seq<nat>): Scanned
    requires i <= |s|
    decreases |cuts|
  {
    if cuts == [] || cuts[0] > |s| || cuts[0] < i then ScanFrom(m, s, i)
    else
      var r := ScanFrom(m, s[..cuts[0]], i);
      if r.verdict == Open then ScanPieces(r.m, s, r.at, cuts[1..]) else r
  }

  /** However the bytes arrive, the verdict, its offset and the state are those of one scan. */
  lemma {:induction false} PiecesAreWhole(m: Matcher, s: string, i: nat, cuts: seq<nat>)
    requires i <= |s|
    ensures ScanPieces(m, s, i, cuts) == ScanFrom(m, s, i)
    decreases |cuts|
  {
    if cuts != [] && i <= cuts[0] <= |s| {
      var pre, post := s[..cuts[0]], s[cuts[0]..];
      assert pre + post == s;
      ResumeIsWhole(m, pre, post, i);
      var r := ScanFrom(m, pre, i);
      if r.verdict == Open {
        PiecesAreWhole(r.m, s, r.at, cuts[1..]);
      }
    }
  }
}
