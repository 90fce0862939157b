/**
 * The token stream of a weight file as TextFileInputReader sees it: the lines that are
 * neither blank nor comments, trimmed and split on single spaces; and readVec's reading of
 * a matrix from that stream in row-major order. Double.parseDouble is the parameter `parse`.
 */
module TokenStream {
  import opened Errors
  import opened JavaString

  /** A line that nextToken keeps: after trim() it is neither empty nor starts with '#'. */
  predicate Kept(line: string) {
    var t := Trim(line);
    t != [] && t[0] != '#'
  }

  /** The tokens of one line: the trimmed line split on the single character ' '. */
  function LineTokens(line: string): seq<string> {
    JavaSplit(Trim(line), ' ')
  }

  /** The token stream of a sequence of lines: the tokens of the kept lines, in order. */
  function Tokens(lines: seq<string>): (r: seq<string>)
    ensures lines == [] ==> r == []
  {
    if lines == [] then []
    else (if Kept(lines[0]) then LineTokens(lines[0]) else []) + Tokens(lines[1..])
  }

  /** A kept line has at least one token; no token contains a space; every piece is kept. */
  lemma KeptLineTokens(line: string)
    requires Kept(line)
    ensures LineTokens(line) == SplitAll(Trim(line), ' ')
    ensures |LineTokens(line)| >= 1
    ensures forall t :: t in LineTokens(line) ==> ' ' !in t
  {
    var t := Trim(line);
    assert !IsTrimmed(t[|t| - 1]);
    JavaSplitIsSplitAll(t, ' ');
  }

  /** Two adjacent spaces produce an empty token between the words around them. */
  lemma DoubleSpaceGivesEmptyToken(a: string, b: string)
    requires a != [] && b != [] && ' ' !in a && ' ' !in b
    requires !IsTrimmed(a[0]) && !IsTrimmed(b[|b| - 1])
    ensures LineTokens(a + "  " + b) == [a, [], b]
  {
    var tail := [] + [' '] + b;
    var s := a + [' '] + tail;
    assert s == a + "  " + b;
    TrimKeeps(s);
    JavaSplitIsSplitAll(s, ' ');
    SplitNoSeparator(a, ' ');
    SplitNoSeparator([], ' ');
    SplitNoSeparator(b, ' ');
    SplitAppend([], b, ' ');
    SplitAppend(a, tail, ' ');
  }

  lemma {:induction false} TokensAppend(a: seq<string>, b: seq<string>)
    ensures Tokens(a + b) == Tokens(a) + Tokens(b)
  {
    if a != [] {
      assert (a + b)[1..] == a[1..] + b;
      TokensAppend(a[1..], b);
    } else {
      assert a + b == b;
    }
  }

  /** The token stream from line p on: the tokens of line p if it is kept, then the rest. */
  lemma TokensFrom(lines: seq<string>, p: nat)
    requires p < |lines|
    ensures Tokens(lines[p..]) == (if Kept(lines[p]) then LineTokens(lines[p]) else []) + Tokens(lines[p + 1..])
  {
    assert lines[p..][1..] == lines[p + 1..];
  }

  /** Blank lines and comment lines contribute no token. */
  lemma {:induction false} TokensOfSkipped(lines: seq<string>)
    requires forall k :: 0 <= k < |lines| ==> !Kept(lines[k])
    ensures Tokens(lines) == []
  {
    if lines != [] {
      TokensOfSkipped(lines[1..]);
    }
  }

  /** No token of any line sequence contains a space. */
  lemma {:induction false} TokensHaveNoSpace(lines: seq<string>)
    ensures forall t :: t in Tokens(lines) ==> ' ' !in t
  {
    if lines != [] {
      TokensHaveNoSpace(lines[1..]);
      if Kept(lines[0]) {
        KeptLineTokens(lines[0]);
      }
    }
  }

  /**
   * Reads n doubles from the token stream as nextDouble does inside readVec: a missing
   * token is the exception `eof` that readLine raises (normally the NullPointerException of
   * readLine().trim()); an unparsable token is the NumberFormatException that readVec wraps
   * in a RuntimeException.
   */
  function ReadValues(ts: seq<string>, n: nat, parse: string -> Option<real>, eof: Error): Outcome<seq<real>> {
    if n == 0 then Ok([])
    else match ReadValues(ts, n - 1, parse, eof)
      case Fail(e) => Fail(e)
      case Ok(vs) =>
        if n - 1 >= |ts| then Fail(eof)
        else match parse(ts[n - 1])
          case None => Fail(Wrapped(NumberFormat(ts[n - 1])))
          case Some(v) => Ok(vs + [v])
  }

  /**
   * Reading n values succeeds exactly when there are n tokens and each parses; the values
   * are their parses in order; a failure is either `eof` or the wrapped NumberFormatException
   * of a token that does not parse.
   */
  lemma {:induction false} ReadValuesMeaning(ts: seq<string>, n: nat, parse: string -> Option<real>, eof: Error)
    ensures var r := ReadValues(ts, n, parse, eof);
      (r.Ok? <==> n <= |ts| && forall k :: 0 <= k < n ==> parse(ts[k]).Some?) &&
      (r.Ok? ==> |r.value| == n && forall k :: 0 <= k < n ==> parse(ts[k]) == Some(r.value[k])) &&
      (r.Fail? ==> (r.error == eof || exists k :: (0 <= k < n && k < |ts| &&
        r.error == Wrapped(NumberFormat(ts[k])) && parse(ts[k]).None?)))
  {
    if n > 0 {
      ReadValuesMeaning(ts, n - 1, parse, eof);
    }
  }

  /** The step from j values to j + 1: end of input, a token that does not parse, or one more value. */
  lemma ReadValuesNext(ts: seq<string>, j: nat, parse: string -> Option<real>, eof: Error)
    requires ReadValues(ts, j, parse, eof).Ok?
    ensures j >= |ts| ==> ReadValues(ts, j + 1, parse, eof) == Fail(eof)
    ensures j < |ts| && parse(ts[j]).None? ==>
      ReadValues(ts, j + 1, parse, eof) == Fail(Wrapped(NumberFormat(ts[j])))
    ensures j < |ts| && parse(ts[j]).Some? ==>
      ReadValues(ts, j + 1, parse, eof) == Ok(ReadValues(ts, j, parse, eof).value + [parse(ts[j]).value])
  {
  }

  /** How readVec's catch clause rethrows: NumberFormatException and IOException wrapped in a RuntimeException, anything else as it is. */
  function Rethrown(e: Error): (r: Error)
    ensures e.NullPointer? ==> r == e
    ensures e.NumberFormat? || e.StreamClosed? ==> r == Wrapped(e)
  {
    if e.NullPointer? then e else Wrapped(e)
  }

  /** nextDouble() on a token stream: the parse of its first token, or `end` when it has none. */
  function NextDoubleOf(ts: seq<string>, parse: string -> Option<real>, end: Error): Outcome<real> {
    if ts == [] then Fail(end)
    else match parse(ts[0])
      case Some(v) => Ok(v)
      case None => Fail(NumberFormat(ts[0]))
  }

  /**
   * Reading j + 1 of b values is reading j, then one nextDouble from the tokens after them:
   * its value is appended, or its exception, rethrown as readVec does, ends the row.
   */
  lemma ReadValuesStep(ts: seq<string>, j: nat, b: nat, parse: string -> Option<real>, end: Error)
    requires j < b && ReadValues(ts, j, parse, Rethrown(end)).Ok?
    ensures j <= |ts|
    ensures var x := NextDoubleOf(ts[j..], parse, end);
      (x.Fail? ==> ReadValues(ts, b, parse, Rethrown(end)) == Fail(Rethrown(x.error))) &&
      (x.Ok? ==> (j < |ts| && ts[j..][1..] == ts[j + 1..] &&
        ReadValues(ts, j + 1, parse, Rethrown(end)) == Ok(ReadValues(ts, j, parse, Rethrown(end)).value + [x.value])))
  {
    ReadValuesMeaning(ts, j, parse, Rethrown(end));
    if j < |ts| {
      assert ts[j..][0] == ts[j];
    }
    if NextDoubleOf(ts[j..], parse, end).Fail? {
      ReadValuesFailureSticks(ts, j + 1, b, parse, Rethrown(end));
    }
  }

  /** Once reading fails, reading further fails with the same error. */
  lemma {:induction false} ReadValuesFailureSticks(ts: seq<string>, m: nat, n: nat, parse: string -> Option<real>, eof: Error)
    requires m <= n && ReadValues(ts, m, parse, eof).Fail?
    ensures ReadValues(ts, n, parse, eof) == ReadValues(ts, m, parse, eof)
    decreases n
  {
    if m < n {
      ReadValuesFailureSticks(ts, m, n - 1, parse, eof);
    }
  }

  /** The rows readVec reads one after another, and the tokens left after them. */
  function ReadRows(ts: seq<string>, rows: nat, b: int, parse: string -> Option<real>, eof: Error): Outcome<(seq<seq<real>>, seq<string>)> {
    if rows == 0 then Ok(([], ts))
    else match ReadRows(ts, rows - 1, b, parse, eof)
      case Fail(e) => Fail(e)
      case Ok(done) =>
        if b < 0 then Fail(NegativeArraySize(b))
        else match ReadValues(done.1, b, parse, eof)
          case Fail(e) => Fail(e)
          case Ok(row) => Ok((done.0 + [row], done.1[b..]))
  }

  /** Once a row fails, reading further rows fails with the same error. */
  lemma {:induction false} ReadRowsFailureSticks(ts: seq<string>, m: nat, n: nat, b: int, parse: string -> Option<real>, eof: Error)
    requires m <= n && ReadRows(ts, m, b, parse, eof).Fail?
    ensures ReadRows(ts, n, b, parse, eof) == ReadRows(ts, m, b, parse, eof)
    decreases n
  {
    if m < n {
      ReadRowsFailureSticks(ts, m, n - 1, b, parse, eof);
    }
  }

  /** readVec(a, b): new double[a][], then each row new double[b] filled by nextDouble. */
  function ReadMatrix(ts: seq<string>, a: int, b: int, parse: string -> Option<real>, eof: Error): Outcome<(seq<seq<real>>, seq<string>)> {
    if a < 0 then Fail(NegativeArraySize(a)) else ReadRows(ts, a, b, parse, eof)
  }

  /** Entry [i][j] of m exists, its row has b entries, and it is the parse of token i*b + j of ts. */
  ghost predicate RowMajorEntry(m: seq<seq<real>>, ts: seq<string>, b: int, parse: string -> Option<real>, i: int, j: int) {
    0 <= i < |m| && 0 <= j < |m[i]| && |m[i]| == b && 0 <= i * b + j < |ts| && parse(ts[i * b + j]) == Some(m[i][j])
  }

  /** Every entry of m is the parse of the token at its row-major position in ts. */
  ghost predicate RowMajor(m: seq<seq<real>>, ts: seq<string>, b: int, parse: string -> Option<real>) {
    forall i, j :: 0 <= i < |m| && 0 <= j < |m[i]| ==> RowMajorEntry(m, ts, b, parse, i, j)
  }

  /** Proof helper: the step from a - 1 rows of b columns to a rows: a*b is (a-1)*b + b, and never negative. */
  lemma RowsStep(a: nat, b: int)
    requires a > 0 && b >= 0
    ensures a * b == (a - 1) * b + b && (a - 1) * b >= 0
  {
  }

  /** A row holding the parses of the b tokens after the first |m| rows extends a row-major matrix. */
  lemma RowMajorAppend(m: seq<seq<real>>, row: seq<real>, ts: seq<string>, b: nat, parse: string -> Option<real>)
    requires RowMajor(m, ts, b, parse) && 0 <= |m| * b && |m| * b + b <= |ts| && |row| == b
    requires forall k :: 0 <= k < b ==> parse(ts[|m| * b..][k]) == Some(row[k])
    ensures RowMajor(m + [row], ts, b, parse)
  {
    var m' := m + [row];
    forall i, j | 0 <= i < |m'| && 0 <= j < |m'[i]|
      ensures RowMajorEntry(m', ts, b, parse, i, j)
    {
      if i == |m| {
        assert ts[|m| * b..][j] == ts[i * b + j];
      } else {
        assert RowMajorEntry(m, ts, b, parse, i, j);
      }
    }
  }

  /**
   * A successful readVec(a, b) returns a rows of b values, holds the parse of token
   * i*b + j at [i][j] (row-major, rows spanning line boundaries freely) and consumes
   * exactly a*b tokens.
   */
  lemma {:induction false} ReadRowsRowMajor(ts: seq<string>, a: nat, b: int, parse: string -> Option<real>, eof: Error)
    requires ReadRows(ts, a, b, parse, eof).Ok?
    ensures var m := ReadRows(ts, a, b, parse, eof).value;
      (a == 0 || b >= 0) && 0 <= a * b <= |ts| && m.1 == ts[a * b..] && |m.0| == a && RowMajor(m.0, ts, b, parse)
  {
    if a > 0 {
      ReadRowsRowMajor(ts, a - 1, b, parse, eof);
      var prev := ReadRows(ts, a - 1, b, parse, eof).value;
      assert b >= 0;
      RowsStep(a, b);
      var row := ReadValues(prev.1, b, parse, eof).value;
      ReadValuesMeaning(prev.1, b, parse, eof);
      RowMajorAppend(prev.0, row, ts, b, parse);
    }
  }

  /** Every row a successful readVec(a, b) returns holds b values. */
  lemma {:induction false} ReadRowsShape(ts: seq<string>, a: nat, b: int, parse: string -> Option<real>, eof: Error)
    requires ReadRows(ts, a, b, parse, eof).Ok?
    ensures var m := ReadRows(ts, a, b, parse, eof).value.0;
      |m| == a && forall i :: 0 <= i < a ==> |m[i]| == b
  {
    if a > 0 {
      ReadRowsShape(ts, a - 1, b, parse, eof);
      var prev := ReadRows(ts, a - 1, b, parse, eof).value;
      assert b >= 0;
      ReadValuesMeaning(prev.1, b, parse, eof);
    }
  }

  /** The first m + n tokens all parse exactly when the first m do and the n after them do. */
  lemma ParsesSplit(ts: seq<string>, m: nat, n: nat, parse: string -> Option<real>)
    requires m + n <= |ts|
    ensures (forall k :: 0 <= k < m + n ==> parse(ts[k]).Some?) <==>
      (forall k :: 0 <= k < m ==> parse(ts[k]).Some?) && (forall k :: 0 <= k < n ==> parse(ts[m..][k]).Some?)
  {
    if forall k :: 0 <= k < m ==> parse(ts[k]).Some? {
      if forall k :: 0 <= k < n ==> parse(ts[m..][k]).Some? {
        forall k | m <= k < m + n
          ensures parse(ts[k]).Some?
        {
          assert ts[k] == ts[m..][k - m];
        }
      }
    }
  }

  /** readVec(a, b) succeeds exactly when the sizes can be allocated and the next a*b tokens exist and parse. */
  lemma {:induction false} ReadRowsSucceeds(ts: seq<string>, a: nat, b: int, parse: string -> Option<real>, eof: Error)
    ensures ReadRows(ts, a, b, parse, eof).Ok? <==>
      (a == 0 || (b >= 0 && a * b <= |ts| && forall k :: 0 <= k < a * b ==> parse(ts[k]).Some?))
  {
    if a > 0 {
      ReadRowsSucceeds(ts, a - 1, b, parse, eof);
      var prev := ReadRows(ts, a - 1, b, parse, eof);
      if b >= 0 {
        RowsStep(a, b);
        var base := (a - 1) * b;
        if prev.Ok? {
          ReadRowsRowMajor(ts, a - 1, b, parse, eof);
          ReadValuesMeaning(prev.value.1, b, parse, eof);
          if base + b <= |ts| {
            ParsesSplit(ts, base, b, parse);
          }
        }
      }
    }
  }

  /** What one line contributes to the token stream: its tokens if it is kept, none otherwise. */
  function LineContribution(line: string): (r: seq<string>)
    ensures Kept(line) ==> |r| >= 1
  {
    if Kept(line) then (KeptLineTokens(line); LineTokens(line)) else []
  }

  /** The per-line token lists one after the other. */
  function Flatten(ls: seq<seq<string>>): (r: seq<string>)
    ensures ls == [] ==> r == []
  {
    if ls == [] then [] else ls[0] + Flatten(ls[1..])
  }

  /** lineTokens lists what each line of file contributes to the token stream. */
  ghost predicate Tokenized(file: seq<string>, lineTokens: seq<seq<string>>) {
    |lineTokens| == |file| &&
    forall i {:trigger LineContribution(file[i])} :: 0 <= i < |file| ==> lineTokens[i] == LineContribution(file[i])
  }

  /** The flattened contributions of lines p.. are the token stream of those lines. */
  lemma {:induction false} TokenizedFlatten(file: seq<string>, lineTokens: seq<seq<string>>, p: nat)
    requires Tokenized(file, lineTokens) && p <= |file|
    ensures Flatten(lineTokens[p..]) == Tokens(file[p..])
    decreases |file| - p
  {
    if p < |file| {
      TokenizedFlatten(file, lineTokens, p + 1);
      TokensFrom(file, p);
      assert lineTokens[p] == LineContribution(file[p]);
      assert lineTokens[p..][1..] == lineTokens[p + 1..];
    }
  }

  /** The flattened lists from p on: list p, then the rest. */
  lemma FlattenFrom(ls: seq<seq<string>>, p: nat)
    requires p < |ls|
    ensures Flatten(ls[p..]) == ls[p] + Flatten(ls[p + 1..])
    ensures ls[p] == [] ==> Flatten(ls[p..]) == Flatten(ls[p + 1..])
  {
    assert ls[p..][1..] == ls[p + 1..];
    assert [] + Flatten(ls[p + 1..]) == Flatten(ls[p + 1..]);
  }
}
