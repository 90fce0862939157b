/**
 * TextFileInputReader: hands out the tokens of a weight file one at a time and reads
 * matrices of them. The file is the sequence of its lines as BufferedReader.readLine
 * delivers them.
 */
module TextFileInput {
  import opened Errors
  import opened JavaString
  import opened TokenStream

  /**
   * The readLine loop of nextToken: from line p on, skips the lines that trim to nothing or
   * to a comment, and splits the next line on ' '. Returns how many lines were read and the
   * tokens of the kept line; None when readLine reached the end of the file first.
   */
  method NextLineTokens(file: seq<string>, ghost lineTokens: seq<seq<string>>, p: nat)
    returns (q: nat, toks: Option<seq<string>>)
    requires Tokenized(file, lineTokens) && p <= |file|
    ensures p <= q <= |file|
    ensures toks.None? ==> q == |file| && Flatten(lineTokens[p..]) == [] && Flatten(lineTokens[q..]) == []
    ensures toks.Some? ==> (p < q && toks.value == lineTokens[q - 1] && |toks.value| >= 1 &&
      Flatten(lineTokens[p..]) == toks.value + Flatten(lineTokens[q..]))
  {
    q := p;
    while true
      invariant p <= q <= |file|
      invariant Flatten(lineTokens[q..]) == Flatten(lineTokens[p..])
      decreases |file| - q
    {
      if q == |file| {
        return q, None;
      }
      var l := Trim(file[q]);
      assert lineTokens[q] == LineContribution(file[q]);
      FlattenFrom(lineTokens, q);
      q := q + 1;
      if l != [] && l[0] != '#' {
        return q, Some(JavaSplit(l, ' '));
      }
    }
  }

  /**
   * The tokens a reader hands out from a state: what is left of the current line, then
   * the contributions of the lines not yet read, if readLine can still be called.
   */
  ghost function Pending(lineTokens: seq<seq<string>>, pos: nat, line: Option<seq<string>>, index: int, canRead: bool): seq<string>
    requires pos <= |lineTokens| && 0 <= index && (line.Some? ==> index <= |line.value|)
  {
    (if line.Some? then line.value[index..] else []) + (if canRead then Flatten(lineTokens[pos..]) else [])
  }

  /** With the current line null or used up, only the unread lines are left. */
  lemma PendingUsedUp(lineTokens: seq<seq<string>>, pos: nat, line: Option<seq<string>>, index: int, canRead: bool)
    requires pos <= |lineTokens| && 0 <= index && (line.Some? ==> index == |line.value|)
    ensures Pending(lineTokens, pos, line, index, canRead) == if canRead then Flatten(lineTokens[pos..]) else []
  {
    var unread := if canRead then Flatten(lineTokens[pos..]) else [];
    if line.Some? {
      assert line.value[index..] == [];
    }
    assert [] + unread == unread;
  }

  /** Making the tokens of the next kept line current hands out the same tokens. */
  lemma PendingRefilled(lineTokens: seq<seq<string>>, p: nat, q: nat, toks: seq<string>)
    requires p <= q <= |lineTokens| && Flatten(lineTokens[p..]) == toks + Flatten(lineTokens[q..])
    ensures Pending(lineTokens, q, Some(toks), 0, true) == Flatten(lineTokens[p..])
  {
    assert toks[0..] == toks;
  }

  /** Taking the token at index hands out the rest. */
  lemma PendingTake(lineTokens: seq<seq<string>>, pos: nat, line: seq<string>, index: int, canRead: bool)
    requires pos <= |lineTokens| && 0 <= index < |line|
    ensures var r := Pending(lineTokens, pos, Some(line), index, canRead);
      r != [] && r[0] == line[index] && r[1..] == Pending(lineTokens, pos, Some(line), index + 1, canRead)
  {
    var unread := if canRead then Flatten(lineTokens[pos..]) else [];
    assert line[index..] == [line[index]] + line[index + 1..];
    assert (line[index..] + unread)[1..] == line[index + 1..] + unread;
  }

  /** Proof helper: the suffix from j starts with s[j] and continues with the suffix from j + 1. */
  lemma SuffixStep<T>(s: seq<T>, j: nat)
    requires j < |s|
    ensures s[j..] != [] && s[j..][0] == s[j] && s[j..][1..] == s[j + 1..]
  {
  }

  /** The arrays are pairwise distinct and hold the rows of m, in order. */
  ghost predicate HoldsRows(arrs: seq<array<real>>, m: seq<seq<real>>)
    reads set i | 0 <= i < |arrs| :: arrs[i]
  {
    |arrs| == |m| && (forall i :: 0 <= i < |arrs| ==> arrs[i][..] == m[i]) &&
    forall i, j :: 0 <= i < j < |arrs| ==> arrs[i] != arrs[j]
  }

  /** A further, distinct array holding row x extends the matrix by that row. */
  lemma HoldsRowsAppend(arrs: seq<array<real>>, m: seq<seq<real>>, x: array<real>, row: seq<real>)
    requires HoldsRows(arrs, m) && x !in arrs && x[..] == row
    ensures HoldsRows(arrs + [x], m + [row])
  {
    var arrs' := arrs + [x];
    forall i, j | 0 <= i < j < |arrs'|
      ensures arrs'[i] != arrs'[j]
    {
      if j == |arrs| {
        assert arrs'[i] in arrs;
      }
    }
  }

  /** new double[b], filled with the values read for it. */
  method NewRow(vals: seq<real>) returns (row: array<real>)
    ensures fresh(row) && row[..] == vals
  {
    row := new real[|vals|](i requires 0 <= i < |vals| => vals[i]);
  }

  /** The calls a reader receives from its owner, in order. */
  datatype Event = ReadVecCall(rows: int, cols: int) | CloseCall

  class TextFileInputReader {
    /** _sourceExists: whether the file existed when the reader was created; final. */
    const sourceExists: bool
    /** The lines of the file, as readLine delivers them. */
    const file: seq<string>
    /** How many lines readLine has delivered. */
    var pos: nat
    /** The split tokens of the current line; None while it is still null. */
    var line: Option<seq<string>>
    /** The index of the next token of the current line. */
    var index: int
    /** Whether close() has been called on an open stream. */
    var closed: bool
    /** What each line of the file contributes to the token stream. */
    ghost const lineTokens: seq<seq<string>>
    /** The readVec and close calls received so far. */
    ghost var trace: seq<Event>

    ghost predicate Valid()
      reads this`pos, this`line, this`index
    {
      pos <= |file| && 0 <= index && (line.Some? ==> index <= |line.value|) &&
      Tokenized(file, lineTokens)
    }

    /** Whether readLine may still be called without an exception. */
    predicate CanReadLines()
      reads this`closed
    {
      sourceExists && !closed
    }

    /** The tokens nextToken will hand out, in order, before it throws. */
    ghost function Remaining(): seq<string>
      reads this`pos, this`line, this`index, this`closed
      requires Valid()
    {
      Pending(lineTokens, pos, line, index, CanReadLines())
    }

    /** new TextFileInputReader(file): captures file.exists() and opens the file if it exists. */
    constructor (fileExists: bool, contents: seq<string>)
      ensures Valid() && sourceExists == fileExists && file == contents
      ensures pos == 0 && line == None && index == 0 && !closed && trace == []
      ensures Remaining() == if fileExists then Tokens(contents) else []
    {
      sourceExists := fileExists;
      file := contents;
      lineTokens := seq(|contents|, i requires 0 <= i < |contents| => LineContribution(contents[i]));
      pos := 0;
      line := None;
      index := 0;
      closed := false;
      trace := [];
      new;
      TokenizedFlatten(file, lineTokens, 0);
      assert file[0..] == file;
      PendingUsedUp(lineTokens, 0, None, 0, fileExists);
    }

    /**
     * The refill step of nextToken, taken when the current line is null or used up: reads
     * lines until one is kept and makes its tokens the current line. readLine on a reader
     * without a stream is a NullPointerException, on a closed stream an IOException, and
     * at the end of the file it returns null, whose trim() is a NullPointerException.
     */
    method Refill() returns (e: Option<Error>)
      requires Valid() && (line.None? || index >= |line.value|)
      modifies this`pos, this`line, this`index
      ensures Valid()
      ensures e.None? ==> line.Some? && index < |line.value| && Remaining() == old(Remaining())
      ensures e.Some? ==> (old(Remaining()) == [] && Remaining() == [] &&
        e.value == if sourceExists && closed then StreamClosed else NullPointer)
    {
      PendingUsedUp(lineTokens, pos, line, index, CanReadLines());
      if !sourceExists {
        return Some(NullPointer);
      }
      if closed {
        return Some(StreamClosed);
      }
      var q, toks := NextLineTokens(file, lineTokens, pos);
      if toks.None? {
        pos := q;
        PendingUsedUp(lineTokens, pos, line, index, true);
        return Some(NullPointer);
      }
      PendingRefilled(lineTokens, pos, q, toks.value);
      pos, line, index := q, toks, 0;
      e := None;
    }

    /** The exception readLine raises when no further line can be read. */
    function EndOfInput(): Error
      reads this`closed
    {
      if sourceExists && closed then StreamClosed else NullPointer
    }

    /**
     * nextToken(): the token at index, reading lines (skipping blank and comment lines)
     * only when the current line is used up.
     */
    method NextToken() returns (r: Outcome<string>)
      requires Valid()
      modifies this`pos, this`line, this`index
      ensures Valid()
      ensures old(Remaining()) != [] ==> r == Ok(old(Remaining())[0]) && Remaining() == old(Remaining())[1..]
      ensures old(Remaining()) == [] ==> Remaining() == [] && r == Fail(EndOfInput())
    {
      if line.None? || index >= |line.value| {
        var e := Refill();
        if e.Some? {
          return Fail(e.value);
        }
      }
      PendingTake(lineTokens, pos, line.value, index, CanReadLines());
      r := Ok(line.value[index]);
      index := index + 1;
    }

    /** The exception readVec reports when no further line can be read. */
    function Exhausted(): Error
      reads this`closed
    {
      Rethrown(EndOfInput())
    }

    /** nextDouble(): Double.parseDouble of the next token. */
    method NextDouble(parse: string -> Option<real>) returns (r: Outcome<real>)
      requires Valid()
      modifies this`pos, this`line, this`index
      ensures Valid()
      ensures r == NextDoubleOf(old(Remaining()), parse, EndOfInput())
      ensures Remaining() == if old(Remaining()) == [] then [] else old(Remaining())[1..]
    {
      var t := NextToken();
      if t.Fail? {
        return Fail(t.error);
      }
      match parse(t.value)
      case Some(v) => r := Ok(v);
      case None => r := Fail(NumberFormat(t.value));
    }

    /**
     * The try block of readVec's inner loop: nextDouble(), with a NumberFormatException or
     * IOException rethrown wrapped in a RuntimeException and a NullPointerException as it is.
     * Stated as the step from j values of the row to j + 1.
     */
    method NextEntry(ghost ts: seq<string>, ghost j: nat, ghost vals: seq<real>, b: int, parse: string -> Option<real>)
      returns (x: Outcome<real>)
      requires Valid() && j < b && j <= |ts| && Remaining() == ts[j..]
      requires ReadValues(ts, j, parse, Exhausted()) == Ok(vals)
      modifies this`pos, this`line, this`index
      ensures Valid()
      ensures x.Fail? ==> ReadValues(ts, b, parse, Exhausted()) == Fail(x.error)
      ensures x.Ok? ==> (j + 1 <= |ts| && Remaining() == ts[j + 1..] &&
        ReadValues(ts, j + 1, parse, Exhausted()) == Ok(vals + [x.value]))
    {
      ghost var end := EndOfInput();
      var d := NextDouble(parse);
      ReadValuesStep(ts, j, b, parse, end);
      if d.Fail? {
        return Fail(Rethrown(d.error));
      }
      x := d;
    }

    /**
     * One row of readVec: b calls of nextDouble filling a new double[b]. A NumberFormatException
     * or IOException is rethrown wrapped in a RuntimeException; the NullPointerException of
     * reading past the end of the file passes through as it is. The values are collected
     * first and the array is allocated once they are all read.
     */
    method ReadRow(b: int, parse: string -> Option<real>) returns (r: Outcome<array<real>>)
      requires Valid() && b >= 0
      modifies this`pos, this`line, this`index
      ensures Valid()
      ensures var spec := ReadValues(old(Remaining()), b, parse, old(Exhausted()));
        (spec.Fail? ==> r == Fail(spec.error)) &&
        (spec.Ok? ==> r.Ok? && fresh(r.value) && r.value[..] == spec.value && Remaining() == old(Remaining())[b..])
    {
      ghost var ts, eof := Remaining(), Exhausted();
      assert ts == old(Remaining()) && eof == old(Exhausted());
      var vals: seq<real> := [];
      var j := 0;
      while j < b
        invariant j == |vals| <= b && j <= |ts| && Valid() && Exhausted() == eof
        invariant ReadValues(ts, j, parse, eof) == Ok(vals)
        invariant Remaining() == ts[j..]
      {
        var x := NextEntry(ts, j, vals, b, parse);
        if x.Fail? {
          return Fail(x.error);
        }
        vals := vals + [x.value];
        j := j + 1;
      }
      assert j == b;
      var row := NewRow(vals);
      r := Ok(row);
    }

    /** The row loop of readVec: a rows of b values, each a fresh array filled by ReadRow. */
    method ReadRowArrays(a: nat, b: int, parse: string -> Option<real>) returns (r: Outcome<seq<array<real>>>)
      requires Valid()
      modifies this`pos, this`line, this`index
      ensures Valid()
      ensures var spec := ReadRows(old(Remaining()), a, b, parse, Exhausted());
        (spec.Fail? ==> r == Fail(spec.error)) &&
        (spec.Ok? ==> (r.Ok? && |r.value| == a && (forall x | x in r.value :: fresh(x)) &&
          HoldsRows(r.value, spec.value.0) && Remaining() == spec.value.1))
    {
      ghost var ts := Remaining();
      ghost var eof := Exhausted();
      ghost var done: (seq<seq<real>>, seq<string>) := ([], ts);
      var rows: seq<array<real>> := [];
      while |rows| < a
        invariant Valid() && eof == Exhausted() && |rows| <= a
        invariant ReadRows(ts, |rows|, b, parse, eof) == Ok(done)
        invariant Remaining() == done.1
        invariant forall x | x in rows :: fresh(x)
        invariant HoldsRows(rows, done.0)
      {
        if b < 0 {
          ReadRowsFailureSticks(ts, |rows| + 1, a, b, parse, eof);
          return Fail(NegativeArraySize(b));
        }
        ghost var spec := ReadValues(done.1, b, parse, eof);
        assert ReadRows(ts, |rows| + 1, b, parse, eof) ==
          if spec.Fail? then Fail(spec.error) else Ok((done.0 + [spec.value], done.1[b..]));
        var row := ReadRow(b, parse);
        if row.Fail? {
          ReadRowsFailureSticks(ts, |rows| + 1, a, b, parse, eof);
          return Fail(row.error);
        }
        HoldsRowsAppend(rows, done.0, row.value, spec.value);
        done := (done.0 + [spec.value], done.1[b..]);
        rows := rows + [row.value];
      }
      r := Ok(rows);
    }

    /**
     * readVec(a, b): an a x b matrix filled row by row from the token stream; a
     * NumberFormatException or IOException is rethrown wrapped in a RuntimeException.
     */
    method ReadVec(a: int, b: int, parse: string -> Option<real>) returns (r: Outcome<array<array<real>>>)
      requires Valid()
      modifies this`pos, this`line, this`index, this`trace
      ensures Valid() && trace == old(trace) + [ReadVecCall(a, b)]
      ensures var spec := ReadMatrix(old(Remaining()), a, b, parse, old(Exhausted()));
        (spec.Fail? ==> r == Fail(spec.error)) &&
        (spec.Ok? ==> (r.Ok? && fresh(r.value) && (forall x | x in r.value[..] :: fresh(x)) &&
          HoldsRows(r.value[..], spec.value.0) && Remaining() == spec.value.1))
    {
      trace := trace + [ReadVecCall(a, b)];
      if a < 0 {
        return Fail(NegativeArraySize(a));
      }
      ghost var ts := Remaining();
      ghost var eof := Exhausted();
      var rows := ReadRowArrays(a, b, parse);
      assert eof == Exhausted() && ReadMatrix(ts, a, b, parse, eof) == ReadRows(ts, a, b, parse, eof);
      if rows.Fail? {
        return Fail(rows.error);
      }
      var arrs := rows.value;
      var result := new array<real>[a](i requires 0 <= i < a == |arrs| => arrs[i]);
      assert result[..] == arrs;
      r := Ok(result);
    }

    /** close(): closes the stream; with no stream it is a NullPointerException. */
    method Close() returns (r: Outcome<bool>)
      requires Valid()
      modifies this`closed, this`trace
      ensures Valid() && trace == old(trace) + [CloseCall]
      ensures sourceExists ==> closed && r == Ok(true)
      ensures !sourceExists ==> closed == old(closed) && r == Fail(NullPointer)
    {
      trace := trace + [CloseCall];
      if !sourceExists {
        return Fail(NullPointer);
      }
      closed := true;
      r := Ok(true);
    }
  }
}
