/**
 * PersistenceWithTextFile: save writes a network's weights as text, one line per row of
 * weights, values rendered by Double.toString and separated by single spaces. The header
 * and the "#layer: " marker of every layer are written without a line break, so each shares
 * its line with the first row after it; TextFileInputReader skips every line that starts
 * with '#', and so never sees the first row of any layer. This module gives the text save
 * writes, the token stream the reader gets back from it, and the layout with the line
 * breaks the format evidently intends, for which saving and loading round-trip.
 */
module Persistence {
  import opened Errors
  import opened JavaString
  import opened Units
  import opened TokenStream
  import opened Network

  const Header: string := "#Java NN config start."
  const Trailer: string := "#endofile."

  /** The marker written before layer i: "#layer: " and the number i - 1. */
  function LayerMarker(i: int): (r: string)
    ensures r != [] && r[0] == '#' && '\n' !in r
  {
    "#layer: " + IntToString(i - 1)
  }

  /** What Double.toString renders is one token: not empty, without characters trim() drops or split(" ") cuts at, and not a comment. */
  ghost predicate TokenSafe(t: string) {
    t != [] && t[0] != '#' && forall k :: 0 <= k < |t| ==> !IsTrimmed(t[k])
  }

  /** Every value renders as one token. */
  ghost predicate PrintsTokens(show: real -> string) {
    forall v :: TokenSafe(show(v))
  }

  /** Proof helper: the rendering of one value is one token. */
  lemma ShowToken(show: real -> string, v: real)
    requires PrintsTokens(show)
    ensures TokenSafe(show(v))
  {
  }

  // ---------------------------------------------------------------------------------------
  // The weights as tokens
  // ---------------------------------------------------------------------------------------

  /** The tokens one row of weights is written as. */
  function RowTokens(row: seq<real>, show: real -> string): (r: seq<string>)
    ensures |r| == |row| && forall k :: 0 <= k < |row| ==> r[k] == show(row[k])
  {
    seq(|row|, k requires 0 <= k < |row| => show(row[k]))
  }

  /** The tokens of a matrix, row after row. */
  function MatrixTokens(m: seq<seq<real>>, show: real -> string): seq<string> {
    if m == [] then [] else MatrixTokens(m[..|m| - 1], show) + RowTokens(m[|m| - 1], show)
  }

  /** The tokens of a weight store, layer after layer: the order in which the loader reads them. */
  function StoreTokens(w: seq<seq<seq<real>>>, show: real -> string): seq<string> {
    if w == [] then [] else StoreTokens(w[..|w| - 1], show) + MatrixTokens(w[|w| - 1], show)
  }

  /** A matrix without its first row. */
  function DropFirstRow(m: seq<seq<real>>): seq<seq<real>> {
    if m == [] then [] else m[1..]
  }

  /** Every layer of a store without its first row. */
  function DropFirstRows(w: seq<seq<seq<real>>>): (r: seq<seq<seq<real>>>)
    ensures |r| == |w| && forall i :: 0 <= i < |w| ==> r[i] == DropFirstRow(w[i])
  {
    seq(|w|, i requires 0 <= i < |w| => DropFirstRow(w[i]))
  }

  /** A matrix's tokens are those of its first row, then those of the other rows. */
  lemma {:induction false} MatrixTokensFirstRow(m: seq<seq<real>>, show: real -> string)
    requires m != []
    ensures MatrixTokens(m, show) == RowTokens(m[0], show) + MatrixTokens(m[1..], show)
  {
    if |m| > 1 {
      var init := m[..|m| - 1];
      MatrixTokensFirstRow(init, show);
      assert init[1..] == m[1..][..|m[1..]| - 1];
      assert m[1..][|m[1..]| - 1] == m[|m| - 1];
    } else {
      assert m[..0] == [] && m[1..] == [];
    }
  }

  /** A matrix of a rows of b weights is a * b tokens. */
  lemma {:induction false} MatrixTokensCount(m: seq<seq<real>>, a: int, b: int, show: real -> string)
    requires MatrixShaped(m, a, b)
    ensures |MatrixTokens(m, show)| == a * b
  {
    if m != [] {
      var init := m[..|m| - 1];
      MatrixTokensCount(init, a - 1, b, show);
      assert a * b == (a - 1) * b + b;
    }
  }

  /** A store shaped by the unit sizes is as many tokens as the loader reads for its layers. */
  lemma {:induction false} StoreTokensCount(w: seq<seq<seq<real>>>, units: seq<NNUnit>, show: real -> string)
    requires Shaped(w, units)
    ensures |StoreTokens(w, show)| == WeightCount(units, |w|)
  {
    if w != [] {
      var n := |w|;
      var init := w[..n - 1];
      assert Shaped(init, units) by {
        forall i | 0 <= i < |init|
          ensures MatrixShaped(init[i], units[i].size, units[i + 1].size)
        {
          assert init[i] == w[i];
        }
      }
      StoreTokensCount(init, units, show);
      MatrixTokensCount(w[n - 1], units[n - 1].size, units[n].size, show);
    }
  }

  /** Dropping the first row of every layer leaves at most the tokens of the store less those of the very first row. */
  lemma {:induction false} DropFirstRowsShorter(w: seq<seq<seq<real>>>, show: real -> string)
    ensures |StoreTokens(DropFirstRows(w), show)| + (if w != [] && w[0] != [] then |w[0][0]| else 0) <=
      |StoreTokens(w, show)|
  {
    if w != [] {
      var n := |w|;
      var init := w[..n - 1];
      DropFirstRowsShorter(init, show);
      assert DropFirstRows(w)[..n - 1] == DropFirstRows(init);
      var m := w[n - 1];
      if m != [] {
        MatrixTokensFirstRow(m, show);
      }
      if n == 1 {
        assert init == [];
      } else {
        assert init[0] == w[0];
      }
    }
  }

  // ---------------------------------------------------------------------------------------
  // Reading tokens back into weights
  // ---------------------------------------------------------------------------------------

  /** parse gives back each weight of the row from its rendering. */
  predicate RowRoundTrips(row: seq<real>, show: real -> string, parse: string -> Option<real>) {
    forall i :: 0 <= i < |row| ==> parse(show(row[i])) == Some(row[i])
  }

  /** parse gives back each weight of the matrix from its rendering. */
  predicate MatrixRoundTrips(m: seq<seq<real>>, show: real -> string, parse: string -> Option<real>) {
    forall j :: 0 <= j < |m| ==> RowRoundTrips(m[j], show, parse)
  }

  /** parse gives back each weight of the store from its rendering: only the values written need to. */
  predicate StoreRoundTrips(w: seq<seq<seq<real>>>, show: real -> string, parse: string -> Option<real>) {
    forall i :: 0 <= i < |w| ==> MatrixRoundTrips(w[i], show, parse)
  }

  /** Reading k values from a row's tokens gives its first k weights when each rendering parses back. */
  lemma {:induction false} ReadValuesOfRow(row: seq<real>, rest: seq<string>, k: nat, show: real -> string,
                                             parse: string -> Option<real>, eof: Error)
    requires k <= |row|
    requires RowRoundTrips(row, show, parse)
    ensures ReadValues(RowTokens(row, show) + rest, k, parse, eof) == Ok(row[..k])
  {
    if k > 0 {
      ReadValuesOfRow(row, rest, k - 1, show, parse, eof);
      var ts := RowTokens(row, show) + rest;
      assert ts[k - 1] == show(row[k - 1]);
      assert row[..k - 1] + [row[k - 1]] == row[..k];
    }
  }

  /** readVec on the tokens of the first k rows of a matrix of b columns gives those rows, and leaves what follows. */
  lemma {:induction false} ReadRowsOfMatrix(m: seq<seq<real>>, b: int, rest: seq<string>, k: nat, show: real -> string,
                                              parse: string -> Option<real>, eof: Error)
    requires k <= |m| && forall j :: 0 <= j < |m| ==> |m[j]| == b
    requires MatrixRoundTrips(m, show, parse)
    ensures ReadRows(MatrixTokens(m[..k], show) + rest, k, b, parse, eof) == Ok((m[..k], rest))
    decreases k
  {
    if k > 0 {
      var row := m[k - 1];
      var rest' := RowTokens(row, show) + rest;
      ReadRowsOfMatrix(m, b, rest', k - 1, show, parse, eof);
      var ts := MatrixTokens(m[..k], show) + rest;
      MatrixTokensStep(m[..k], m[..k - 1], row, show);
      Regroup(MatrixTokens(m[..k - 1], show), RowTokens(row, show), rest);
      assert ts == MatrixTokens(m[..k - 1], show) + rest';
      assert ReadRows(ts, k - 1, b, parse, eof) == Ok((m[..k - 1], rest'));
      ReadValuesOfRow(row, rest, b, show, parse, eof);
      assert row[..b] == row;
      assert ReadValues(rest', b, parse, eof) == Ok(row);
      assert rest'[b..] == rest;
      assert ReadRows(ts, k, b, parse, eof) == Ok((m[..k - 1] + [row], rest));
      assert m[..k - 1] + [row] == m[..k];
    } else {
      assert m[..k] == [] && [] + rest == rest;
    }
  }

  /** Loading the tokens of the first n layers of a shaped store gives those layers, and leaves what follows. */
  lemma {:induction false} LoadStoreTokens(w: seq<seq<seq<real>>>, units: seq<NNUnit>, n: nat, rest: seq<string>,
                                             show: real -> string, parse: string -> Option<real>, eof: Error)
    requires n <= |w| && Shaped(w, units)
    requires StoreRoundTrips(w, show, parse)
    ensures LoadLayers(StoreTokens(w[..n], show) + rest, units, n, parse, eof) == Ok((w[..n], rest))
    decreases n
  {
    if n > 0 {
      LoadStoreTokens(w, units, n - 1, MatrixTokens(w[n - 1], show) + rest, show, parse, eof);
      LoadStoreTokensStep(w, units, n, rest, show, parse, eof);
    } else {
      assert w[..n] == [] && [] + rest == rest;
    }
  }

  /** The step of LoadStoreTokens: loading layer n - 1 after the first n - 1 layers. */
  lemma LoadStoreTokensStep(w: seq<seq<seq<real>>>, units: seq<NNUnit>, n: nat, rest: seq<string>,
                            show: real -> string, parse: string -> Option<real>, eof: Error)
    requires 0 < n <= |w| && Shaped(w, units)
    requires StoreRoundTrips(w, show, parse)
    requires var rest' := MatrixTokens(w[n - 1], show) + rest;
      LoadLayers(StoreTokens(w[..n - 1], show) + rest', units, n - 1, parse, eof) == Ok((w[..n - 1], rest'))
    ensures LoadLayers(StoreTokens(w[..n], show) + rest, units, n, parse, eof) == Ok((w[..n], rest))
  {
    var m := w[n - 1];
    var rest' := MatrixTokens(m, show) + rest;
    var ts := StoreTokens(w[..n], show) + rest;
    assert w[..n][..n - 1] == w[..n - 1] && w[..n][n - 1] == m;
    assert StoreTokens(w[..n], show) == StoreTokens(w[..n - 1], show) + MatrixTokens(m, show);
    Regroup(StoreTokens(w[..n - 1], show), MatrixTokens(m, show), rest);
    assert MatrixShaped(m, units[n - 1].size, units[n].size);
    MatrixReadBack(m, units[n - 1].size, units[n].size, rest, show, parse, eof);
    LoadExtend(ts, units, n, parse, eof, w[..n - 1], rest', m, rest);
    assert w[..n - 1] + [m] == w[..n];
  }

  /** The tokens of an a x b matrix read back by readVec(a, b) give the matrix. */
  lemma MatrixReadBack(m: seq<seq<real>>, a: int, b: int, rest: seq<string>, show: real -> string,
                       parse: string -> Option<real>, eof: Error)
    requires MatrixShaped(m, a, b)
    requires MatrixRoundTrips(m, show, parse)
    ensures ReadMatrix(MatrixTokens(m, show) + rest, a, b, parse, eof) == Ok((m, rest))
  {
    ReadRowsOfMatrix(m, b, rest, |m|, show, parse, eof);
    assert m[..|m|] == m;
  }

  // ---------------------------------------------------------------------------------------
  // Text, lines and the token stream of a file
  // ---------------------------------------------------------------------------------------

  /** One row as save writes it: String.join(" ", the rendered weights). */
  function RowText(row: seq<real>, show: real -> string): string {
    Join(RowTokens(row, show), ' ')
  }

  /** The rows of a matrix, each followed by '\n'. */
  function RowsText(m: seq<seq<real>>, show: real -> string): string {
    if m == [] then [] else RowsText(m[..|m| - 1], show) + RowText(m[|m| - 1], show) + "\n"
  }

  /** Layers 0 to n - 1 as save writes them: the marker of each, then its rows on the same line. */
  function LayersText(w: seq<seq<seq<real>>>, n: nat, show: real -> string): string
    requires n <= |w|
  {
    if n == 0 then [] else LayersText(w, n - 1, show) + LayerMarker(n - 1) + RowsText(w[n - 1], show)
  }

  /** The whole file save writes: header, layers and trailer, with no line break after the header or a marker. */
  function Saved(w: seq<seq<seq<real>>>, show: real -> string): string {
    Header + LayersText(w, |w|, show) + Trailer
  }

  /** Layers 0 to n - 1 with each marker on a line of its own. */
  function LayersTextCorrected(w: seq<seq<seq<real>>>, n: nat, show: real -> string): string
    requires n <= |w|
  {
    if n == 0 then [] else LayersTextCorrected(w, n - 1, show) + LayerMarker(n - 1) + "\n" + RowsText(w[n - 1], show)
  }

  /** The file with the header and every marker ending their lines. */
  function SavedCorrected(w: seq<seq<seq<real>>>, show: real -> string): string {
    Header + "\n" + LayersTextCorrected(w, |w|, show) + Trailer
  }

  /** The pieces of a text between line breaks. */
  function Pieces(text: string): (r: seq<string>)
    ensures |r| >= 1
  {
    SplitAll(text, '\n')
  }

  /** The lines a text has finished: every piece but the last. */
  function Complete(text: string): seq<string> {
    Pieces(text)[..|Pieces(text)| - 1]
  }

  /** The line a text has started and not finished: the last piece. */
  function Partial(text: string): string {
    Pieces(text)[|Pieces(text)| - 1]
  }

  /** The lines readLine returns for a file, one by one until it returns null: a final line break ends the last line rather than starting an empty one. */
  function FileLines(text: string): (r: seq<string>)
    ensures Partial(text) != [] ==> r == Complete(text) + [Partial(text)]
    ensures Partial(text) == [] ==> r == Complete(text)
  {
    var p := Pieces(text);
    if p[|p| - 1] == [] then p[..|p| - 1] else p
  }

  /** Text without a line break extends the line being written. */
  lemma AppendWithinLine(text: string, s: string)
    requires '\n' !in s
    ensures Complete(text + s) == Complete(text) && Partial(text + s) == Partial(text) + s
  {
    SplitExtendLast(text, s, '\n');
  }

  /** A line break finishes the line being written and starts an empty one. */
  lemma EndLine(text: string)
    ensures Complete(text + "\n") == Complete(text) + [Partial(text)] && Partial(text + "\n") == []
  {
    SplitAppend(text, [], '\n');
    assert text + ['\n'] + [] == text + "\n";
  }

  /** A line that starts with '#' is a comment to the reader, whatever follows. */
  lemma CommentLine(line: string)
    requires line != [] && line[0] == '#'
    ensures Tokens([line]) == []
  {
    TrimKeepsHead(line);
  }

  /** No character of a join of tokens is a line break, and its ends are those of the first and last token. */
  lemma {:induction false} JoinOfTokens(ts: seq<string>)
    requires forall i :: 0 <= i < |ts| ==> TokenSafe(ts[i])
    ensures var s := Join(ts, ' ');
      (forall k :: 0 <= k < |s| ==> s[k] >= ' ') &&
      (ts != [] ==> ts[0] != [] && s != [] && s[0] == ts[0][0] && s[|s| - 1] != ' ' && !IsTrimmed(s[|s| - 1]))
  {
    if |ts| > 1 {
      JoinOfTokens(ts[1..]);
      var s := Join(ts, ' ');
      assert s == ts[0] + [' '] + Join(ts[1..], ' ');
      assert TokenSafe(ts[0]);
      assert forall k :: 0 <= k < |s| ==> s[k] >= ' ' by {
        forall k | 0 <= k < |s|
          ensures s[k] >= ' '
        {
          if k < |ts[0]| {
            assert s[k] == ts[0][k];
          } else if k > |ts[0]| {
            assert s[k] == Join(ts[1..], ' ')[k - |ts[0]| - 1];
          }
        }
      }
    } else if |ts| == 1 {
      assert TokenSafe(ts[0]);
    }
  }

  /** A row written on a line of its own gives the reader exactly the row's tokens, and holds no line break. */
  lemma RowLine(row: seq<real>, show: real -> string)
    requires PrintsTokens(show)
    ensures '\n' !in RowText(row, show)
    ensures Tokens([RowText(row, show)]) == RowTokens(row, show)
  {
    var ts := RowTokens(row, show);
    var s := RowText(row, show);
    assert forall i :: 0 <= i < |ts| ==> TokenSafe(ts[i]) by {
      forall i | 0 <= i < |ts|
        ensures TokenSafe(ts[i])
      {
        ShowToken(show, row[i]);
      }
    }
    JoinOfTokens(ts);
    assert '\n' !in s by {
      forall k | 0 <= k < |s|
        ensures s[k] != '\n'
      {
        assert s[k] >= ' ';
      }
    }
    if ts == [] {
      assert s == [];
      TrimEmpty(s);
    } else {
      assert TokenSafe(ts[0]);
      TrimKeeps(s);
      assert Kept(s);
      JavaSplitIsSplitAll(s, ' ');
      forall t | t in ts
        ensures ' ' !in t
      {
        var i :| 0 <= i < |ts| && ts[i] == t;
        assert TokenSafe(ts[i]);
      }
      SplitJoin(ts, ' ');
    }
  }

  /** What the reader takes from a line: the tokens of all complete lines before it, then its own. */
  lemma FinishLine(done: seq<string>, line: string)
    ensures Tokens(done + [line]) == Tokens(done) + Tokens([line])
  {
    TokensAppend(done, [line]);
  }

  /** Writing a piece of text and a line break finishes the open line with that piece. */
  lemma WriteLine(text: string, s: string)
    requires '\n' !in s
    ensures Complete(text + s + "\n") == Complete(text) + [Partial(text) + s]
    ensures Partial(text + s + "\n") == []
  {
    AppendWithinLine(text, s);
    EndLine(text + s);
  }

  /** Writing the rows of a matrix is writing all rows but the last, then the last row and a line break. */
  lemma RowsTextStep(text: string, m: seq<seq<real>>, show: real -> string)
    requires m != []
    ensures text + RowsText(m, show) == text + RowsText(m[..|m| - 1], show) + RowText(m[|m| - 1], show) + "\n"
  {
    var a := RowsText(m[..|m| - 1], show);
    var b := RowText(m[|m| - 1], show);
    assert RowsText(m, show) == a + b + "\n";
    Associate(text, a, b, "\n");
  }

  /** Writing the rows of a matrix up to row j, then row j and a line break, is writing the rows up to row j + 1. */
  lemma RowsTextExtend(text: string, m: seq<seq<real>>, j: nat, show: real -> string)
    requires j < |m|
    ensures text + RowsText(m[..j + 1], show) == text + RowsText(m[..j], show) + RowText(m[j], show) + "\n"
  {
    RowsTextStep(text, m[..j + 1], show);
    assert m[..j + 1][..j] == m[..j];
  }

  // Proof helpers with no counterpart in the source: concatenation regrouped for the steps below.

  /** Concatenation regrouped. */
  lemma Associate<T>(x: seq<T>, a: seq<T>, b: seq<T>, c: seq<T>)
    ensures x + (a + b + c) == x + a + b + c
  {
  }

  /** Concatenation regrouped. */
  lemma Associate4<T>(x: seq<T>, a: seq<T>, b: seq<T>, c: seq<T>, d: seq<T>)
    ensures x + (a + b + c + d) == x + a + b + c + d
  {
  }

  /** Concatenation regrouped. */
  lemma Regroup<T>(a: seq<T>, b: seq<T>, c: seq<T>)
    ensures a + b + c == a + (b + c)
  {
  }

  /** The tokens of a matrix whose last row is appended: those of the other rows, then the last row's. */
  lemma MatrixTokensStep(m: seq<seq<real>>, init: seq<seq<real>>, row: seq<real>, show: real -> string)
    requires m == init + [row]
    ensures MatrixTokens(m, show) == MatrixTokens(init, show) + RowTokens(row, show)
  {
    assert m[..|m| - 1] == init;
  }

  /**
   * Writing the rows of a matrix after a text whose open line is empty or a comment: the open
   * line is finished (or left alone when there are no rows), and the reader gets every row's
   * tokens after an empty open line, or every row's but the first after a comment, since the
   * first row then ends the comment's line.
   */
  lemma {:induction false} RowsTextLines(text: string, m: seq<seq<real>>, show: real -> string)
    requires PrintsTokens(show)
    requires Partial(text) == [] || Partial(text)[0] == '#'
    ensures Partial(text + RowsText(m, show)) == (if m == [] then Partial(text) else [])
    ensures Tokens(Complete(text + RowsText(m, show))) ==
      Tokens(Complete(text)) + MatrixTokens(KeptRows(m, Partial(text) != []), show)
    decreases |m|
  {
    var drop := Partial(text) != [];
    var kept := KeptRows(m, drop);
    if m == [] {
      assert text + RowsText(m, show) == text;
    } else {
      var n := |m|;
      var init := m[..n - 1];
      var row := m[n - 1];
      RowsTextLines(text, init, show);
      var q := text + RowsText(init, show);
      var r := RowText(row, show);
      RowLine(row, show);
      WriteLine(q, r);
      RowsTextStep(text, m, show);
      var line := Partial(q) + r;
      var prior := Tokens(Complete(text));
      var kinit := MatrixTokens(KeptRows(init, drop), show);
      calc {
        Tokens(Complete(text + RowsText(m, show)));
        Tokens(Complete(q + r + "\n"));
        Tokens(Complete(q) + [line]);
        { FinishLine(Complete(q), line); }
        Tokens(Complete(q)) + Tokens([line]);
        prior + kinit + Tokens([line]);
      }
      KeptRowsStep(m, drop);
      if init == [] {
        assert Partial(q) == Partial(text);
        if !drop {
          assert line == r;
          MatrixTokensStep(kept, [], row, show);
        } else {
          CommentLine(line);
          assert kinit == [] && kept == [];
        }
      } else {
        assert Partial(q) == [] && line == r;
        MatrixTokensStep(kept, KeptRows(init, drop), row, show);
      }
      assert MatrixTokens(kept, show) == kinit + Tokens([line]);
      Regroup(prior, kinit, Tokens([line]));
    }
  }

  /** The rows of a matrix the reader keeps: all of them, or all but the first. */
  function KeptRows(m: seq<seq<real>>, dropFirst: bool): seq<seq<real>> {
    if dropFirst then DropFirstRow(m) else m
  }

  /** The rows kept of a matrix with one more row: those of the shorter matrix and the new row, unless the new row is the dropped first one. */
  lemma KeptRowsStep(m: seq<seq<real>>, dropFirst: bool)
    requires m != []
    ensures |m| == 1 && dropFirst ==> KeptRows(m, dropFirst) == []
    ensures |m| == 1 && !dropFirst ==> KeptRows(m, dropFirst) == [] + [m[0]]
    ensures |m| > 1 ==> KeptRows(m, dropFirst) == KeptRows(m[..|m| - 1], dropFirst) + [m[|m| - 1]]
  {
    if |m| > 1 && dropFirst {
      assert m[1..] == m[..|m| - 1][1..] + [m[|m| - 1]];
    }
    if |m| > 1 && !dropFirst {
      assert m == m[..|m| - 1] + [m[|m| - 1]];
    }
  }

  /** The header and the trailer are comment lines without a line break. */
  lemma HeaderAndTrailer()
    ensures Header != [] && Header[0] == '#' && '\n' !in Header
    ensures Trailer != [] && Trailer[0] == '#' && '\n' !in Trailer
  {
  }

  /** A text without a line break is one open line. */
  lemma OneLine(s: string)
    requires '\n' !in s
    ensures Complete(s) == [] && Partial(s) == s
  {
    SplitNoSeparator(s, '\n');
  }

  /** The layers as save writes them: the first n - 1, then the marker and rows of layer n - 1. */
  lemma LayersTextStep(prefix: string, w: seq<seq<seq<real>>>, n: nat, show: real -> string)
    requires 0 < n <= |w|
    ensures prefix + LayersText(w, n, show) ==
      prefix + LayersText(w, n - 1, show) + LayerMarker(n - 1) + RowsText(w[n - 1], show)
  {
    Associate(prefix, LayersText(w, n - 1, show), LayerMarker(n - 1), RowsText(w[n - 1], show));
  }

  /** The corrected layers: the first n - 1, then the marker, a line break and the rows of layer n - 1. */
  lemma LayersTextCorrectedStep(prefix: string, w: seq<seq<seq<real>>>, n: nat, show: real -> string)
    requires 0 < n <= |w|
    ensures prefix + LayersTextCorrected(w, n, show) ==
      prefix + LayersTextCorrected(w, n - 1, show) + LayerMarker(n - 1) + "\n" + RowsText(w[n - 1], show)
  {
    var a := LayersTextCorrected(w, n - 1, show);
    var mk := LayerMarker(n - 1);
    var rs := RowsText(w[n - 1], show);
    var nl := "\n";
    assert LayersTextCorrected(w, n, show) == a + mk + nl + rs;
    Associate4(prefix, a, mk, nl, rs);
  }

  /** The tokens of the first n layers of a store: those of the first n - 1, then those of layer n - 1. */
  lemma StoreTokensStep(w: seq<seq<seq<real>>>, n: nat, show: real -> string)
    requires 0 < n <= |w|
    ensures StoreTokens(w[..n], show) == StoreTokens(w[..n - 1], show) + MatrixTokens(w[n - 1], show)
    ensures StoreTokens(DropFirstRows(w[..n]), show) ==
      StoreTokens(DropFirstRows(w[..n - 1]), show) + MatrixTokens(DropFirstRow(w[n - 1]), show)
  {
    assert w[..n][..n - 1] == w[..n - 1];
    var d := DropFirstRows(w[..n]);
    assert d[..n - 1] == DropFirstRows(w[..n - 1]);
  }

  /** After the header and the first n layers as save writes them, the reader has every row but each layer's first, and the open line is empty or a comment. */
  lemma {:induction false} LayersTextLines(w: seq<seq<seq<real>>>, n: nat, show: real -> string)
    requires PrintsTokens(show) && n <= |w|
    ensures var text := Header + LayersText(w, n, show);
      (Partial(text) == [] || Partial(text)[0] == '#') &&
      Tokens(Complete(text)) == StoreTokens(DropFirstRows(w[..n]), show)
  {
    HeaderAndTrailer();
    if n == 0 {
      OneLine(Header);
      assert Header + LayersText(w, n, show) == Header;
      assert DropFirstRows(w[..n]) == [];
    } else {
      var before := Header + LayersText(w, n - 1, show);
      LayersTextLines(w, n - 1, show);
      var marker := LayerMarker(n - 1);
      AppendWithinLine(before, marker);
      var marked := before + marker;
      assert Partial(marked) != [] && Partial(marked)[0] == '#';
      RowsTextLines(marked, w[n - 1], show);
      LayersTextStep(Header, w, n, show);
      StoreTokensStep(w, n, show);
      assert KeptRows(w[n - 1], true) == DropFirstRow(w[n - 1]);
    }
  }

  /** The header on a line of its own gives the reader nothing and leaves an empty open line. */
  lemma HeaderOnItsLine()
    ensures Partial(Header + "\n") == [] && Tokens(Complete(Header + "\n")) == []
  {
    HeaderAndTrailer();
    OneLine(Header);
    EndLine(Header);
    CommentLine(Header);
    assert Complete(Header) + [Header] == [Header];
  }

  /** A marker on a line of its own, after a finished line, gives the reader nothing and leaves an empty open line. */
  lemma MarkerOnItsLine(text: string, i: int)
    requires Partial(text) == []
    ensures Partial(text + LayerMarker(i) + "\n") == []
    ensures Tokens(Complete(text + LayerMarker(i) + "\n")) == Tokens(Complete(text))
  {
    var marker := LayerMarker(i);
    WriteLine(text, marker);
    assert Partial(text) + marker == marker;
    CommentLine(marker);
    FinishLine(Complete(text), marker);
  }

  /** After the header and the first n layers with their markers on lines of their own, the reader has every row, and the open line is empty. */
  lemma {:induction false} LayersTextCorrectedLines(w: seq<seq<seq<real>>>, n: nat, show: real -> string)
    requires PrintsTokens(show) && n <= |w|
    ensures var text := Header + "\n" + LayersTextCorrected(w, n, show);
      Partial(text) == [] && Tokens(Complete(text)) == StoreTokens(w[..n], show)
  {
    if n == 0 {
      HeaderOnItsLine();
      assert Header + "\n" + LayersTextCorrected(w, n, show) == Header + "\n";
      assert w[..n] == [];
    } else {
      var before := Header + "\n" + LayersTextCorrected(w, n - 1, show);
      LayersTextCorrectedLines(w, n - 1, show);
      var started := before + LayerMarker(n - 1) + "\n";
      MarkerOnItsLine(before, n - 1);
      RowsTextLines(started, w[n - 1], show);
      LayersTextCorrectedStep(Header + "\n", w, n, show);
      StoreTokensStep(w, n, show);
      assert KeptRows(w[n - 1], false) == w[n - 1];
    }
  }

  // ---------------------------------------------------------------------------------------
  // What the reader gets back from a saved file
  // ---------------------------------------------------------------------------------------

  /** The trailer ends the file on the open line, which is then a comment: the reader gets the tokens of the finished lines. */
  lemma TrailerLine(text: string)
    requires Partial(text) == [] || Partial(text)[0] == '#'
    ensures Tokens(FileLines(text + Trailer)) == Tokens(Complete(text))
  {
    HeaderAndTrailer();
    AppendWithinLine(text, Trailer);
    var last := Partial(text) + Trailer;
    assert last != [] && last[0] == '#';
    CommentLine(last);
    FinishLine(Complete(text), last);
  }

  /**
   * The token stream of a file save wrote: the weights of every row except the first row of
   * each layer, which shares a comment line with the header or the layer's marker.
   */
  lemma SavedReadBack(w: seq<seq<seq<real>>>, show: real -> string)
    requires PrintsTokens(show)
    ensures Tokens(FileLines(Saved(w, show))) == StoreTokens(DropFirstRows(w), show)
  {
    LayersTextLines(w, |w|, show);
    TrailerLine(Header + LayersText(w, |w|, show));
    assert w[..|w|] == w;
  }

  /** The token stream of a file in the corrected layout: the weights of every row, layer after layer. */
  lemma SavedCorrectedReadBack(w: seq<seq<seq<real>>>, show: real -> string)
    requires PrintsTokens(show)
    ensures Tokens(FileLines(SavedCorrected(w, show))) == StoreTokens(w, show)
  {
    LayersTextCorrectedLines(w, |w|, show);
    TrailerLine(Header + "\n" + LayersTextCorrected(w, |w|, show));
    assert w[..|w|] == w;
  }

  /**
   * A network whose input layer has a unit and whose second layer has a unit cannot be loaded
   * back from the file save wrote for it: the stream lacks the first row of every layer, so
   * the loader runs out of tokens (readLine returns null) or misreads a row.
   */
  lemma SavedNetworkDoesNotLoadBack(w: seq<seq<seq<real>>>, units: seq<NNUnit>, show: real -> string,
                                    parse: string -> Option<real>, eof: Error)
    requires PrintsTokens(show)
    requires |units| >= 2 && |w| == |units| - 1 && Shaped(w, units)
    requires units[0].size >= 1 && units[1].size >= 1
    ensures LoadLayers(Tokens(FileLines(Saved(w, show))), units, |w|, parse, eof).Fail?
  {
    var ts := Tokens(FileLines(Saved(w, show)));
    SavedReadBack(w, show);
    DropFirstRowsShorter(w, show);
    StoreTokensCount(w, units, show);
    assert MatrixShaped(w[0], units[0].size, units[1].size);
    LoadLayersSucceeds(ts, units, |w|, parse, eof);
  }

  /** In the corrected layout saving and loading round-trip: the loader gets every weight back in place and consumes the whole stream. */
  lemma SavedCorrectedLoadsBack(w: seq<seq<seq<real>>>, units: seq<NNUnit>, show: real -> string,
                                parse: string -> Option<real>, eof: Error)
    requires PrintsTokens(show) && StoreRoundTrips(w, show, parse)
    requires |w| == |units| - 1 && Shaped(w, units)
    ensures LoadLayers(Tokens(FileLines(SavedCorrected(w, show))), units, |w|, parse, eof) == Ok((w, []))
  {
    SavedCorrectedReadBack(w, show);
    LoadStoreTokens(w, units, |w|, [], show, parse, eof);
    assert w[..|w|] == w;
    assert StoreTokens(w, show) + [] == StoreTokens(w, show);
  }

  /** The round trip has instances: two 1 x 1 layers of 2.0, rendered as "2", load back from the corrected file. */
  lemma SavedCorrectedLoadsBackExample(eof: Error)
    ensures var w := [[[2.0]], [[2.0]]];
      var show := (v: real) => "2";
      var parse := (t: string) => if t == "2" then Some(2.0) else None;
      LoadLayers(Tokens(FileLines(SavedCorrected(w, show))), [Unit(1), Unit(1), Unit(1)], 2, parse, eof) == Ok((w, []))
  {
    var w := [[[2.0]], [[2.0]]];
    var show := (v: real) => "2";
    var parse := (t: string) => if t == "2" then Some(2.0) else None;
    var units := [Unit(1), Unit(1), Unit(1)];
    assert TokenSafe("2");
    assert Shaped(w, units) by {
      assert MatrixShaped(w[0], 1, 1) && MatrixShaped(w[1], 1, 1);
    }
    assert StoreRoundTrips(w, show, parse) by {
      assert RowRoundTrips(w[0][0], show, parse) && RowRoundTrips(w[1][0], show, parse);
      assert MatrixRoundTrips(w[0], show, parse) && MatrixRoundTrips(w[1], show, parse);
    }
    SavedCorrectedLoadsBack(w, units, show, parse, eof);
  }

  /** A copy getClonedLayers makes of a shaped store is shaped like it. */
  lemma ClonedShaped(w: seq<seq<seq<real>>>, units: seq<NNUnit>)
    requires Shaped(w, units) && StoreCopy(w, Some(|w|)).Ok?
    ensures Shaped(StoreCopy(w, Some(|w|)).value, units)
  {
    StoreCopyKeepsShape(w, Some(|w|));
  }

  // ---------------------------------------------------------------------------------------
  // The writer
  // ---------------------------------------------------------------------------------------

  /** The text the writer is given for the rows of one layer: each row joined by spaces and followed by '\n'. */
  method WriteRows(rows: array<array<real>>, show: real -> string) returns (text: string)
    ensures text == RowsText(MatrixOf(rows), show)
  {
    ghost var m := MatrixOf(rows);
    text := [];
    var j := 0;
    while j < rows.Length
      invariant 0 <= j <= rows.Length
      invariant text == RowsText(m[..j], show)
    {
      assert rows[j][..] == m[j];
      text := text + RowText(rows[j][..], show);
      text := text + "\n";
      RowsTextExtend([], m, j, show);
      assert [] + RowsText(m[..j], show) == RowsText(m[..j], show);
      j := j + 1;
    }
    assert m[..j] == m;
  }

  /**
   * The text save gives the writer for a weight store w: the header, then for each layer its
   * marker and its rows, with no line break after the header or a marker, then the trailer.
   */
  method WriteStore(layers: array<array<array<real>>>, ghost w: seq<seq<seq<real>>>, show: real -> string) returns (text: string)
    requires StoreOf(layers) == w
    ensures text == Saved(w, show)
  {
    text := Header;
    var i := 0;
    while i < layers.Length
      invariant 0 <= i <= layers.Length == |w|
      invariant text == Header + LayersText(w, i, show)
    {
      var rows := WriteRows(layers[i], show);
      assert MatrixOf(layers[i]) == w[i];
      text := text + LayerMarker(i) + rows;
      LayersTextStep(Header, w, i + 1, show);
      i := i + 1;
    }
    text := text + Trailer;
  }

  /** The text of the corrected layout: the header and every marker end their lines. */
  method WriteStoreCorrected(layers: array<array<array<real>>>, ghost w: seq<seq<seq<real>>>, show: real -> string) returns (text: string)
    requires StoreOf(layers) == w
    ensures text == SavedCorrected(w, show)
  {
    text := Header + "\n";
    var i := 0;
    while i < layers.Length
      invariant 0 <= i <= layers.Length == |w|
      invariant text == Header + "\n" + LayersTextCorrected(w, i, show)
    {
      var rows := WriteRows(layers[i], show);
      assert MatrixOf(layers[i]) == w[i];
      text := text + LayerMarker(i) + "\n" + rows;
      LayersTextCorrectedStep(Header + "\n", w, i + 1, show);
      i := i + 1;
    }
    text := text + Trailer;
  }

  /** A PersistenceWithTextFile and the text of its destination file. */
  class PersistenceWithTextFile {
    var contents: string

    /** Binds the writer to a destination file holding `existing`. */
    constructor (existing: string)
      ensures contents == existing
    {
      contents := existing;
    }

    /**
     * save(nn), as written: the file is truncated, getClonedLayers' exception (if any)
     * propagates and leaves it empty; otherwise the file ends up holding the text the
     * writer was given.
     */
    method Save(nn: NN, show: real -> string) returns (r: Outcome<bool>)
      modifies this
      ensures var spec := StoreCopy(old(StoreOf(nn.layers)), Some(nn.layers.Length));
        (spec.Fail? ==> r == Fail(spec.error) && contents == []) &&
        (spec.Ok? ==> r == Ok(true) && contents == Saved(spec.value, show))
    {
      ghost var weights := StoreOf(nn.layers);
      contents := [];
      assert StoreOf(nn.layers) == weights;
      var cloned := nn.GetClonedLayers();
      if cloned.Fail? {
        return Fail(cloned.error);
      }
      ghost var copy := StoreCopy(weights, Some(nn.layers.Length)).value;
      assert StoreOf(cloned.value) == copy;
      var text := WriteStore(cloned.value, copy, show);
      contents := text;
      r := Ok(true);
    }

    /** save with a full deep copy and the header and every marker ending their lines. */
    method SaveCorrected(nn: NN, show: real -> string) returns (r: bool)
      modifies this
      ensures r && contents == SavedCorrected(old(StoreOf(nn.layers)), show)
    {
      ghost var weights := StoreOf(nn.layers);
      var layers := nn.CloneLayers();
      assert StoreOf(layers) == weights;
      var text := WriteStoreCorrected(layers, weights, show);
      contents := text;
      r := true;
    }
  }
}
