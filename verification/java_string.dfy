/**
 * The java.lang.String operations the reader and the writer rely on:
 * trim(), split(" "), String.join(" ", ...) and the decimal rendering of an int.
 * A separator split produces every piece; Java's split then drops trailing empty pieces.
 */
module JavaString {

  /** trim() removes every character whose code is at most U+0020 from both ends. */
  predicate IsTrimmed(c: char) {
    c <= ' '
  }

  function TrimStart(s: string): (r: string)
    ensures |r| <= |s| && r == s[|s| - |r|..]
    ensures r == [] || !IsTrimmed(r[0])
    ensures forall k :: 0 <= k < |s| - |r| ==> IsTrimmed(s[k])
  {
    if s == [] || !IsTrimmed(s[0]) then s else TrimStart(s[1..])
  }

  function TrimEnd(s: string): (r: string)
    ensures |r| <= |s| && r == s[..|r|]
    ensures r == [] || !IsTrimmed(r[|r| - 1])
    ensures forall k :: |r| <= k < |s| ==> IsTrimmed(s[k])
  {
    if s == [] || !IsTrimmed(s[|s| - 1]) then s else TrimEnd(s[..|s| - 1])
  }

  /** String.trim(). */
  function Trim(s: string): (r: string)
    ensures r == [] || (!IsTrimmed(r[0]) && !IsTrimmed(r[|r| - 1]))
  {
    TrimEnd(TrimStart(s))
  }

  /** trim() yields the empty string exactly when every character is white. */
  lemma TrimEmpty(s: string)
    ensures Trim(s) == [] <==> forall k :: 0 <= k < |s| ==> IsTrimmed(s[k])
  {
    var t := TrimStart(s);
    if Trim(s) != [] && t != [] {
      assert s[|s| - |t|] == t[0];
    }
  }

  /** A string whose ends are not white is left alone by trim(). */
  lemma TrimKeeps(s: string)
    requires s == [] || (!IsTrimmed(s[0]) && !IsTrimmed(s[|s| - 1]))
    ensures Trim(s) == s
  {
  }

  /** A line whose first character is not white keeps that first character after trim(). */
  lemma TrimKeepsHead(s: string)
    requires s != [] && !IsTrimmed(s[0])
    ensures Trim(s) != [] && Trim(s)[0] == s[0]
  {
    assert TrimStart(s) == s;
  }

  /** Every piece between separators, in order; n separators give n + 1 pieces. */
  function SplitAll(s: string, sep: char): (r: seq<string>)
    ensures |r| >= 1
    ensures forall t :: t in r ==> sep !in t
    decreases |s|
  {
    if s == [] then [[]]
    else
      var rest := SplitAll(s[1..], sep);
      if s[0] == sep then
        [[]] + rest
      else
        [[s[0]] + rest[0]] + rest[1..]
  }

  /** String.join: the pieces with one separator between neighbours. */
  function Join(ts: seq<string>, sep: char): (r: string)
    ensures ts == [] ==> r == []
  {
    if |ts| == 0 then []
    else if |ts| == 1 then ts[0]
    else ts[0] + [sep] + Join(ts[1..], sep)
  }

  /** Joining the pieces of a split with the separator gives the string back. */
  lemma {:induction false} JoinSplit(s: string, sep: char)
    ensures Join(SplitAll(s, sep), sep) == s
    decreases |s|
  {
    if s != [] {
      JoinSplit(s[1..], sep);
      var rest := SplitAll(s[1..], sep);
      if s[0] == sep {
        assert SplitAll(s, sep) == [[]] + rest;
        assert ([[]] + rest)[1..] == rest;
      } else if |rest| == 1 {
        assert [s[0]] + rest[0] == s;
      } else {
        var r := SplitAll(s, sep);
        assert r[1..] == rest[1..];
        assert rest[0] + [sep] + Join(rest[1..], sep) == s[1..];
      }
    }
  }

  /** Joining pieces that contain no separator and splitting again gives the pieces back. */
  lemma {:induction false} SplitJoin(ts: seq<string>, sep: char)
    requires |ts| >= 1
    requires forall t :: t in ts ==> sep !in t
    ensures SplitAll(Join(ts, sep), sep) == ts
  {
    if |ts| == 1 {
      SplitNoSeparator(ts[0], sep);
    } else {
      SplitJoin(ts[1..], sep);
      SplitAppend(ts[0], Join(ts[1..], sep), sep);
      SplitNoSeparator(ts[0], sep);
    }
  }

  /** A string without the separator is a single piece. */
  lemma {:induction false} SplitNoSeparator(s: string, sep: char)
    requires sep !in s
    ensures SplitAll(s, sep) == [s]
    decreases |s|
  {
    if s != [] {
      SplitNoSeparator(s[1..], sep);
      assert s == [s[0]] + s[1..];
    }
  }

  /** A separator splits the pieces of both sides apart. */
  lemma {:induction false} SplitAppend(a: string, b: string, sep: char)
    ensures SplitAll(a + [sep] + b, sep) == SplitAll(a, sep) + SplitAll(b, sep)
    decreases |a|
  {
    if a == [] {
      assert a + [sep] + b == [sep] + b;
      assert ([sep] + b)[1..] == b;
    } else {
      assert (a + [sep] + b)[1..] == a[1..] + [sep] + b;
      SplitAppend(a[1..], b, sep);
    }
  }

  /** Text without the separator extends the first piece of what follows it. */
  lemma {:induction false} SplitPrepend(a: string, b: string, sep: char)
    requires sep !in a
    ensures SplitAll(a + b, sep) == [a + SplitAll(b, sep)[0]] + SplitAll(b, sep)[1..]
    decreases |a|
  {
    if a != [] {
      assert (a + b)[1..] == a[1..] + b;
      assert (a + b)[0] == a[0] && a[0] != sep;
      SplitPrepend(a[1..], b, sep);
      var sb := SplitAll(b, sep);
      var rest := SplitAll(a[1..] + b, sep);
      assert SplitAll(a + b, sep) == [[a[0]] + rest[0]] + rest[1..];
      assert rest[0] == a[1..] + sb[0] && rest[1..] == sb[1..];
      assert [a[0]] + (a[1..] + sb[0]) == a + sb[0];
    } else {
      var sb := SplitAll(b, sep);
      assert a + b == b && a + sb[0] == sb[0];
      assert [sb[0]] + sb[1..] == sb;
    }
  }

  /** The pieces of a string that starts with c, from the pieces r of the rest. */
  function ConsPiece(c: char, r: seq<string>, sep: char): seq<string>
    requires |r| >= 1
  {
    if c == sep then [[]] + r else [[c] + r[0]] + r[1..]
  }

  /** The pieces of a non-empty string: its first character put in front of the pieces of the rest. */
  lemma SplitCons(a: string, sep: char)
    requires a != []
    ensures SplitAll(a, sep) == ConsPiece(a[0], SplitAll(a[1..], sep), sep)
  {
  }

  /** Extending the last piece commutes with putting a character in front. */
  lemma ConsPieceExtendLast(c: char, r: seq<string>, s: string, sep: char)
    requires |r| >= 1
    ensures var r' := r[..|r| - 1] + [r[|r| - 1] + s];
      var whole := ConsPiece(c, r, sep);
      ConsPiece(c, r', sep) == whole[..|whole| - 1] + [whole[|whole| - 1] + s]
  {
    var n := |r|;
    var r' := r[..n - 1] + [r[n - 1] + s];
    var whole := ConsPiece(c, r, sep);
    if c == sep {
      assert whole[..n] == [[]] + r[..n - 1];
    } else if n == 1 {
      assert [c] + (r[0] + s) == [c] + r[0] + s;
    } else {
      assert whole[..n - 1] == [[c] + r[0]] + r[1..n - 1];
      assert r'[1..] == r[1..n - 1] + [r[n - 1] + s];
    }
  }

  /** Text without the separator, appended, extends the last piece. */
  lemma {:induction false} SplitExtendLast(a: string, s: string, sep: char)
    requires sep !in s
    ensures var r := SplitAll(a, sep);
      SplitAll(a + s, sep) == r[..|r| - 1] + [r[|r| - 1] + s]
    decreases |a|
  {
    if a == [] {
      SplitNoSeparator(s, sep);
      assert a + s == s;
    } else {
      var t := a[1..];
      assert (a + s)[1..] == t + s && (a + s)[0] == a[0];
      SplitExtendLast(t, s, sep);
      SplitCons(a, sep);
      SplitCons(a + s, sep);
      ConsPieceExtendLast(a[0], SplitAll(t, sep), s, sep);
    }
  }

  /** The last piece is empty exactly when the string ends with the separator (or is empty). */
  lemma {:induction false} SplitLastPiece(s: string, sep: char)
    ensures var r := SplitAll(s, sep); r[|r| - 1] == [] <==> (s == [] || s[|s| - 1] == sep)
    decreases |s|
  {
    if s != [] {
      SplitLastPiece(s[1..], sep);
    }
  }

  /** Drops the empty pieces at the end, as split(regex) with limit 0 does. */
  function DropTrailingEmpty(ts: seq<string>): (r: seq<string>)
    ensures |r| <= |ts| && r == ts[..|r|]
    ensures r == [] || r[|r| - 1] != []
    ensures forall k :: |r| <= k < |ts| ==> ts[k] == []
  {
    if ts == [] || ts[|ts| - 1] != [] then ts else DropTrailingEmpty(ts[..|ts| - 1])
  }

  /**
   * String.split with a one-character pattern: the whole string when the separator
   * does not occur, otherwise every piece without the trailing empty ones.
   */
  function JavaSplit(s: string, sep: char): seq<string> {
    if sep !in s then [s] else DropTrailingEmpty(SplitAll(s, sep))
  }

  /** A non-empty string that does not end with the separator splits into every piece. */
  lemma JavaSplitIsSplitAll(s: string, sep: char)
    requires s != [] && s[|s| - 1] != sep
    ensures JavaSplit(s, sep) == SplitAll(s, sep)
  {
    if sep !in s {
      SplitNoSeparator(s, sep);
    } else {
      SplitLastPiece(s, sep);
    }
  }

  function DigitChar(d: nat): (c: char)
    requires d < 10
    ensures '0' <= c <= '9' && DigitValue(c) == d
  {
    (d + '0' as int) as char
  }

  function DigitValue(c: char): nat {
    if '0' <= c <= '9' then (c as int - '0' as int) else 0
  }

  /** The decimal digits of a natural number, most significant first, without leading zeros. */
  function NatToString(n: nat): (r: string)
    ensures |r| >= 1
    ensures forall k :: 0 <= k < |r| ==> '0' <= r[k] <= '9'
    ensures |r| > 1 ==> r[0] != '0'
  {
    if n < 10 then [DigitChar(n)] else NatToString(n / 10) + [DigitChar(n % 10)]
  }

  /** The value of a string of decimal digits. */
  function DigitsValue(s: string): nat {
    if s == [] then 0 else DigitsValue(s[..|s| - 1]) * 10 + DigitValue(s[|s| - 1])
  }

  /** Integer.toString, which string concatenation with an int uses. */
  function IntToString(n: int): (r: string)
    ensures |r| >= 1
    ensures r[0] == '-' <==> n < 0
    ensures forall k :: 0 < k < |r| ==> '0' <= r[k] <= '9'
  {
    if n < 0 then "-" + NatToString(-n) else NatToString(n)
  }

  /** Reading the digits back gives the number: the rendering is faithful. */
  lemma {:induction false} NatToStringValue(n: nat)
    ensures DigitsValue(NatToString(n)) == n
  {
    if n >= 10 {
      NatToStringValue(n / 10);
      var s := NatToString(n / 10) + [DigitChar(n % 10)];
      assert s[..|s| - 1] == NatToString(n / 10);
    }
  }

  /** The signed rendering reads back to the same integer. */
  lemma IntToStringValue(n: int)
    ensures var r := IntToString(n);
      (if r[0] == '-' then -(DigitsValue(r[1..]) as int) else DigitsValue(r) as int) == n
  {
    if n < 0 {
      NatToStringValue(-n);
      assert IntToString(n)[1..] == NatToString(-n);
    } else {
      NatToStringValue(n);
    }
  }
}
