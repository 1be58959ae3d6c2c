/**
 * The parts of the Java standard library whose exact behaviour decides
 * how a request is routed: `String.split` with a one-character pattern,
 * `String.equalsIgnoreCase`, `Integer.parseInt` and `Integer.toString`.
 */
module JavaLang {
  import opened Wrappers

  // ---------------------------------------------------------------- split

  /** `s.indexOf(d)` for a string that holds `d`: the first position of `d`. */
  function IndexOf(s: string, d: char): (i: nat)
    requires d in s
    ensures i < |s| && s[i] == d && d !in s[..i]
  {
    if s[0] == d then 0
    else
      var i := 1 + IndexOf(s[1..], d);
      assert s[..i] == [s[0]] + s[1..][..i - 1];
      i
  }

  /** The first position of `d` is the one with no `d` before it. */
  lemma IndexOfUnique(s: string, d: char, j: nat)
    requires j < |s| && s[j] == d && d !in s[..j]
    ensures IndexOf(s, d) == j
  {
  }

  /**
   * Every piece between two delimiters, empty pieces included: the text up to the
   * first delimiter, then the pieces of the text after it, as `split`'s `indexOf`
   * loop takes them.
   */
  function RawSplit(s: string, d: char): (r: seq<string>)
    ensures |r| >= 1
    decreases |s|
  {
    if d !in s then [s]
    else
      var i := IndexOf(s, d);
      [s[..i]] + RawSplit(s[i + 1..], d)
  }

  /** No piece holds the delimiter. */
  lemma {:induction false} RawSplitPiecesFree(s: string, d: char)
    ensures forall i :: 0 <= i < |RawSplit(s, d)| ==> d !in RawSplit(s, d)[i]
    decreases |s|
  {
    if d in s {
      var i := IndexOf(s, d);
      RawSplitPiecesFree(s[i + 1..], d);
    }
  }

  /** Glues pieces back together with the delimiter between them. */
  function Join(ps: seq<string>, d: char): string
  {
    if ps == [] then ""
    else if |ps| == 1 then ps[0]
    else ps[0] + [d] + Join(ps[1..], d)
  }

  lemma JoinCons(p: string, ps: seq<string>, d: char)
    requires ps != []
    ensures Join([p] + ps, d) == p + [d] + Join(ps, d)
  {
    assert ([p] + ps)[1..] == ps;
  }

  /** Splitting and joining again gives back the original string. */
  lemma {:induction false} JoinRawSplit(s: string, d: char)
    ensures Join(RawSplit(s, d), d) == s
    decreases |s|
  {
    if d in s {
      var i := IndexOf(s, d);
      JoinRawSplit(s[i + 1..], d);
      JoinCons(s[..i], RawSplit(s[i + 1..], d), d);
      assert s == s[..i] + [d] + s[i + 1..];
    }
  }

  /** The pieces of `a`, a delimiter, then `b`: the first delimiter is the one after `a`. */
  lemma SplitAtFirst(a: string, b: string, d: char)
    requires d !in a
    ensures RawSplit(a + [d] + b, d) == [a] + RawSplit(b, d)
  {
    var s := a + [d] + b;
    assert s[..|a|] == a && s[|a|] == d;
    IndexOfUnique(s, d, |a|);
    assert s[|a| + 1..] == b;
  }

  /** Joining pieces free of the delimiter and splitting again gives back the pieces. */
  lemma {:induction false} RawSplitJoin(ps: seq<string>, d: char)
    requires |ps| >= 1
    requires forall i :: 0 <= i < |ps| ==> d !in ps[i]
    ensures RawSplit(Join(ps, d), d) == ps
  {
    if |ps| > 1 {
      RawSplitJoin(ps[1..], d);
      SplitAtFirst(ps[0], Join(ps[1..], d), d);
      assert ps == [ps[0]] + ps[1..];
    }
  }

  /** Unfolds `RawSplit` at a delimiter with none before it. */
  lemma RawSplitAt(s: string, d: char, i: nat)
    requires i < |s| && s[i] == d && d !in s[..i]
    ensures RawSplit(s, d) == [s[..i]] + RawSplit(s[i + 1..], d)
  {
    IndexOfUnique(s, d, i);
  }

  /** The first delimiter of `a` is also the first of `a`, a delimiter, then `b`. */
  lemma SplitInPrefix(a: string, b: string, d: char)
    requires d in a
    ensures var i := IndexOf(a, d);
            RawSplit(a + [d] + b, d) == [a[..i]] + RawSplit(a[i + 1..] + [d] + b, d)
  {
    var i := IndexOf(a, d);
    var s := a + [d] + b;
    assert s[..i] == a[..i];
    assert s[i] == d;
    assert s[i + 1..] == a[i + 1..] + [d] + b;
    RawSplitAt(s, d, i);
  }

  /** A delimiter splits the string into the pieces of its two sides. */
  lemma {:induction false} RawSplitAppend(a: string, b: string, d: char)
    ensures RawSplit(a + [d] + b, d) == RawSplit(a, d) + RawSplit(b, d)
    decreases |a|
  {
    if d !in a {
      SplitAtFirst(a, b, d);
    } else {
      var i := IndexOf(a, d);
      SplitInPrefix(a, b, d);
      RawSplitAppend(a[i + 1..], b, d);
      var head, tail, right := [a[..i]], RawSplit(a[i + 1..], d), RawSplit(b, d);
      assert head + (tail + right) == (head + tail) + right;
    }
  }

  /** Drops the empty pieces at the end, as `split` does when it is given no limit. */
  function DropTrailingEmpty(ps: seq<string>): (r: seq<string>)
    ensures |r| <= |ps| && r == ps[..|r|]
    ensures r == [] || r[|r| - 1] != ""
    ensures forall j :: |r| <= j < |ps| ==> ps[j] == ""
  {
    if ps != [] && ps[|ps| - 1] == "" then DropTrailingEmpty(ps[..|ps| - 1]) else ps
  }

  /**
   * `s.split(d)` for a one-character pattern that is not a regular-expression
   * metacharacter: a string without the delimiter is returned whole (so "" gives
   * [""]), otherwise the pieces with trailing empty pieces removed.
   */
  function Split(s: string, d: char): (r: seq<string>)
    ensures d !in s ==> r == [s]
  {
    if d !in s then [s] else DropTrailingEmpty(RawSplit(s, d))
  }

  /** No piece of a split holds the delimiter, and the last piece is empty only for the empty string. */
  lemma SplitPieces(s: string, d: char)
    ensures forall i :: 0 <= i < |Split(s, d)| ==> d !in Split(s, d)[i]
    ensures var r := Split(s, d); r != [] && r[|r| - 1] == "" ==> s == ""
  {
    RawSplitPiecesFree(s, d);
  }

  /** A trailing delimiter changes nothing, except for the empty string ("" gives [""], the delimiter alone gives []). */
  lemma TrailingDelimiterIgnored(s: string, d: char)
    requires s != ""
    ensures Split(s + [d], d) == Split(s, d)
  {
    if d !in s {
      assert RawSplit(s, d) == [s];
    }
    RawSplitAppend(s, "", d);
    assert s + [d] + "" == s + [d];
    assert RawSplit("", d) == [""];
    var raw := RawSplit(s, d) + [""];
    assert d in s + [d];
    assert Split(s + [d], d) == DropTrailingEmpty(raw);
    assert raw[..|raw| - 1] == RawSplit(s, d);
    assert DropTrailingEmpty(raw) == DropTrailingEmpty(RawSplit(s, d));
  }

  /** The pieces of a string ending in a non-empty piece, with no piece dropped. */
  lemma {:induction false} SplitJoin(ps: seq<string>, d: char)
    requires |ps| >= 2 && ps[|ps| - 1] != ""
    requires forall i :: 0 <= i < |ps| ==> d !in ps[i]
    ensures Split(Join(ps, d), d) == ps
  {
    RawSplitJoin(ps, d);
    assert d in Join(ps, d) by {
      assert ps == [ps[0]] + ps[1..];
      assert Join(ps, d) == ps[0] + [d] + Join(ps[1..], d);
      assert Join(ps, d)[|ps[0]|] == d;
    }
  }

  // ---------------------------------------------------------------- equalsIgnoreCase

  function ToLowerAscii(c: char): char
  {
    if 'A' <= c <= 'Z' then (c as int + 32) as char else c
  }

  /** `a.equalsIgnoreCase(b)` with the ASCII case mapping: same length, same letters up to case. */
  predicate EqualsIgnoreCase(a: string, b: string)
    ensures EqualsIgnoreCase(a, b) <==>
              |a| == |b| && forall i :: 0 <= i < |a| ==> ToLowerAscii(a[i]) == ToLowerAscii(b[i])
  {
    |a| == |b| &&
    (a == [] || (ToLowerAscii(a[0]) == ToLowerAscii(b[0]) && EqualsIgnoreCase(a[1..], b[1..])))
  }

  /** The same as Java's `"x".equalsIgnoreCase(v)` where `v` may be `null`. */
  predicate OptEqualsIgnoreCase(v: Option<string>, b: string)
  {
    v.Some? && EqualsIgnoreCase(v.value, b)
  }

  // ---------------------------------------------------------------- Integer.parseInt

  const MinInt: int := -0x8000_0000
  const MaxInt: int := 0x7fff_ffff

  predicate IsDigit(c: char) { '0' <= c <= '9' }

  predicate AllDigits(s: string) { forall i :: 0 <= i < |s| ==> IsDigit(s[i]) }

  /** The value of a string of decimal digits, most significant first. */
  function DigitsValue(s: string): (v: nat)
    requires AllDigits(s)
  {
    if s == [] then 0 else DigitsValue(s[..|s| - 1]) * 10 + (s[|s| - 1] as int - '0' as int)
  }

  /**
   * `Integer.parseInt(s)`: an optional `+` or `-`, then at least one digit, and a
   * value that fits in 32 bits; `None` stands for the NumberFormatException.
   */
  function ParseInt(s: string): (r: Option<int>)
    ensures r.Some? ==> MinInt <= r.value <= MaxInt
    ensures r.Some? ==> s != [] && AllDigits(if s[0] == '-' || s[0] == '+' then s[1..] else s)
    ensures s == [] || s == "-" || s == "+" ==> r == None
  {
    if s == [] then None
    else
      var digits := if s[0] == '-' || s[0] == '+' then s[1..] else s;
      if digits == [] || !AllDigits(digits) then None
      else
        var v: int := if s[0] == '-' then -(DigitsValue(digits) as int) else DigitsValue(digits);
        if MinInt <= v <= MaxInt then Some(v) else None
  }

  // ---------------------------------------------------------------- Integer.toString

  function DigitChar(n: nat): char
    requires n < 10
  {
    ('0' as int + n) as char
  }

  /** The decimal digits of `n`, without leading zeros. */
  function NatToDigits(n: nat): (s: string)
    ensures s != [] && AllDigits(s)
    ensures DigitsValue(s) == n
  {
    if n < 10 then [DigitChar(n)]
    else
      var s := NatToDigits(n / 10) + [DigitChar(n % 10)];
      assert s[..|s| - 1] == NatToDigits(n / 10);
      s
  }

  /** `Integer.toString(n)`: a minus sign for negative values, then the digits. */
  function IntToString(n: int): string
  {
    if n < 0 then "-" + NatToDigits(-n) else NatToDigits(n)
  }

  /** Every 32-bit integer printed in decimal parses back to itself. */
  lemma ParseIntToString(n: int)
    requires MinInt <= n <= MaxInt
    ensures ParseInt(IntToString(n)) == Some(n)
    ensures '/' !in IntToString(n)
  {
    var s := IntToString(n);
    if n < 0 {
      assert s[0] == '-' && s[1..] == NatToDigits(-n);
    } else {
      assert IsDigit(s[0]);
    }
  }

  /** A numeral outside the 32-bit range does not parse: `parseInt` throws. */
  lemma ParseIntOutOfRange(n: int)
    requires n < MinInt || n > MaxInt
    ensures ParseInt(IntToString(n)) == None
  {
    var s := IntToString(n);
    if n < 0 {
      assert s[0] == '-' && s[1..] == NatToDigits(-n);
    } else {
      assert IsDigit(s[0]);
    }
  }

  /** A leading zero does not change the value of a digit string. */
  lemma {:induction false} DigitsValueLeadingZero(t: string)
    requires AllDigits(t)
    ensures AllDigits("0" + t) && DigitsValue("0" + t) == DigitsValue(t)
  {
    var z := "0" + t;
    assert forall i :: 0 <= i < |z| ==> IsDigit(z[i]) by {
      forall i | 0 <= i < |z| ensures IsDigit(z[i]) {
        if i > 0 { assert z[i] == t[i - 1]; }
      }
    }
    if t == [] {
      assert z[..0] == [];
    } else {
      var init := t[..|t| - 1];
      assert z[..|z| - 1] == "0" + init;
      assert z[|z| - 1] == t[|t| - 1];
      DigitsValueLeadingZero(init);
    }
  }

  /** A `+` sign and leading zeros are accepted and change nothing: "+7" and "007" give 7. */
  lemma ParseIntPadding(t: string)
    requires t != "" && AllDigits(t)
    ensures ParseInt("+" + t) == ParseInt(t)
    ensures ParseInt("0" + t) == ParseInt(t)
    ensures ParseInt("-0" + t) == ParseInt("-" + t)
  {
    DigitsValueLeadingZero(t);
    var v := DigitsValue(t);
    assert ParseInt(t) == if v <= MaxInt then Some(v) else None by {
      assert IsDigit(t[0]);
    }
    assert ParseInt("+" + t) == ParseInt(t) by {
      assert ("+" + t)[1..] == t;
    }
    assert ParseInt("0" + t) == ParseInt(t) by {
      assert ("0" + t)[0] == '0';
    }
    assert ParseInt("-" + t) == if MinInt <= -v then Some(-v) else None by {
      assert ("-" + t)[1..] == t;
    }
    assert ParseInt("-0" + t) == if MinInt <= -v then Some(-v) else None by {
      assert ("-0" + t)[0] == '-' && ("-0" + t)[1..] == "0" + t;
    }
  }

  /** "-0" is zero. */
  lemma ParseIntNegativeZero()
    ensures ParseInt("-0") == Some(0)
  {
    assert "-0"[1..] == "0";
    assert "0"[..0] == [];
  }
}
