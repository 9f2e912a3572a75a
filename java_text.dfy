/**
 * The two java.lang.String services the queries use: Integer.parseInt on a
 * string of decimal digits, and String.split on a one-character separator
 * (which Java handles without a regular-expression engine).
 */
module JavaText {

  /** Integer.MAX_VALUE: Integer.parseInt rejects anything larger. */
  const MaxInt: int := 0x7fff_ffff

  predicate IsDigit(c: char) {
    '0' <= c <= '9'
  }

  /** A non-empty string of decimal digits (no sign). */
  predicate IsDecimal(s: string) {
    |s| > 0 && forall i :: 0 <= i < |s| ==> IsDigit(s[i])
  }

  function DigitValue(c: char): nat {
    if IsDigit(c) then c as int - '0' as int else 0
  }

  function DigitChar(d: nat): (c: char)
    requires d < 10
    ensures IsDigit(c) && DigitValue(c) == d
  {
    ('0' as int + d) as char
  }

  function Pow10(k: nat): (p: nat)
    ensures p > 0
  {
    if k == 0 then 1 else 10 * Pow10(k - 1)
  }

  /**
   * The value Integer.parseInt gives a string of decimal digits, leading
   * zeros allowed: less than 10 to the power of its length.
   */
  function ParseDecimal(s: string): (n: nat)
    ensures n < Pow10(|s|)
    decreases |s|
  {
    if s == [] then 0 else 10 * ParseDecimal(s[..|s| - 1]) + DigitValue(s[|s| - 1])
  }

  /** A leading zero does not change the value. */
  lemma {:induction false} ParseDecimalLeadingZero(s: string)
    ensures ParseDecimal(['0'] + s) == ParseDecimal(s)
    decreases |s|
  {
    if s != [] {
      var t := ['0'] + s;
      assert t[..|t| - 1] == ['0'] + s[..|s| - 1] && t[|t| - 1] == s[|s| - 1];
      ParseDecimalLeadingZero(s[..|s| - 1]);
    } else {
      assert (['0'] + s)[..0] == [];
    }
  }

  /** Integer.toString of a non-negative number: its digits, without leading zeros. */
  function DecimalString(n: nat): (s: string)
    ensures IsDecimal(s)
    ensures s[0] == '0' ==> n == 0
  {
    if n < 10 then [DigitChar(n)] else DecimalString(n / 10) + [DigitChar(n % 10)]
  }

  /** Parsing undoes printing. */
  lemma {:induction false} ParseDecimalString(n: nat)
    ensures ParseDecimal(DecimalString(n)) == n
  {
    var s := DecimalString(n);
    if n >= 10 {
      assert s[..|s| - 1] == DecimalString(n / 10);
      ParseDecimalString(n / 10);
    }
  }

  /** Printing undoes parsing, for digit strings without a leading zero. */
  lemma {:induction false} DecimalStringParse(s: string)
    requires IsDecimal(s) && (s[0] == '0' ==> |s| == 1)
    ensures DecimalString(ParseDecimal(s)) == s
    decreases |s|
  {
    var init, last := s[..|s| - 1], s[|s| - 1];
    if init == [] {
      assert s == [last];
    } else {
      assert init[0] == s[0] && IsDecimal(init);
      DecimalStringParse(init);
      var n := ParseDecimal(s);
      ParseDecimalPositive(init);
      assert n / 10 == ParseDecimal(init) && n % 10 == DigitValue(last);
      assert DigitChar(DigitValue(last)) == last;
      assert s == init + [last];
    }
  }

  lemma {:induction false} ParseDecimalPositive(s: string)
    requires IsDecimal(s) && s[0] != '0'
    ensures ParseDecimal(s) > 0
    decreases |s|
  {
    if |s| > 1 {
      var init := s[..|s| - 1];
      assert init[0] == s[0] && IsDecimal(init);
      ParseDecimalPositive(init);
    } else {
      assert s[..0] == [];
    }
  }

  /**
   * All pieces of `s` between occurrences of `sep`, empty ones included
   * (what String.split gives with a negative limit).
   */
  function Pieces(s: string, sep: char): (r: seq<string>)
    ensures |r| >= 1
    ensures forall i :: 0 <= i < |r| ==> sep !in r[i]
    ensures |r| == 1 <==> sep !in s
  {
    if s == [] then [""]
    else
      var rest := Pieces(s[1..], sep);
      assert s == [s[0]] + s[1..];
      if s[0] == sep then [""] + rest
      else [[s[0]] + rest[0]] + rest[1..]
  }

  /** The pieces put back together with `sep` between neighbours. */
  function Join(ps: seq<string>, sep: char): string
    requires |ps| >= 1
  {
    if |ps| == 1 then ps[0] else ps[0] + [sep] + Join(ps[1..], sep)
  }

  /** Joining the pieces gives back the string. */
  lemma {:induction false} JoinPieces(s: string, sep: char)
    ensures Join(Pieces(s, sep), sep) == s
  {
    if s != [] {
      JoinPieces(s[1..], sep);
      var rest := Pieces(s[1..], sep);
      if s[0] != sep {
        var r := [[s[0]] + rest[0]] + rest[1..];
        assert r[1..] == rest[1..];
        if |rest| > 1 {
          assert rest == [rest[0]] + rest[1..];
        }
      }
    }
  }

  lemma {:induction false} PiecesWithoutSeparator(p: string, sep: char)
    requires sep !in p
    ensures Pieces(p, sep) == [p]
  {
    if p != [] {
      PiecesWithoutSeparator(p[1..], sep);
      assert [p[0]] + p[1..] == p;
    }
  }

  lemma {:induction false} PiecesAfterFirst(p: string, t: string, sep: char)
    requires sep !in p
    ensures Pieces(p + [sep] + t, sep) == [p] + Pieces(t, sep)
  {
    var s := p + [sep] + t;
    if p == [] {
      assert s[0] == sep && s[1..] == t;
    } else {
      assert s[0] == p[0] && s[1..] == p[1..] + [sep] + t;
      PiecesAfterFirst(p[1..], t, sep);
      assert [p[0]] + p[1..] == p;
    }
  }

  /** Splitting a join of separator-free pieces gives back the pieces. */
  lemma {:induction false} PiecesJoin(ps: seq<string>, sep: char)
    requires |ps| >= 1
    requires forall i :: 0 <= i < |ps| ==> sep !in ps[i]
    ensures Pieces(Join(ps, sep), sep) == ps
  {
    if |ps| == 1 {
      PiecesWithoutSeparator(ps[0], sep);
    } else {
      PiecesJoin(ps[1..], sep);
      PiecesAfterFirst(ps[0], Join(ps[1..], sep), sep);
      assert [ps[0]] + ps[1..] == ps;
    }
  }

  /** Removes the empty strings at the end, as String.split does with limit 0. */
  function DropTrailingEmpty(ps: seq<string>): (r: seq<string>)
    ensures r <= ps
    ensures r == [] || r[|r| - 1] != ""
    ensures forall i :: |r| <= i < |ps| ==> ps[i] == ""
  {
    if ps == [] || ps[|ps| - 1] != "" then ps else DropTrailingEmpty(ps[..|ps| - 1])
  }

  /**
   * String.split(String.valueOf(sep)): with no separator in `s` the answer is
   * `s` alone; otherwise the pieces with the trailing empty ones dropped
   * (leading and interior empty pieces stay, nothing is trimmed).
   */
  function Split(s: string, sep: char): (r: seq<string>)
    ensures sep !in s ==> r == [s]
    ensures sep in s ==> r <= Pieces(s, sep) && (r == [] || r[|r| - 1] != "")
    ensures sep in s ==> forall i :: |r| <= i < |Pieces(s, sep)| ==> Pieces(s, sep)[i] == ""
    ensures forall i :: 0 <= i < |r| ==> sep !in r[i]
  {
    if sep !in s then [s] else DropTrailingEmpty(Pieces(s, sep))
  }
}
