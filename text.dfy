/**
 * String helpers shared by the export, the form handlers and the archive-name
 * normalisation: PHP's decimal rendering and `intval` prefix parsing, zero
 * padding as done by `sprintf('%02d')` and `date('Y')`, `str_replace`,
 * `implode` and the inverse of joining with CRLF.
 */
module Text {

  predicate IsDigit(c: char) { '0' <= c <= '9' }

  predicate AllDigits(s: string) { forall i :: 0 <= i < |s| ==> IsDigit(s[i]) }

  function DigitChar(d: nat): (c: char)
    requires d < 10
    ensures IsDigit(c)
  {
    (48 + d) as char
  }

  function DigitValue(c: char): (d: nat)
    requires IsDigit(c)
    ensures d < 10 && DigitChar(d) == c
  {
    c as int - 48
  }

  /** The decimal spelling of n, most significant digit first, without sign or leading zeros. */
  function Decimal(n: nat): (s: string)
    ensures |s| > 0 && AllDigits(s)
    ensures n > 0 ==> s[0] != '0'
  {
    if n < 10 then [DigitChar(n)] else Decimal(n / 10) + [DigitChar(n % 10)]
  }

  /** The number a string of decimal digits denotes (the empty string denotes 0). */
  function DigitsValue(s: string): nat
    requires AllDigits(s)
  {
    if s == [] then 0 else DigitsValue(s[..|s| - 1]) * 10 + DigitValue(s[|s| - 1])
  }

  lemma {:induction false} DecimalValue(n: nat)
    ensures DigitsValue(Decimal(n)) == n
  {
    if n >= 10 {
      var s := Decimal(n);
      assert s[..|s| - 1] == Decimal(n / 10);
      DecimalValue(n / 10);
    }
  }

  /** Decimal spelling is injective: different numbers are never written alike. */
  lemma DecimalInjective(m: nat, n: nat)
    requires Decimal(m) == Decimal(n)
    ensures m == n
  {
    DecimalValue(m);
    DecimalValue(n);
  }

  function Pow10(k: nat): (p: nat)
    ensures p >= 1
  {
    if k == 0 then 1 else 10 * Pow10(k - 1)
  }

  lemma {:induction false} DecimalLength(n: nat, k: nat)
    requires n < Pow10(k)
    ensures |Decimal(n)| <= k || (n == 0 && k == 0)
  {
    if n >= 10 {
      assert k >= 1;
      DecimalLength(n / 10, k - 1);
    } else if k == 0 {
      assert n == 0;
    }
  }

  function Zeros(k: nat): (s: string)
    ensures |s| == k && forall i :: 0 <= i < k ==> s[i] == '0'
  {
    if k == 0 then [] else Zeros(k - 1) + "0"
  }

  /**
   * n written with at least `width` digits, zero-filled on the left, as
   * `sprintf('%0<width>d', n)` and the `Y`, `m`, `d`, `H`, `i`, `s` formats of
   * PHP's `date` write a non-negative number.
   */
  function Padded(n: nat, width: nat): (s: string)
    ensures AllDigits(s)
    ensures |s| == if |Decimal(n)| < width then width else |Decimal(n)|
  {
    var d := Decimal(n);
    if |d| < width then Zeros(width - |d|) + d else d
  }

  lemma {:induction false} LeadingZerosValue(k: nat, s: string)
    requires AllDigits(s)
    ensures AllDigits(Zeros(k) + s) && DigitsValue(Zeros(k) + s) == DigitsValue(s)
    decreases |s|, k
  {
    var z := Zeros(k) + s;
    if s == [] {
      assert z == Zeros(k);
      if k > 0 {
        assert z[..|z| - 1] == Zeros(k - 1);
        LeadingZerosValue(k - 1, []);
        assert Zeros(k - 1) + [] == Zeros(k - 1);
      }
    } else {
      assert z[..|z| - 1] == Zeros(k) + s[..|s| - 1];
      LeadingZerosValue(k, s[..|s| - 1]);
    }
  }

  /** Padding never changes the number that is written, and a number below 10^width fills exactly `width` places. */
  lemma PaddedValue(n: nat, width: nat)
    ensures DigitsValue(Padded(n, width)) == n
    ensures n < Pow10(width) && width > 0 ==> |Padded(n, width)| == width
  {
    DecimalValue(n);
    var d := Decimal(n);
    if |d| < width {
      LeadingZerosValue(width - |d|, d);
    }
    if n < Pow10(width) && width > 0 {
      DecimalLength(n, width);
    }
  }

  /** The characters PHP skips before a number when it converts a string to an integer. */
  predicate IsSpace(c: char)
  {
    c == ' ' || c == '\t' || c == '\n' || c == '\r' || c as int == 11 || c as int == 12
  }

  function SkipSpace(s: string): (t: string)
    ensures |t| <= |s| && t == s[|s| - |t|..]
    ensures t != [] ==> !IsSpace(t[0])
  {
    if s != [] && IsSpace(s[0]) then SkipSpace(s[1..]) else s
  }

  /** The longest prefix of s made of decimal digits. */
  function DigitPrefix(s: string): (p: string)
    ensures AllDigits(p) && p <= s
    ensures |p| < |s| ==> !IsDigit(s[|p|])
  {
    if s != [] && IsDigit(s[0]) then [s[0]] + DigitPrefix(s[1..]) else []
  }

  /**
   * PHP's `intval` of a string: leading white space, an optional sign, then
   * as many decimal digits as follow; no digits at all reads as 0.
   */
  function IntVal(s: string): int
  {
    var t := SkipSpace(s);
    if t != [] && (t[0] == '-' || t[0] == '+') then
      var n: int := DigitsValue(DigitPrefix(t[1..]));
      if t[0] == '-' then -n else n
    else DigitsValue(DigitPrefix(t))
  }

  /** WordPress's `absint`: the absolute value of `intval`. */
  function AbsInt(s: string): nat
  {
    var v := IntVal(s);
    if v < 0 then -v else v
  }

  lemma {:induction false} DigitPrefixAll(s: string)
    requires AllDigits(s)
    ensures DigitPrefix(s) == s
    decreases |s|
  {
    if s != [] {
      DigitPrefixAll(s[1..]);
    }
  }

  /** Reading back a decimal spelling gives the number: `intval` and `absint` invert `Decimal`. */
  lemma IntValDecimal(n: nat)
    ensures IntVal(Decimal(n)) == n && AbsInt(Decimal(n)) == n
  {
    var d := Decimal(n);
    assert IsDigit(d[0]);
    assert SkipSpace(d) == d;
    assert d[0] != '-' && d[0] != '+';
    DigitPrefixAll(d);
    DecimalValue(n);
    assert IntVal(d) == DigitsValue(d);
  }

  /** Text that does not start like a number reads as 0. */
  lemma IntValNonNumeric(s: string)
    requires s != [] && !IsSpace(s[0]) && !IsDigit(s[0]) && s[0] != '-' && s[0] != '+'
    ensures IntVal(s) == 0
  {
  }

  /**
   * PHP's `str_replace(pat, rep, s)` for one non-empty search string: scan from
   * the left, replace every non-overlapping occurrence, never rescan what was inserted.
   */
  function ReplaceAll(s: string, pat: string, rep: string): string
    requires pat != []
    decreases |s|
  {
    if |s| < |pat| then s
    else if s[..|pat|] == pat then rep + ReplaceAll(s[|pat|..], pat, rep)
    else [s[0]] + ReplaceAll(s[1..], pat, rep)
  }

  /** Replacing a single character works character by character. */
  lemma ReplaceCharStep(c: char, s: string, rep: string)
    requires s != []
    ensures ReplaceAll(s, [c], rep) == (if s[0] == c then rep else [s[0]]) + ReplaceAll(s[1..], [c], rep)
  {
    assert s[..1] == [s[0]];
  }

  /** A one-character string is replaced when it is the searched character and kept otherwise. */
  lemma ReplaceCharSingle(c: char, d: char, rep: string)
    ensures ReplaceAll([d], [c], rep) == if d == c then rep else [d]
  {
    ReplaceCharStep(c, [d], rep);
    assert [d][1..] == [];
  }

  /** For a single-character search, str_replace distributes over concatenation. */
  lemma {:induction false} ReplaceCharAppend(c: char, a: string, b: string, rep: string)
    ensures ReplaceAll(a + b, [c], rep) == ReplaceAll(a, [c], rep) + ReplaceAll(b, [c], rep)
    decreases |a|
  {
    if a != [] {
      ReplaceCharStep(c, a + b, rep);
      ReplaceCharStep(c, a, rep);
      assert (a + b)[1..] == a[1..] + b;
      ReplaceCharAppend(c, a[1..], b, rep);
    } else {
      assert a + b == b;
    }
  }

  /** A string that does not contain the searched character is left as it is. */
  lemma {:induction false} ReplaceCharAbsent(c: char, s: string, rep: string)
    requires c !in s
    ensures ReplaceAll(s, [c], rep) == s
    decreases |s|
  {
    if s != [] {
      ReplaceCharStep(c, s, rep);
      ReplaceCharAbsent(c, s[1..], rep);
    }
  }

  /** A string that does not start with the first character of the search string is left as it is. */
  lemma {:induction false} ReplaceAllNoStart(s: string, pat: string, rep: string)
    requires pat != [] && pat[0] !in s
    ensures ReplaceAll(s, pat, rep) == s
    decreases |s|
  {
    if |s| >= |pat| {
      assert s[..|pat|][0] == s[0];
      ReplaceAllNoStart(s[1..], pat, rep);
    }
  }

  /** Removing every occurrence of a prefix from a text that has no other occurrence leaves the rest. */
  lemma ReplacePrefix(pat: string, rest: string)
    requires pat != [] && pat[0] !in rest
    ensures ReplaceAll(pat + rest, pat, "") == rest
  {
    var s := pat + rest;
    assert s[..|pat|] == pat && s[|pat|..] == rest;
    ReplaceAllNoStart(rest, pat, "");
  }

  /** `implode(sep, lines)`. */
  function Join(lines: seq<string>, sep: string): string
  {
    if |lines| == 0 then "" else if |lines| == 1 then lines[0] else lines[0] + sep + Join(lines[1..], sep)
  }

  /** The separator that `implode("\r\n", ...)` puts between content lines. */
  const Crlf: string := "\r\n"

  /**
   * Cuts a text at every CR LF pair (the line break of section 3.1 of RFC 5545),
   * scanning from the left; the result always has at least one piece.
   */
  function SplitCrlf(s: string): (pieces: seq<string>)
    ensures |pieces| >= 1
  {
    if |s| < 2 then [s]
    else if s[0] == '\r' && s[1] == '\n' then [""] + SplitCrlf(s[2..])
    else var r := SplitCrlf(s[1..]); [[s[0]] + r[0]] + r[1..]
  }

  lemma {:induction false} SplitNoLf(a: string)
    requires '\n' !in a
    ensures SplitCrlf(a) == [a]
    decreases |a|
  {
    if |a| >= 2 {
      assert a[1] in a;
      assert forall c :: c in a[1..] ==> c in a;
      SplitNoLf(a[1..]);
      assert [a[0]] + a[1..] == a;
    }
  }

  lemma {:induction false} SplitAfterLine(a: string, t: string)
    requires '\n' !in a
    ensures SplitCrlf(a + Crlf + t) == [a] + SplitCrlf(t)
    decreases |a|
  {
    var s := a + Crlf + t;
    if a == [] {
      assert s[2..] == t;
    } else {
      assert s[1..] == a[1..] + Crlf + t;
      assert s[1] != '\n' by {
        if |a| >= 2 { assert s[1] == a[1]; assert a[1] in a; } else { assert s[1] == '\r'; }
      }
      assert forall c :: c in a[1..] ==> c in a;
      SplitAfterLine(a[1..], t);
      assert s[0] == a[0] && [a[0]] + a[1..] == a;
    }
  }

  /** No line of the list holds a line feed. */
  predicate NoLf(lines: seq<string>)
  {
    forall i :: 0 <= i < |lines| ==> '\n' !in lines[i]
  }

  /** Concatenation regrouped. */
  lemma Associative<T>(a: seq<T>, b: seq<T>, c: seq<T>)
    ensures (a + b) + c == a + (b + c)
  {
  }

  lemma NoLfAppend(a: seq<string>, b: seq<string>)
    requires NoLf(a) && NoLf(b)
    ensures NoLf(a + b)
  {
    forall i | 0 <= i < |a + b| ensures '\n' !in (a + b)[i] {
      if i < |a| { assert (a + b)[i] == a[i]; } else { assert (a + b)[i] == b[i - |a|]; }
    }
  }

  /**
   * Joining lines that hold no LF with CR LF and cutting the result at CR LF
   * gives the lines back: the document's line structure is exactly the list it was built from.
   */
  lemma {:induction false} SplitJoin(lines: seq<string>)
    requires |lines| >= 1 && NoLf(lines)
    ensures SplitCrlf(Join(lines, Crlf)) == lines
    decreases |lines|
  {
    if |lines| == 1 {
      SplitNoLf(lines[0]);
    } else {
      SplitAfterLine(lines[0], Join(lines[1..], Crlf));
      SplitJoin(lines[1..]);
    }
  }

  /** The joined text begins with the first line followed by the separator. */
  lemma JoinStart(lines: seq<string>, sep: string)
    requires |lines| >= 2
    ensures Join(lines, sep) == lines[0] + sep + Join(lines[1..], sep)
  {
  }

  /** The joined text ends with the last line. */
  lemma {:induction false} JoinEnd(lines: seq<string>, sep: string)
    requires |lines| >= 1
    ensures var j := Join(lines, sep); var l := lines[|lines| - 1];
      |l| <= |j| && j[|j| - |l|..] == l
    decreases |lines|
  {
    if |lines| > 1 {
      JoinEnd(lines[1..], sep);
      var j := Join(lines, sep);
      var rest := Join(lines[1..], sep);
      assert j == lines[0] + sep + rest;
      var l := lines[|lines| - 1];
      assert lines[1..][|lines[1..]| - 1] == l;
      assert j[|j| - |l|..] == rest[|rest| - |l|..];
    }
  }
}
