/** The few PHP and SQL building blocks the quiz application leans on:
    an Option type, the WHERE-style filter over a table, `intval` / `(int)`
    over decimal strings, the decimal rendering `intval($x)` produces inside
    HTML attributes, `trim`, and PHP's `empty()` on strings. */
module Php {

  datatype Option<+T> = None | Some(value: T)

  /** The elements of `s` that satisfy `keep`, in their original order. */
  function Filter<T(!new)>(s: seq<T>, keep: T -> bool): (r: seq<T>)
    ensures |r| <= |s|
    ensures forall x :: x in r <==> x in s && keep(x)
  {
    if s == [] then []
    else (if keep(s[0]) then [s[0]] else []) + Filter(s[1..], keep)
  }

  lemma {:induction false} FilterAppend<T(!new)>(a: seq<T>, b: seq<T>, keep: T -> bool)
    ensures Filter(a + b, keep) == Filter(a, keep) + Filter(b, keep)
  {
    if a == [] {
      assert a + b == b;
    } else {
      assert (a + b)[1..] == a[1..] + b;
      FilterAppend(a[1..], b, keep);
    }
  }

  /** Filtering a sequence none of whose elements is kept gives the empty sequence. */
  lemma FilterNone<T(!new)>(s: seq<T>, keep: T -> bool)
    requires forall x :: x in s ==> !keep(x)
    ensures Filter(s, keep) == []
  {
    if Filter(s, keep) != [] {
      assert Filter(s, keep)[0] in Filter(s, keep);
    }
  }

  /** Filtering a sequence all of whose elements are kept changes nothing. */
  lemma {:induction false} FilterAll<T(!new)>(s: seq<T>, keep: T -> bool)
    requires forall x :: x in s ==> keep(x)
    ensures Filter(s, keep) == s
  {
    if s != [] {
      assert s[0] in s;
      FilterAll(s[1..], keep);
      assert [s[0]] + s[1..] == s;
    }
  }

  // ---------------------------------------------------------------------
  // Decimal integers: `intval` / `(int)` and their rendering
  // ---------------------------------------------------------------------

  predicate IsDigit(c: char) { '0' <= c <= '9' }

  /** The characters `intval` skips before the number: space, \t, \n, \r, \v, \f. */
  predicate IsLeadingSpace(c: char) {
    c == ' ' || c == '\t' || c == '\n' || c == '\r' || c == '\U{0B}' || c == '\U{0C}'
  }

  function DigitValue(c: char): (d: nat)
    requires IsDigit(c)
    ensures d < 10
  {
    (c as int) - ('0' as int)
  }

  function DigitChar(d: nat): (c: char)
    requires d < 10
    ensures IsDigit(c) && DigitValue(c) == d
  {
    (('0' as int) + d) as char
  }

  predicate AllDigits(s: string) { forall i :: 0 <= i < |s| ==> IsDigit(s[i]) }

  /** The number a string of decimal digits denotes, read from the left. */
  function DigitsValue(ds: string): nat
    requires AllDigits(ds)
  {
    if ds == [] then 0 else 10 * DigitsValue(ds[..|ds| - 1]) + DigitValue(ds[|ds| - 1])
  }

  /** The longest prefix of `s` made of digits. */
  function LeadingDigits(s: string): (r: string)
    ensures r <= s && AllDigits(r)
    ensures |r| < |s| ==> !IsDigit(s[|r|])
  {
    if s != [] && IsDigit(s[0]) then [s[0]] + LeadingDigits(s[1..]) else []
  }

  /** `s` without its leading blanks. */
  function SkipLeadingSpace(s: string): (r: string)
    ensures |r| <= |s| && r == s[|s| - |r|..]
    ensures r == [] || !IsLeadingSpace(r[0])
  {
    if s != [] && IsLeadingSpace(s[0]) then SkipLeadingSpace(s[1..]) else s
  }

  /** PHP's `intval($s)` (and `(int)$s`) on plain decimal input: leading
      blanks, an optional sign, then the longest run of decimal digits; 0
      when there are no digits. Exponents, fractions and saturation at
      `PHP_INT_MAX` are not modelled. */
  function IntVal(s: string): int
  {
    var u := SkipLeadingSpace(s);
    if u != [] && u[0] == '-' then 0 - DigitsValue(LeadingDigits(u[1..]))
    else if u != [] && u[0] == '+' then DigitsValue(LeadingDigits(u[1..]))
    else DigitsValue(LeadingDigits(u))
  }

  /** The decimal digits of `n`, most significant first, without leading zeros. */
  function Digits(n: nat): (r: string)
    ensures |r| >= 1 && AllDigits(r)
  {
    if n < 10 then [DigitChar(n)] else Digits(n / 10) + [DigitChar(n % 10)]
  }

  /** How PHP prints an integer (as `<?= intval($x) ?>` does into a form field). */
  function Decimal(n: int): (r: string)
    ensures r != [] && (r[0] == '-' || IsDigit(r[0]))
  {
    if n < 0 then "-" + Digits(-n) else Digits(n)
  }

  lemma {:induction false} DigitsValueOfDigits(n: nat)
    ensures DigitsValue(Digits(n)) == n
  {
    if n >= 10 {
      DigitsValueOfDigits(n / 10);
      var ds := Digits(n);
      assert ds[..|ds| - 1] == Digits(n / 10);
    }
  }

  lemma {:induction false} LeadingDigitsOfDigits(s: string)
    requires AllDigits(s)
    ensures LeadingDigits(s) == s
  {
    if s != [] {
      LeadingDigitsOfDigits(s[1..]);
    }
  }

  /** Reading back a printed integer gives the integer: `intval` inverts the
      rendering the take-quiz form uses for pair ids. */
  lemma IntValOfDecimal(n: int)
    ensures IntVal(Decimal(n)) == n
  {
    var s := Decimal(n);
    assert !IsLeadingSpace(s[0]);
    assert SkipLeadingSpace(s) == s;
    if n < 0 {
      var ds := Digits(-n);
      assert s == "-" + ds;
      assert s[1..] == ds;
      LeadingDigitsOfDigits(ds);
      DigitsValueOfDigits(-n);
      assert IntVal(s) == 0 - DigitsValue(ds);
    } else {
      assert s == Digits(n);
      assert IsDigit(s[0]);
      LeadingDigitsOfDigits(s);
      DigitsValueOfDigits(n);
      assert IntVal(s) == DigitsValue(s);
    }
  }

  // ---------------------------------------------------------------------
  // trim() and empty()
  // ---------------------------------------------------------------------

  /** The characters PHP's `trim` strips by default: space, \t, \n, \r, \0, \v. */
  predicate IsTrimmed(c: char) {
    c == ' ' || c == '\t' || c == '\n' || c == '\r' || c == '\0' || c == '\U{0B}'
  }

  predicate AllTrimmed(s: string) { forall i :: 0 <= i < |s| ==> IsTrimmed(s[i]) }

  /** PHP's `trim($s)`: `s` without its leading and trailing blanks; empty
      exactly when `s` is made of blanks only, and `s` itself when neither
      end is a blank. */
  function Trim(s: string): (r: string)
    ensures r == [] || (!IsTrimmed(r[0]) && !IsTrimmed(r[|r| - 1]))
    ensures r == [] <==> AllTrimmed(s)
    ensures |r| <= |s|
    ensures s != [] && !IsTrimmed(s[0]) && !IsTrimmed(s[|s| - 1]) ==> r == s
  {
    if s == [] then s
    else if IsTrimmed(s[0]) then
      assert AllTrimmed(s) <==> AllTrimmed(s[1..]) by {
        assert forall i :: 1 <= i < |s| ==> s[i] == s[1..][i - 1];
      }
      Trim(s[1..])
    else if IsTrimmed(s[|s| - 1]) then
      assert !AllTrimmed(s) && !AllTrimmed(s[..|s| - 1]);
      Trim(s[..|s| - 1])
    else
      s
  }

  /** The bounds of the slice `trim` keeps: `Trim(s) == s[i..j]`, with only
      blanks before `i` and from `j` on. */
  lemma {:induction false} TrimBounds(s: string) returns (i: nat, j: nat)
    ensures i <= j <= |s| && Trim(s) == s[i..j]
    ensures AllTrimmed(s[..i]) && AllTrimmed(s[j..])
  {
    if s == [] {
      i, j := 0, 0;
    } else if IsTrimmed(s[0]) {
      var i', j' := TrimBounds(s[1..]);
      i, j := i' + 1, j' + 1;
      BoundsBehindBlank(s, i', j');
    } else if IsTrimmed(s[|s| - 1]) {
      i, j := TrimBounds(s[..|s| - 1]);
      BoundsBeforeBlank(s, i, j);
    } else {
      i, j := 0, |s|;
      assert s[..0] == [] && s[|s|..] == [];
    }
  }

  /** A leading blank shifts the bounds of the rest by one. */
  lemma BoundsBehindBlank(s: string, i: nat, j: nat)
    requires s != [] && IsTrimmed(s[0]) && i <= j <= |s| - 1
    requires Trim(s[1..]) == s[1..][i..j] && AllTrimmed(s[1..][..i]) && AllTrimmed(s[1..][j..])
    ensures Trim(s) == s[i + 1..j + 1] && AllTrimmed(s[..i + 1]) && AllTrimmed(s[j + 1..])
  {
    var t := s[1..];
    assert Trim(s) == Trim(t);
    assert t[i..j] == s[i + 1..j + 1];
    assert s[..i + 1] == [s[0]] + t[..i];
    assert s[j + 1..] == t[j..];
  }

  /** A trailing blank, after a non-blank first character, leaves the bounds
      of the rest in place. */
  lemma BoundsBeforeBlank(s: string, i: nat, j: nat)
    requires s != [] && !IsTrimmed(s[0]) && IsTrimmed(s[|s| - 1]) && i <= j <= |s| - 1
    requires var p := s[..|s| - 1]; Trim(p) == p[i..j] && AllTrimmed(p[..i]) && AllTrimmed(p[j..])
    ensures Trim(s) == s[i..j] && AllTrimmed(s[..i]) && AllTrimmed(s[j..])
  {
    var p := s[..|s| - 1];
    assert Trim(s) == Trim(p);
    assert p[i..j] == s[i..j];
    assert p[..i] == s[..i];
    assert s[j..] == p[j..] + [s[|s| - 1]];
  }

  /** `trim` removes a blank prefix and a blank suffix and nothing else: its
      result is a contiguous slice of the input. */
  lemma TrimIsInfix(s: string)
    ensures exists i, j :: 0 <= i <= j <= |s| && Trim(s) == s[i..j] && AllTrimmed(s[..i]) && AllTrimmed(s[j..])
  {
    var i, j := TrimBounds(s);
  }

  /** PHP's `empty($s)` on a string: true for "" and for "0". */
  predicate PhpEmpty(s: string) { s == "" || s == "0" }
}
