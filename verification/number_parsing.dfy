/** The part of `int.Parse` (default `NumberStyles.Integer`, invariant signs)
    that the entry sequence number goes through: optional white space,
    an optional sign, decimal digits, optional white space, and a 32-bit range. */
module NumberParsing {
  import opened Wrappers

  const Int32Min: int := -0x8000_0000
  const Int32Max: int := 0x7FFF_FFFF

  /** `FormatException` and `OverflowException`. */
  datatype ParseError = FormatError | OverflowError

  predicate IsDigit(c: char) { '0' <= c <= '9' }

  /** The white space `int.Parse` skips: U+0009 to U+000D and the space. */
  predicate IsWhite(c: char) { c == ' ' || '\t' <= c <= '\r' }

  predicate AllDigits(s: string) { forall i :: 0 <= i < |s| ==> IsDigit(s[i]) }

  /** The value of a run of decimal digits, most significant first. */
  function DigitsValue(s: string): nat
    requires AllDigits(s)
  {
    if s == [] then 0 else DigitsValue(s[..|s| - 1]) * 10 + (s[|s| - 1] - '0') as int
  }

  /** `s` without its leading white space. */
  function TrimStart(s: string): (r: string)
    ensures |r| <= |s| && r == s[|s| - |r|..]
    ensures r == [] || !IsWhite(r[0])
  {
    if s != [] && IsWhite(s[0]) then TrimStart(s[1..]) else s
  }

  /** `s` without its trailing white space. */
  function TrimEnd(s: string): (r: string)
    ensures |r| <= |s| && r == s[..|r|]
    ensures r == [] || !IsWhite(r[|r| - 1])
  {
    if s != [] && IsWhite(s[|s| - 1]) then TrimEnd(s[..|s| - 1]) else s
  }

  /** An optional `-` or `+` followed by at least one decimal digit. */
  ghost predicate IsNumeral(t: string)
  {
    exists d :: d != [] && AllDigits(d) && (t == d || t == "-" + d || t == "+" + d)
  }

  /** `s[i..j]` is a numeral, with nothing but white space before and after it. */
  ghost predicate PaddedNumeral(s: string, i: int, j: int)
  {
    0 <= i <= j <= |s| &&
    (forall k :: 0 <= k < i ==> IsWhite(s[k])) &&
    (forall k :: j <= k < |s| ==> IsWhite(s[k])) &&
    IsNumeral(s[i..j])
  }

  /** `int.Parse(s)`: white space, an optional `-` or `+`, at least one digit,
      white space; a value outside the 32-bit range overflows. */
  function ParseInt32(s: string): (r: Result<int, ParseError>)
    ensures r.Success? ==> Int32Min <= r.value <= Int32Max
    ensures r.Success? ==> exists i :: 0 <= i < |s| && IsDigit(s[i])
  {
    var t := TrimEnd(TrimStart(s));
    var r := ParseSigned(t);
    if r.Success? then
      var i :| 0 <= i < |t| && IsDigit(t[i]);
      assert t[i] == s[|s| - |TrimStart(s)| + i];
      r
    else r
  }

  /** The text after an optional leading `-` or `+`. */
  function Unsigned(t: string): (r: string)
    ensures |r| <= |t| && r == t[|t| - |r|..]
  {
    if t != [] && (t[0] == '-' || t[0] == '+') then t[1..] else t
  }

  /** The trimmed text: an optional sign, then at least one digit. */
  function ParseSigned(t: string): (r: Result<int, ParseError>)
    ensures r.Success? ==> Int32Min <= r.value <= Int32Max
    ensures r.Success? ==> exists i :: 0 <= i < |t| && IsDigit(t[i])
  {
    var digits := Unsigned(t);
    if digits == [] || !AllDigits(digits) then Failure(FormatError)
    else
      var magnitude: int := DigitsValue(digits);
      var n: int := if t[0] == '-' then -magnitude else magnitude;
      if n < Int32Min || Int32Max < n then Failure(OverflowError)
      else
        assert IsDigit(t[|t| - |digits|]);
        Success(n)
  }

  /** The sign step fails with a format error exactly when the trimmed text
      is not a numeral. */
  lemma ParseSignedFormat(t: string)
    ensures ParseSigned(t) != Failure(FormatError) <==> IsNumeral(t)
  {
    NumeralUnsigned(t);
  }

  /** A text is a numeral exactly when what follows its sign is a non-empty
      run of digits. */
  lemma NumeralUnsigned(t: string)
    ensures IsNumeral(t) <==> Unsigned(t) != [] && AllDigits(Unsigned(t))
  {
    var u := Unsigned(t);
    if u != [] && AllDigits(u) {
      if t != [] && (t[0] == '-' || t[0] == '+') {
        assert t == [t[0]] + u;
      }
      assert u != [] && AllDigits(u) && (t == u || t == "-" + u || t == "+" + u);
    }
    if IsNumeral(t) {
      var d :| d != [] && AllDigits(d) && (t == d || t == "-" + d || t == "+" + d);
      if t == d {
        assert IsDigit(t[0]);
        assert u == d;
      } else {
        assert t[1..] == d;
      }
    }
  }

  /** A numeral starts and ends with a character that is not white space. */
  lemma NumeralEnds(t: string)
    requires IsNumeral(t)
    ensures t != [] && !IsWhite(t[0]) && IsDigit(t[|t| - 1])
  {
    var d :| d != [] && AllDigits(d) && (t == d || t == "-" + d || t == "+" + d);
    assert t[|t| - 1] == d[|d| - 1];
  }

  /** Trimming removes only white space from the front. */
  lemma {:induction false} TrimStartWhite(s: string)
    ensures forall i :: 0 <= i < |s| - |TrimStart(s)| ==> IsWhite(s[i])
  {
    if s != [] && IsWhite(s[0]) {
      TrimStartWhite(s[1..]);
      forall i | 1 <= i < |s| - |TrimStart(s)|
        ensures IsWhite(s[i])
      {
        assert s[i] == s[1..][i - 1];
      }
    }
  }

  /** Trimming removes only white space from the back. */
  lemma {:induction false} TrimEndWhite(s: string)
    ensures forall i :: |TrimEnd(s)| <= i < |s| ==> IsWhite(s[i])
  {
    if s != [] && IsWhite(s[|s| - 1]) {
      TrimEndWhite(s[..|s| - 1]);
      forall i | |TrimEnd(s)| <= i < |s| - 1
        ensures IsWhite(s[i])
      {
        assert s[i] == s[..|s| - 1][i];
      }
    }
  }

  /** Trimming stops at the first character that is not white space. */
  lemma {:induction false} TrimStartAt(s: string, i: int)
    requires 0 <= i < |s| && !IsWhite(s[i])
    requires forall k :: 0 <= k < i ==> IsWhite(s[k])
    ensures TrimStart(s) == s[i..]
  {
    if i > 0 {
      TrimStartAt(s[1..], i - 1);
      assert s[1..][i - 1..] == s[i..];
    }
  }

  /** Trimming stops at the last character that is not white space. */
  lemma {:induction false} TrimEndAt(s: string, j: int)
    requires 0 < j <= |s| && !IsWhite(s[j - 1])
    requires forall k :: j <= k < |s| ==> IsWhite(s[k])
    ensures TrimEnd(s) == s[..j]
  {
    if j < |s| {
      TrimEndAt(s[..|s| - 1], j);
      assert s[..|s| - 1][..j] == s[..j];
    }
  }

  /** `int.Parse` throws a `FormatException` exactly when the text is not a
      numeral padded with white space; every other text parses or overflows. */
  lemma ParseInt32Format(s: string)
    ensures ParseInt32(s) != Failure(FormatError) <==> exists i, j :: PaddedNumeral(s, i, j)
  {
    ParseSignedFormat(TrimEnd(TrimStart(s)));
    TrimmedNumeral(s);
  }

  /** The trimmed text is a numeral exactly when the text is a numeral padded
      with white space. */
  lemma TrimmedNumeral(s: string)
    ensures IsNumeral(TrimEnd(TrimStart(s))) <==> exists i, j :: PaddedNumeral(s, i, j)
  {
    var t := TrimEnd(TrimStart(s));
    if IsNumeral(t) {
      var i, j := TrimmedBounds(s);
      assert PaddedNumeral(s, i, j);
    }
    if exists i, j :: PaddedNumeral(s, i, j) {
      var i, j :| PaddedNumeral(s, i, j);
      var v := s[i..j];
      NumeralEnds(v);
      assert s[i] == v[0] && s[j - 1] == v[|v| - 1];
      TrimmedAt(s, i, j);
    }
  }

  /** Where the trimmed text sits in the text: white space before and after it. */
  lemma TrimmedBounds(s: string) returns (i: int, j: int)
    ensures 0 <= i <= j <= |s| && s[i..j] == TrimEnd(TrimStart(s))
    ensures forall k :: 0 <= k < i ==> IsWhite(s[k])
    ensures forall k :: j <= k < |s| ==> IsWhite(s[k])
  {
    var u := TrimStart(s);
    var t := TrimEnd(u);
    TrimStartWhite(s);
    TrimEndWhite(u);
    i := |s| - |u|;
    j := i + |t|;
    assert u == s[i..];
    forall k | j <= k < |s|
      ensures IsWhite(s[k])
    {
      assert s[k] == u[k - i];
    }
  }

  /** Trimming leaves exactly the part between leading and trailing white
      space when that part starts and ends with other characters. */
  lemma TrimmedAt(s: string, i: int, j: int)
    requires 0 <= i < j <= |s| && !IsWhite(s[i]) && !IsWhite(s[j - 1])
    requires forall k :: 0 <= k < i ==> IsWhite(s[k])
    requires forall k :: j <= k < |s| ==> IsWhite(s[k])
    ensures TrimEnd(TrimStart(s)) == s[i..j]
  {
    TrimStartAt(s, i);
    TrimEndOfSuffix(s, i, j);
  }

  /** The same for the back, on the text that trimming the front left. */
  lemma TrimEndOfSuffix(s: string, i: int, j: int)
    requires 0 <= i < j <= |s| && !IsWhite(s[j - 1])
    requires forall k :: j <= k < |s| ==> IsWhite(s[k])
    ensures TrimEnd(s[i..]) == s[i..j]
  {
    var u := s[i..];
    assert u[j - i - 1] == s[j - 1];
    forall k | j - i <= k < |u|
      ensures IsWhite(u[k])
    {
      assert u[k] == s[k + i];
    }
    TrimEndAt(u, j - i);
    SliceOfSuffix(s, i, j);
  }

  /** Taking a prefix of a suffix is taking a slice. */
  lemma SliceOfSuffix(s: string, i: int, j: int)
    requires 0 <= i <= j <= |s|
    ensures s[i..][..j - i] == s[i..j]
  {
  }

  /** The decimal digits of `n`, without leading zeros. */
  function ShowNat(n: nat): (r: string)
    ensures r != [] && AllDigits(r)
  {
    var last := ['0' + (n % 10) as char];
    if n < 10 then last else ShowNat(n / 10) + last
  }

  /** The decimal text of `n`, with a `-` in front of a negative number. */
  function Show(n: int): string
  {
    if n < 0 then "-" + ShowNat(-n) else ShowNat(n)
  }

  lemma {:induction false} DigitsValueShowNat(n: nat)
    ensures DigitsValue(ShowNat(n)) == n
  {
    var s := ShowNat(n);
    if n >= 10 {
      DigitsValueShowNat(n / 10);
      assert s[..|s| - 1] == ShowNat(n / 10);
    }
  }

  /** Trimming leaves a text alone when it neither starts nor ends with white space. */
  lemma Untrimmed(s: string)
    requires s != [] && !IsWhite(s[0]) && !IsWhite(s[|s| - 1])
    ensures TrimEnd(TrimStart(s)) == s
  {
    assert TrimStart(s) == s;
  }

  /** A text made of digits alone parses to its value, or overflows. */
  lemma ParseDigits(s: string)
    requires s != [] && AllDigits(s)
    ensures ParseInt32(s) == if DigitsValue(s) <= Int32Max then Success(DigitsValue(s)) else Failure(OverflowError)
  {
    assert !IsWhite(s[0]) && !IsWhite(s[|s| - 1]);
    Untrimmed(s);
    SignedPositive(s);
  }

  /** The sign step alone: digits without a sign give their value. */
  lemma SignedPositive(s: string)
    requires s != [] && AllDigits(s)
    ensures ParseSigned(s) == if DigitsValue(s) <= Int32Max then Success(DigitsValue(s)) else Failure(OverflowError)
  {
    assert IsDigit(s[0]);
  }

  /** A `-` followed by digits parses to minus their value, or overflows. */
  lemma ParseNegativeDigits(s: string)
    requires s != [] && AllDigits(s)
    ensures ParseInt32("-" + s) == if DigitsValue(s) <= -Int32Min then Success(0 - DigitsValue(s)) else Failure(OverflowError)
  {
    var t := "-" + s;
    assert t[|t| - 1] == s[|s| - 1];
    Untrimmed(t);
    SignedNegative(s);
  }

  /** The sign step alone: `-` and digits give minus their value. */
  lemma SignedNegative(s: string)
    requires s != [] && AllDigits(s)
    ensures ParseSigned("-" + s) == if DigitsValue(s) <= -Int32Min then Success(0 - DigitsValue(s)) else Failure(OverflowError)
  {
    assert ("-" + s)[1..] == s;
  }

  /** Round trip: every 32-bit integer written in decimal parses back to itself. */
  lemma ParseShow(n: int)
    requires Int32Min <= n <= Int32Max
    ensures ParseInt32(Show(n)) == Success(n)
  {
    if n < 0 {
      var m: nat := -n;
      var digits := ShowNat(m);
      assert Show(n) == "-" + digits;
      DigitsValueShowNat(m);
      ParseNegativeDigits(digits);
    } else {
      var digits := ShowNat(n);
      assert Show(n) == digits;
      DigitsValueShowNat(n);
      ParseDigits(digits);
    }
  }

  /** The text of an absent sequence number, "0", parses to 0. */
  lemma ParseZero()
    ensures ParseInt32("0") == Success(0)
  {
    var zero := ShowNat(0);
    assert zero == "0";
    DigitsValueShowNat(0);
    ParseDigits(zero);
  }
}
