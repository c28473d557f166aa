/** The integer conversions of Go's strconv package that the tool calls:
    ParseInt(s, 16, 64) on map addresses, Atoi on directory names (ParseInt in
    base 10 with 64-bit range), and Itoa / FormatInt to build a process's path. */
module Numbers {
  import opened Base

  /** The bases the tool converts in. */
  type Radix = b: int | b == 10 || b == 16 witness 10

  /** A byte strconv may read as a digit: '0'-'9', 'A'-'Z' or 'a'-'z'. */
  predicate IsAlnum(c: Byte) {
    48 <= c <= 57 || 65 <= c <= 90 || 97 <= c <= 122
  }

  /** strconv's digit value: '0'-'9' are 0-9 and letters of either case 10-35. */
  function DigitValue(c: Byte): (d: nat)
    requires IsAlnum(c)
    ensures d < 36
  {
    if c <= 57 then c as int - 48
    else if c <= 90 then c as int - 65 + 10
    else c as int - 97 + 10
  }

  predicate IsDigitOf(c: Byte, base: Radix) {
    IsAlnum(c) && DigitValue(c) < base
  }

  predicate AllDigitsOf(ds: Bytes, base: Radix) {
    forall k :: 0 <= k < |ds| ==> IsDigitOf(ds[k], base)
  }

  /** The value of a digit string, most significant digit first. */
  function Magnitude(ds: Bytes, base: Radix): nat
    requires AllDigitsOf(ds, base)
  {
    if ds == [] then 0
    else Magnitude(ds[..|ds| - 1], base) * base + DigitValue(ds[|ds| - 1])
  }

  /** strconv.ParseInt(s, base, 64): an optional '+' or '-', then one or more
      digits of the base, and a value that fits in 64 bits; anything else is an
      error (a syntax or a range error, which the tool treats alike). */
  function ParseInt(s: Bytes, base: Radix): (r: Result<Int64>)
    ensures s != [] && AllDigitsOf(s, base) ==>
              (r.Ok? <==> Magnitude(s, base) <= MaxInt64) &&
              (r.Ok? ==> r.value == Magnitude(s, base))
    ensures r.Ok? ==> s != [] && (r.value < 0 ==> s[0] == Minus)
    ensures r.Err? ==> r.failure == BadNumber
  {
    if s == [] then Err(BadNumber)
    else
      var neg := s[0] == Minus;
      var ds := if s[0] == Plus || neg then s[1..] else s;
      if ds == [] || !AllDigitsOf(ds, base) then Err(BadNumber)
      else
        var m: int := Magnitude(ds, base);
        if (!neg && m > MaxInt64) || (neg && m > -MinInt64) then Err(BadNumber)
        else Ok(if neg then -m else m)
  }

  /** A byte that is not a digit of the base makes the string unparsable,
      wherever it stands, unless it is a sign in the first position. */
  lemma ParseIntNonDigit(s: Bytes, base: Radix, k: nat)
    requires k < |s| && !IsDigitOf(s[k], base)
    requires k == 0 ==> s[0] != Plus && s[0] != Minus
    ensures ParseInt(s, base) == Err(BadNumber)
  {
    var ds := if s[0] == Plus || s[0] == Minus then s[1..] else s;
    assert ds[|ds| - |s| + k] == s[k];
  }

  /** The digit strconv writes for a value below 36 (letters in lower case). */
  function DigitByte(d: nat): (c: Byte)
    requires d < 36
    ensures IsAlnum(c) && DigitValue(c) == d
  {
    if d < 10 then (48 + d) as Byte else (87 + d) as Byte
  }

  /** The shortest digit string of `n`. */
  function Digits(n: nat, base: Radix): (ds: Bytes)
    ensures ds != [] && AllDigitsOf(ds, base) && Magnitude(ds, base) == n
    decreases n
  {
    if n < base then [DigitByte(n)]
    else
      var high := Digits(n / base, base);
      var ds := high + [DigitByte(n % base)];
      assert ds[..|ds| - 1] == high;
      ds
  }

  /** strconv.FormatInt(v, base), and strconv.Itoa(v) when `base` is 10. */
  function FormatInt(v: Int64, base: Radix): (s: Bytes)
    ensures s != [] && (s[0] == Minus <==> v < 0)
  {
    if v < 0 then [Minus] + Digits(-(v as int), base) else Digits(v, base)
  }

  /** Parsing undoes formatting, for every 64-bit value. */
  lemma ParseFormat(v: Int64, base: Radix)
    ensures ParseInt(FormatInt(v, base), base) == Ok(v)
  {
    var s := FormatInt(v, base);
    if v < 0 {
      assert s[1..] == Digits(-(v as int), base);
    }
  }

  /** `k` zero digits. */
  function Zeros(k: nat): (z: Bytes)
    ensures |z| == k && forall i :: 0 <= i < k ==> z[i] == Zero
  {
    if k == 0 then [] else [Zero] + Zeros(k - 1)
  }

  /** A leading zero digit does not change the value. */
  lemma {:induction false} MagnitudeLeadingZero(ds: Bytes, base: Radix)
    requires AllDigitsOf(ds, base)
    ensures AllDigitsOf([Zero] + ds, base)
    ensures Magnitude([Zero] + ds, base) == Magnitude(ds, base)
    decreases |ds|
  {
    var z := [Zero] + ds;
    if ds == [] {
      assert z[..0] == [];
    } else {
      assert z[..|z| - 1] == [Zero] + ds[..|ds| - 1];
      MagnitudeLeadingZero(ds[..|ds| - 1], base);
    }
  }

  /** Any number of leading zero digits does not change the value. */
  lemma {:induction false} MagnitudeLeadingZeros(k: nat, ds: Bytes, base: Radix)
    requires AllDigitsOf(ds, base)
    ensures AllDigitsOf(Zeros(k) + ds, base)
    ensures Magnitude(Zeros(k) + ds, base) == Magnitude(ds, base)
    decreases k
  {
    if k > 0 {
      var rest := Zeros(k - 1) + ds;
      MagnitudeLeadingZeros(k - 1, ds, base);
      MagnitudeLeadingZero(rest, base);
      assert Zeros(k) + ds == [Zero] + rest;
    } else {
      assert Zeros(k) + ds == ds;
    }
  }

  /** Leading zeros do not change what an unsigned digit string parses to. */
  lemma ParseLeadingZeros(k: nat, ds: Bytes, base: Radix)
    requires ds != [] && AllDigitsOf(ds, base)
    ensures ParseInt(Zeros(k) + ds, base) == ParseInt(ds, base)
  {
    MagnitudeLeadingZeros(k, ds, base);
  }
}
