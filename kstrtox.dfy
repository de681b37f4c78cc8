/** The kernel's `kstrtoint(s, base, &res)`, layered as the kernel layers it:
    `ParseUnsigned` (`_kstrtoull`) reads the digits, `Kstrtoull` allows a
    leading `'+'`, `Kstrtoll` a leading `'-'` with the 64-bit range checks,
    and `Kstrtoint` narrows to 32 bits. Only the bases 2 and 10 are modelled.

    `IsNumeral` and `NumeralValue` are an independent description of the
    accepted text (an optional sign, digits of the base, an optional final
    newline), and `KstrtointSpec` proves that the parser agrees with it. */
module Kstrtox {
  import opened Kernel

  /** `_parse_integer`'s digit test: a byte whose value is below `base`.
      Letters have the values 10 to 15 there, so for the bases 2 and 10 only
      `'0'` to `'9'` can qualify. */
  predicate IsDigitIn(c: Byte, base: nat)
  {
    '0' <= c <= '9' && (c as int) - ('0' as int) < base
  }

  function DigitValue(c: Byte): nat
    requires '0' <= c <= '9'
  {
    (c as int) - ('0' as int)
  }

  predicate AllDigits(d: seq<Byte>, base: nat)
  {
    forall i :: 0 <= i < |d| ==> IsDigitIn(d[i], base)
  }

  /** The value of the numeral `d`, most significant digit first. */
  function ValueOf(d: seq<Byte>, base: nat): nat
    requires AllDigits(d, base)
    decreases |d|
  {
    if d == [] then 0 else ValueOf(d[..|d| - 1], base) * base + DigitValue(d[|d| - 1])
  }

  /** The length of the run of digits that starts `s`: `_parse_integer`
      stops at the first byte that is not a digit of the base. */
  function DigitRun(s: seq<Byte>, base: nat): (n: nat)
    ensures n <= |s| && AllDigits(s[..n], base)
    ensures n < |s| ==> !IsDigitIn(s[n], base)
    decreases |s|
  {
    if s == [] || !IsDigitIn(s[0], base) then 0
    else
      var m := DigitRun(s[1..], base);
      assert s[..m + 1] == [s[0]] + s[1..][..m];
      1 + m
  }

  /** `_kstrtoull(s, base, &res)`: a value that does not fit in 64 bits is
      `-ERANGE`, even when bytes that are not digits follow it; no digit at
      all is `-EINVAL`; after the digits one newline may follow, then the
      string must end. */
  function ParseUnsigned(s: seq<Byte>, base: nat): Result<nat>
  {
    var n := DigitRun(s, base);
    var v := ValueOf(s[..n], base);
    if v > U64_MAX then Err(ERANGE)
    else if n == 0 then Err(EINVAL)
    else if s[n..] != [] && s[n..] != ['\n'] then Err(EINVAL)
    else Ok(v)
  }

  /** `kstrtoull`: skips one leading `'+'`. */
  function Kstrtoull(s: seq<Byte>, base: nat): Result<nat>
  {
    if s != [] && s[0] == '+' then ParseUnsigned(s[1..], base) else ParseUnsigned(s, base)
  }

  /** `kstrtoll`: a leading `'-'` negates the unsigned value and is answered
      with `-ERANGE` below `LLONG_MIN`; otherwise the value must be at most
      `LLONG_MAX`. */
  function Kstrtoll(s: seq<Byte>, base: nat): Result<int>
  {
    if s != [] && s[0] == '-' then
      match ParseUnsigned(s[1..], base)
      case Err(e) => Err(e)
      case Ok(t) => if t > -S64_MIN then Err(ERANGE) else Ok(-(t as int))
    else
      match Kstrtoull(s, base)
      case Err(e) => Err(e)
      case Ok(t) => if t > S64_MAX then Err(ERANGE) else Ok(t)
  }

  /** `kstrtoint`: the `long long` result must also fit in an `int`. */
  function Kstrtoint(s: seq<Byte>, base: nat): Result<Int32>
    requires IsCString(s)
    requires base == 2 || base == 10
  {
    match Kstrtoll(s, base)
    case Err(e) => Err(e)
    case Ok(x) => if InS32(x) then Ok(x) else Err(ERANGE)
  }

  function StripNewline(s: seq<Byte>): seq<Byte>
  {
    if s != [] && s[|s| - 1] == '\n' then s[..|s| - 1] else s
  }

  predicate IsSign(c: Byte)
  {
    c == '+' || c == '-'
  }

  /** The text after an optional sign, without an optional final newline. */
  function Magnitude(s: seq<Byte>): seq<Byte>
  {
    var b := StripNewline(s);
    if b != [] && IsSign(b[0]) then b[1..] else b
  }

  /** `s` is an optional sign, at least one digit of `base`, and an
      optional newline. */
  predicate IsNumeral(s: seq<Byte>, base: nat)
  {
    var m := Magnitude(s);
    m != [] && AllDigits(m, base)
  }

  /** The number a numeral stands for. */
  function NumeralValue(s: seq<Byte>, base: nat): int
    requires IsNumeral(s, base)
  {
    var v: int := ValueOf(Magnitude(s), base);
    if s[0] == '-' then -v else v
  }

  /** Digits of the base, then optionally a newline. */
  predicate IsUnsignedNumeral(s: seq<Byte>, base: nat)
  {
    var d := StripNewline(s);
    d != [] && AllDigits(d, base)
  }

  /** The text `_kstrtoull` reads once `kstrtoll` and `kstrtoull` have
      skipped an optional sign. */
  function Unsigned(s: seq<Byte>): seq<Byte>
  {
    if s != [] && IsSign(s[0]) then s[1..] else s
  }

  /** The run of digits that starts `s` has a value beyond 64 bits. */
  predicate DigitsOverflow(s: seq<Byte>, base: nat)
  {
    ValueOf(s[..DigitRun(s, base)], base) > U64_MAX
  }

  /** `_kstrtoull` accepts exactly the unsigned numerals that fit in 64 bits
      and returns their value. It fails with `-ERANGE` exactly when the run
      of leading digits overflows, whatever follows it, and with `-EINVAL`
      otherwise. */
  lemma ParseUnsignedSpec(s: seq<Byte>, base: nat)
    requires base == 2 || base == 10
    ensures ParseUnsigned(s, base).Ok? <==>
              IsUnsignedNumeral(s, base) && ValueOf(StripNewline(s), base) <= U64_MAX
    ensures ParseUnsigned(s, base).Ok? ==> ParseUnsigned(s, base).value == ValueOf(StripNewline(s), base)
    ensures IsUnsignedNumeral(s, base) && ValueOf(StripNewline(s), base) > U64_MAX ==>
              ParseUnsigned(s, base) == Err(ERANGE)
    ensures ParseUnsigned(s, base).Err? ==>
              ParseUnsigned(s, base).error in {EINVAL, ERANGE}
              && (ParseUnsigned(s, base).error == ERANGE <==> DigitsOverflow(s, base))
  {
    var n := DigitRun(s, base);
    var d := StripNewline(s);
    if IsUnsignedNumeral(s, base) {
      assert s == d || s == d + ['\n'];
      assert n == |d|;
      assert s[..n] == d;
      assert s[n..] == [] || s[n..] == ['\n'];
    }
    if ParseUnsigned(s, base).Ok? {
      if s[n..] == [] {
        assert s == s[..n];
        assert IsDigitIn(s[..n][n - 1], base);
      } else {
        assert s == s[..n] + ['\n'];
      }
      assert d == s[..n];
    }
  }

  /** Removing a final newline does not touch a first byte that is not one. */
  lemma StripNewlineCons(c: Byte, t: seq<Byte>)
    requires c != '\n'
    ensures StripNewline([c] + t) == [c] + StripNewline(t)
  {
    if t != [] {
      assert ([c] + t)[|t|] == t[|t| - 1];
      if t[|t| - 1] == '\n' {
        assert ([c] + t)[..|t|] == [c] + t[..|t| - 1];
      }
    }
  }

  /** `kstrtoll` accepts exactly the numerals whose value fits in a
      `long long` and returns that value. It fails with `-ERANGE` exactly
      for a numeral out of range or a run of digits after the sign that
      overflows 64 bits, and with `-EINVAL` otherwise. */
  lemma KstrtollSpec(s: seq<Byte>, base: nat)
    requires base == 2 || base == 10
    ensures Kstrtoll(s, base).Ok? <==>
              IsNumeral(s, base) && S64_MIN <= NumeralValue(s, base) <= S64_MAX
    ensures Kstrtoll(s, base).Ok? ==> Kstrtoll(s, base).value == NumeralValue(s, base)
    ensures IsNumeral(s, base) && !(S64_MIN <= NumeralValue(s, base) <= S64_MAX) ==>
              Kstrtoll(s, base) == Err(ERANGE)
    ensures Kstrtoll(s, base).Err? ==> Kstrtoll(s, base).error in {EINVAL, ERANGE}
    ensures Kstrtoll(s, base).Err? ==>
              (Kstrtoll(s, base).error == ERANGE <==>
                 DigitsOverflow(Unsigned(s), base)
                 || (IsNumeral(s, base) && !(S64_MIN <= NumeralValue(s, base) <= S64_MAX)))
  {
    if s != [] && IsSign(s[0]) {
      SignedMagnitude(s);
      ParseUnsignedSpec(s[1..], base);
    } else {
      assert Magnitude(s) == StripNewline(s);
      ParseUnsignedSpec(s, base);
    }
  }

  /** After a sign, the magnitude is the rest, without its final newline. */
  lemma SignedMagnitude(s: seq<Byte>)
    requires s != [] && IsSign(s[0])
    ensures Magnitude(s) == StripNewline(s[1..])
  {
    assert s == [s[0]] + s[1..];
    StripNewlineCons(s[0], s[1..]);
  }

  /** `kstrtoint` accepts exactly the numerals whose value fits in an `int`
      and returns that value. It fails with `-ERANGE` exactly for a numeral
      out of range or a run of digits after the sign that overflows 64
      bits, and with `-EINVAL` for every other string. */
  lemma KstrtointSpec(s: seq<Byte>, base: nat)
    requires IsCString(s)
    requires base == 2 || base == 10
    ensures IsNumeral(s, base) && InS32(NumeralValue(s, base)) ==>
              Kstrtoint(s, base) == Ok(NumeralValue(s, base))
    ensures IsNumeral(s, base) && !InS32(NumeralValue(s, base)) ==> Kstrtoint(s, base) == Err(ERANGE)
    ensures !IsNumeral(s, base) ==> Kstrtoint(s, base).Err?
    ensures Kstrtoint(s, base).Err? ==> Kstrtoint(s, base).error in {EINVAL, ERANGE}
    ensures Kstrtoint(s, base).Err? ==>
              (Kstrtoint(s, base).error == ERANGE <==>
                 DigitsOverflow(Unsigned(s), base)
                 || (IsNumeral(s, base) && !InS32(NumeralValue(s, base))))
  {
    KstrtollSpec(s, base);
  }

  /** Text that starts with neither a sign nor a digit of the base is
      rejected with `-EINVAL`. */
  lemma NoDigitRejected(s: seq<Byte>, base: nat)
    requires IsCString(s)
    requires base == 2 || base == 10
    requires s != [] && !IsSign(s[0]) && !IsDigitIn(s[0], base)
    ensures Kstrtoint(s, base) == Err(EINVAL)
  {
    assert DigitRun(s, base) == 0;
    assert s[..0] == [];
    assert ParseUnsigned(s, base) == Err(EINVAL);
  }
}
