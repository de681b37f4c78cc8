/** The parts of the kernel's `snprintf` that the show path uses: the `%d`
    conversion of an `int`, and the write of a formatted record into a
    buffer at a given offset with a size limit. */
module Vsprintf {
  import opened Kernel
  import Kstrtox

  /** The ASCII digit for `k`. */
  function Digit(k: nat): (c: Byte)
    requires k < 10
    ensures '0' <= c <= '9' && Kstrtox.DigitValue(c) == k
  {
    ('0' as int + k) as char
  }

  /** The decimal digits of `n`, without leading zeros. */
  function NatDigits(n: nat): (r: seq<Byte>)
    ensures r != [] && Kstrtox.AllDigits(r, 10)
    ensures r[0] != '0' || n == 0
    decreases n
  {
    if n < 10 then [Digit(n)] else NatDigits(n / 10) + [Digit(n % 10)]
  }

  /** `%d`: a minus sign for a negative value, then the decimal digits. */
  function DecimalString(v: int): seq<Byte>
  {
    if v < 0 then ['-'] + NatDigits(-v) else NatDigits(v)
  }

  /** The digits `%d` prints read back as the number printed. */
  lemma {:induction false} NatDigitsValue(n: nat)
    ensures Kstrtox.ValueOf(NatDigits(n), 10) == n
    decreases n
  {
    var r := NatDigits(n);
    if n >= 10 {
      NatDigitsValue(n / 10);
      assert r[..|r| - 1] == NatDigits(n / 10);
    }
  }

  /** Reading what `%d` printed with `kstrtoint(s, 10, &res)` gives back the
      printed `int`. */
  lemma DecimalRoundTrip(v: Int32)
    ensures Kstrtox.Kstrtoint(DecimalString(v), 10) == Ok(v)
  {
    var s := DecimalString(v);
    DecimalIsNumeral(v);
    Kstrtox.KstrtointSpec(s, 10);
  }

  /** What `%d` prints is a decimal numeral for the printed value. */
  lemma DecimalIsNumeral(v: int)
    ensures IsCString(DecimalString(v))
    ensures Kstrtox.IsNumeral(DecimalString(v), 10)
    ensures Kstrtox.NumeralValue(DecimalString(v), 10) == v
  {
    var s := DecimalString(v);
    var a: nat := if v < 0 then -v else v;
    var m := NatDigits(a);
    NatDigitsValue(a);
    assert m[|m| - 1] != '\n';
    if v < 0 {
      assert s == ['-'] + m;
      assert s[|s| - 1] == m[|m| - 1];
      assert s[1..] == m;
    }
    assert Kstrtox.StripNewline(s) == s;
    assert Kstrtox.Magnitude(s) == m;
    assert forall i :: 0 <= i < |s| ==> s[i] != NUL;
  }

  function Min(a: nat, b: nat): nat
  {
    if a < b then a else b
  }

  /** `snprintf(&buf[off], size, ...)` once the record is formatted as
      `text`: at most `size - 1` bytes of it are written at `off`, followed
      by a NUL, and the full length of `text` is returned whether or not it
      was cut. Only the bytes written have to lie inside `buf`. */
  method Snprintf(buf: array<Byte>, off: nat, size: nat, text: seq<Byte>) returns (n: nat)
    requires size > 0
    requires off + Min(|text|, size - 1) < buf.Length
    modifies buf
    ensures n == |text|
    ensures var w := Min(|text|, size - 1);
      buf[..] == old(buf[..])[..off] + text[..w] + [NUL] + old(buf[..])[off + w + 1..]
  {
    var w := Min(|text|, size - 1);
    var i := 0;
    while i < w
      invariant 0 <= i <= w
      invariant forall k :: 0 <= k < buf.Length ==>
                  buf[k] == (if off <= k < off + i then text[k - off] else old(buf[k]))
    {
      buf[off + i] := text[i];
      i := i + 1;
    }
    buf[off + w] := NUL;
    n := |text|;
    ghost var want := old(buf[..])[..off] + text[..w] + [NUL] + old(buf[..])[off + w + 1..];
    assert |want| == buf.Length;
    forall k | 0 <= k < buf.Length
      ensures buf[k] == want[k]
    {
      if k < off {
      } else if k < off + w {
        assert want[k] == text[k - off];
      } else if k > off + w {
        assert want[k] == old(buf[..])[k];
      }
    }
    assert buf[..] == want;
  }
}
