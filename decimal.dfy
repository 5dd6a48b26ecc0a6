/**
 * Decimal text as the Java library reads and writes it: `Integer.toString`
 * and `Long.toString` on one side, `Integer.parseInt`, `Integer.valueOf` and
 * `Long.parseLong` on the other. The digits of a stream come in as bytes
 * cast to `char`, so only the ASCII digits `0`..`9` count as digits.
 */
module Decimal {
  import opened Bencode

  const MINUS: byte := '-' as int
  const PLUS: byte := '+' as int
  const ZERO: byte := '0' as int

  const INT_MIN: int := -0x8000_0000
  const INT_MAX: int := 0x7fff_ffff
  const LONG_MIN: int := -0x8000_0000_0000_0000
  const LONG_MAX: int := 0x7fff_ffff_ffff_ffff

  predicate IsDigit(b: byte)
  {
    '0' as int <= b <= '9' as int
  }

  predicate AllDigits(s: seq<byte>)
  {
    forall i :: 0 <= i < |s| ==> IsDigit(s[i])
  }

  /** The number a run of decimal digits denotes (leading zeros allowed). */
  function DigitsValue(s: seq<byte>): nat
    requires AllDigits(s)
    decreases |s|
  {
    if s == [] then 0 else DigitsValue(s[..|s| - 1]) * 10 + (s[|s| - 1] - ZERO)
  }

  /**
   * What Java's parsers accept, before the range check: an optional `-` or
   * `+` followed by at least one digit. Anything else is a
   * NumberFormatException, represented by None.
   */
  function SignedValue(s: seq<byte>): Option<int>
  {
    if |s| >= 2 && s[0] == MINUS && AllDigits(s[1..]) then Some(-(DigitsValue(s[1..]) as int))
    else if |s| >= 2 && s[0] == PLUS && AllDigits(s[1..]) then Some(DigitsValue(s[1..]))
    else if |s| >= 1 && AllDigits(s) then Some(DigitsValue(s))
    else None
  }

  /** `SignedValue` with the overflow check of a fixed-width parser. */
  function ParseInRange(s: seq<byte>, lo: int, hi: int): (r: Option<int>)
    ensures r.Some? ==> lo <= r.value <= hi
    ensures r.Some? <==> SignedValue(s).Some? && lo <= SignedValue(s).value <= hi
  {
    match SignedValue(s)
    case Some(n) => if lo <= n <= hi then Some(n) else None
    case None => None
  }

  /** `k` zero digits. */
  function Zeros(k: nat): seq<byte>
  {
    seq(k, _ => ZERO)
  }

  /**
   * The texts that spell `n` for Java's parsers: the canonical digits of
   * `|n|` after any number of zeros, preceded by nothing or `+` when `n` is
   * not negative, and by `-` when it is not positive.
   */
  ghost predicate Spells(s: seq<byte>, n: int)
  {
    exists k: nat ::
      || (n >= 0 && s == Zeros(k) + NaturalText(n))
      || (n >= 0 && s == [PLUS] + (Zeros(k) + NaturalText(n)))
      || (n <= 0 && s == [MINUS] + (Zeros(k) + NaturalText(-n)))
  }

  /** `Integer.parseInt(s)`, which is also what `Integer.valueOf(s)` unboxes to. */
  function ParseInt(s: seq<byte>): Option<int>
  {
    ParseInRange(s, INT_MIN, INT_MAX)
  }

  /** `Long.parseLong(s)`. */
  function ParseLong(s: seq<byte>): Option<int>
  {
    ParseInRange(s, LONG_MIN, LONG_MAX)
  }

  /** The digits of a natural number, most significant first. */
  function NaturalText(n: nat): seq<byte>
    decreases n
  {
    if n < 10 then [ZERO + n] else NaturalText(n / 10) + [ZERO + n % 10]
  }

  /** `Integer.toString(n)` / `Long.toString(n)`: the canonical decimal form. */
  function DecimalText(n: int): seq<byte>
  {
    if n < 0 then [MINUS] + NaturalText(-n) else NaturalText(n)
  }

  lemma {:induction false} NaturalTextDigits(n: nat)
    ensures |NaturalText(n)| >= 1 && AllDigits(NaturalText(n))
    ensures DigitsValue(NaturalText(n)) == n
    ensures NaturalText(n)[0] == ZERO <==> n == 0
    decreases n
  {
    if n >= 10 {
      NaturalTextDigits(n / 10);
      var s := NaturalText(n / 10);
      var t := s + [ZERO + n % 10];
      assert t[..|t| - 1] == s;
    }
  }

  /**
   * `DecimalText` is canonical: never empty, a `-` exactly for negative
   * numbers, then digits with no leading zero except for the number zero
   * itself; so it is never `-0` and never contains `:` or `e`.
   */
  lemma DecimalTextCanonical(n: int)
    ensures var t := DecimalText(n);
      && |t| >= 1
      && (t[0] == MINUS <==> n < 0)
      && (n >= 0 ==> AllDigits(t))
      && (n < 0 ==> |t| >= 2 && AllDigits(t[1..]) && t[1] != ZERO)
      && (t[0] == ZERO ==> t == [ZERO])
      && t != [MINUS, ZERO]
      && STRING_SPLIT !in t && END_MARK !in t
  {
    var t := DecimalText(n);
    if n < 0 {
      NaturalTextDigits(-n);
      assert t[1..] == NaturalText(-n);
    } else {
      NaturalTextDigits(n);
      if t[0] == ZERO {
        assert n == 0;
      }
    }
    assert forall i :: 0 <= i < |t| ==> t[i] == MINUS || IsDigit(t[i]);
  }

  /** Java's parsers read `DecimalText(n)` back as `n`. */
  lemma DecimalTextParses(n: int)
    ensures SignedValue(DecimalText(n)) == Some(n)
    ensures INT_MIN <= n <= INT_MAX ==> ParseInt(DecimalText(n)) == Some(n)
    ensures LONG_MIN <= n <= LONG_MAX ==> ParseLong(DecimalText(n)) == Some(n)
  {
    if n < 0 {
      NaturalTextDigits(-n);
      SignedDigits(NaturalText(-n));
    } else {
      NaturalTextDigits(n);
      SignedDigits(NaturalText(n));
    }
  }

  /** A run of digits with a nonzero lead is at least ten for every digit after the first. */
  lemma {:induction false} DigitsLeading(s: seq<byte>)
    requires |s| >= 1 && AllDigits(s) && s[0] != ZERO
    ensures DigitsValue(s) >= 1
    ensures |s| >= 2 ==> DigitsValue(s) >= 10
    decreases |s|
  {
    if |s| >= 2 {
      var init := s[..|s| - 1];
      assert init[0] == s[0];
      DigitsLeading(init);
    }
  }

  /** A digit run without a leading zero is the canonical text of its value. */
  lemma {:induction false} DigitsCanonical(s: seq<byte>)
    requires |s| >= 1 && AllDigits(s) && (s[0] == ZERO ==> |s| == 1)
    ensures NaturalText(DigitsValue(s)) == s
    decreases |s|
  {
    if |s| >= 2 {
      var init := s[..|s| - 1];
      assert init[0] == s[0];
      DigitsLeading(s);
      DigitsCanonical(init);
      assert s == init + [s[|s| - 1]];
    }
  }

  /**
   * Java's parsers accept non-canonical text too, but only of three shapes: a
   * leading `+`, a `-` followed by a zero, or a leading zero on a longer text;
   * any other text they accept is exactly the canonical text of its value.
   */
  lemma SignedValueCanonical(s: seq<byte>)
    requires SignedValue(s).Some?
    ensures || s == DecimalText(SignedValue(s).value)
            || s[0] == PLUS
            || (s[0] == MINUS && s[1] == ZERO)
            || (s[0] == ZERO && |s| > 1)
  {
    if s[0] == MINUS && s[1] != ZERO {
      DigitsCanonical(s[1..]);
      DigitsLeading(s[1..]);
      assert s == [MINUS] + s[1..];
    } else if s[0] != MINUS && s[0] != PLUS && (s[0] == ZERO ==> |s| == 1) {
      DigitsCanonical(s);
    }
  }

  /** Leading zeros do not change the value of a digit run. */
  lemma {:induction false} PaddedValue(k: nat, t: seq<byte>)
    requires AllDigits(t)
    ensures AllDigits(Zeros(k) + t) && DigitsValue(Zeros(k) + t) == DigitsValue(t)
    decreases |t|, k
  {
    var d := Zeros(k) + t;
    assert AllDigits(d) by {
      forall i | 0 <= i < |d|
        ensures IsDigit(d[i])
      {
        if i >= k {
          assert d[i] == t[i - k];
        }
      }
    }
    if t == [] {
      if k > 0 {
        assert d[..|d| - 1] == Zeros(k - 1) + [];
        PaddedValue(k - 1, []);
      }
    } else {
      var init := t[..|t| - 1];
      assert d[..|d| - 1] == Zeros(k) + init;
      PaddedValue(k, init);
    }
  }

  /** Dropping one leading zero keeps the value. */
  lemma DropZero(d: seq<byte>)
    requires |d| > 1 && AllDigits(d) && d[0] == ZERO
    ensures AllDigits(d[1..]) && DigitsValue(d) == DigitsValue(d[1..])
  {
    assert d == Zeros(1) + d[1..];
    PaddedValue(1, d[1..]);
  }

  /** One more zero in front. */
  lemma ZerosCons(j: nat, t: seq<byte>)
    ensures Zeros(j + 1) + t == [ZERO] + (Zeros(j) + t)
  {
    assert Zeros(j + 1) == [ZERO] + Zeros(j);
  }

  /** Every digit run is the canonical digits of its value after some zeros. */
  lemma {:induction false} StripZeros(d: seq<byte>) returns (k: nat)
    requires |d| >= 1 && AllDigits(d)
    ensures d == Zeros(k) + NaturalText(DigitsValue(d))
    decreases |d|
  {
    if d[0] == ZERO && |d| > 1 {
      DropZero(d);
      var j := StripZeros(d[1..]);
      ZerosCons(j, NaturalText(DigitsValue(d[1..])));
      assert d == [ZERO] + d[1..];
      k := j + 1;
    } else {
      DigitsCanonical(d);
      k := 0;
      assert Zeros(0) + d == d;
    }
  }

  /** A text a parser accepts spells its value. */
  lemma {:induction false} SignedValueSpells(s: seq<byte>)
    requires SignedValue(s).Some?
    ensures Spells(s, SignedValue(s).value)
  {
    var n := SignedValue(s).value;
    if s[0] == MINUS {
      var k := StripZeros(s[1..]);
      assert s == [MINUS] + (Zeros(k) + NaturalText(-n));
    } else if s[0] == PLUS {
      var k := StripZeros(s[1..]);
      assert s == [PLUS] + (Zeros(k) + NaturalText(n));
    } else {
      var k := StripZeros(s);
      assert s == Zeros(k) + NaturalText(n);
    }
  }

  /** Zeros before the canonical digits of `m` make a digit run worth `m`. */
  lemma PaddedText(k: nat, m: nat)
    ensures var d := Zeros(k) + NaturalText(m);
      |d| >= 1 && AllDigits(d) && DigitsValue(d) == m
  {
    NaturalTextDigits(m);
    PaddedValue(k, NaturalText(m));
  }

  /** A digit run is accepted as is, after a `+`, and after a `-`. */
  lemma SignedDigits(d: seq<byte>)
    requires |d| >= 1 && AllDigits(d)
    ensures SignedValue(d) == Some(DigitsValue(d))
    ensures SignedValue([PLUS] + d) == Some(DigitsValue(d))
    ensures SignedValue([MINUS] + d) == Some(-(DigitsValue(d) as int))
  {
    assert d[0] != MINUS && d[0] != PLUS by {
      assert IsDigit(d[0]);
    }
    assert SignedValue(d) == Some(DigitsValue(d));
    var plus := [PLUS] + d;
    assert plus[0] == PLUS && plus[1..] == d;
    assert SignedValue(plus) == Some(DigitsValue(d));
    var minus := [MINUS] + d;
    assert minus[0] == MINUS && minus[1..] == d;
  }

  /** Zeros and the digits of `m`, alone or after a sign, are accepted with value `m` or `-m`. */
  lemma PaddedSigned(k: nat, m: nat)
    ensures SignedValue(Zeros(k) + NaturalText(m)) == Some(m)
    ensures SignedValue([PLUS] + (Zeros(k) + NaturalText(m))) == Some(m)
    ensures SignedValue([MINUS] + (Zeros(k) + NaturalText(m))) == Some(-(m as int))
  {
    PaddedText(k, m);
    SignedDigits(Zeros(k) + NaturalText(m));
  }

  /** A text that spells `n` is accepted with the value `n`. */
  lemma {:induction false} SpellsSignedValue(s: seq<byte>, n: int)
    requires Spells(s, n)
    ensures SignedValue(s) == Some(n)
  {
    var k: nat :| || (n >= 0 && s == Zeros(k) + NaturalText(n))
                  || (n >= 0 && s == [PLUS] + (Zeros(k) + NaturalText(n)))
                  || (n <= 0 && s == [MINUS] + (Zeros(k) + NaturalText(-n)));
    if n >= 0 {
      PaddedSigned(k, n);
    }
    if n <= 0 {
      PaddedSigned(k, -n);
    }
  }

  /**
   * `Long.parseLong` and `Integer.parseInt`, by the texts they accept: the
   * parser gives `n` exactly when `n` is in its range and the text spells
   * `n`, leading zeros and a `+` or `-0` included.
   */
  lemma ParseInRangeSpells(s: seq<byte>, lo: int, hi: int, n: int)
    ensures ParseInRange(s, lo, hi) == Some(n) <==> lo <= n <= hi && Spells(s, n)
  {
    if ParseInRange(s, lo, hi) == Some(n) {
      SignedValueSpells(s);
    }
    if lo <= n <= hi && Spells(s, n) {
      SpellsSignedValue(s, n);
    }
  }
}
