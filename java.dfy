/**
 * The parts of the Java platform the codec leans on: fixed-width integers,
 * strings as sequences of UTF-16 code units, `String.compareTo` (the order of
 * a `TreeMap<String, ?>`), `String.getBytes(charset)`, and the runtime kinds
 * of object the encoder's `encodeObject` tells apart.
 */
module Java {
  import opened Bencode
  import opened Decimal

  type char16 = c: int | 0 <= c < 0x1_0000
  type int8 = n: int | -0x80 <= n < 0x80
  type int32 = n: int | INT_MIN <= n <= INT_MAX
  type int64 = n: int | LONG_MIN <= n <= LONG_MAX

  /** A `java.lang.String`: its UTF-16 code units; `length()` is `|s|`. */
  type JString = seq<char16>

  /** The string of the characters with the codes of some bytes (ISO-8859-1 decoding). */
  function Widen(b: seq<byte>): (s: JString)
    ensures |s| == |b| && forall i :: 0 <= i < |b| ==> s[i] == b[i]
  {
    b
  }

  // ---------------------------------------------------------------------
  // String.compareTo
  // ---------------------------------------------------------------------

  /**
   * `a.compareTo(b) < 0`: the first differing code unit decides, and a
   * proper prefix comes first.
   */
  predicate Less(a: JString, b: JString)
    decreases |a|
  {
    if |a| == 0 then |b| > 0
    else if |b| == 0 then false
    else if a[0] != b[0] then a[0] < b[0]
    else Less(a[1..], b[1..])
  }

  lemma {:induction false} LessIrreflexive(a: JString)
    ensures !Less(a, a)
    decreases |a|
  {
    if |a| > 0 {
      LessIrreflexive(a[1..]);
    }
  }

  lemma {:induction false} LessAsymmetric(a: JString, b: JString)
    ensures !(Less(a, b) && Less(b, a))
    decreases |a|
  {
    if |a| > 0 && |b| > 0 && a[0] == b[0] {
      LessAsymmetric(a[1..], b[1..]);
    }
  }

  lemma {:induction false} LessTransitive(a: JString, b: JString, c: JString)
    requires Less(a, b) && Less(b, c)
    ensures Less(a, c)
    decreases |a|
  {
    if |a| > 0 && a[0] == b[0] && b[0] == c[0] {
      LessTransitive(a[1..], b[1..], c[1..]);
    }
  }

  lemma {:induction false} LessTotal(a: JString, b: JString)
    ensures a == b || Less(a, b) || Less(b, a)
    decreases |a|
  {
    if |a| > 0 && |b| > 0 && a[0] == b[0] {
      LessTotal(a[1..], b[1..]);
      if a[1..] == b[1..] {
        assert a == [a[0]] + a[1..] && b == [b[0]] + b[1..];
      }
    }
  }

  /** `k` comes before every other key of `keys`. */
  predicate IsLeast(k: JString, keys: set<JString>)
  {
    k in keys && forall j :: j in keys && j != k ==> Less(k, j)
  }

  lemma {:induction false} LeastExists(keys: set<JString>)
    requires keys != {}
    ensures exists k :: IsLeast(k, keys)
    decreases keys
  {
    var x :| x in keys;
    if keys != {x} {
      LeastExists(keys - {x});
      var m :| IsLeast(m, keys - {x});
      LessTotal(x, m);
      if Less(x, m) {
        forall j | j in keys && j != x
          ensures Less(x, j)
        {
          if j != m {
            LessTransitive(x, m, j);
          }
        }
        assert IsLeast(x, keys);
      } else {
        assert IsLeast(m, keys);
      }
    } else {
      assert IsLeast(x, keys);
    }
  }

  /**
   * The first key a `TreeMap` over `keys` iterates: the one `compareTo` puts
   * before all the others (there is exactly one).
   */
  ghost function Least(keys: set<JString>): (k: JString)
    requires keys != {}
    ensures IsLeast(k, keys)
    ensures forall j :: IsLeast(j, keys) ==> j == k
  {
    LeastExists(keys);
    var k :| IsLeast(k, keys);
    assert forall j :: IsLeast(j, keys) ==> j == k by {
      forall j | IsLeast(j, keys)
        ensures j == k
      {
        if j != k {
          LessAsymmetric(j, k);
        }
      }
    }
    k
  }

  /** The keys of a `TreeMap` in iteration order. */
  ghost function SortedKeys(keys: set<JString>): (r: seq<JString>)
    decreases keys
  {
    if keys == {} then [] else [Least(keys)] + SortedKeys(keys - {Least(keys)})
  }

  /**
   * A `TreeMap`'s iteration order visits each key exactly once, in strictly
   * increasing `compareTo` order.
   */
  lemma {:induction false} SortedKeysOrder(keys: set<JString>)
    ensures var r := SortedKeys(keys);
      && |r| == |keys|
      && (forall k :: k in r <==> k in keys)
      && (forall i, j :: 0 <= i < j < |r| ==> Less(r[i], r[j]))
    decreases keys
  {
    if keys != {} {
      var k := Least(keys);
      var rest := keys - {k};
      SortedKeysOrder(rest);
      var t := SortedKeys(rest);
      var r := [k] + t;
      assert SortedKeys(keys) == r;
      forall i, j | 0 <= i < j < |r|
        ensures Less(r[i], r[j])
      {
        assert r[j] == t[j - 1] && r[j] in rest;
        if i > 0 {
          assert r[i] == t[i - 1];
        }
      }
      assert forall x :: x in r <==> x == k || x in t;
    }
  }

  // ---------------------------------------------------------------------
  // String.getBytes(charset)
  // ---------------------------------------------------------------------

  /** The charsets modelled: all three agree with ASCII on code units below 0x80. */
  datatype Charset = US_ASCII | ISO_8859_1 | UTF_8

  /** What `getBytes` writes for a character the charset cannot represent. */
  const REPLACEMENT: byte := '?' as int

  predicate IsHighSurrogate(u: char16)
  {
    0xD800 <= u < 0xDC00
  }

  predicate IsLowSurrogate(u: char16)
  {
    0xDC00 <= u < 0xE000
  }

  /** The bytes of one code unit that is not part of a surrogate pair. */
  function UnitBytes(cs: Charset, u: char16): (r: seq<byte>)
    ensures 1 <= |r| <= 3
  {
    if IsHighSurrogate(u) || IsLowSurrogate(u) then [REPLACEMENT]
    else match cs
      case US_ASCII => if u < 0x80 then [u] else [REPLACEMENT]
      case ISO_8859_1 => if u < 0x100 then [u] else [REPLACEMENT]
      case UTF_8 =>
        if u < 0x80 then [u]
        else if u < 0x800 then [0xC0 + u / 0x40, 0x80 + u % 0x40]
        else [0xE0 + u / 0x1000, 0x80 + u / 0x40 % 0x40, 0x80 + u % 0x40]
  }

  /** The bytes of a surrogate pair, which stands for one supplementary character. */
  function PairBytes(cs: Charset, high: char16, low: char16): (r: seq<byte>)
    requires IsHighSurrogate(high) && IsLowSurrogate(low)
  {
    match cs
    case UTF_8 =>
      var cp := 0x1_0000 + (high - 0xD800) * 0x400 + (low - 0xDC00);
      [0xF0 + cp / 0x4_0000, 0x80 + cp / 0x1000 % 0x40, 0x80 + cp / 0x40 % 0x40, 0x80 + cp % 0x40]
    case _ => [REPLACEMENT]
  }

  /**
   * How many code units the character at `i` takes: two for a surrogate
   * pair, one otherwise.
   */
  function CharWidth(s: JString, i: nat): (w: nat)
    requires i < |s|
    ensures 1 <= w <= 2 && i + w <= |s|
  {
    if i + 1 < |s| && IsHighSurrogate(s[i]) && IsLowSurrogate(s[i + 1]) then 2 else 1
  }

  /** The bytes of the character at `i`: one code unit or a surrogate pair. */
  function CharBytes(cs: Charset, s: JString, i: nat): seq<byte>
    requires i < |s|
  {
    if CharWidth(s, i) == 2 then PairBytes(cs, s[i], s[i + 1]) else UnitBytes(cs, s[i])
  }

  /** The bytes of the characters of `s` from position `i` on. */
  function EncodeFrom(cs: Charset, s: JString, i: nat): seq<byte>
    requires i <= |s|
    decreases |s| - i
  {
    if i == |s| then [] else CharBytes(cs, s, i) + EncodeFrom(cs, s, i + CharWidth(s, i))
  }

  /** `s.getBytes(cs)`, character by character. */
  function GetBytes(cs: Charset, s: JString): seq<byte>
  {
    EncodeFrom(cs, s, 0)
  }

  /** Every code unit of `s` is ASCII. */
  predicate IsAscii(s: JString)
  {
    forall i :: 0 <= i < |s| ==> s[i] < 0x80
  }

  /** Every code unit of `s` is one the charset writes as the byte of the same value. */
  predicate Transparent(cs: Charset, s: JString)
  {
    forall i :: 0 <= i < |s| ==> s[i] < (if cs == ISO_8859_1 then 0x100 else 0x80)
  }

  lemma SliceCons<T>(t: seq<T>, i: nat, k: nat)
    requires i < k <= |t|
    ensures t[i..k] == [t[i]] + t[i + 1..k]
  {
  }

  lemma Associative<T>(x: seq<T>, y: seq<T>, z: seq<T>)
    ensures x + (y + z) == (x + y) + z
  {
  }

  /** A character the charset writes as itself contributes its own byte. */
  lemma EncodeFromTransparentHead(cs: Charset, s: JString, i: nat)
    requires i < |s| && s[i] < (if cs == ISO_8859_1 then 0x100 else 0x80)
    ensures EncodeFrom(cs, s, i) == [s[i]] + EncodeFrom(cs, s, i + 1)
  {
  }

  lemma {:induction false} EncodeFromTransparent(cs: Charset, s: JString, i: nat, k: nat)
    requires i <= k <= |s|
    requires forall j :: i <= j < k ==> s[j] < (if cs == ISO_8859_1 then 0x100 else 0x80)
    ensures EncodeFrom(cs, s, i) == s[i..k] + EncodeFrom(cs, s, k)
    decreases k - i
  {
    if i < k {
      EncodeFromTransparentHead(cs, s, i);
      EncodeFromTransparent(cs, s, i + 1, k);
      SliceCons(s, i, k);
      Associative([s[i]], s[i + 1..k], EncodeFrom(cs, s, k));
    } else {
      assert s[i..k] == [];
    }
  }

  /** Encoding from position `|p| + i` of `p + s` does not look back into `p`. */
  lemma {:induction false} EncodeFromShift(cs: Charset, p: JString, s: JString, i: nat)
    requires i <= |s|
    ensures EncodeFrom(cs, p + s, |p| + i) == EncodeFrom(cs, s, i)
    decreases |s| - i
  {
    if i < |s| {
      var t := p + s;
      assert t[|p| + i] == s[i];
      if i + 1 < |s| {
        assert t[|p| + i + 1] == s[i + 1];
      }
      EncodeFromShift(cs, p, s, i + CharWidth(s, i));
    }
  }

  /**
   * Text made of characters each charset represents as themselves (ASCII in
   * every charset, Latin-1 under ISO-8859-1) becomes the bytes of the same
   * values, one per character.
   */
  lemma GetBytesTransparent(cs: Charset, s: JString)
    requires Transparent(cs, s)
    ensures GetBytes(cs, s) == s
  {
    EncodeFromTransparent(cs, s, 0, |s|);
    assert s[0..|s|] == s;
  }

  lemma GetBytesAscii(cs: Charset, s: JString)
    requires IsAscii(s)
    ensures GetBytes(cs, s) == s
  {
    GetBytesTransparent(cs, s);
  }

  /** ASCII text in front of a string contributes its own bytes to `getBytes`. */
  lemma GetBytesAsciiPrefix(cs: Charset, p: JString, s: JString)
    requires IsAscii(p)
    ensures GetBytes(cs, p + s) == p + GetBytes(cs, s)
  {
    var t := p + s;
    EncodeFromTransparent(cs, t, 0, |p|);
    assert t[0..|p|] == p;
    EncodeFromShift(cs, p, s, 0);
  }

  lemma UnitBytesUtf8Length(u: char16)
    requires !IsHighSurrogate(u) && !IsLowSurrogate(u)
    ensures |UnitBytes(UTF_8, u)| == 1 <==> u < 0x80
  {
  }

  /** A code unit UTF-8 writes as more than one byte: non-ASCII and not a surrogate. */
  predicate IsWide(u: char16)
  {
    0x80 <= u && !IsHighSurrogate(u) && !IsLowSurrogate(u)
  }

  lemma {:induction false} Utf8LengthFrom(s: JString, i: nat)
    requires i <= |s|
    ensures |EncodeFrom(UTF_8, s, i)| >= |s| - i
    ensures (forall j :: i <= j < |s| ==> s[j] < 0x80) ==> |EncodeFrom(UTF_8, s, i)| == |s| - i
    ensures (exists j :: i <= j < |s| && IsWide(s[j])) ==> |EncodeFrom(UTF_8, s, i)| > |s| - i
    decreases |s| - i
  {
    if i < |s| {
      var w := CharWidth(s, i);
      Utf8LengthFrom(s, i + w);
      if w == 2 {
        assert |PairBytes(UTF_8, s[i], s[i + 1])| == 4;
      } else if IsWide(s[i]) {
        UnitBytesUtf8Length(s[i]);
      }
    }
  }

  /**
   * Under UTF-8 a string takes at least as many bytes as it has code units:
   * exactly as many when it is ASCII, more as soon as one character is
   * neither ASCII nor a surrogate.
   */
  lemma Utf8Length(s: JString)
    ensures |GetBytes(UTF_8, s)| >= |s|
    ensures IsAscii(s) ==> |GetBytes(UTF_8, s)| == |s|
    ensures (exists i :: 0 <= i < |s| && IsWide(s[i])) ==> |GetBytes(UTF_8, s)| > |s|
  {
    Utf8LengthFrom(s, 0);
  }

  /** ISO-8859-1 encodes the string decoded from any bytes back to those bytes. */
  lemma Latin1RoundTrip(b: seq<byte>)
    ensures GetBytes(ISO_8859_1, Widen(b)) == b
  {
    GetBytesTransparent(ISO_8859_1, Widen(b));
  }

  // ---------------------------------------------------------------------
  // The objects encodeObject is handed
  // ---------------------------------------------------------------------

  /**
   * The runtime kinds `encodeObject` distinguishes: boxed `Integer`, `Long`
   * and `Byte`, `String`, `byte[]`, a `List`, a `Map` with `String` keys,
   * `null`, and an object of any other class.
   */
  datatype Obj =
    | Integer(i: int32)
    | Long(l: int64)
    | Byte(b: int8)
    | Text(s: JString)
    | ByteArray(bytes: seq<byte>)
    | ListOf(items: seq<Obj>)
    | MapOf(entries: map<JString, Obj>)
    | Null
    | Unsupported
}
