/**
 * Where the pieces of an encoding sit in a stream, and the facts about the
 * decimal texts in them that both decoders rely on.
 */
module Layout {
  import opened Bencode
  import opened Decimal
  import opened Java
  import opened Encoder
  import opened Corrected

  /** A match of `a + b` is a match of `a` followed by a match of `b`. */
  lemma AtSplit(data: seq<byte>, p: nat, a: seq<byte>, b: seq<byte>)
    requires At(data, p, a + b)
    ensures At(data, p, a) && At(data, p + |a|, b)
  {
    var whole := data[p..p + |a + b|];
    assert data[p..p + |a|] == whole[..|a|];
    assert data[p + |a|..p + |a| + |b|] == whole[|a|..];
  }

  /** A match of `a + (b + c) + e`: `a + b` first, then `c + e`. */
  lemma AtThree(data: seq<byte>, p: nat, a: seq<byte>, b: seq<byte>, c: seq<byte>, e: seq<byte>)
    requires At(data, p, a + (b + c) + e)
    ensures At(data, p, a + b) && At(data, p + |a| + |b|, c + e)
  {
    Associative(a, b, c);
    Associative(a + b, c, e);
    AtSplit(data, p, a + b, c + e);
  }

  /** A match of `a + b + e`: `a` first, then `b + e`. */
  lemma AtTwo(data: seq<byte>, p: nat, a: seq<byte>, b: seq<byte>, e: seq<byte>)
    requires At(data, p, a + b + e)
    ensures At(data, p, a) && At(data, p + |a|, b + e)
  {
    Associative(a, b, e);
    AtSplit(data, p, a, b + e);
  }

  /** The decimal text of a `long`: what both decoders' checks on a number let through. */
  lemma NumberText(n: int)
    requires LONG_MIN <= n <= LONG_MAX
    ensures var t := DecimalText(n);
      && |t| >= 1 && END_MARK !in t && (t[0] == ZERO ==> |t| == 1) && t != [MINUS, ZERO]
      && ParseLong(t) == Some(n) && (INT_MIN <= n <= INT_MAX ==> ParseInt(t) == Some(n))
  {
    DecimalTextCanonical(n);
    DecimalTextParses(n);
  }

  /** The three pieces of a number's encoding, located in `data`. */
  lemma IntPieces(data: seq<byte>, p: nat, n: int)
    requires At(data, p, IntEncoding(n))
    ensures var e := p + 1 + |DecimalText(n)|;
      && e < |data| && data[p] == INTEGER_MARK && data[p + 1..e] == DecimalText(n) && data[e] == END_MARK
  {
    var t := DecimalText(n);
    AtSplit(data, p, [INTEGER_MARK] + t, [END_MARK]);
    AtSplit(data, p, [INTEGER_MARK], t);
  }

  /** The decimal text of a Java length: digits only, read back by `Integer.parseInt`. */
  lemma LengthText(n: nat)
    requires n <= INT_MAX
    ensures var t := DecimalText(n);
      |t| >= 1 && AllDigits(t) && STRING_SPLIT !in t && ParseInt(t) == Some(n)
  {
    DecimalTextCanonical(n);
    DecimalTextParses(n);
  }

  /** The three pieces of a byte string's encoding, located in `data`. */
  lemma BytesPieces(data: seq<byte>, p: nat, b: seq<byte>)
    requires At(data, p, BytesEncoding(b))
    ensures var c := p + |DecimalText(|b|)|;
      && c + 1 + |b| <= |data| && data[p..c] == DecimalText(|b|) && data[c] == STRING_SPLIT
      && data[c + 1..c + 1 + |b|] == b
  {
    var t := DecimalText(|b|);
    AtSplit(data, p, t + [STRING_SPLIT], b);
    AtSplit(data, p, t, [STRING_SPLIT]);
  }

  /** What the corrected encoder writes never starts with `e`. */
  lemma FirstByte(enc: JString -> seq<byte>, o: Obj)
    requires Representable(enc, o)
    ensures |ObjectEncodingFixed(enc, o).bytes| > 0 && ObjectEncodingFixed(enc, o).bytes[0] != END_MARK
  {
    match o
    case Text(s) =>
      DecimalTextCanonical(|enc(s)|);
      assert IsDigit(TextEncodingFixed(enc, s)[0]);
    case ByteArray(b) =>
      DecimalTextCanonical(|b|);
      assert IsDigit(BytesEncoding(b)[0]);
    case ListOf(items) =>
      ItemsSucceed(enc, items, 0);
    case MapOf(m) =>
      EntriesSucceed(enc, o, m.Keys);
    case _ =>
  }
}
