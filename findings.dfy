/**
 * Two defects of the encoders, each shown on the code as written next to the
 * repaired encoder of `Corrected`:
 *
 *  1. `readInt` of org.benjamin returns a `long`, so every number the decoder
 *     hands back is a boxed `Long`, and `encodeObject` cannot write a `Long`
 *     (its `(int)` cast unboxes through `Integer`). A decoded value that holds
 *     a number can therefore not be encoded again.
 *  2. `encode(String)` writes `s.length()`, the number of UTF-16 code units,
 *     as the length of the byte string, and then the bytes of `s` in the
 *     charset. As soon as a character takes more than one byte, the length
 *     no longer covers the bytes and the decoder reads something else.
 */
module Findings {
  import opened Bencode
  import opened Decimal
  import opened Java
  import opened Encoder
  import opened Corrected
  import opened Decoder
  import opened Layout
  import opened RoundTrip

  // ---------------------------------------------------------------------
  // The Java objects the org.benjamin decoder hands back
  // ---------------------------------------------------------------------

  /**
   * The values the org.benjamin decoder can produce: numbers are `long`s,
   * and every byte string and key has a length `Integer.parseInt` accepts.
   */
  ghost predicate Fits(v: Value)
    decreases v
  {
    match v
    case Int(n) => LONG_MIN <= n <= LONG_MAX
    case Str(b) => |b| <= INT_MAX
    case List(items) => forall i :: 0 <= i < |items| ==> Fits(items[i])
    case Dict(m) => forall k :: k in m ==> |k| <= INT_MAX && Fits(m[k])
  }

  /**
   * The object `readObject` returns for a value, strings and keys decoded
   * with ISO-8859-1 (one character per byte): a `Long` for a number (what
   * `readInt` returns is boxed), a `String` for a byte string, a `List` of
   * the elements and a `Map` of the entries.
   */
  ghost function Boxed(v: Value): Obj
    requires Fits(v)
    decreases v
  {
    match v
    case Int(n) => Long(n)
    case Str(b) => Text(Widen(b))
    case List(items) => ListOf(seq(|items|, i requires 0 <= i < |items| => Boxed(items[i])))
    case Dict(m) => MapOf(BoxedEntries(v, m.Keys))
  }

  /** The `TreeMap` of the entries of a dictionary whose keys are in `rest`. */
  ghost function BoxedEntries(v: Value, rest: set<seq<byte>>): map<JString, Obj>
    requires v.Dict? && Fits(v) && rest <= v.entries.Keys
    decreases v, rest
  {
    if rest == {} then map[]
    else
      var k :| k in rest;
      BoxedEntries(v, rest - {k})[Widen(k) := Boxed(v.entries[k])]
  }

  /** Whether a number occurs anywhere in a value. */
  ghost predicate HasInteger(v: Value)
    decreases v
  {
    match v
    case Int(_) => true
    case Str(_) => false
    case List(items) => exists i :: 0 <= i < |items| && HasInteger(items[i])
    case Dict(m) => exists k :: k in m && HasInteger(m[k])
  }

  /** The key function of ISO-8859-1. */
  function Latin1(): JString -> seq<byte>
  {
    KeyBytes(ISO_8859_1)
  }

  /** Two byte strings that decode to the same ISO-8859-1 string are the same. */
  lemma WidenInjective(a: seq<byte>, b: seq<byte>)
    requires Widen(a) == Widen(b)
    ensures a == b
  {
    assert forall i :: 0 <= i < |a| ==> a[i] == Widen(a)[i];
  }

  /**
   * The boxed entries for `rest` hold each key of `rest`, decoded, with its
   * boxed value, and nothing else.
   */
  lemma {:induction false} BoxedEntriesHold(v: Value, rest: set<seq<byte>>)
    requires v.Dict? && Fits(v) && rest <= v.entries.Keys
    ensures forall k :: k in rest ==>
      Widen(k) in BoxedEntries(v, rest) && BoxedEntries(v, rest)[Widen(k)] == Boxed(v.entries[k])
    ensures forall key :: key in BoxedEntries(v, rest) ==>
      GetBytes(ISO_8859_1, key) in rest && key == Widen(GetBytes(ISO_8859_1, key))
    decreases rest
  {
    if rest != {} {
      var r := BoxedEntries(v, rest);
      var k0 :| k0 in rest && r == BoxedEntries(v, rest - {k0})[Widen(k0) := Boxed(v.entries[k0])];
      var smaller := BoxedEntries(v, rest - {k0});
      BoxedEntriesHold(v, rest - {k0});
      Latin1RoundTrip(k0);
      forall k | k in rest
        ensures Widen(k) in r && r[Widen(k)] == Boxed(v.entries[k])
      {
        if k != k0 {
          if Widen(k) == Widen(k0) {
            WidenInjective(k, k0);
          }
        }
      }
    }
  }

  /** Each key of a decoded dictionary is in the boxed map, with its boxed value. */
  lemma BoxedEntry(v: Value, k: seq<byte>)
    requires v.Dict? && Fits(v) && k in v.entries
    ensures Widen(k) in Boxed(v).entries && Boxed(v).entries[Widen(k)] == Boxed(v.entries[k])
  {
    BoxedEntriesHold(v, v.entries.Keys);
  }

  /** Each key of the boxed map is a decoded key, and its ISO-8859-1 bytes are that key. */
  lemma BoxedKey(v: Value, key: JString)
    requires v.Dict? && Fits(v) && key in Boxed(v).entries
    ensures GetBytes(ISO_8859_1, key) in v.entries && key == Widen(GetBytes(ISO_8859_1, key))
  {
    BoxedEntriesHold(v, v.entries.Keys);
  }

  // ---------------------------------------------------------------------
  // Finding 1, as written: a decoded number cannot be encoded again
  // ---------------------------------------------------------------------

  /** Every part of a decoded value is of a documented kind, except its numbers. */
  lemma {:induction false} BoxedEncodable(v: Value)
    requires Fits(v)
    ensures Encodable(Boxed(v)) <==> !HasInteger(v)
    decreases v
  {
    match v
    case Int(_) =>
    case Str(_) =>
    case List(items) =>
      var o := Boxed(v);
      forall i | 0 <= i < |items|
        ensures Encodable(o.items[i]) <==> !HasInteger(items[i])
      {
        BoxedEncodable(items[i]);
      }
    case Dict(m) =>
      var o := Boxed(v);
      forall k | k in m
        ensures Widen(k) in o.entries && (Encodable(o.entries[Widen(k)]) <==> !HasInteger(m[k]))
      {
        BoxedEntry(v, k);
        BoxedEncodable(m[k]);
      }
      if !HasInteger(v) {
        forall key | key in o.entries
          ensures Encodable(o.entries[key])
        {
          BoxedKey(v, key);
        }
      }
  }

  /**
   * The source's encoder writes a decoded value back without an exception
   * exactly when the value holds no number, whatever the charset: the
   * `Long` of any number makes `encodeObject` throw.
   */
  lemma ReencodeAsWritten(cs: Charset, v: Value)
    requires Fits(v)
    ensures ObjectEncoding(cs, Boxed(v)).failure.None? <==> !HasInteger(v)
  {
    BoxedEncodable(v);
    EncodableExactly(cs, Boxed(v));
  }

  /** Every string of a decoded value takes one ISO-8859-1 byte per character. */
  lemma {:induction false} BoxedLengthsAgree(v: Value)
    requires Fits(v)
    ensures LengthsAgree(ISO_8859_1, Boxed(v))
    decreases v
  {
    match v
    case Int(_) =>
    case Str(b) =>
      Latin1RoundTrip(b);
    case List(items) =>
      var o := Boxed(v);
      forall i | 0 <= i < |items|
        ensures LengthsAgree(ISO_8859_1, o.items[i])
      {
        BoxedLengthsAgree(items[i]);
      }
    case Dict(m) =>
      var o := Boxed(v);
      forall key | key in o.entries
        ensures |GetBytes(ISO_8859_1, key)| == |key| && LengthsAgree(ISO_8859_1, o.entries[key])
      {
        var k := GetBytes(ISO_8859_1, key);
        BoxedKey(v, key);
        BoxedEntry(v, k);
        BoxedLengthsAgree(m[k]);
      }
  }

  /**
   * Where no number is involved the source's encoder, under ISO-8859-1,
   * already writes what the corrected one writes.
   */
  lemma ReencodeWithoutIntegers(v: Value)
    requires Fits(v) && !HasInteger(v)
    ensures ObjectEncoding(ISO_8859_1, Boxed(v)) == ObjectEncodingFixed(Latin1(), Boxed(v))
  {
    BoxedEncodable(v);
    BoxedLengthsAgree(v);
    FixedAgrees(ISO_8859_1, Boxed(v));
  }

  /** The smallest instance, read: `d1:ni5ee` decodes to the dictionary mapping `n` to 5. */
  lemma DecodedNumberRead()
    ensures ValueAt([100, 49, 58, 110, 105, 53, 101, 101], 0) == Ok(Parsed(Dict(map[[110] := Int(5)]), 8))
  {
    var data: seq<byte> := [100, 49, 58, 110, 105, 53, 101, 101];
    BytesAtOutcome(data, 1, 2);
    assert data[1..2] == [49];
    assert ParseInt([49]) == Some(1);
    assert data[3..4] == [110];
    assert BytesAt(data, 1) == Ok(Parsed([110], 4));
    IntAtOutcome(data, 4, 6);
    assert data[5..6] == [53];
    assert ParseLong([53]) == Some(5);
    assert IntAt(data, 4) == Ok(Parsed(5, 7));
    DictItemsStep(data, 1, map[], [110], 4, Int(5), 7);
  }

  /**
   * The smallest instance, written back: the decoded map holds a `Long`,
   * and `encode(Map)` stops with a ClassCastException after `d1:n`.
   */
  lemma DecodedNumberRejected()
    ensures ObjectEncoding(UTF_8, Boxed(Dict(map[[110] := Int(5)])))
            == Output([100, 49, 58, 110], Some(ClassCast))
  {
    var v := Dict(map[[110] := Int(5)]);
    var o := Boxed(v);
    BoxedEntry(v, [110]);
    forall key | key in o.entries
      ensures key == [110]
    {
      BoxedKey(v, key);
    }
    assert o == MapOf(map[[110] := Long(5)]);
    LongEntryRejected();
  }

  lemma LongEntryRejected()
    ensures ObjectEncoding(UTF_8, MapOf(map[[110] := Long(5)])) == Output([100, 49, 58, 110], Some(ClassCast))
  {
    var o := MapOf(map[[110] := Long(5)]);
    var key: JString := [110];
    assert Least({key}) == key;
    GetBytesAscii(UTF_8, key);
    assert TextEncoding(UTF_8, key) == [49, 58, 110];
    assert EntriesEncoding(UTF_8, o, {key}) == Output([49, 58, 110], Some(ClassCast));
  }

  // ---------------------------------------------------------------------
  // Finding 1, corrected: a decoded value is written back and read again
  // ---------------------------------------------------------------------

  /** What the corrected encoder writes for a decoded value. */
  ghost function Reencoded(v: Value): seq<byte>
    requires Fits(v)
  {
    ObjectEncodingFixed(Latin1(), Boxed(v)).bytes
  }

  /**
   * Boxing loses nothing: the value of the object the decoder hands back is
   * the decoded value.
   */
  lemma {:induction false} Unboxed(v: Value)
    requires Fits(v)
    ensures Representable(Latin1(), Boxed(v)) && ToValue(Latin1(), Boxed(v)) == v
    decreases v
  {
    var enc := Latin1();
    match v
    case Int(_) =>
    case Str(b) =>
      Latin1RoundTrip(b);
    case List(items) =>
      var o := Boxed(v);
      forall i | 0 <= i < |items|
        ensures Representable(enc, o.items[i]) && ToValue(enc, o.items[i]) == items[i]
      {
        Unboxed(items[i]);
      }
      ListElements(enc, o);
      assert ToValue(enc, o).items == items;
    case Dict(m) =>
      var o := Boxed(v);
      forall key | key in o.entries
        ensures |enc(key)| <= INT_MAX && Representable(enc, o.entries[key])
      {
        var k := GetBytes(ISO_8859_1, key);
        BoxedKey(v, key);
        BoxedEntry(v, k);
        Unboxed(m[k]);
      }
      assert Injective(o.entries.Keys, enc) by {
        forall a, b | a in o.entries && b in o.entries && enc(a) == enc(b)
          ensures a == b
        {
          BoxedKey(v, a);
          BoxedKey(v, b);
        }
      }
      DictEntries(enc, o);
      var r := Relabel(o.entries.Keys, enc, EntryValues(enc, o));
      forall g | g in m
        ensures g in r && r[g] == m[g]
      {
        Latin1RoundTrip(g);
        BoxedEntry(v, g);
        Unboxed(m[g]);
        assert enc(Widen(g)) == g;
      }
      forall g | g in r
        ensures g in m
      {
        var key :| key in o.entries && enc(key) == g;
        BoxedKey(v, key);
      }
      assert r == m;
  }

  /**
   * With numbers written as numbers, any decoded value is written back in
   * full, and decoding what was written gives the same value, consuming all
   * of it. So the canonical encoding of a value comes back byte for byte
   * from a decode followed by an encode, with strings decoded and encoded
   * under ISO-8859-1 (the torrent-file test uses UTF-8, under which decoding
   * the binary `pieces` string into a `String` loses bytes).
   */
  lemma {:induction false} ReencodeDecoded(v: Value)
    requires Fits(v)
    ensures ObjectEncodingFixed(Latin1(), Boxed(v)).failure.None?
    ensures ValueAt(Reencoded(v), 0) == Ok(Parsed(v, |Reencoded(v)|))
  {
    Unboxed(v);
    FixedSucceeds(Latin1(), Boxed(v));
    ReadWhole(v);
  }

  /** Reading the corrected encoding of a decoded value from its start takes all of it. */
  lemma {:induction false} ReadWhole(v: Value)
    requires Fits(v) && Representable(Latin1(), Boxed(v)) && ToValue(Latin1(), Boxed(v)) == v
    ensures ValueAt(Reencoded(v), 0) == Ok(Parsed(v, |Reencoded(v)|))
  {
    var data := Reencoded(v);
    assert data[0..|data|] == data;
    ValueRoundTrip(Latin1(), Boxed(v), data, 0);
  }

  // ---------------------------------------------------------------------
  // Finding 2: the length of a string is counted in characters
  // ---------------------------------------------------------------------

  /**
   * As written: under UTF-8, a string with a character beyond ASCII (and not
   * a surrogate) has more bytes than code units, and `readBytes` takes only
   * as many bytes as the string has code units; the rest is left in the
   * stream to be misread as the next item.
   */
  lemma TextLengthAsWritten(s: JString)
    requires |s| <= INT_MAX && exists i :: 0 <= i < |s| && IsWide(s[i])
    ensures |s| < |GetBytes(UTF_8, s)|
    ensures BytesAt(TextEncoding(UTF_8, s), 0)
            == Ok(Parsed(GetBytes(UTF_8, s)[..|s|], |DecimalText(|s|)| + 1 + |s|))
  {
    Utf8Length(s);
    var t := DecimalText(|s|);
    var data := TextEncoding(UTF_8, s);
    LengthText(|s|);
    assert data[..|t|] == t;
    assert data[0..|t|] == t;
    assert data[|t| + 1..|t| + 1 + |s|] == GetBytes(UTF_8, s)[..|s|];
    BytesAtOutcome(data, 0, |t|);
  }

  /**
   * The smallest instance, written: "Ω" is written `1:` followed by its two
   * UTF-8 bytes, and a list holding it as `l1:` CE A9 `e`.
   */
  lemma OmegaWritten()
    ensures TextEncoding(UTF_8, [0x3A9]) == [49, 58, 0xCE, 0xA9]
    ensures ObjectEncoding(UTF_8, ListOf([Text([0x3A9])])) == Written([108, 49, 58, 0xCE, 0xA9, 101])
  {
    assert GetBytes(UTF_8, [0x3A9]) == [0xCE, 0xA9];
  }

  /**
   * The smallest instance, read: the decoder takes CE as the whole string,
   * then reads A9 `e` as the length of a second one and finds no `:`.
   */
  lemma OmegaUnreadable()
    ensures ValueAt([108, 49, 58, 0xCE, 0xA9, 101], 0) == Err(IllegalState)
  {
    var data: seq<byte> := [108, 49, 58, 0xCE, 0xA9, 101];
    BytesAtOutcome(data, 1, 2);
    assert data[1..2] == [49];
    assert ParseInt([49]) == Some(1);
    assert data[3..4] == [0xCE];
    assert BytesAt(data, 1) == Ok(Parsed([0xCE], 4));
    ListItemsStep(data, 1, [], Str([0xCE]), 4);
    assert STRING_SPLIT !in data[4..];
    BytesAtOutcome(data, 4, 4);
    ListItemsError(data, 4, [Str([0xCE])]);
  }

  /**
   * Corrected: written with the length of its bytes, a string in any charset
   * is read back as exactly those bytes.
   */
  lemma TextRoundTrip(cs: Charset, s: JString)
    requires |GetBytes(cs, s)| <= INT_MAX
    ensures BytesAt(TextEncodingFixed(KeyBytes(cs), s), 0)
            == Ok(Parsed(GetBytes(cs, s), |TextEncodingFixed(KeyBytes(cs), s)|))
  {
    var data := TextEncodingFixed(KeyBytes(cs), s);
    assert data[0..|data|] == data;
    BytesRoundTrip(data, 0, GetBytes(cs, s));
  }
}
