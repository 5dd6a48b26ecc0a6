/**
 * The second-generation encoder, `pp.raindev.benjamin.Bencoder`. It differs
 * from the first only in how it groups its writes: a number is written as one
 * string `"i" + i + "e"`, and a string's length, the `:` and the string are
 * joined before the charset encodes them, in a single write. Its methods are
 * specified by the first generation's functions, so their contracts state
 * that both generations write the same bytes and throw the same exception
 * for every object and every charset modelled.
 */
module RaindevEncoder {
  import opened Bencode
  import opened Decimal
  import opened Java
  import opened Encoder

  /**
   * `(s.length() + ":" + s).getBytes(charset)`: the length and the `:` pass
   * through the charset along with the text.
   */
  function JoinedText(cs: Charset, s: JString): seq<byte>
  {
    GetBytes(cs, Widen(DecimalText(|s|) + [STRING_SPLIT]) + s)
  }

  /**
   * Every charset modelled writes the length and the `:` as their ASCII
   * bytes, so the joined form equals the first generation's three writes.
   */
  lemma JoinedTextSame(cs: Charset, s: JString)
    ensures JoinedText(cs, s) == TextEncoding(cs, s)
  {
    var prefix := DecimalText(|s|) + [STRING_SPLIT];
    DecimalTextCanonical(|s|);
    assert IsAscii(Widen(prefix)) by {
      forall i | 0 <= i < |prefix|
        ensures prefix[i] < 0x80
      {
        if i < |DecimalText(|s|)| {
          assert IsDigit(DecimalText(|s|)[i]);
        }
      }
    }
    GetBytesAsciiPrefix(cs, Widen(prefix), s);
  }

  /**
   * A `Bencoder` of the second generation: the charset strings are encoded
   * with, and everything written to its output stream so far.
   */
  class Bencoder {
    const charset: Charset
    var out: seq<byte>

    /** `Bencoder(charset, outputStream)` on an empty stream. */
    constructor (charset: Charset)
      ensures this.charset == charset && out == []
    {
      this.charset := charset;
      out := [];
    }

    method EncodeInt(i: int32)
      modifies this
      ensures out == old(out) + IntEncoding(i)
    {
      out := out + ([INTEGER_MARK] + DecimalText(i) + [END_MARK]);
    }

    method EncodeText(s: JString)
      modifies this
      ensures out == old(out) + TextEncoding(charset, s)
    {
      JoinedTextSame(charset, s);
      out := out + JoinedText(charset, s);
    }

    method EncodeBytes(bytes: seq<byte>)
      modifies this
      ensures out == old(out) + BytesEncoding(bytes)
    {
      out := out + (DecimalText(|bytes|) + [STRING_SPLIT]);
      out := out + bytes;
    }

    /** `encode(List)`; `thrown` is the exception that escaped, if any. */
    method EncodeList(list: seq<Obj>) returns (thrown: Option<Exception>)
      modifies this
      ensures out == old(out) + ListEncoding(charset, list).bytes
      ensures thrown == ListEncoding(charset, list).failure
      decreases list, 1
    {
      out := out + [LIST_MARK];
      ghost var written: seq<byte> := [];
      var i := 0;
      while i < |list|
        invariant i <= |list|
        invariant out == old(out) + [LIST_MARK] + written
        invariant Then(Written(written), ItemsEncoding(charset, list, i)) == ItemsEncoding(charset, list, 0)
      {
        thrown := EncodeObject(list[i]);
        ghost var step := ObjectEncoding(charset, list[i]);
        Associative(old(out) + [LIST_MARK], written, step.bytes);
        Associative(old(out), [LIST_MARK], written + step.bytes);
        ItemsStep(charset, list, i, written);
        if thrown.Some? {
          return;
        }
        written := written + step.bytes;
        i := i + 1;
      }
      out := out + [END_MARK];
      ListDone(charset, list, written);
      Associative(old(out), [LIST_MARK], written);
      Associative(old(out), [LIST_MARK] + written, [END_MARK]);
      thrown := None;
    }

    /**
     * `encode(Map)`. The `TreeMap` copy is walked by taking the least key
     * not yet written, which is the order its entry set iterates in.
     */
    method EncodeMap(dictionary: map<JString, Obj>) returns (thrown: Option<Exception>)
      modifies this
      ensures out == old(out) + MapEncoding(charset, MapOf(dictionary)).bytes
      ensures thrown == MapEncoding(charset, MapOf(dictionary)).failure
      decreases MapOf(dictionary), 1
    {
      ghost var o := MapOf(dictionary);
      out := out + [DICTIONARY_MARK];
      ghost var written: seq<byte> := [];
      var rest := dictionary.Keys;
      while rest != {}
        invariant rest <= dictionary.Keys
        invariant out == old(out) + [DICTIONARY_MARK] + written
        invariant Then(Written(written), EntriesEncoding(charset, o, rest)) == EntriesEncoding(charset, o, dictionary.Keys)
        decreases rest
      {
        LeastExists(rest);
        var key :| IsLeast(key, rest);
        EncodeText(key);
        thrown := EncodeObject(dictionary[key]);
        ghost var step := TextEncoding(charset, key) + ObjectEncoding(charset, dictionary[key]).bytes;
        Associative(old(out) + [DICTIONARY_MARK] + written, TextEncoding(charset, key), ObjectEncoding(charset, dictionary[key]).bytes);
        Associative(old(out) + [DICTIONARY_MARK], written, step);
        Associative(old(out), [DICTIONARY_MARK], written + step);
        EntriesStep(charset, o, rest, key, written);
        if thrown.Some? {
          return;
        }
        written := written + step;
        rest := rest - {key};
      }
      out := out + [END_MARK];
      MapDone(charset, o, written);
      Associative(old(out), [DICTIONARY_MARK], written);
      Associative(old(out), [DICTIONARY_MARK] + written, [END_MARK]);
      thrown := None;
    }

    /** `encodeObject`, dispatching on the object's runtime class. */
    method EncodeObject(item: Obj) returns (thrown: Option<Exception>)
      modifies this
      ensures out == old(out) + ObjectEncoding(charset, item).bytes
      ensures thrown == ObjectEncoding(charset, item).failure
      decreases item, 2
    {
      match item
      case Integer(i) =>
        EncodeInt(i);
        thrown := None;
      case Long(_) =>
        thrown := Some(ClassCast);
      case Byte(_) =>
        thrown := Some(ClassCast);
      case Text(s) =>
        EncodeText(s);
        thrown := None;
      case ByteArray(b) =>
        EncodeBytes(b);
        thrown := None;
      case ListOf(items) =>
        thrown := EncodeList(items);
      case MapOf(m) =>
        thrown := EncodeMap(m);
      case Null =>
        thrown := Some(NullPointer);
      case Unsupported =>
        thrown := Some(IllegalArgument);
    }
  }
}
