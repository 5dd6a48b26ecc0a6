/**
 * The first-generation encoder, `org.benjamin.Bencoder`: it writes Java
 * objects to an output stream in bencode. Each `encode` overload writes its
 * pieces one `write` at a time, so an exception thrown halfway leaves the
 * pieces already written in the stream; the model keeps those bytes.
 */
module Encoder {
  import opened Bencode
  import opened Decimal
  import opened Java

  /**
   * What a call leaves behind: the bytes it wrote to the stream, and the
   * exception that ended it early, if one did.
   */
  datatype Output = Output(bytes: seq<byte>, failure: Option<Exception>)

  function Written(bytes: seq<byte>): Output
  {
    Output(bytes, None)
  }

  function Thrown(e: Exception): Output
  {
    Output([], Some(e))
  }

  /** `a` followed by `b`, where `b` never runs if `a` threw. */
  function Then(a: Output, b: Output): Output
  {
    if a.failure.Some? then a else Output(a.bytes + b.bytes, b.failure)
  }

  lemma ThenAssociative(a: Output, b: Output, c: Output)
    ensures Then(Then(a, b), c) == Then(a, Then(b, c))
  {
    if a.failure.None? && b.failure.None? {
      Associative(a.bytes, b.bytes, c.bytes);
    }
  }

  // ---------------------------------------------------------------------
  // What each overload of encode writes
  // ---------------------------------------------------------------------

  /** `encode(int)`: `i`, the decimal text of the number, `e`. */
  function IntEncoding(n: int): seq<byte>
  {
    [INTEGER_MARK] + DecimalText(n) + [END_MARK]
  }

  /**
   * `encode(String)`: the string's `length()` -- its number of UTF-16 code
   * units, not of bytes -- then `:`, then `getBytes(charset)`.
   */
  function TextEncoding(cs: Charset, s: JString): seq<byte>
  {
    DecimalText(|s|) + [STRING_SPLIT] + GetBytes(cs, s)
  }

  /** `encode(byte[])`: the array's length, `:`, then the array itself. */
  function BytesEncoding(b: seq<byte>): seq<byte>
  {
    DecimalText(|b|) + [STRING_SPLIT] + b
  }

  /**
   * `encodeObject`: a boxed `Integer` is written as a number; a `Long` or a
   * `Byte` passes the `instanceof` test but fails the `(int)` cast, which
   * unboxes through `Integer`; `null` fails at `getClass()`; any other class
   * is rejected.
   */
  ghost function ObjectEncoding(cs: Charset, o: Obj): Output
    decreases o, 2
  {
    match o
    case Integer(i) => Written(IntEncoding(i))
    case Long(_) => Thrown(ClassCast)
    case Byte(_) => Thrown(ClassCast)
    case Text(s) => Written(TextEncoding(cs, s))
    case ByteArray(b) => Written(BytesEncoding(b))
    case ListOf(items) => ListEncoding(cs, items)
    case MapOf(_) => MapEncoding(cs, o)
    case Null => Thrown(NullPointer)
    case Unsupported => Thrown(IllegalArgument)
  }

  /** `encode(List)`: `l`, every element in list order, `e`. */
  ghost function ListEncoding(cs: Charset, items: seq<Obj>): Output
    decreases items, 1
  {
    Then(Written([LIST_MARK]), Then(ItemsEncoding(cs, items, 0), Written([END_MARK])))
  }

  /** The elements of `items` from index `i` on, each through `encodeObject`. */
  ghost function ItemsEncoding(cs: Charset, items: seq<Obj>, i: nat): Output
    requires i <= |items|
    decreases items, 0, |items| - i
  {
    if i == |items| then Written([])
    else Then(ObjectEncoding(cs, items[i]), ItemsEncoding(cs, items, i + 1))
  }

  /**
   * `encode(Map)` on the entries of `o`: `d`, each key through
   * `encode(String)` followed by its value through `encodeObject`, in the
   * key order of a `TreeMap` copy, then `e`.
   */
  ghost function MapEncoding(cs: Charset, o: Obj): Output
    requires o.MapOf?
    decreases o, 1
  {
    Then(Written([DICTIONARY_MARK]), Then(EntriesEncoding(cs, o, o.entries.Keys), Written([END_MARK])))
  }

  /** The entries of `o` whose keys are in `rest`, least key first. */
  ghost function EntriesEncoding(cs: Charset, o: Obj, rest: set<JString>): Output
    requires o.MapOf? && rest <= o.entries.Keys
    decreases o, 0, rest
  {
    if rest == {} then Written([])
    else
      var k := Least(rest);
      Then(Written(TextEncoding(cs, k)),
           Then(ObjectEncoding(cs, o.entries[k]), EntriesEncoding(cs, o, rest - {k})))
  }

  // ---------------------------------------------------------------------
  // Which objects encode without an exception
  // ---------------------------------------------------------------------

  /**
   * The objects the documentation of `encode(List)` admits: `Integer`s,
   * `String`s, `byte[]`s, and lists and string-keyed maps of those.
   */
  ghost predicate Encodable(o: Obj)
    decreases o
  {
    match o
    case Integer(_) => true
    case Text(_) => true
    case ByteArray(_) => true
    case ListOf(items) => forall i :: 0 <= i < |items| ==> Encodable(items[i])
    case MapOf(m) => forall k :: k in m ==> Encodable(m[k])
    case _ => false
  }

  /**
   * An object is written out completely, with no exception, exactly when it
   * is built from the documented kinds alone; a `Long`, a `Byte`, a `null` or
   * an unsupported object anywhere inside it makes the whole call throw.
   */
  lemma {:induction false} EncodableExactly(cs: Charset, o: Obj)
    ensures ObjectEncoding(cs, o).failure.None? <==> Encodable(o)
    decreases o, 2
  {
    match o
    case ListOf(items) =>
      ItemsEncodable(cs, items, 0);
    case MapOf(m) =>
      EntriesEncodable(cs, o, m.Keys);
    case _ =>
  }

  lemma {:induction false} ItemsEncodable(cs: Charset, items: seq<Obj>, i: nat)
    requires i <= |items|
    ensures ItemsEncoding(cs, items, i).failure.None?
            <==> forall j :: i <= j < |items| ==> Encodable(items[j])
    decreases items, 0, |items| - i
  {
    if i < |items| {
      EncodableExactly(cs, items[i]);
      ItemsEncodable(cs, items, i + 1);
    }
  }

  lemma {:induction false} EntriesEncodable(cs: Charset, o: Obj, rest: set<JString>)
    requires o.MapOf? && rest <= o.entries.Keys
    ensures EntriesEncoding(cs, o, rest).failure.None?
            <==> forall k :: k in rest ==> Encodable(o.entries[k])
    decreases o, 0, rest
  {
    if rest != {} {
      var k := Least(rest);
      EncodableExactly(cs, o.entries[k]);
      EntriesEncodable(cs, o, rest - {k});
    }
  }

  // ---------------------------------------------------------------------
  // Entry order
  // ---------------------------------------------------------------------

  /** The entries of `o` for the keys `ks`, in the order of `ks`. */
  ghost function EntriesInOrder(cs: Charset, o: Obj, ks: seq<JString>): Output
    requires o.MapOf? && forall j :: 0 <= j < |ks| ==> ks[j] in o.entries
    decreases o, 0, |ks|
  {
    if ks == [] then Written([])
    else
      Then(Written(TextEncoding(cs, ks[0])),
           Then(ObjectEncoding(cs, o.entries[ks[0]]), EntriesInOrder(cs, o, ks[1..])))
  }

  /**
   * `encode(Map)` writes the entries in the order of `SortedKeys`: every key
   * once, in strictly increasing `compareTo` order (`SortedKeysOrder`),
   * whatever order the map it was handed would iterate in.
   */
  lemma {:induction false} EntriesSorted(cs: Charset, o: Obj, rest: set<JString>)
    requires o.MapOf? && rest <= o.entries.Keys
    ensures forall j :: 0 <= j < |SortedKeys(rest)| ==> SortedKeys(rest)[j] in o.entries
    ensures EntriesEncoding(cs, o, rest) == EntriesInOrder(cs, o, SortedKeys(rest))
    decreases rest
  {
    SortedKeysOrder(rest);
    if rest != {} {
      var k := Least(rest);
      EntriesSorted(cs, o, rest - {k});
      var ks := SortedKeys(rest);
      assert ks[1..] == SortedKeys(rest - {k});
    }
  }

  // ---------------------------------------------------------------------
  // One turn of the loops of encode(List) and encode(Map)
  // ---------------------------------------------------------------------

  /**
   * After the elements before `i` wrote `written`, element `i` either throws,
   * which ends the whole list, or extends `written` by its own bytes.
   */
  lemma ItemsStep(cs: Charset, items: seq<Obj>, i: nat, written: seq<byte>)
    requires i < |items|
    requires Then(Written(written), ItemsEncoding(cs, items, i)) == ItemsEncoding(cs, items, 0)
    ensures var step := ObjectEncoding(cs, items[i]);
      && (step.failure.Some? ==>
            ListEncoding(cs, items) == Output([LIST_MARK] + (written + step.bytes), step.failure))
      && (step.failure.None? ==>
            Then(Written(written + step.bytes), ItemsEncoding(cs, items, i + 1)) == ItemsEncoding(cs, items, 0))
  {
    var step := ObjectEncoding(cs, items[i]);
    var rest := ItemsEncoding(cs, items, i + 1);
    ThenAssociative(Written(written), step, rest);
    if step.failure.Some? {
      ThenAssociative(Written([LIST_MARK]), ItemsEncoding(cs, items, 0), Written([END_MARK]));
    }
  }

  lemma ListDone(cs: Charset, items: seq<Obj>, written: seq<byte>)
    requires Then(Written(written), ItemsEncoding(cs, items, |items|)) == ItemsEncoding(cs, items, 0)
    ensures ListEncoding(cs, items) == Written([LIST_MARK] + written + [END_MARK])
  {
    Associative([LIST_MARK], written, [END_MARK]);
  }

  /** The same for one entry of a map: its key, then its value. */
  lemma EntriesStep(cs: Charset, o: Obj, rest: set<JString>, k: JString, written: seq<byte>)
    requires o.MapOf? && rest <= o.entries.Keys && IsLeast(k, rest)
    requires Then(Written(written), EntriesEncoding(cs, o, rest)) == EntriesEncoding(cs, o, o.entries.Keys)
    ensures var value := ObjectEncoding(cs, o.entries[k]);
      var step := TextEncoding(cs, k) + value.bytes;
      && (value.failure.Some? ==>
            MapEncoding(cs, o) == Output([DICTIONARY_MARK] + (written + step), value.failure))
      && (value.failure.None? ==>
            Then(Written(written + step), EntriesEncoding(cs, o, rest - {k})) == EntriesEncoding(cs, o, o.entries.Keys))
  {
    assert k == Least(rest);
    var head := Written(TextEncoding(cs, k));
    var value := ObjectEncoding(cs, o.entries[k]);
    var tail := EntriesEncoding(cs, o, rest - {k});
    ThenAssociative(head, value, tail);
    ThenAssociative(Written(written), head, Then(value, tail));
    ThenAssociative(Written(written), Then(head, value), tail);
    Associative(written, TextEncoding(cs, k), value.bytes);
    if value.failure.Some? {
      ThenAssociative(Written([DICTIONARY_MARK]), EntriesEncoding(cs, o, o.entries.Keys), Written([END_MARK]));
    }
  }

  lemma MapDone(cs: Charset, o: Obj, written: seq<byte>)
    requires o.MapOf?
    requires Then(Written(written), EntriesEncoding(cs, o, {})) == EntriesEncoding(cs, o, o.entries.Keys)
    ensures MapEncoding(cs, o) == Written([DICTIONARY_MARK] + written + [END_MARK])
  {
    Associative([DICTIONARY_MARK], written, [END_MARK]);
  }

  // ---------------------------------------------------------------------
  // The encoder object
  // ---------------------------------------------------------------------

  /**
   * A `Bencoder`: the charset strings are encoded with, and everything
   * written to its output stream so far.
   */
  class Bencoder {
    const charset: Charset
    var out: seq<byte>

    /** `Bencoder(charset, outputStream)` on an empty stream. */
    constructor (charset: Charset)
      ensures this.charset == charset && out == []
    {
      this.charset := charset;
      out := [];
    }

    method EncodeInt(i: int32)
      modifies this
      ensures out == old(out) + IntEncoding(i)
    {
      out := out + [INTEGER_MARK];
      out := out + DecimalText(i);
      out := out + [END_MARK];
    }

    method EncodeText(s: JString)
      modifies this
      ensures out == old(out) + TextEncoding(charset, s)
    {
      out := out + DecimalText(|s|);
      out := out + [STRING_SPLIT];
      out := out + GetBytes(charset, s);
    }

    method EncodeBytes(bytes: seq<byte>)
      modifies this
      ensures out == old(out) + BytesEncoding(bytes)
    {
      out := out + DecimalText(|bytes|);
      out := out + [STRING_SPLIT];
      out := out + bytes;
    }

    /** `encode(List)`; `thrown` is the exception that escaped, if any. */
    method EncodeList(list: seq<Obj>) returns (thrown: Option<Exception>)
      modifies this
      ensures out == old(out) + ListEncoding(charset, list).bytes
      ensures thrown == ListEncoding(charset, list).failure
      decreases list, 1
    {
      out := out + [LIST_MARK];
      ghost var written: seq<byte> := [];
      var i := 0;
      while i < |list|
        invariant i <= |list|
        invariant out == old(out) + [LIST_MARK] + written
        invariant Then(Written(written), ItemsEncoding(charset, list, i)) == ItemsEncoding(charset, list, 0)
      {
        thrown := EncodeObject(list[i]);
        ghost var step := ObjectEncoding(charset, list[i]);
        Associative(old(out) + [LIST_MARK], written, step.bytes);
        Associative(old(out), [LIST_MARK], written + step.bytes);
        ItemsStep(charset, list, i, written);
        if thrown.Some? {
          return;
        }
        written := written + step.bytes;
        i := i + 1;
      }
      out := out + [END_MARK];
      ListDone(charset, list, written);
      Associative(old(out), [LIST_MARK], written);
      Associative(old(out), [LIST_MARK] + written, [END_MARK]);
      thrown := None;
    }

    /**
     * `encode(Map)`. The `TreeMap` copy is walked by taking the least key
     * not yet written, which is the order its entry set iterates in.
     */
    method EncodeMap(dictionary: map<JString, Obj>) returns (thrown: Option<Exception>)
      modifies this
      ensures out == old(out) + MapEncoding(charset, MapOf(dictionary)).bytes
      ensures thrown == MapEncoding(charset, MapOf(dictionary)).failure
      decreases MapOf(dictionary), 1
    {
      ghost var o := MapOf(dictionary);
      out := out + [DICTIONARY_MARK];
      ghost var written: seq<byte> := [];
      var rest := dictionary.Keys;
      while rest != {}
        invariant rest <= dictionary.Keys
        invariant out == old(out) + [DICTIONARY_MARK] + written
        invariant Then(Written(written), EntriesEncoding(charset, o, rest)) == EntriesEncoding(charset, o, dictionary.Keys)
        decreases rest
      {
        LeastExists(rest);
        var key :| IsLeast(key, rest);
        EncodeText(key);
        thrown := EncodeObject(dictionary[key]);
        ghost var step := TextEncoding(charset, key) + ObjectEncoding(charset, dictionary[key]).bytes;
        Associative(old(out) + [DICTIONARY_MARK] + written, TextEncoding(charset, key), ObjectEncoding(charset, dictionary[key]).bytes);
        Associative(old(out) + [DICTIONARY_MARK], written, step);
        Associative(old(out), [DICTIONARY_MARK], written + step);
        EntriesStep(charset, o, rest, key, written);
        if thrown.Some? {
          return;
        }
        written := written + step;
        rest := rest - {key};
      }
      out := out + [END_MARK];
      MapDone(charset, o, written);
      Associative(old(out), [DICTIONARY_MARK], written);
      Associative(old(out), [DICTIONARY_MARK] + written, [END_MARK]);
      thrown := None;
    }

    /** `encodeObject`, dispatching on the object's runtime class. */
    method EncodeObject(item: Obj) returns (thrown: Option<Exception>)
      modifies this
      ensures out == old(out) + ObjectEncoding(charset, item).bytes
      ensures thrown == ObjectEncoding(charset, item).failure
      decreases item, 2
    {
      match item
      case Integer(i) =>
        EncodeInt(i);
        thrown := None;
      case Long(_) =>
        thrown := Some(ClassCast);
      case Byte(_) =>
        thrown := Some(ClassCast);
      case Text(s) =>
        EncodeText(s);
        thrown := None;
      case ByteArray(b) =>
        EncodeBytes(b);
        thrown := None;
      case ListOf(items) =>
        thrown := EncodeList(items);
      case MapOf(m) =>
        thrown := EncodeMap(m);
      case Null =>
        thrown := Some(NullPointer);
      case Unsupported =>
        thrown := Some(IllegalArgument);
    }
  }
}
