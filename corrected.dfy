/**
 * The encoder with its two defects repaired (see the findings in the
 * README): a `Long` or a `Byte` is written as the number it holds, and a
 * string is written with the length of its encoded bytes, exactly as the
 * byte array `getBytes(charset)` would be. Everything else is as in
 * `Encoder`, and where neither defect can show, the two agree.
 *
 * This module also says which objects the decoders can give back and what
 * value they stand for.
 */
module Corrected {
  import opened Bencode
  import opened Decimal
  import opened Java
  import opened Encoder

  /** A string, written as the byte array `enc` turns it into. */
  function TextEncodingFixed(enc: JString -> seq<byte>, s: JString): seq<byte>
  {
    BytesEncoding(enc(s))
  }

  ghost function ObjectEncodingFixed(enc: JString -> seq<byte>, o: Obj): Output
    decreases o, 2
  {
    match o
    case Integer(i) => Written(IntEncoding(i))
    case Long(l) => Written(IntEncoding(l))
    case Byte(b) => Written(IntEncoding(b))
    case Text(s) => Written(TextEncodingFixed(enc, s))
    case ByteArray(b) => Written(BytesEncoding(b))
    case ListOf(items) => ListEncodingFixed(enc, items)
    case MapOf(_) => MapEncodingFixed(enc, o)
    case Null => Thrown(NullPointer)
    case Unsupported => Thrown(IllegalArgument)
  }

  ghost function ListEncodingFixed(enc: JString -> seq<byte>, items: seq<Obj>): Output
    decreases items, 1
  {
    Then(Written([LIST_MARK]), Then(ItemsEncodingFixed(enc, items, 0), Written([END_MARK])))
  }

  ghost function ItemsEncodingFixed(enc: JString -> seq<byte>, items: seq<Obj>, i: nat): Output
    requires i <= |items|
    decreases items, 0, |items| - i
  {
    if i == |items| then Written([])
    else Then(ObjectEncodingFixed(enc, items[i]), ItemsEncodingFixed(enc, items, i + 1))
  }

  ghost function MapEncodingFixed(enc: JString -> seq<byte>, o: Obj): Output
    requires o.MapOf?
    decreases o, 1
  {
    Then(Written([DICTIONARY_MARK]), Then(EntriesEncodingFixed(enc, o, o.entries.Keys), Written([END_MARK])))
  }

  ghost function EntriesEncodingFixed(enc: JString -> seq<byte>, o: Obj, rest: set<JString>): Output
    requires o.MapOf? && rest <= o.entries.Keys
    decreases o, 0, rest
  {
    if rest == {} then Written([])
    else
      var k := Least(rest);
      Then(Written(TextEncodingFixed(enc, k)),
           Then(ObjectEncodingFixed(enc, o.entries[k]), EntriesEncodingFixed(enc, o, rest - {k})))
  }

  // ---------------------------------------------------------------------
  // Where the source's encoder is already right
  // ---------------------------------------------------------------------

  /** Every string in `o`, keys included, encodes to one byte per code unit. */
  ghost predicate LengthsAgree(cs: Charset, o: Obj)
    decreases o
  {
    match o
    case Text(s) => |GetBytes(cs, s)| == |s|
    case ListOf(items) => forall i :: 0 <= i < |items| ==> LengthsAgree(cs, items[i])
    case MapOf(m) => forall k :: k in m ==> |GetBytes(cs, k)| == |k| && LengthsAgree(cs, m[k])
    case _ => true
  }

  /**
   * On an object of the documented kinds whose strings encode to one byte
   * per code unit, the source's encoder writes exactly what the corrected
   * one writes.
   */
  lemma {:induction false} FixedAgrees(cs: Charset, o: Obj)
    requires Encodable(o) && LengthsAgree(cs, o)
    ensures ObjectEncoding(cs, o) == ObjectEncodingFixed(KeyBytes(cs), o)
    decreases o, 2
  {
    match o
    case ListOf(items) =>
      ItemsFixedAgree(cs, items, 0);
    case MapOf(m) =>
      EntriesFixedAgree(cs, o, m.Keys);
    case _ =>
  }

  lemma {:induction false} ItemsFixedAgree(cs: Charset, items: seq<Obj>, i: nat)
    requires i <= |items|
    requires forall j :: 0 <= j < |items| ==> Encodable(items[j]) && LengthsAgree(cs, items[j])
    ensures ItemsEncoding(cs, items, i) == ItemsEncodingFixed(KeyBytes(cs), items, i)
    decreases items, 0, |items| - i
  {
    if i < |items| {
      FixedAgrees(cs, items[i]);
      ItemsFixedAgree(cs, items, i + 1);
    }
  }

  lemma {:induction false} EntriesFixedAgree(cs: Charset, o: Obj, rest: set<JString>)
    requires o.MapOf? && rest <= o.entries.Keys
    requires forall k :: k in o.entries ==>
      |GetBytes(cs, k)| == |k| && Encodable(o.entries[k]) && LengthsAgree(cs, o.entries[k])
    ensures EntriesEncoding(cs, o, rest) == EntriesEncodingFixed(KeyBytes(cs), o, rest)
    decreases o, 0, rest
  {
    if rest != {} {
      var k := Least(rest);
      FixedAgrees(cs, o.entries[k]);
      EntriesFixedAgree(cs, o, rest - {k});
    }
  }

  // ---------------------------------------------------------------------
  // The value an object stands for
  // ---------------------------------------------------------------------

  /**
   * Objects with a bencode value: no `null` and no unsupported class, and
   * every string, key and array short enough for a Java length.
   */
  ghost predicate Representable(enc: JString -> seq<byte>, o: Obj)
    decreases o
  {
    match o
    case Integer(_) => true
    case Long(_) => true
    case Byte(_) => true
    case Text(s) => |enc(s)| <= INT_MAX
    case ByteArray(b) => |b| <= INT_MAX
    case ListOf(items) => forall i :: 0 <= i < |items| ==> Representable(enc, items[i])
    case MapOf(m) => forall k :: k in m ==> |enc(k)| <= INT_MAX && Representable(enc, m[k])
    case _ => false
  }

  /** A map key as the decoders see it: its bytes in `cs`. */
  function KeyBytes(cs: Charset): JString -> seq<byte>
  {
    s => GetBytes(cs, s)
  }

  /** `f` tells the elements of `keys` apart. */
  ghost predicate Injective<K, L>(keys: set<K>, f: K -> L)
  {
    forall a, b :: a in keys && b in keys && f(a) == f(b) ==> a == b
  }

  /** The entries of `values` whose keys are in `keys`, each key renamed by `f`. */
  ghost function Relabel<K, L, V>(keys: set<K>, f: K -> L, values: map<K, V>): map<L, V>
    requires keys <= values.Keys && Injective(keys, f)
  {
    map k | k in keys :: f(k) := values[k]
  }

  /** Relabelling `keys` is relabelling `keys - {k}`, whose keys miss `f(k)`, and adding `k`'s entry. */
  lemma RelabelInsert<K, L, V>(keys: set<K>, f: K -> L, values: map<K, V>, k: K)
    requires keys <= values.Keys && Injective(keys, f) && k in keys
    ensures f(k) !in Relabel(keys - {k}, f, values)
    ensures Relabel(keys, f, values) == Relabel(keys - {k}, f, values)[f(k) := values[k]]
  {
    var smaller := Relabel(keys - {k}, f, values);
    var whole := Relabel(keys, f, values);
    var grown := smaller[f(k) := values[k]];
    forall j | j in keys - {k}
      ensures f(j) != f(k)
    {
    }
    forall key | key in whole
      ensures key in grown && whole[key] == grown[key]
    {
      var j :| j in keys && f(j) == key;
      if j != k {
        assert key in smaller;
      }
    }
    forall key | key in grown
      ensures key in whole
    {
      if key != f(k) {
        var j :| j in keys - {k} && f(j) == key;
      }
    }
  }

  /**
   * The bencode value of an object, strings and keys as the bytes `enc` gives them.
   * A map's entries are put into the dictionary least key first, as the
   * encoder writes them and the decoder reads them back, so that when two
   * keys share their bytes the later entry is the one kept.
   */
  ghost function ToValue(enc: JString -> seq<byte>, o: Obj): Value
    requires Representable(enc, o)
    decreases o, 1
  {
    match o
    case Integer(i) => Int(i)
    case Long(l) => Int(l)
    case Byte(b) => Int(b)
    case Text(s) => Str(enc(s))
    case ByteArray(b) => Str(b)
    case ListOf(items) => List(ItemsInto(enc, o, [], 0))
    case MapOf(m) => Dict(EntriesInto(enc, o, map[], m.Keys))
  }

  /** `list` followed by the values of the elements of `o` from index `i` on. */
  ghost function ItemsInto(enc: JString -> seq<byte>, o: Obj, list: seq<Value>, i: nat): seq<Value>
    requires o.ListOf? && Representable(enc, o) && i <= |o.items|
    decreases o, 0, |o.items| - i
  {
    if i == |o.items| then list else ItemsInto(enc, o, list + [ToValue(enc, o.items[i])], i + 1)
  }

  /** A list's value holds the value of each of its elements, in order. */
  lemma ListElements(enc: JString -> seq<byte>, o: Obj)
    requires o.ListOf? && Representable(enc, o)
    ensures |ToValue(enc, o).items| == |o.items|
    ensures forall j :: 0 <= j < |o.items| ==> ToValue(enc, o).items[j] == ToValue(enc, o.items[j])
  {
    var values := ItemsInto(enc, o, [], 0);
    assert ToValue(enc, o).items == values;
    ItemsIntoAppends(enc, o, [], 0);
    forall j | 0 <= j < |o.items|
      ensures values[j] == ToValue(enc, o.items[j])
    {
      assert values[j] == ToValue(enc, o.items[j - 0 + 0]);
    }
  }

  lemma {:induction false} ItemsIntoAppends(enc: JString -> seq<byte>, o: Obj, list: seq<Value>, i: nat)
    requires o.ListOf? && Representable(enc, o) && i <= |o.items|
    ensures |ItemsInto(enc, o, list, i)| == |list| + |o.items| - i
    ensures ItemsInto(enc, o, list, i)[..|list|] == list
    ensures forall j :: |list| <= j < |list| + |o.items| - i ==>
              ItemsInto(enc, o, list, i)[j] == ToValue(enc, o.items[j - |list| + i])
    decreases |o.items| - i
  {
    if i < |o.items| {
      var grown := list + [ToValue(enc, o.items[i])];
      ItemsIntoAppends(enc, o, grown, i + 1);
      var r := ItemsInto(enc, o, list, i);
      assert r == ItemsInto(enc, o, grown, i + 1);
      assert r[..|list|] == grown[..|list|];
      assert r[|list|] == grown[|list|];
    }
  }

  /** `dictionary` with the entries of `o` for the keys in `rest` put in, least key first. */
  ghost function EntriesInto(enc: JString -> seq<byte>, o: Obj, dictionary: map<seq<byte>, Value>, rest: set<JString>)
    : map<seq<byte>, Value>
    requires o.MapOf? && Representable(enc, o) && rest <= o.entries.Keys
    decreases o, 0, rest
  {
    if rest == {} then dictionary
    else
      var k := Least(rest);
      EntriesInto(enc, o, dictionary[enc(k) := ToValue(enc, o.entries[k])], rest - {k})
  }

  /** The value of each entry of a map, under its original key. */
  ghost function EntryValues(enc: JString -> seq<byte>, o: Obj): map<JString, Value>
    requires o.MapOf? && Representable(enc, o)
  {
    map k | k in o.entries :: ToValue(enc, o.entries[k])
  }

  /**
   * When no two keys of a map share their bytes, its dictionary holds exactly
   * one entry per key: the key's bytes mapped to the value of its entry.
   */
  lemma DictEntries(enc: JString -> seq<byte>, o: Obj)
    requires o.MapOf? && Representable(enc, o) && Injective(o.entries.Keys, enc)
    ensures ToValue(enc, o).entries == Relabel(o.entries.Keys, enc, EntryValues(enc, o))
  {
    EntriesIntoUnion(enc, o, map[], o.entries.Keys);
    assert map[] + Relabel(o.entries.Keys, enc, EntryValues(enc, o))
        == Relabel(o.entries.Keys, enc, EntryValues(enc, o));
  }

  lemma {:induction false} EntriesIntoUnion(enc: JString -> seq<byte>, o: Obj, dictionary: map<seq<byte>, Value>,
                                            rest: set<JString>)
    requires o.MapOf? && Representable(enc, o) && rest <= o.entries.Keys && Injective(rest, enc)
    ensures EntriesInto(enc, o, dictionary, rest) == dictionary + Relabel(rest, enc, EntryValues(enc, o))
    decreases rest
  {
    var values := EntryValues(enc, o);
    if rest == {} {
      assert Relabel(rest, enc, values) == map[];
      assert dictionary + map[] == dictionary;
    } else {
      var k := Least(rest);
      var grown := dictionary[enc(k) := ToValue(enc, o.entries[k])];
      assert Injective(rest - {k}, enc);
      EntriesIntoUnion(enc, o, grown, rest - {k});
      RelabelInsert(rest, enc, values, k);
      UpdateUnion(dictionary, Relabel(rest - {k}, enc, values), enc(k), ToValue(enc, o.entries[k]));
    }
  }

  lemma UpdateUnion<K, V>(d: map<K, V>, s: map<K, V>, g: K, v: V)
    requires g !in s
    ensures d[g := v] + s == d + s[g := v]
  {
  }

  /** The corrected encoder writes every representable object completely. */
  lemma {:induction false} FixedSucceeds(enc: JString -> seq<byte>, o: Obj)
    requires Representable(enc, o)
    ensures ObjectEncodingFixed(enc, o).failure.None?
    decreases o, 2
  {
    match o
    case ListOf(items) =>
      ItemsSucceed(enc, items, 0);
    case MapOf(m) =>
      EntriesSucceed(enc, o, m.Keys);
    case _ =>
  }

  lemma {:induction false} ItemsSucceed(enc: JString -> seq<byte>, items: seq<Obj>, i: nat)
    requires i <= |items| && forall j :: 0 <= j < |items| ==> Representable(enc, items[j])
    ensures ItemsEncodingFixed(enc, items, i).failure.None?
    decreases items, 0, |items| - i
  {
    if i < |items| {
      FixedSucceeds(enc, items[i]);
      ItemsSucceed(enc, items, i + 1);
    }
  }

  lemma {:induction false} EntriesSucceed(enc: JString -> seq<byte>, o: Obj, rest: set<JString>)
    requires o.MapOf? && rest <= o.entries.Keys && Representable(enc, o)
    ensures EntriesEncodingFixed(enc, o, rest).failure.None?
    decreases o, 0, rest
  {
    if rest != {} {
      var k := Least(rest);
      FixedSucceeds(enc, o.entries[k]);
      EntriesSucceed(enc, o, rest - {k});
    }
  }

  // ---------------------------------------------------------------------
  // The shape of what the corrected encoder writes for a representable object
  // ---------------------------------------------------------------------

  lemma ListShape(enc: JString -> seq<byte>, items: seq<Obj>)
    requires forall j :: 0 <= j < |items| ==> Representable(enc, items[j])
    ensures ListEncodingFixed(enc, items)
            == Written([LIST_MARK] + ItemsEncodingFixed(enc, items, 0).bytes + [END_MARK])
  {
    ItemsSucceed(enc, items, 0);
    Associative([LIST_MARK], ItemsEncodingFixed(enc, items, 0).bytes, [END_MARK]);
  }

  lemma ItemsShape(enc: JString -> seq<byte>, items: seq<Obj>, i: nat)
    requires i < |items| && forall j :: 0 <= j < |items| ==> Representable(enc, items[j])
    ensures ItemsEncodingFixed(enc, items, i)
            == Written(ObjectEncodingFixed(enc, items[i]).bytes + ItemsEncodingFixed(enc, items, i + 1).bytes)
  {
    FixedSucceeds(enc, items[i]);
    ItemsSucceed(enc, items, i + 1);
  }

  lemma MapShape(enc: JString -> seq<byte>, o: Obj)
    requires o.MapOf? && Representable(enc, o)
    ensures MapEncodingFixed(enc, o)
            == Written([DICTIONARY_MARK] + EntriesEncodingFixed(enc, o, o.entries.Keys).bytes + [END_MARK])
  {
    EntriesSucceed(enc, o, o.entries.Keys);
    Associative([DICTIONARY_MARK], EntriesEncodingFixed(enc, o, o.entries.Keys).bytes, [END_MARK]);
  }

  lemma EntriesShape(enc: JString -> seq<byte>, o: Obj, rest: set<JString>)
    requires o.MapOf? && Representable(enc, o) && rest <= o.entries.Keys && rest != {}
    ensures var k := Least(rest);
      EntriesEncodingFixed(enc, o, rest)
      == Written(TextEncodingFixed(enc, k)
                 + (ObjectEncodingFixed(enc, o.entries[k]).bytes + EntriesEncodingFixed(enc, o, rest - {k}).bytes))
  {
    var k := Least(rest);
    FixedSucceeds(enc, o.entries[k]);
    EntriesSucceed(enc, o, rest - {k});
  }
}
