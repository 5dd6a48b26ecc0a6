/**
 * What the decoder of package org.benjamin reads back from what the
 * corrected encoder wrote: the value the encoded object stands for, with the
 * cursor just past the encoding, wherever in a stream the encoding sits.
 */
module RoundTrip {
  import opened Bencode
  import opened Decimal
  import opened Java
  import opened Encoder
  import opened Corrected
  import opened Layout
  import opened Decoder

  /** `readInt` reads what `encode(int)` wrote, for any `long`. */
  lemma {:induction false} IntRoundTrip(data: seq<byte>, p: nat, n: int)
    requires LONG_MIN <= n <= LONG_MAX && At(data, p, IntEncoding(n))
    ensures data[p] == INTEGER_MARK && IntAt(data, p) == Ok(Parsed(n, p + |IntEncoding(n)|))
  {
    IntPieces(data, p, n);
    NumberText(n);
    IntAtOutcome(data, p, p + 1 + |DecimalText(n)|);
  }

  /** `readBytes` reads what `encode(byte[])` wrote. */
  lemma {:induction false} BytesRoundTrip(data: seq<byte>, p: nat, b: seq<byte>)
    requires |b| <= INT_MAX && At(data, p, BytesEncoding(b))
    ensures BytesAt(data, p) == Ok(Parsed(b, p + |BytesEncoding(b)|))
    ensures IsDigit(data[p])
  {
    var t := DecimalText(|b|);
    BytesPieces(data, p, b);
    LengthText(|b|);
    assert data[p] == t[0];
    BytesAtOutcome(data, p, p + |t|);
  }

  /**
   * Decoding, at any position, what the corrected encoder wrote for a
   * representable object gives back that object's value and stops right
   * after the encoding.
   */
  lemma {:induction false} ValueRoundTrip(enc: JString -> seq<byte>, o: Obj, data: seq<byte>, p: nat)
    requires Representable(enc, o) && At(data, p, ObjectEncodingFixed(enc, o).bytes)
    ensures ValueAt(data, p) == Ok(Parsed(ToValue(enc, o), p + |ObjectEncodingFixed(enc, o).bytes|))
    decreases o, 3
  {
    if o.Integer? || o.Long? || o.Byte? {
      NumberRoundTrip(enc, o, data, p);
    } else if o.Text? || o.ByteArray? {
      StringRoundTrip(enc, o, data, p);
    } else if o.ListOf? {
      ListRoundTrip(enc, o, data, p);
    } else {
      MapRoundTrip(enc, o, data, p);
    }
  }

  /**
   * The round trip of the source's own encoder: when every string of an
   * object of the documented kinds encodes to one byte per character, what
   * `encodeObject` writes is decoded back to the object's value.
   */
  lemma {:induction false} EncoderRoundTrip(cs: Charset, o: Obj, data: seq<byte>, p: nat)
    requires Encodable(o) && LengthsAgree(cs, o) && Representable(KeyBytes(cs), o)
    requires At(data, p, ObjectEncoding(cs, o).bytes)
    ensures ObjectEncoding(cs, o).failure.None?
    ensures ObjectEncoding(cs, o).bytes == ObjectEncodingFixed(KeyBytes(cs), o).bytes
    ensures ValueAt(data, p) == Ok(Parsed(ToValue(KeyBytes(cs), o), p + |ObjectEncodingFixed(KeyBytes(cs), o).bytes|))
  {
    EncodableExactly(cs, o);
    FixedAt(cs, o, data, p);
    KeyedRoundTrip(cs, o, data, p);
  }

  /** The round trip of the corrected encoder with strings written in `cs`. */
  lemma {:induction false} KeyedRoundTrip(cs: Charset, o: Obj, data: seq<byte>, p: nat)
    requires Representable(KeyBytes(cs), o) && At(data, p, ObjectEncodingFixed(KeyBytes(cs), o).bytes)
    ensures ValueAt(data, p) == Ok(Parsed(ToValue(KeyBytes(cs), o), p + |ObjectEncodingFixed(KeyBytes(cs), o).bytes|))
  {
    ValueRoundTrip(KeyBytes(cs), o, data, p);
  }

  /**
   * `encodeObject` under `cs` wrote `o` at `p`, `o` being of the documented
   * kinds with strings of one byte per character, each string's bytes a key
   * the decoder tells apart.
   */
  ghost predicate WrittenAt(cs: Charset, o: Obj, data: seq<byte>, p: nat)
  {
    Encodable(o) && LengthsAgree(cs, o) && Representable(KeyBytes(cs), o) && At(data, p, ObjectEncoding(cs, o).bytes)
  }

  /** Where the source's encoder wrote an object, the corrected encoder's bytes are there too. */
  lemma {:induction false} FixedAt(cs: Charset, o: Obj, data: seq<byte>, p: nat)
    requires WrittenAt(cs, o, data, p)
    ensures Representable(KeyBytes(cs), o) && At(data, p, ObjectEncodingFixed(KeyBytes(cs), o).bytes)
    ensures ObjectEncoding(cs, o).bytes == ObjectEncodingFixed(KeyBytes(cs), o).bytes
  {
    FixedAgrees(cs, o);
  }

  /** An `Integer`, `Long` or `Byte` comes back as its number. */
  lemma {:induction false} NumberRoundTrip(enc: JString -> seq<byte>, o: Obj, data: seq<byte>, p: nat)
    requires (o.Integer? || o.Long? || o.Byte?) && At(data, p, ObjectEncodingFixed(enc, o).bytes)
    ensures ValueAt(data, p) == Ok(Parsed(ToValue(enc, o), p + |ObjectEncodingFixed(enc, o).bytes|))
  {
    var n: int := if o.Integer? then o.i as int else if o.Long? then o.l as int else o.b as int;
    IntRoundTrip(data, p, n);
    ValueOfInt(data, p, n, p + |IntEncoding(n)|);
  }

  /** A `String` comes back as its bytes in the charset, a `byte[]` as itself. */
  lemma {:induction false} StringRoundTrip(enc: JString -> seq<byte>, o: Obj, data: seq<byte>, p: nat)
    requires (o.Text? || o.ByteArray?) && Representable(enc, o) && At(data, p, ObjectEncodingFixed(enc, o).bytes)
    ensures ValueAt(data, p) == Ok(Parsed(ToValue(enc, o), p + |ObjectEncodingFixed(enc, o).bytes|))
  {
    var b := if o.Text? then enc(o.s) else o.bytes;
    BytesRoundTrip(data, p, b);
    ValueOfBytes(data, p, b, p + |BytesEncoding(b)|);
  }

  lemma {:induction false} ValueOfInt(data: seq<byte>, p: nat, n: int, q: nat)
    requires p < |data| && data[p] == INTEGER_MARK && IntAt(data, p) == Ok(Parsed(n, q))
    ensures ValueAt(data, p) == Ok(Parsed(Int(n), q))
  {
  }

  lemma {:induction false} ValueOfBytes(data: seq<byte>, p: nat, b: seq<byte>, q: nat)
    requires p < |data| && IsDigit(data[p]) && BytesAt(data, p) == Ok(Parsed(b, q))
    ensures ValueAt(data, p) == Ok(Parsed(Str(b), q))
  {
  }

  /** `readList` from `p` reads `items` and leaves the cursor at `q`. */
  ghost predicate ListRead(data: seq<byte>, p: nat, items: seq<Value>, q: nat)
    requires p <= |data|
  {
    ListAt(data, p) == Ok(Parsed(items, q))
  }

  /** `readDictionary` from `p` reads `entries` and leaves the cursor at `q`. */
  ghost predicate DictRead(data: seq<byte>, p: nat, entries: map<seq<byte>, Value>, q: nat)
    requires p <= |data|
  {
    DictAt(data, p) == Ok(Parsed(entries, q))
  }

  /** `readList` from `p` reads on as its loop does from `p + 1`, with nothing read yet. */
  ghost predicate ListOpens(data: seq<byte>, p: nat)
    requires p < |data|
  {
    ListAt(data, p) == ListItems(data, p + 1, [])
  }

  /** `readDictionary` from `p` reads on as its loop does from `p + 1`, with nothing read yet. */
  ghost predicate DictOpens(data: seq<byte>, p: nat)
    requires p < |data|
  {
    DictAt(data, p) == DictItems(data, p + 1, map[])
  }

  lemma {:induction false} ValueOfList(data: seq<byte>, p: nat, items: seq<Value>, q: nat)
    requires p < |data| && data[p] == LIST_MARK && ListRead(data, p, items, q)
    ensures ValueAt(data, p) == Ok(Parsed(List(items), q))
  {
  }

  lemma {:induction false} ValueOfDict(data: seq<byte>, p: nat, entries: map<seq<byte>, Value>, q: nat)
    requires p < |data| && data[p] == DICTIONARY_MARK && DictRead(data, p, entries, q)
    ensures ValueAt(data, p) == Ok(Parsed(Dict(entries), q))
  {
  }

  /** A list comes back as the values of its elements. */
  lemma {:induction false} ListRoundTrip(enc: JString -> seq<byte>, o: Obj, data: seq<byte>, p: nat)
    requires o.ListOf? && Representable(enc, o) && At(data, p, ObjectEncodingFixed(enc, o).bytes)
    ensures ValueAt(data, p) == Ok(Parsed(ToValue(enc, o), p + |ObjectEncodingFixed(enc, o).bytes|))
    decreases o, 2
  {
    var q := p + |ObjectEncodingFixed(enc, o).bytes|;
    ListDecoded(enc, o, data, p, q);
    ValueOfList(data, p, ItemsInto(enc, o, [], 0), q);
  }

  /** `readList` reads the elements of a list, ending at `q`. */
  lemma {:induction false} ListDecoded(enc: JString -> seq<byte>, o: Obj, data: seq<byte>, p: nat, q: nat)
    requires o.ListOf? && Representable(enc, o) && At(data, p, ObjectEncodingFixed(enc, o).bytes)
    requires q == p + |ObjectEncodingFixed(enc, o).bytes|
    ensures p < |data| && data[p] == LIST_MARK
    ensures ListRead(data, p, ItemsInto(enc, o, [], 0), q)
    ensures ToValue(enc, o) == List(ItemsInto(enc, o, [], 0))
    decreases o, 1, |o.items| + 1
  {
    ListFrame(enc, o, data, p, q);
    ItemsRoundTrip(enc, o, 0, data, p + 1, []);
    ListJoin(enc, o, data, p, q);
  }

  /** The list mark, then all the elements read from `p + 1` on: the whole list, ending at `q`. */
  lemma {:induction false} ListJoin(enc: JString -> seq<byte>, o: Obj, data: seq<byte>, p: nat, q: nat)
    requires o.ListOf? && Representable(enc, o) && p < |data|
    requires ListOpens(data, p) && ItemsRead(enc, o, 0, data, p + 1, [])
    requires q == p + 1 + |ItemsEncodingFixed(enc, o.items, 0).bytes| + 1
    ensures ListRead(data, p, ItemsInto(enc, o, [], 0), q)
  {
  }

  /** The list mark, then the elements and `e` right after it, ending at `q`. */
  lemma {:induction false} ListFrame(enc: JString -> seq<byte>, o: Obj, data: seq<byte>, p: nat, q: nat)
    requires o.ListOf? && Representable(enc, o) && At(data, p, ObjectEncodingFixed(enc, o).bytes)
    requires q == p + |ObjectEncodingFixed(enc, o).bytes|
    ensures p < |data| && data[p] == LIST_MARK
    ensures ListOpens(data, p)
    ensures At(data, p + 1, ItemsEncodingFixed(enc, o.items, 0).bytes + [END_MARK])
    ensures q == p + 1 + |ItemsEncodingFixed(enc, o.items, 0).bytes| + 1
    ensures ToValue(enc, o) == List(ItemsInto(enc, o, [], 0))
  {
    ListShape(enc, o.items);
    AtTwo(data, p, [LIST_MARK], ItemsEncodingFixed(enc, o.items, 0).bytes, [END_MARK]);
  }

  /**
   * What `readList` reads from `q` on when the elements from index `i` and
   * an `e` are there: `list` with those elements appended, and the cursor
   * past the `e`.
   */
  ghost predicate ItemsRead(enc: JString -> seq<byte>, o: Obj, i: nat, data: seq<byte>, q: nat, list: seq<Value>)
    requires o.ListOf? && Representable(enc, o) && i <= |o.items| && q <= |data|
  {
    ListItems(data, q, list)
    == Ok(Parsed(ItemsInto(enc, o, list, i), q + |ItemsEncodingFixed(enc, o.items, i).bytes| + 1))
  }

  /** Reading on from `q` with `list` ends as reading on from `q1` with `longer`. */
  ghost predicate SameList(data: seq<byte>, q: nat, list: seq<Value>, q1: nat, longer: seq<Value>)
    requires q <= |data| && q1 <= |data|
  {
    ListItems(data, q, list) == ListItems(data, q1, longer)
  }

  /** The elements of a list from index `i` on, then the list's `e`. */
  lemma {:induction false} ItemsRoundTrip(enc: JString -> seq<byte>, o: Obj, i: nat, data: seq<byte>, q: nat, list: seq<Value>)
    requires o.ListOf? && Representable(enc, o) && i <= |o.items|
    requires At(data, q, ItemsEncodingFixed(enc, o.items, i).bytes + [END_MARK])
    ensures ItemsRead(enc, o, i, data, q, list)
    decreases o, 1, |o.items| - i
  {
    if i == |o.items| {
      ItemsDone(enc, o, i, data, q, list);
    } else {
      var q1 := q + |ObjectEncodingFixed(enc, o.items[i]).bytes|;
      ItemFrame(enc, o, i, data, q, list, q1);
      ItemsRoundTrip(enc, o, i + 1, data, q1, list + [ToValue(enc, o.items[i])]);
    }
  }

  /** No elements left: the `e` closes the list. */
  lemma {:induction false} ItemsDone(enc: JString -> seq<byte>, o: Obj, i: nat, data: seq<byte>, q: nat, list: seq<Value>)
    requires o.ListOf? && Representable(enc, o) && i == |o.items|
    requires At(data, q, ItemsEncodingFixed(enc, o.items, i).bytes + [END_MARK])
    ensures ItemsRead(enc, o, i, data, q, list)
  {
  }

  /** One element: reading it moves the cursor past its encoding and appends its value. */
  lemma {:induction false} ItemFrame(enc: JString -> seq<byte>, o: Obj, i: nat, data: seq<byte>, q: nat, list: seq<Value>, q1: nat)
    requires o.ListOf? && Representable(enc, o) && i < |o.items|
    requires q1 == q + |ObjectEncodingFixed(enc, o.items[i]).bytes|
    requires At(data, q, ItemsEncodingFixed(enc, o.items, i).bytes + [END_MARK])
    ensures At(data, q1, ItemsEncodingFixed(enc, o.items, i + 1).bytes + [END_MARK])
    ensures q + |ItemsEncodingFixed(enc, o.items, i).bytes| + 1 == q1 + |ItemsEncodingFixed(enc, o.items, i + 1).bytes| + 1
    ensures SameList(data, q, list, q1, list + [ToValue(enc, o.items[i])])
    decreases o, 0
  {
    var head := ObjectEncodingFixed(enc, o.items[i]);
    var tail := ItemsEncodingFixed(enc, o.items, i + 1);
    ItemsShape(enc, o.items, i);
    AtTwo(data, q, head.bytes, tail.bytes, [END_MARK]);
    FirstByte(enc, o.items[i]);
    ValueRoundTrip(enc, o.items[i], data, q);
    ListItemsStep(data, q, list, ToValue(enc, o.items[i]), q1);
  }

  /** A map comes back as the dictionary of its entries. */
  lemma {:induction false} MapRoundTrip(enc: JString -> seq<byte>, o: Obj, data: seq<byte>, p: nat)
    requires o.MapOf? && Representable(enc, o) && At(data, p, ObjectEncodingFixed(enc, o).bytes)
    ensures ValueAt(data, p) == Ok(Parsed(ToValue(enc, o), p + |ObjectEncodingFixed(enc, o).bytes|))
    decreases o, 2
  {
    var q := p + |ObjectEncodingFixed(enc, o).bytes|;
    MapDecoded(enc, o, data, p, q);
    ValueOfDict(data, p, EntriesInto(enc, o, map[], o.entries.Keys), q);
  }

  /** `readDictionary` reads the entries of a map, ending at `q`. */
  lemma {:induction false} MapDecoded(enc: JString -> seq<byte>, o: Obj, data: seq<byte>, p: nat, q: nat)
    requires o.MapOf? && Representable(enc, o) && At(data, p, ObjectEncodingFixed(enc, o).bytes)
    requires q == p + |ObjectEncodingFixed(enc, o).bytes|
    ensures p < |data| && data[p] == DICTIONARY_MARK
    ensures DictRead(data, p, EntriesInto(enc, o, map[], o.entries.Keys), q)
    ensures ToValue(enc, o) == Dict(EntriesInto(enc, o, map[], o.entries.Keys))
    decreases o, 1, o.entries.Keys, 2
  {
    MapFrame(enc, o, data, p, q);
    EntriesRoundTrip(enc, o, o.entries.Keys, data, p + 1, map[]);
    MapJoin(enc, o, data, p, q);
  }

  /** The dictionary mark, then all the entries read from `p + 1` on: the whole map, ending at `q`. */
  lemma {:induction false} MapJoin(enc: JString -> seq<byte>, o: Obj, data: seq<byte>, p: nat, q: nat)
    requires o.MapOf? && Representable(enc, o) && p < |data|
    requires DictOpens(data, p) && EntriesRead(enc, o, o.entries.Keys, data, p + 1, map[])
    requires q == p + 1 + |EntriesEncodingFixed(enc, o, o.entries.Keys).bytes| + 1
    ensures DictRead(data, p, EntriesInto(enc, o, map[], o.entries.Keys), q)
  {
  }

  /** The dictionary mark, then the entries and `e` right after it, ending at `q`. */
  lemma {:induction false} MapFrame(enc: JString -> seq<byte>, o: Obj, data: seq<byte>, p: nat, q: nat)
    requires o.MapOf? && Representable(enc, o) && At(data, p, ObjectEncodingFixed(enc, o).bytes)
    requires q == p + |ObjectEncodingFixed(enc, o).bytes|
    ensures p < |data| && data[p] == DICTIONARY_MARK
    ensures DictOpens(data, p)
    ensures At(data, p + 1, EntriesEncodingFixed(enc, o, o.entries.Keys).bytes + [END_MARK])
    ensures q == p + 1 + |EntriesEncodingFixed(enc, o, o.entries.Keys).bytes| + 1
    ensures ToValue(enc, o) == Dict(EntriesInto(enc, o, map[], o.entries.Keys))
  {
    MapShape(enc, o);
    AtTwo(data, p, [DICTIONARY_MARK], EntriesEncodingFixed(enc, o, o.entries.Keys).bytes, [END_MARK]);
  }

  /** The entries of a map for the keys in `rest`, least key first, then the map's `e`. */
  lemma {:induction false} EntriesRoundTrip(enc: JString -> seq<byte>, o: Obj, rest: set<JString>, data: seq<byte>,
                                            q: nat, dictionary: map<seq<byte>, Value>)
    requires o.MapOf? && Representable(enc, o) && rest <= o.entries.Keys
    requires At(data, q, EntriesEncodingFixed(enc, o, rest).bytes + [END_MARK])
    ensures EntriesRead(enc, o, rest, data, q, dictionary)
    decreases o, 1, rest, 1
  {
    if rest == {} {
      EntriesDone(enc, o, rest, data, q, dictionary);
    } else {
      var k := Least(rest);
      EntriesNext(enc, o, rest, data, q, dictionary, k);
    }
  }

  /**
   * What `readDictionary` reads from `q` on when the entries for `rest` and
   * an `e` are there: `dictionary` with those entries put in, and the cursor
   * past the `e`.
   */
  ghost predicate EntriesRead(enc: JString -> seq<byte>, o: Obj, rest: set<JString>, data: seq<byte>,
                              q: nat, dictionary: map<seq<byte>, Value>)
    requires o.MapOf? && Representable(enc, o) && rest <= o.entries.Keys && q <= |data|
  {
    DictItems(data, q, dictionary)
    == Ok(Parsed(EntriesInto(enc, o, dictionary, rest), q + |EntriesEncodingFixed(enc, o, rest).bytes| + 1))
  }

  /** Reading on from `q` with `dictionary` ends as reading on from `q1` with `grown`. */
  ghost predicate SameDict(data: seq<byte>, q: nat, dictionary: map<seq<byte>, Value>,
                           q1: nat, grown: map<seq<byte>, Value>)
    requires q <= |data| && q1 <= |data|
  {
    DictItems(data, q, dictionary) == DictItems(data, q1, grown)
  }

  /** The entries for `rest` from `q` end where those for `rest'` from `q1` end. */
  ghost predicate EntriesEnd(enc: JString -> seq<byte>, o: Obj, rest: set<JString>, q: nat, rest': set<JString>, q1: nat)
    requires o.MapOf? && rest <= o.entries.Keys && rest' <= o.entries.Keys
  {
    q + |EntriesEncodingFixed(enc, o, rest).bytes| + 1 == q1 + |EntriesEncodingFixed(enc, o, rest').bytes| + 1
  }

  /** Putting the entries for `rest` into `dictionary` gives what those for `rest'` give in `grown`. */
  ghost predicate SameEntries(enc: JString -> seq<byte>, o: Obj, dictionary: map<seq<byte>, Value>, rest: set<JString>,
                              grown: map<seq<byte>, Value>, rest': set<JString>)
    requires o.MapOf? && Representable(enc, o) && rest <= o.entries.Keys && rest' <= o.entries.Keys
  {
    EntriesInto(enc, o, dictionary, rest) == EntriesInto(enc, o, grown, rest')
  }

  /** The least key's entry, then the entries of the other keys. */
  lemma {:induction false} EntriesNext(enc: JString -> seq<byte>, o: Obj, rest: set<JString>, data: seq<byte>,
                                       q: nat, dictionary: map<seq<byte>, Value>, k: JString)
    requires o.MapOf? && Representable(enc, o) && rest <= o.entries.Keys && rest != {} && k == Least(rest)
    requires At(data, q, EntriesEncodingFixed(enc, o, rest).bytes + [END_MARK])
    ensures EntriesRead(enc, o, rest, data, q, dictionary)
    decreases o, 1, rest, 0
  {
    var q1 := q + |TextEncodingFixed(enc, k)| + |ObjectEncodingFixed(enc, o.entries[k]).bytes|;
    var grown := dictionary[enc(k) := ToValue(enc, o.entries[k])];
    EntryFrame(enc, o, rest, data, q, dictionary, k, q1);
    EntriesRoundTrip(enc, o, rest - {k}, data, q1, grown);
    EntriesIntoStep(enc, o, dictionary, rest, k, grown);
    EntriesJoin(enc, o, rest, data, q, dictionary, k, q1, grown);
  }

  /** The four facts about the least key's entry that make up reading all of `rest`. */
  lemma {:induction false} EntriesJoin(enc: JString -> seq<byte>, o: Obj, rest: set<JString>, data: seq<byte>, q: nat,
                    dictionary: map<seq<byte>, Value>, k: JString, q1: nat, grown: map<seq<byte>, Value>)
    requires o.MapOf? && Representable(enc, o) && rest <= o.entries.Keys && k in rest && q <= |data| && q1 <= |data|
    requires SameDict(data, q, dictionary, q1, grown) && EntriesRead(enc, o, rest - {k}, data, q1, grown)
    requires SameEntries(enc, o, dictionary, rest, grown, rest - {k}) && EntriesEnd(enc, o, rest, q, rest - {k}, q1)
    ensures EntriesRead(enc, o, rest, data, q, dictionary)
  {
  }

  /** Putting in the entries for `rest` is putting in the least key's entry, then the others'. */
  lemma {:induction false} EntriesIntoStep(enc: JString -> seq<byte>, o: Obj, dictionary: map<seq<byte>, Value>, rest: set<JString>,
                        k: JString, grown: map<seq<byte>, Value>)
    requires o.MapOf? && Representable(enc, o) && rest <= o.entries.Keys && rest != {} && k == Least(rest)
    requires grown == dictionary[enc(k) := ToValue(enc, o.entries[k])]
    ensures SameEntries(enc, o, dictionary, rest, grown, rest - {k})
  {
  }

  /** No keys left: the `e` closes the dictionary. */
  lemma {:induction false} EntriesDone(enc: JString -> seq<byte>, o: Obj, rest: set<JString>, data: seq<byte>, q: nat,
                    dictionary: map<seq<byte>, Value>)
    requires o.MapOf? && Representable(enc, o) && rest == {}
    requires At(data, q, EntriesEncodingFixed(enc, o, rest).bytes + [END_MARK])
    ensures EntriesRead(enc, o, rest, data, q, dictionary)
  {
  }

  /** The least key's entry: reading it moves the cursor past it and adds it to the dictionary. */
  lemma {:induction false} EntryFrame(enc: JString -> seq<byte>, o: Obj, rest: set<JString>, data: seq<byte>,
                                      q: nat, dictionary: map<seq<byte>, Value>, k: JString, q1: nat)
    requires o.MapOf? && Representable(enc, o) && rest <= o.entries.Keys && rest != {} && k == Least(rest)
    requires q1 == q + |TextEncodingFixed(enc, k)| + |ObjectEncodingFixed(enc, o.entries[k]).bytes|
    requires At(data, q, EntriesEncodingFixed(enc, o, rest).bytes + [END_MARK])
    ensures At(data, q1, EntriesEncodingFixed(enc, o, rest - {k}).bytes + [END_MARK])
    ensures EntriesEnd(enc, o, rest, q, rest - {k}, q1)
    ensures SameDict(data, q, dictionary, q1, dictionary[enc(k) := ToValue(enc, o.entries[k])])
    decreases o, 0, 1
  {
    var key := TextEncodingFixed(enc, k);
    var value := ObjectEncodingFixed(enc, o.entries[k]);
    var tail := EntriesEncodingFixed(enc, o, rest - {k});
    EntriesShape(enc, o, rest);
    AtThree(data, q, key, value.bytes, tail.bytes, [END_MARK]);
    EntryRoundTrip(enc, o, k, data, q, dictionary, q1);
  }

  /** One entry: its key as a byte string, then its value. */
  lemma {:induction false} EntryRoundTrip(enc: JString -> seq<byte>, o: Obj, k: JString, data: seq<byte>, q: nat,
                                          dictionary: map<seq<byte>, Value>, q1: nat)
    requires o.MapOf? && Representable(enc, o) && k in o.entries
    requires q1 == q + |TextEncodingFixed(enc, k)| + |ObjectEncodingFixed(enc, o.entries[k]).bytes| && q1 < |data|
    requires At(data, q, TextEncodingFixed(enc, k) + ObjectEncodingFixed(enc, o.entries[k]).bytes)
    ensures DictItems(data, q, dictionary) == DictItems(data, q1, dictionary[enc(k) := ToValue(enc, o.entries[k])])
    decreases o, 0, 0
  {
    var key := TextEncodingFixed(enc, k);
    var value := ObjectEncodingFixed(enc, o.entries[k]);
    AtSplit(data, q, key, value.bytes);
    BytesRoundTrip(data, q, enc(k));
    ValueRoundTrip(enc, o.entries[k], data, q + |key|);
    DictItemsStep(data, q, dictionary, enc(k), q + |key|, ToValue(enc, o.entries[k]), q1);
  }
}
