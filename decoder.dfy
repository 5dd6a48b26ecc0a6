/**
 * The decoder of package org.benjamin (src/main/java/org/benjamin/Bdecoder.java).
 *
 * The functions IntAt, BytesAt, ValueAt, ListAt and DictAt say, for a whole
 * input and a start position, what each read operation returns and where it
 * leaves the cursor. The class Bdecoder is the imperative decoder itself: a
 * cursor over the input with one byte of pushback, whose methods are proved to
 * compute exactly what those functions say.
 */
module Decoder {
  import opened Bencode
  import opened Decimal
  import opened Java

  /** The byte `read()` would return at position `p`: -1 at the end of the stream. */
  function PeekAt(data: seq<byte>, p: nat): int
  {
    if p < |data| then data[p] else -1
  }

  /**
   * `readInt`: the marker `i`, then everything up to the first `e` as the
   * number's text.
   */
  function IntAt(data: seq<byte>, p: nat): (r: Result<Parsed<int>>)
    requires p <= |data|
    ensures r.Ok? ==> p < r.value.next <= |data| && LONG_MIN <= r.value.value <= LONG_MAX
  {
    if p == |data| || data[p] != INTEGER_MARK then Err(IllegalState)
    else IntFrom(data, p + 1, p + 1)
  }

  /**
   * The loop of `readInt` with `data[start..q]` collected so far; at the `e`
   * the collected text goes through the checks of IntText.
   */
  function IntFrom(data: seq<byte>, start: nat, q: nat): (r: Result<Parsed<int>>)
    requires start <= q <= |data|
    decreases |data| - q
    ensures r.Ok? ==> q < r.value.next <= |data| && LONG_MIN <= r.value.value <= LONG_MAX
  {
    if q == |data| then Err(IllegalState)
    else if data[q] != END_MARK then IntFrom(data, start, q + 1)
    else Located(IntText(data[start..q]), q + 1)
  }

  /**
   * The checks `readInt` makes on the text between `i` and `e`: it must not
   * be empty (`charAt(0)`), must not start with `0` unless it is `0`, must not
   * be `-0`, and must be a `long`.
   */
  function IntText(number: seq<byte>): (r: Result<int>)
    ensures r.Ok? ==> LONG_MIN <= r.value <= LONG_MAX
  {
    if |number| == 0 then Err(StringIndexOutOfBounds)
    else if number[0] == ZERO && |number| != 1 then Err(IllegalState)
    else if number == [MINUS, ZERO] then Err(IllegalArgument)
    else match ParseLong(number)
      case None => Err(NumberFormat)
      case Some(n) => Ok(n)
  }

  /** `readBytes`: a length, a `:`, then exactly that many bytes. */
  function BytesAt(data: seq<byte>, p: nat): (r: Result<Parsed<seq<byte>>>)
    requires p <= |data|
    ensures r.Ok? ==> p < r.value.next <= |data|
  {
    BytesFrom(data, p, p)
  }

  /**
   * The loop of `readBytes` with `data[start..q]` collected so far. At the
   * `:` the text is read with `Integer.parseInt` (a NumberFormatException
   * becomes IllegalState), a negative length fails allocating the array, and
   * fewer bytes left than the length is IllegalState.
   */
  function BytesFrom(data: seq<byte>, start: nat, q: nat): (r: Result<Parsed<seq<byte>>>)
    requires start <= q <= |data|
    decreases |data| - q
    ensures r.Ok? ==> q < r.value.next <= |data|
  {
    if q == |data| then Err(IllegalState)
    else if data[q] != STRING_SPLIT then BytesFrom(data, start, q + 1)
    else match ParseInt(data[start..q])
      case None => Err(IllegalState)
      case Some(length) =>
        if length < 0 then Err(NegativeArraySize)
        else if |data| - (q + 1) < length then Err(IllegalState)
        else Ok(Parsed(data[q + 1..q + 1 + length], q + 1 + length))
  }

  /** `readObject(chr)` with `chr` the byte at `p`: dispatch on the marker. */
  function ValueAt(data: seq<byte>, p: nat): (r: Result<Parsed<Value>>)
    requires p <= |data|
    decreases |data| - p, 2
    ensures r.Ok? ==> p < r.value.next <= |data|
  {
    var chr := PeekAt(data, p);
    if chr == INTEGER_MARK then
      match IntAt(data, p)
      case Ok(Parsed(n, q)) => Ok(Parsed(Int(n), q))
      case Err(e) => Err(e)
    else if chr == LIST_MARK then
      match ListAt(data, p)
      case Ok(Parsed(items, q)) => Ok(Parsed(List(items), q))
      case Err(e) => Err(e)
    else if chr == DICTIONARY_MARK then
      match DictAt(data, p)
      case Ok(Parsed(m, q)) => Ok(Parsed(Dict(m), q))
      case Err(e) => Err(e)
    else
      match BytesAt(data, p)
      case Ok(Parsed(b, q)) => Ok(Parsed(Str(b), q))
      case Err(e) => Err(e)
  }

  /** `readList`: the marker `l`, then values until `e`. */
  function ListAt(data: seq<byte>, p: nat): (r: Result<Parsed<seq<Value>>>)
    requires p <= |data|
    decreases |data| - p, 1
    ensures r.Ok? ==> p < r.value.next <= |data|
  {
    if p == |data| || data[p] != LIST_MARK then Err(IllegalState)
    else ListItems(data, p + 1, [])
  }

  /** The loop of `readList` from position `q`, with `list` read so far. */
  function ListItems(data: seq<byte>, q: nat, list: seq<Value>): (r: Result<Parsed<seq<Value>>>)
    requires q <= |data|
    decreases |data| - q, 3
    ensures r.Ok? ==> q < r.value.next <= |data|
  {
    if q == |data| then Err(IllegalState)
    else if data[q] == END_MARK then Ok(Parsed(list, q + 1))
    else match ValueAt(data, q)
      case Err(e) => Err(e)
      case Ok(Parsed(v, q')) => ListItems(data, q', list + [v])
  }

  /** `readDictionary`: the marker `d`, then (key, value) pairs until `e`. */
  function DictAt(data: seq<byte>, p: nat): (r: Result<Parsed<map<seq<byte>, Value>>>)
    requires p <= |data|
    decreases |data| - p, 1
    ensures r.Ok? ==> p < r.value.next <= |data|
  {
    if p == |data| || data[p] != DICTIONARY_MARK then Err(IllegalState)
    else DictItems(data, p + 1, map[])
  }

  /** The loop of `readDictionary` from position `q`; `put` overwrites a repeated key. */
  function DictItems(data: seq<byte>, q: nat, dictionary: map<seq<byte>, Value>)
    : (r: Result<Parsed<map<seq<byte>, Value>>>)
    requires q <= |data|
    decreases |data| - q, 3
    ensures r.Ok? ==> q < r.value.next <= |data|
  {
    if q == |data| then Err(IllegalState)
    else if data[q] == END_MARK then Ok(Parsed(dictionary, q + 1))
    else match BytesAt(data, q)
      case Err(e) => Err(e)
      case Ok(Parsed(key, q')) =>
        match ValueAt(data, q')
        case Err(e) => Err(e)
        case Ok(Parsed(v, q'')) => DictItems(data, q'', dictionary[key := v])
  }

  /** One turn of the `readList` loop. */
  lemma ListItemsStep(data: seq<byte>, q: nat, list: seq<Value>, v: Value, q1: nat)
    requires q < |data| && data[q] != END_MARK
    requires ValueAt(data, q) == Ok(Parsed(v, q1)) && q1 <= |data|
    ensures ListItems(data, q, list) == ListItems(data, q1, list + [v])
  {
  }

  /** A turn of the `readList` loop whose element cannot be read. */
  lemma ListItemsError(data: seq<byte>, q: nat, list: seq<Value>)
    requires q < |data| && data[q] != END_MARK && ValueAt(data, q).Err?
    ensures ListItems(data, q, list) == Err(ValueAt(data, q).error)
  {
  }

  /** One turn of the `readDictionary` loop. */
  lemma DictItemsStep(data: seq<byte>, q: nat, dictionary: map<seq<byte>, Value>,
                      key: seq<byte>, q1: nat, v: Value, q2: nat)
    requires q < |data| && data[q] != END_MARK
    requires BytesAt(data, q) == Ok(Parsed(key, q1)) && q1 <= |data|
    requires ValueAt(data, q1) == Ok(Parsed(v, q2)) && q2 <= |data|
    ensures DictItems(data, q, dictionary) == DictItems(data, q2, dictionary[key := v])
  {
  }

  /** A turn of the `readDictionary` loop whose key cannot be read. */
  lemma DictItemsKeyError(data: seq<byte>, q: nat, dictionary: map<seq<byte>, Value>)
    requires q < |data| && data[q] != END_MARK && BytesAt(data, q).Err?
    ensures DictItems(data, q, dictionary) == Err(BytesAt(data, q).error)
  {
  }

  /** A turn of the `readDictionary` loop whose value cannot be read. */
  lemma DictItemsValueError(data: seq<byte>, q: nat, dictionary: map<seq<byte>, Value>,
                            key: seq<byte>, q1: nat)
    requires q < |data| && data[q] != END_MARK
    requires BytesAt(data, q) == Ok(Parsed(key, q1)) && q1 <= |data| && ValueAt(data, q1).Err?
    ensures DictItems(data, q, dictionary) == Err(ValueAt(data, q1).error)
  {
  }

  // ---------------------------------------------------------------------
  // What the read operations accept and reject
  // ---------------------------------------------------------------------

  /** The `readInt` loop passes over everything before the first `e`. */
  lemma {:induction false} IntFromSkips(data: seq<byte>, start: nat, q: nat, e: nat)
    requires start <= q <= e < |data| && data[e] == END_MARK && END_MARK !in data[q..e]
    ensures IntFrom(data, start, q) == IntFrom(data, start, e)
    decreases e - q
  {
    if q < e {
      assert data[q] == data[q..e][0];
      assert data[q + 1..e] == data[q..e][1..];
      IntFromSkips(data, start, q + 1, e);
    }
  }

  /** The `readInt` loop runs into the end of the stream when no `e` follows. */
  lemma {:induction false} IntFromUnterminated(data: seq<byte>, start: nat, q: nat)
    requires start <= q <= |data| && END_MARK !in data[q..]
    ensures IntFrom(data, start, q) == Err(IllegalState)
    decreases |data| - q
  {
    if q < |data| {
      assert data[q] == data[q..][0];
      assert data[q + 1..] == data[q..][1..];
      IntFromUnterminated(data, start, q + 1);
    }
  }

  /**
   * `readInt` fails with IllegalState when the first byte is not `i` (the end
   * of the stream included) and when the stream ends before an `e`.
   */
  lemma IntAtRejects(data: seq<byte>, p: nat)
    requires p <= |data|
    ensures p == |data| || data[p] != INTEGER_MARK ==> IntAt(data, p) == Err(IllegalState)
    ensures p < |data| && data[p] == INTEGER_MARK && END_MARK !in data[p + 1..] ==>
      IntAt(data, p) == Err(IllegalState)
  {
    if p < |data| && data[p] == INTEGER_MARK && END_MARK !in data[p + 1..] {
      IntFromUnterminated(data, p + 1, p + 1);
    }
  }

  /**
   * With `e` the first `e` after the marker, the text in between decides:
   * empty is StringIndexOutOfBounds, a leading zero on a longer text is
   * IllegalState, `-0` is IllegalArgument, text `Long.parseLong` refuses is
   * NumberFormat, and anything else is its value, with the cursor after `e`.
   */
  lemma IntAtOutcome(data: seq<byte>, p: nat, e: nat)
    requires p < e < |data| && data[p] == INTEGER_MARK && data[e] == END_MARK
    requires END_MARK !in data[p + 1..e]
    ensures var number := data[p + 1..e];
      && (|number| == 0 ==> IntAt(data, p) == Err(StringIndexOutOfBounds))
      && (|number| > 1 && number[0] == ZERO ==> IntAt(data, p) == Err(IllegalState))
      && (number == [MINUS, ZERO] ==> IntAt(data, p) == Err(IllegalArgument))
      && (|number| > 0 && (number[0] == ZERO ==> |number| == 1) && number != [MINUS, ZERO] ==>
            IntAt(data, p) == if ParseLong(number).None? then Err(NumberFormat)
                              else Ok(Parsed(ParseLong(number).value, e + 1)))
  {
    IntFromSkips(data, p + 1, p + 1, e);
  }

  /** A successful `readInt` consumed `i`, a text without `e`, and the first `e`. */
  lemma {:induction false} IntFromAccepted(data: seq<byte>, start: nat, q: nat)
    requires start <= q <= |data| && IntFrom(data, start, q).Ok?
    ensures var next := IntFrom(data, start, q).value.next;
      && data[next - 1] == END_MARK && END_MARK !in data[q..next - 1]
      && IntText(data[start..next - 1]) == Ok(IntFrom(data, start, q).value.value)
    decreases |data| - q
  {
    if data[q] != END_MARK {
      IntFromAccepted(data, start, q + 1);
      var next := IntFrom(data, start, q).value.next;
      assert data[q..next - 1] == [data[q]] + data[q + 1..next - 1];
    }
  }

  /**
   * What `readInt` accepts is the canonical text of the value it returns,
   * except for two shapes the padding check misses: a `+` sign, and a zero
   * right after the `-` (`i-01e` reads as -1, like `i-1e`).
   */
  lemma IntAtAccepted(data: seq<byte>, p: nat)
    requires p <= |data| && IntAt(data, p).Ok?
    ensures var Parsed(n, next) := IntAt(data, p).value;
      var number := data[p + 1..next - 1];
      && data[p] == INTEGER_MARK && data[next - 1] == END_MARK && END_MARK !in number
      && SignedValue(number) == Some(n)
      && (number == DecimalText(n) || number[0] == PLUS || (number[0] == MINUS && number[1] == ZERO))
  {
    IntFromAccepted(data, p + 1, p + 1);
    var Parsed(n, next) := IntAt(data, p).value;
    var number := data[p + 1..next - 1];
    assert IntText(number) == Ok(n);
    assert SignedValue(number) == Some(n);
    SignedValueCanonical(number);
  }

  /** The `readBytes` loop passes over everything before the first `:`. */
  lemma {:induction false} BytesFromSkips(data: seq<byte>, start: nat, q: nat, c: nat)
    requires start <= q <= c < |data| && data[c] == STRING_SPLIT && STRING_SPLIT !in data[q..c]
    ensures BytesFrom(data, start, q) == BytesFrom(data, start, c)
    decreases c - q
  {
    if q < c {
      assert data[q] == data[q..c][0];
      assert data[q + 1..c] == data[q..c][1..];
      BytesFromSkips(data, start, q + 1, c);
    }
  }

  /** The `readBytes` loop runs into the end of the stream when no `:` follows. */
  lemma {:induction false} BytesFromUnterminated(data: seq<byte>, start: nat, q: nat)
    requires start <= q <= |data| && STRING_SPLIT !in data[q..]
    ensures BytesFrom(data, start, q) == Err(IllegalState)
    decreases |data| - q
  {
    if q < |data| {
      assert data[q] == data[q..][0];
      assert data[q + 1..] == data[q..][1..];
      BytesFromUnterminated(data, start, q + 1);
    }
  }

  /**
   * `readBytes` fails with IllegalState without a `:`; with `c` the first `:`,
   * a length `Integer.parseInt` refuses (empty, not a number, beyond 32 bits)
   * is IllegalState, a negative length is NegativeArraySize, fewer than
   * `length` bytes left is IllegalState, and otherwise exactly the `length`
   * bytes after the `:` come back, the cursor just past them.
   */
  lemma BytesAtOutcome(data: seq<byte>, p: nat, c: nat)
    requires p <= |data|
    ensures STRING_SPLIT !in data[p..] ==> BytesAt(data, p) == Err(IllegalState)
    ensures p <= c < |data| && data[c] == STRING_SPLIT && STRING_SPLIT !in data[p..c] ==>
      var length := ParseInt(data[p..c]);
      && (length.None? ==> BytesAt(data, p) == Err(IllegalState))
      && (length.Some? && length.value < 0 ==> BytesAt(data, p) == Err(NegativeArraySize))
      && (length.Some? && 0 <= length.value && |data| < c + 1 + length.value ==>
            BytesAt(data, p) == Err(IllegalState))
      && (length.Some? && 0 <= length.value <= |data| - (c + 1) ==>
            BytesAt(data, p) == Ok(Parsed(data[c + 1..c + 1 + length.value], c + 1 + length.value)))
  {
    if STRING_SPLIT !in data[p..] {
      BytesFromUnterminated(data, p, p);
    }
    if p <= c < |data| && data[c] == STRING_SPLIT && STRING_SPLIT !in data[p..c] {
      BytesFromSkips(data, p, p, c);
    }
  }

  /** `1:` and one byte is read as that byte. */
  lemma OneByteString(data: seq<byte>, q: nat)
    requires q + 3 <= |data| && data[q] == 49 && data[q + 1] == STRING_SPLIT
    ensures BytesAt(data, q) == Ok(Parsed([data[q + 2]], q + 3))
  {
    BytesAtOutcome(data, q, q + 1);
    assert data[q..q + 1] == [49];
    assert ParseInt([49]) == Some(1);
    assert data[q + 2..q + 3] == [data[q + 2]];
  }

  /** `i`, one digit and `e` is read as that digit's value. */
  lemma OneDigitInt(data: seq<byte>, q: nat)
    requires q + 3 <= |data| && data[q] == INTEGER_MARK && IsDigit(data[q + 1]) && data[q + 2] == END_MARK
    ensures ValueAt(data, q) == Ok(Parsed(Int(data[q + 1] - ZERO), q + 3))
  {
    var d := data[q + 1];
    IntAtOutcome(data, q, q + 2);
    assert data[q + 1..q + 2] == [d];
    assert DigitsValue([d]) == d - ZERO by {
      assert [d][..0] == [];
    }
    assert ParseLong([d]) == Some(d - ZERO);
  }

  /**
   * `put` keeps the last value of a repeated key: `d1:ai1e1:ai2ee` reads as
   * the dictionary mapping `a` to 2.
   */
  lemma LaterKeyWins()
    ensures DictAt([100, 49, 58, 97, 105, 49, 101, 49, 58, 97, 105, 50, 101, 101], 0)
            == Ok(Parsed(map[[97] := Int(2)], 14))
  {
    var data: seq<byte> := [100, 49, 58, 97, 105, 49, 101, 49, 58, 97, 105, 50, 101, 101];
    OneByteString(data, 1);
    OneDigitInt(data, 4);
    OneByteString(data, 7);
    OneDigitInt(data, 10);
    DictItemsStep(data, 1, map[], [97], 4, Int(1), 7);
    DictItemsStep(data, 7, map[[97] := Int(1)], [97], 10, Int(2), 13);
    assert map[[97] := Int(1)][[97] := Int(2)] == map[[97] := Int(2)];
  }

  // ---------------------------------------------------------------------
  // A read consumes exactly its own bytes
  // ---------------------------------------------------------------------

  lemma {:induction false} IntFromPrefix(data: seq<byte>, d: seq<byte>, start: nat, q: nat)
    requires start <= q <= |data| && IntFrom(data, start, q).Ok?
    requires IntFrom(data, start, q).value.next <= |d|
    requires d[..IntFrom(data, start, q).value.next] == data[..IntFrom(data, start, q).value.next]
    ensures q <= |d| && IntFrom(d, start, q) == IntFrom(data, start, q)
    decreases |data| - q
  {
    var next := IntFrom(data, start, q).value.next;
    assert d[q] == d[..next][q];
    if data[q] != END_MARK {
      IntFromPrefix(data, d, start, q + 1);
    } else {
      SlicesAgree(data, d, next, start, q);
    }
  }

  /** Two streams that agree up to `n` agree on every slice below `n`. */
  lemma SlicesAgree(data: seq<byte>, d: seq<byte>, n: nat, i: nat, j: nat)
    requires i <= j <= n <= |data| && n <= |d| && d[..n] == data[..n]
    ensures d[i..j] == data[i..j]
  {
    assert d[i..j] == d[..n][i..j];
    assert data[i..j] == data[..n][i..j];
  }

  lemma {:induction false} BytesFromPrefix(data: seq<byte>, d: seq<byte>, start: nat, q: nat)
    requires start <= q <= |data| && BytesFrom(data, start, q).Ok?
    requires BytesFrom(data, start, q).value.next <= |d|
    requires d[..BytesFrom(data, start, q).value.next] == data[..BytesFrom(data, start, q).value.next]
    ensures q <= |d| && BytesFrom(d, start, q) == BytesFrom(data, start, q)
    decreases |data| - q
  {
    var next := BytesFrom(data, start, q).value.next;
    assert d[q] == d[..next][q];
    if data[q] != STRING_SPLIT {
      BytesFromPrefix(data, d, start, q + 1);
    } else {
      SlicesAgree(data, d, next, start, q);
      SlicesAgree(data, d, next, q + 1, next);
    }
  }

  /**
   * A successful read depends on nothing after the bytes it consumed: any
   * stream that agrees up to `next` reads the same value to the same place.
   */
  lemma {:induction false} ValueAtPrefix(data: seq<byte>, d: seq<byte>, p: nat)
    requires p <= |data| && ValueAt(data, p).Ok?
    requires ValueAt(data, p).value.next <= |d|
    requires d[..ValueAt(data, p).value.next] == data[..ValueAt(data, p).value.next]
    ensures p <= |d| && ValueAt(d, p) == ValueAt(data, p)
    decreases |data| - p, 2
  {
    var next := ValueAt(data, p).value.next;
    assert d[p] == d[..next][p];
    var chr := data[p];
    if chr == INTEGER_MARK {
      IntFromPrefix(data, d, p + 1, p + 1);
    } else if chr == LIST_MARK {
      ListItemsPrefix(data, d, p + 1, []);
    } else if chr == DICTIONARY_MARK {
      DictItemsPrefix(data, d, p + 1, map[]);
    } else {
      BytesFromPrefix(data, d, p, p);
    }
  }

  lemma {:induction false} ListItemsPrefix(data: seq<byte>, d: seq<byte>, q: nat, list: seq<Value>)
    requires q <= |data| && ListItems(data, q, list).Ok?
    requires ListItems(data, q, list).value.next <= |d|
    requires d[..ListItems(data, q, list).value.next] == data[..ListItems(data, q, list).value.next]
    ensures q <= |d| && ListItems(d, q, list) == ListItems(data, q, list)
    decreases |data| - q, 3
  {
    var next := ListItems(data, q, list).value.next;
    assert d[q] == d[..next][q];
    if data[q] != END_MARK {
      var Parsed(v, q') := ValueAt(data, q).value;
      assert d[..q'] == d[..next][..q'] && data[..q'] == data[..next][..q'];
      ValueAtPrefix(data, d, q);
      ListItemsPrefix(data, d, q', list + [v]);
    }
  }

  lemma {:induction false} DictItemsPrefix(data: seq<byte>, d: seq<byte>, q: nat,
                                           dictionary: map<seq<byte>, Value>)
    requires q <= |data| && DictItems(data, q, dictionary).Ok?
    requires DictItems(data, q, dictionary).value.next <= |d|
    requires d[..DictItems(data, q, dictionary).value.next]
          == data[..DictItems(data, q, dictionary).value.next]
    ensures q <= |d| && DictItems(d, q, dictionary) == DictItems(data, q, dictionary)
    decreases |data| - q, 3
  {
    var next := DictItems(data, q, dictionary).value.next;
    assert d[q] == d[..next][q];
    if data[q] != END_MARK {
      var Parsed(key, q') := BytesAt(data, q).value;
      var Parsed(v, q'') := ValueAt(data, q').value;
      assert d[..q'] == d[..next][..q'] && data[..q'] == data[..next][..q'];
      assert d[..q''] == d[..next][..q''] && data[..q''] == data[..next][..q''];
      BytesFromPrefix(data, d, q, q);
      ValueAtPrefix(data, d, q');
      DictItemsPrefix(data, d, q'', dictionary[key := v]);
    }
  }

  lemma {:induction false} IntFromTruncated(data: seq<byte>, k: nat, start: nat, q: nat)
    requires start <= q <= k <= |data| && IntFrom(data, start, q).Ok?
    requires k < IntFrom(data, start, q).value.next
    ensures IntFrom(data[..k], start, q) == Err(IllegalState)
    decreases k - q
  {
    if q < k {
      IntFromTruncated(data, k, start, q + 1);
    }
  }

  lemma {:induction false} BytesFromTruncated(data: seq<byte>, k: nat, start: nat, q: nat)
    requires start <= q <= k <= |data| && BytesFrom(data, start, q).Ok?
    requires k < BytesFrom(data, start, q).value.next
    ensures BytesFrom(data[..k], start, q) == Err(IllegalState)
    decreases k - q
  {
    if q < k {
      if data[q] != STRING_SPLIT {
        BytesFromTruncated(data, k, start, q + 1);
      } else {
        assert data[..k][start..q] == data[start..q];
      }
    }
  }

  /**
   * No partial results: a stream cut anywhere inside a value that would have
   * been read fails with IllegalState, whatever the value's kind and depth.
   */
  lemma {:induction false} ValueAtTruncated(data: seq<byte>, k: nat, p: nat)
    requires p <= k <= |data| && ValueAt(data, p).Ok? && k < ValueAt(data, p).value.next
    ensures ValueAt(data[..k], p) == Err(IllegalState)
    decreases |data| - p, 2
  {
    if p < k {
      var chr := data[p];
      if chr == INTEGER_MARK {
        IntFromTruncated(data, k, p + 1, p + 1);
      } else if chr == LIST_MARK {
        ListItemsTruncated(data, k, p + 1, []);
      } else if chr == DICTIONARY_MARK {
        DictItemsTruncated(data, k, p + 1, map[]);
      } else {
        BytesFromTruncated(data, k, p, p);
      }
    }
  }

  lemma {:induction false} ListItemsTruncated(data: seq<byte>, k: nat, q: nat, list: seq<Value>)
    requires q <= k <= |data| && ListItems(data, q, list).Ok?
    requires k < ListItems(data, q, list).value.next
    ensures ListItems(data[..k], q, list) == Err(IllegalState)
    decreases |data| - q, 3
  {
    if q < k {
      var Parsed(v, q') := ValueAt(data, q).value;
      if k < q' {
        ValueAtTruncated(data, k, q);
      } else {
        ValueAtPrefix(data, data[..k], q);
        ListItemsTruncated(data, k, q', list + [v]);
      }
    }
  }

  lemma {:induction false} DictItemsTruncated(data: seq<byte>, k: nat, q: nat,
                                              dictionary: map<seq<byte>, Value>)
    requires q <= k <= |data| && DictItems(data, q, dictionary).Ok?
    requires k < DictItems(data, q, dictionary).value.next
    ensures DictItems(data[..k], q, dictionary) == Err(IllegalState)
    decreases |data| - q, 3
  {
    if q < k {
      var Parsed(key, q') := BytesAt(data, q).value;
      if k < q' {
        BytesFromTruncated(data, k, q, q);
      } else {
        BytesFromPrefix(data, data[..k], q, q);
        var Parsed(v, q'') := ValueAt(data, q').value;
        if k < q'' {
          ValueAtTruncated(data, k, q');
        } else {
          ValueAtPrefix(data, data[..k], q');
          DictItemsTruncated(data, k, q'', dictionary[key := v]);
        }
      }
    }
  }

  /** A decoder reading from an in-memory stream. */
  class Bdecoder {
    /** The bytes of the input stream. */
    const data: seq<byte>
    /** How many of them have been consumed (reads minus unreads). */
    var pos: nat

    ghost predicate Valid()
      reads this
    {
      pos <= |data|
    }

    /**
     * `chr` is what the last `read()` returned and `q` is where it was read:
     * the byte just before the cursor, or -1 with the cursor at the end.
     */
    ghost predicate Lookahead(chr: int, q: nat)
      reads this
    {
      pos <= |data| &&
      if chr == -1 then q == pos == |data| else q + 1 == pos && chr == data[q]
    }

    /** `Bdecoder(charset, inputStream)`, with the stream's bytes. */
    constructor (input: seq<byte>)
      ensures Valid() && data == input && pos == 0
    {
      data := input;
      pos := 0;
    }

    /** `Bdecoder(charset, bencodedString)`: the stream is the string's bytes in the charset. */
    constructor FromText(cs: Charset, bencodedString: JString)
      ensures Valid() && data == GetBytes(cs, bencodedString) && pos == 0
    {
      data := GetBytes(cs, bencodedString);
      pos := 0;
    }

    /** `inputStream.read()`: the next byte, or -1 at the end of the stream. */
    method Read() returns (chr: int)
      requires Valid()
      modifies this
      ensures Valid() && Lookahead(chr, old(pos))
      ensures chr == PeekAt(data, old(pos))
      ensures pos == if old(pos) < |data| then old(pos) + 1 else old(pos)
    {
      if pos < |data| {
        chr := data[pos];
        pos := pos + 1;
      } else {
        chr := -1;
      }
    }

    /** `inputStream.unread(chr)` right after `chr` was read. */
    method Unread(chr: int)
      requires Valid() && 0 < pos && chr == data[pos - 1]
      modifies this
      ensures Valid() && pos == old(pos) - 1 && chr == PeekAt(data, pos)
    {
      pos := pos - 1;
    }

    method ReadInt() returns (r: Result<int>)
      requires Valid()
      modifies this
      ensures Valid()
      ensures Located(r, pos) == IntAt(data, old(pos))
    {
      var chr := Read();
      if chr != INTEGER_MARK as int {
        return Err(IllegalState);
      }
      ghost var start := pos;
      var number: seq<byte> := [];
      ghost var q := pos;
      chr := Read();
      while chr != END_MARK as int
        invariant Valid() && Lookahead(chr, q) && start <= q
        invariant number == data[start..q]
        invariant IntFrom(data, start, q) == IntAt(data, old(pos))
        decreases |data| - q
      {
        if chr == -1 {
          return Err(IllegalState);
        }
        assert data[start..q + 1] == number + [chr];
        number := number + [chr];
        q := pos;
        chr := Read();
      }
      if |number| == 0 {
        return Err(StringIndexOutOfBounds);
      }
      if number[0] == ZERO && |number| != 1 {
        return Err(IllegalState);
      }
      if number == [MINUS, ZERO] {
        return Err(IllegalArgument);
      }
      var n := ParseLong(number);
      if n.None? {
        return Err(NumberFormat);
      }
      return Ok(n.value);
    }

    method ReadBytes() returns (r: Result<seq<byte>>)
      requires Valid()
      modifies this
      ensures Valid()
      ensures Located(r, pos) == BytesAt(data, old(pos))
    {
      ghost var start := pos;
      var lengthString: seq<byte> := [];
      ghost var q := pos;
      var chr := Read();
      while chr != STRING_SPLIT as int
        invariant Valid() && Lookahead(chr, q) && start <= q
        invariant lengthString == data[start..q]
        invariant BytesFrom(data, start, q) == BytesAt(data, start)
        decreases |data| - q
      {
        if chr == -1 {
          return Err(IllegalState);
        }
        assert data[start..q + 1] == lengthString + [chr];
        lengthString := lengthString + [chr];
        q := pos;
        chr := Read();
      }
      var length := ParseInt(lengthString);
      if length.None? {
        return Err(IllegalState);
      }
      if length.value < 0 {
        return Err(NegativeArraySize);
      }
      // inputStream.read(byteString) delivers what is left, up to length bytes
      if |data| - pos < length.value {
        pos := |data|;
        return Err(IllegalState);
      }
      var byteString := data[pos..pos + length.value];
      pos := pos + length.value;
      return Ok(byteString);
    }

    /**
     * `readString`: the bytes of `readBytes`. Their decoding into a Java
     * string by the charset is not modelled, so this is ReadBytes itself.
     */
    method ReadString() returns (r: Result<seq<byte>>)
      requires Valid()
      modifies this
      ensures Valid()
      ensures Located(r, pos) == BytesAt(data, old(pos))
    {
      r := ReadBytes();
    }

    method ReadList() returns (r: Result<seq<Value>>)
      requires Valid()
      modifies this
      decreases |data| - pos, 1
      ensures Valid()
      ensures Located(r, pos) == ListAt(data, old(pos))
    {
      var chr := Read();
      if chr != LIST_MARK as int {
        return Err(IllegalState);
      }
      ghost var goal := ListItems(data, pos, []);
      assert ListAt(data, old(pos)) == goal;
      var list: seq<Value> := [];
      ghost var q := pos;
      chr := Read();
      while chr != END_MARK as int
        invariant Valid() && Lookahead(chr, q) && old(pos) < q
        invariant ListItems(data, q, list) == goal
        decreases |data| - q
      {
        if chr == -1 {
          assert ListItems(data, q, list) == Err(IllegalState);
          return Err(IllegalState);
        }
        Unread(chr);
        ghost var elementAt := ValueAt(data, q);
        var element := ReadObject(chr);
        assert Located(element, pos) == elementAt;
        if element.Err? {
          ListItemsError(data, q, list);
          return Err(element.error);
        }
        ListItemsStep(data, q, list, element.value, pos);
        list := list + [element.value];
        q := pos;
        chr := Read();
      }
      assert ListItems(data, q, list) == Ok(Parsed(list, pos));
      return Ok(list);
    }

    method ReadDictionary() returns (r: Result<map<seq<byte>, Value>>)
      requires Valid()
      modifies this
      decreases |data| - pos, 1
      ensures Valid()
      ensures Located(r, pos) == DictAt(data, old(pos))
    {
      var chr := Read();
      if chr != DICTIONARY_MARK as int {
        return Err(IllegalState);
      }
      ghost var goal := DictItems(data, pos, map[]);
      assert DictAt(data, old(pos)) == goal;
      var dictionary: map<seq<byte>, Value> := map[];
      ghost var q := pos;
      chr := Read();
      while chr != END_MARK as int
        invariant Valid() && Lookahead(chr, q) && old(pos) < q
        invariant DictItems(data, q, dictionary) == goal
        decreases |data| - q
      {
        if chr == -1 {
          assert DictItems(data, q, dictionary) == Err(IllegalState);
          return Err(IllegalState);
        }
        Unread(chr);
        ghost var keyAt := BytesAt(data, q);
        var key := ReadString();
        assert Located(key, pos) == keyAt;
        if key.Err? {
          DictItemsKeyError(data, q, dictionary);
          return Err(key.error);
        }
        ghost var q1 := pos;
        chr := Read();
        // at the end of the stream the source unreads -1 as the byte 0xFF, which
        // the length loop of readBytes then reads before failing the same way
        if chr != -1 {
          Unread(chr);
        }
        assert pos == q1;
        ghost var valueAt := ValueAt(data, q1);
        var value := ReadObject(chr);
        assert Located(value, pos) == valueAt;
        if value.Err? {
          DictItemsValueError(data, q, dictionary, key.value, q1);
          return Err(value.error);
        }
        DictItemsStep(data, q, dictionary, key.value, q1, value.value, pos);
        dictionary := dictionary[key.value := value.value];
        q := pos;
        chr := Read();
      }
      assert DictItems(data, q, dictionary) == Ok(Parsed(dictionary, pos));
      return Ok(dictionary);
    }

    method ReadObject(chr: int) returns (r: Result<Value>)
      requires Valid() && chr == PeekAt(data, pos)
      modifies this
      decreases |data| - pos, 2
      ensures Valid()
      ensures Located(r, pos) == ValueAt(data, old(pos))
    {
      if chr == INTEGER_MARK as int {
        var n := ReadInt();
        r := if n.Ok? then Ok(Int(n.value)) else Err(n.error);
      } else if chr == LIST_MARK as int {
        var items := ReadList();
        r := if items.Ok? then Ok(List(items.value)) else Err(items.error);
      } else if chr == DICTIONARY_MARK as int {
        var entries := ReadDictionary();
        r := if entries.Ok? then Ok(Dict(entries.value)) else Err(entries.error);
      } else {
        var text := ReadString();
        r := if text.Ok? then Ok(Str(text.value)) else Err(text.error);
      }
    }
  }
}
