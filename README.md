# benjamin — a model of a Java bencode codec

benjamin reads and writes bencode, the encoding of BitTorrent metainfo
files (BEP 3). It has four kinds of value:

- integers `i<decimal>e`;
- byte strings `<length>:<bytes>`;
- lists `l…e`;
- dictionaries `d…e`, whose keys are byte strings.

The repository ships the codec twice:

- `org.benjamin`, the current generation;
- `pp.raindev.benjamin`, the earlier one.

Each generation has a `Bdecoder`, which reads from a byte stream with one byte of pushback, and a `Bencoder`, which writes Java objects to an output stream.

The model keeps the source's shape.

**Decoders.**
- Each decoder is a class. It holds the input bytes and a cursor, and each `read…` method is a method with a loop.
- Every method is proved to return exactly what a pure function of the input and the starting position says (`IntAt`, `BytesAt`, `ListAt`, `DictAt`, `ValueAt`). A failure is the Java exception the method would throw, modelled as a `Result`.
- Lemmas then state what those functions accept and reject, byte by byte.

**Encoders.**
- Each encoder is a class whose output is a byte sequence that its methods extend.
- Each `encode` method is proved to append what a pure function says (`IntEncoding`, `TextEncoding`, `BytesEncoding`, `ObjectEncoding`). That function also reports the exception at which the write stops.
- The Java objects handed to `encodeObject` are the datatype `Java.Obj`: `Integer`, `Long`, `Byte`, `String` (UTF-16 code units), `byte[]`, `List`, `Map`, `null`, or any other class.

**Java library.** The model writes out the library behaviour the codec relies on:
- `Integer.toString`, `Integer.parseInt`/`valueOf` and `Long.parseLong`, including a leading `+`, leading zeros and the 32/64-bit range (module `Decimal`);
- `String.compareTo` and the key order of `TreeMap`;
- `String.getBytes` for US-ASCII, ISO-8859-1 and UTF-8, including surrogate pairs and the `?` replacement (module `Java`).

**Where the source and its documentation disagree, the model follows the code.**
- `readInt` accepts `i+5e` and, in `pp.raindev.benjamin`, `i05e`.
- It rejects `i-0e` with `IllegalArgumentException`.
- `readBytes` fails with `NegativeArraySizeException` on a negative length.

All of these are modelled as the code behaves. They are not treated as generic parse failures.

**Module `Corrected`** is the encoder as evidently intended:
- a string's length prefix counts its bytes;
- `Long` and `Byte` numbers are written as numbers.

The round-trip modules prove that both decoders read back what this encoder writes. `Findings` relates the two encoders (see below).

## Model

| member | source | states |
|---|---|---|
| Decimal.ParseInRangeSpells | src/main/java/org/benjamin/Bdecoder.java:63 | `Long.parseLong` (and `Integer.parseInt`, with its range) gives `n` exactly when `n` is in range and the text spells `n`: any number of zeros before the canonical digits of `n`, after nothing or `+` when `n` is not negative and after `-` when it is not positive |
| Decimal.DecimalTextCanonical | src/main/java/org/benjamin/Bencoder.java:46 | `Integer.toString` gives digits with no leading zero, a `-` exactly for negative numbers, never `-0`, and no `:` or `e` |
| Decimal.DecimalTextParses | src/main/java/org/benjamin/Bencoder.java:46 | `parseInt`/`parseLong` of `Integer.toString(n)` give back `n` for every `n` in their range |
| Decimal.SignedValueCanonical | src/main/java/org/benjamin/Bdecoder.java:56-63 | any text with a value is either the canonical text of that value, or starts with `+`, or is a negative number with a leading zero, or has a leading zero |
| Findings.WidenInjective | src/main/java/org/benjamin/Bdecoder.java:73 | two byte strings that `new String(bytes, ISO_8859_1)` turns into the same `String` are the same bytes, so no two keys meet in one `put` under that charset |
| Java.LessIrreflexive | src/main/java/org/benjamin/Bencoder.java:99 | the `String.compareTo` order that the `TreeMap` uses never puts a string before itself |
| Java.LessAsymmetric | src/main/java/org/benjamin/Bencoder.java:99 | no two strings each come before the other |
| Java.LessTransitive | src/main/java/org/benjamin/Bencoder.java:99 | the order is transitive |
| Java.LessTotal | src/main/java/org/benjamin/Bencoder.java:99 | any two distinct strings are ordered one way or the other |
| Java.Least | src/main/java/org/benjamin/Bencoder.java:99 | a non-empty key set has exactly one least key, and it is the first that `TreeMap` iteration yields |
| Java.SortedKeysOrder | src/main/java/org/benjamin/Bencoder.java:99 | the `TreeMap` iteration order holds every key exactly once, strictly ascending |
| Java.GetBytesTransparent | src/main/java/org/benjamin/Bencoder.java:59 | `getBytes` of a string whose characters all fit the charset (below 0x80, or below 0x100 for ISO-8859-1) is those characters as bytes |
| Java.GetBytesAsciiPrefix | src/main/java/pp/raindev/benjamin/Bencoder.java:49 | `getBytes` of an ASCII prefix followed by any string is the prefix followed by the encoding of the rest |
| Java.Utf8Length | src/main/java/org/benjamin/Bencoder.java:57-59 | UTF-8 never gives fewer bytes than the string has characters; it gives exactly as many for ASCII and more when there is a non-ASCII, non-surrogate character |
| Java.Latin1RoundTrip | src/main/java/org/benjamin/Bdecoder.java:73 | decoding bytes as ISO-8859-1 and encoding them back gives the same bytes |
| Encoder.EncodableExactly | src/main/java/org/benjamin/Bencoder.java:113-127 | `encodeObject` completes without an exception exactly when every part of the object is an `Integer`, `String`, `byte[]`, `List` or `Map`; a `Long` or `Byte` gives ClassCastException, `null` gives NullPointerException, and any other class gives IllegalArgumentException |
| Encoder.EntriesSorted | src/main/java/org/benjamin/Bencoder.java:97-104 | the entries of a map are written key by key in `TreeMap` order |
| Encoder.Bencoder.constructor | src/main/java/org/benjamin/Bencoder.java:33-36 | a new encoder has the given charset and has written nothing |
| Encoder.Bencoder.EncodeInt | src/main/java/org/benjamin/Bencoder.java:44-48 | appends `i`, the decimal text and `e` |
| Encoder.Bencoder.EncodeText | src/main/java/org/benjamin/Bencoder.java:56-60 | appends the string's character count, `:`, and the string's bytes in the charset |
| Encoder.Bencoder.EncodeBytes | src/main/java/org/benjamin/Bencoder.java:68-72 | appends the byte count, `:` and the bytes |
| Encoder.Bencoder.EncodeList | src/main/java/org/benjamin/Bencoder.java:82-88 | appends `l`, each element in order and `e`, or stops at the first element that throws and reports its exception |
| Encoder.Bencoder.EncodeMap | src/main/java/org/benjamin/Bencoder.java:97-104 | appends `d`, each key and value in key order and `e`, or stops at the first value that throws |
| Encoder.Bencoder.EncodeObject | src/main/java/org/benjamin/Bencoder.java:113-127 | appends the encoding of the object by its class and reports the exception thrown, if any |
| RaindevEncoder.JoinedTextSame | src/main/java/pp/raindev/benjamin/Bencoder.java:48-50 | encoding the concatenation `length + ":" + s` in one call writes the same bytes as the three separate writes of the later version |
| RaindevEncoder.Bencoder.constructor | src/main/java/pp/raindev/benjamin/Bencoder.java:27-30 | a new encoder has the given charset and has written nothing |
| RaindevEncoder.Bencoder.EncodeInt | src/main/java/pp/raindev/benjamin/Bencoder.java:38-40 | appends `i`, the decimal text and `e` |
| RaindevEncoder.Bencoder.EncodeText | src/main/java/pp/raindev/benjamin/Bencoder.java:48-50 | appends the character count, `:` and the string's bytes in the charset |
| RaindevEncoder.Bencoder.EncodeBytes | src/main/java/pp/raindev/benjamin/Bencoder.java:58-61 | appends the byte count, `:` and the bytes |
| RaindevEncoder.Bencoder.EncodeList | src/main/java/pp/raindev/benjamin/Bencoder.java:71-77 | appends `l`, the elements and `e`, or stops at the first exception |
| RaindevEncoder.Bencoder.EncodeMap | src/main/java/pp/raindev/benjamin/Bencoder.java:86-93 | appends `d`, the entries in key order and `e`, or stops at the first exception |
| RaindevEncoder.Bencoder.EncodeObject | src/main/java/pp/raindev/benjamin/Bencoder.java:102-116 | appends the encoding of the object by its class and reports the exception, the same as the later encoder |
| Decoder.IntAt | src/main/java/org/benjamin/Bdecoder.java:43-64 | a successful `readInt` consumes at least one byte, stays within the input and returns a `long` |
| Decoder.BytesAt | src/main/java/org/benjamin/Bdecoder.java:82-102 | a successful `readBytes` consumes at least one byte and stays within the input |
| Decoder.ListAt | src/main/java/org/benjamin/Bdecoder.java:110-125 | a successful `readList` consumes at least one byte and stays within the input |
| Decoder.DictAt | src/main/java/org/benjamin/Bdecoder.java:134-152 | a successful `readDictionary` consumes at least one byte and stays within the input |
| Decoder.ValueAt | src/main/java/org/benjamin/Bdecoder.java:154-165 | a successful `readObject` consumes at least one byte and stays within the input |
| Decoder.IntAtRejects | src/main/java/org/benjamin/Bdecoder.java:45-55 | a missing `i`, the end of the input, or no `e` after the `i` gives IllegalStateException |
| Decoder.IntAtOutcome | src/main/java/org/benjamin/Bdecoder.java:49-63 | up to the first `e`: empty text gives StringIndexOutOfBoundsException, a zero-padded number gives IllegalStateException, `-0` gives IllegalArgumentException, and anything else is `Long.parseLong` of the text (NumberFormatException, or the value with the cursor after the `e`) |
| Decoder.IntAtAccepted | src/main/java/org/benjamin/Bdecoder.java:43-64 | an accepted integer is `i`, text with no `e`, and `e`; its value is that of the text; and the text is canonical, or starts with `+`, or is a negative number with a leading zero |
| Decoder.BytesAtOutcome | src/main/java/org/benjamin/Bdecoder.java:82-102 | no `:` gives IllegalStateException; a length `parseInt` rejects gives IllegalStateException; a negative length gives NegativeArraySizeException; too few bytes gives IllegalStateException; otherwise the bytes after the `:` |
| Decoder.LaterKeyWins | src/main/java/org/benjamin/Bdecoder.java:134-152 | `put` keeps the last value of a repeated key: `d1:ai1e1:ai2ee` reads as the dictionary mapping `a` to 2 |
| Decoder.ValueAtPrefix | src/main/java/org/benjamin/Bdecoder.java:154-165 | a read looks at no byte past the end of the value it reads: any input that agrees up to there gives the same result |
| Decoder.ValueAtTruncated | src/main/java/org/benjamin/Bdecoder.java:154-165 | a stream that ends inside a value gives IllegalStateException |
| Decoder.Bdecoder.constructor | src/main/java/org/benjamin/Bdecoder.java:32-35 | a new decoder reads the given bytes from the start |
| Decoder.Bdecoder.FromText | src/main/java/org/benjamin/Bdecoder.java:20-23 | a decoder built from a string reads that string's bytes in the charset |
| Decoder.Bdecoder.Read | src/main/java/org/benjamin/Bdecoder.java:18 | `read` returns the next byte and advances, or returns -1 at the end and stays there |
| Decoder.Bdecoder.Unread | src/main/java/org/benjamin/Bdecoder.java:121 | `unread` of the byte just read steps back over it |
| Decoder.Bdecoder.ReadInt | src/main/java/org/benjamin/Bdecoder.java:43-64 | returns the result of `IntAt` at the starting position and leaves the cursor after what it read |
| Decoder.Bdecoder.ReadBytes | src/main/java/org/benjamin/Bdecoder.java:82-102 | returns `BytesAt` at the starting position and leaves the cursor after it |
| Decoder.Bdecoder.ReadString | src/main/java/org/benjamin/Bdecoder.java:72-74 | returns the bytes `readBytes` reads |
| Decoder.Bdecoder.ReadList | src/main/java/org/benjamin/Bdecoder.java:110-125 | returns `ListAt` at the starting position and leaves the cursor after it |
| Decoder.Bdecoder.ReadDictionary | src/main/java/org/benjamin/Bdecoder.java:134-152 | returns `DictAt` at the starting position and leaves the cursor after it |
| Decoder.Bdecoder.ReadObject | src/main/java/org/benjamin/Bdecoder.java:154-165 | dispatches on the pushed-back byte and returns `ValueAt` at the starting position |
| RaindevDecoder.IntAt | src/main/java/pp/raindev/benjamin/Bdecoder.java:36-54 | a successful `readInt` consumes at least one byte and returns an `int` |
| RaindevDecoder.BytesAt | src/main/java/pp/raindev/benjamin/Bdecoder.java:72-87 | a successful `readBytes` consumes at least one byte and stays within the input |
| RaindevDecoder.ValueAt | src/main/java/pp/raindev/benjamin/Bdecoder.java:138-149 | a successful `readObject` consumes at least one byte and stays within the input |
| RaindevDecoder.ListAt | src/main/java/pp/raindev/benjamin/Bdecoder.java:95-110 | a successful `readList` consumes at least one byte and stays within the input |
| RaindevDecoder.DictAt | src/main/java/pp/raindev/benjamin/Bdecoder.java:118-136 | a successful `readDictionary` consumes at least one byte and stays within the input |
| RaindevDecoder.IntAtRejects | src/main/java/pp/raindev/benjamin/Bdecoder.java:38-48 | a missing `i`, the end of the input, or no `e` gives IllegalStateException |
| RaindevDecoder.IntAtOutcome | src/main/java/pp/raindev/benjamin/Bdecoder.java:42-53 | `-0` gives IllegalArgumentException, empty text gives NumberFormatException, and anything else is `Integer.valueOf` of the text; there is no zero-padding check |
| RaindevDecoder.IntAtAccepted | src/main/java/pp/raindev/benjamin/Bdecoder.java:36-54 | an accepted integer's text has its value, and is canonical, `+`-prefixed, a negative number with a leading zero, or zero-padded |
| RaindevDecoder.BytesAtOutcome | src/main/java/pp/raindev/benjamin/Bdecoder.java:72-87 | no `:` gives IllegalStateException; a bad length gives NumberFormatException; a negative length gives NegativeArraySizeException; too few bytes gives IllegalStateException; otherwise the bytes |
| RaindevDecoder.LaterKeyWins | src/main/java/pp/raindev/benjamin/Bdecoder.java:118-136 | the `HashMap` `put` keeps the last value of a repeated key: `d1:ai1e1:ai2ee` reads as the dictionary mapping `a` to 2 |
| RaindevDecoder.Bdecoder.constructor | src/main/java/pp/raindev/benjamin/Bdecoder.java:25-28 | a new decoder reads the given bytes from the start |
| RaindevDecoder.Bdecoder.ReadInt | src/main/java/pp/raindev/benjamin/Bdecoder.java:36-54 | returns `IntAt` at the starting position and leaves the cursor after it |
| RaindevDecoder.Bdecoder.ReadBytes | src/main/java/pp/raindev/benjamin/Bdecoder.java:72-87 | returns `BytesAt` at the starting position and leaves the cursor after it |
| RaindevDecoder.Bdecoder.ReadString | src/main/java/pp/raindev/benjamin/Bdecoder.java:62-64 | returns the bytes `readBytes` reads |
| RaindevDecoder.Bdecoder.ReadList | src/main/java/pp/raindev/benjamin/Bdecoder.java:95-110 | returns `ListAt` at the starting position and leaves the cursor after it |
| RaindevDecoder.Bdecoder.ReadDictionary | src/main/java/pp/raindev/benjamin/Bdecoder.java:118-136 | returns `DictAt` at the starting position and leaves the cursor after it |
| RaindevDecoder.Bdecoder.ReadObject | src/main/java/pp/raindev/benjamin/Bdecoder.java:138-149 | dispatches on the pushed-back byte and returns `ValueAt` at the starting position |
| Corrected.FixedAgrees | src/main/java/org/benjamin/Bencoder.java:56-60 | when every string's character count equals its byte count and every part is of a documented kind, the source's encoder writes exactly what the corrected one writes |
| Corrected.FixedSucceeds | src/main/java/org/benjamin/Bencoder.java:113-127 | the corrected encoder throws on no object built from numbers, strings, byte arrays, lists and maps |
| Corrected.DictEntries | src/main/java/org/benjamin/Bdecoder.java:134-152 | the dictionary read back from an encoded map holds each key's encoded bytes mapped to that key's value |
| RoundTrip.IntRoundTrip | src/main/java/org/benjamin/Bdecoder.java:43-64 | `readInt` reads back what `encode(int)` wrote, for any `long`, and stops right after it |
| RoundTrip.BytesRoundTrip | src/main/java/org/benjamin/Bdecoder.java:82-102 | `readBytes` reads back what `encode(byte[])` wrote and stops right after it |
| RoundTrip.ValueRoundTrip | src/main/java/org/benjamin/Bdecoder.java:154-165 | `readObject` reads back what the corrected encoder wrote for any encodable object, whatever follows, and stops right after it |
| RoundTrip.ListRoundTrip | src/main/java/org/benjamin/Bdecoder.java:110-125 | `readList` reads back an encoded list element by element |
| RoundTrip.MapRoundTrip | src/main/java/org/benjamin/Bdecoder.java:134-152 | `readDictionary` reads back an encoded map entry by entry |
| RoundTrip.EncoderRoundTrip | src/main/java/org/benjamin/Bencoder.java:113-127 | what the source's encoder writes, without an exception and with byte-count lengths, is read back as the same value and nothing more |
| RaindevRoundTrip.EncodableFits | src/main/java/pp/raindev/benjamin/Bencoder.java:102-116 | an object the encoder accepts holds only numbers the `int` decoder can read |
| RaindevRoundTrip.IntRoundTrip | src/main/java/pp/raindev/benjamin/Bdecoder.java:36-54 | `readInt` reads back what `encode(int)` wrote, for any `int` |
| RaindevRoundTrip.ValueRoundTrip | src/main/java/pp/raindev/benjamin/Bdecoder.java:138-149 | `readObject` reads back what the corrected encoder wrote for any encodable object whose numbers fit an `int` |
| RaindevRoundTrip.EncoderRoundTrip | src/main/java/pp/raindev/benjamin/Bencoder.java:102-116 | what the earlier encoder writes, without an exception and with byte-count lengths, is read back by the earlier decoder |
| Findings.ReencodeAsWritten | src/main/java/org/benjamin/Bencoder.java:113-115 | writing a decoded value back completes exactly when the value holds no number, in any charset |
| Findings.DecodedNumberRead | src/main/java/org/benjamin/Bdecoder.java:134-152 | `d1:ni5ee` decodes to the dictionary mapping `n` to 5 |
| Findings.DecodedNumberRejected | src/main/java/org/benjamin/Bencoder.java:113-115 | writing that dictionary back stops after `d1:n` with ClassCastException |
| Findings.ReencodeWithoutIntegers | src/main/java/org/benjamin/Bencoder.java:97-127 | for a decoded value with no number, the source's encoder under ISO-8859-1 already writes the corrected encoding |
| Findings.Unboxed | src/main/java/org/benjamin/Bdecoder.java:154-165 | the objects the decoder returns carry the decoded value without loss |
| Findings.ReencodeDecoded | src/test/java/org/benjamin/TorrentTest.java:60-67 | with numbers written as numbers and strings decoded and encoded under ISO-8859-1, every decoded value is written back in full, and decoding that output gives the same value and consumes all of it |
| Findings.TextLengthAsWritten | src/main/java/org/benjamin/Bencoder.java:57 | under UTF-8, a string with a non-ASCII character has more bytes than characters, and `readBytes` takes only as many bytes as the written length |
| Findings.OmegaWritten | src/main/java/org/benjamin/Bencoder.java:56-60 | `"Ω"` is written `1:` CE A9, and a list holding it is written `l1:` CE A9 `e` |
| Findings.OmegaUnreadable | src/main/java/org/benjamin/Bdecoder.java:110-125 | reading that list gives IllegalStateException |
| Findings.TextRoundTrip | src/main/java/org/benjamin/Bencoder.java:56-60 | written with a byte-count length, a string in any charset reads back as exactly its bytes |

## Left out

- Input and output streams: IOException, and a `read(byte[])` that returns fewer bytes than are available. The input is a byte sequence and the output a byte sequence that is only ever appended to.
- `readString` returns the bytes of the string, not a Java `String`. Decoding those bytes in the decoder's charset is not modelled. Two different keys that decode to the same `String` would be merged by `put`, and the model does not merge them. `Findings` uses ISO-8859-1, which maps bytes one to one, where it needs the Java object.
- `Findings.ReencodeDecoded`: the repaired re-encode round trip is proved with strings decoded and encoded under ISO-8859-1 only. The torrent-file test uses UTF-8, under which the binary `pieces` string does not survive `new String(bytes, UTF_8)`.
- `Findings.Unboxed`: proved for the ISO-8859-1 view of the decoder's strings only, for the same reason.
- `Charset.forName` on an unknown name, and every charset other than US-ASCII, ISO-8859-1 and UTF-8.
- The `HashMap` of the earlier decoder and the `TreeMap` of the later one hold the same entries. Their iteration order is not part of the decoded value.
- `unread(-1)` at the end of the stream pushes back the byte 0xFF. The next read then sees that byte rather than the end. The model keeps the end of the input. Both give the same IllegalStateException at the next step.
- `Decoder.Bdecoder.ReadInt`, `ReadBytes`, `ReadString`, `ReadList`, `ReadDictionary` and `ReadObject`: on an exception, the contract does not state where the stream is left.
- `RaindevDecoder.Bdecoder.ReadInt`, `ReadBytes`, `ReadString`, `ReadList`, `ReadDictionary` and `ReadObject`: on an exception, the contract does not state where the stream is left.
- `RaindevDecoder`: has no prefix or truncation lemmas. Its loops are the same as the later decoder's.
- The exception messages are not modelled, only the exception classes.
- `Encoder.EncodableExactly`, `Encoder.Bencoder.EncodeMap`, `Encoder.Bencoder.EncodeObject`, `RaindevEncoder.Bencoder.EncodeMap` and `RaindevEncoder.Bencoder.EncodeObject`: map keys are non-null `String`s, because `Java.Obj`'s `MapOf` holds only those. A null key makes the `TreeMap` copy throw NullPointerException after `d` is written (org Bencoder.java:98-99, pp Bencoder.java:87-88). Non-`String` keys that reach the unchecked cast throw ClassCastException, either in the `TreeMap` copy or at `encode(entry.getKey())`. Neither exception path is modelled.
- The digits and the `i`, `e` and `:` markers that both encoders write with the no-argument `getBytes()` (org Bencoder.java:46, :57 and :69, and the earlier encoder's writes) are in the platform default charset. The model writes them as ASCII, so it assumes an ASCII-compatible default charset.

## Findings

| source | as written | input that shows it | evidently intended | confidence | as-written member | corrected member |
|---|---|---|---|---|---|---|
| src/main/java/org/benjamin/Bencoder.java:114-115 | `readInt` returns a `long`, so a decoded number is a `Long`. `encodeObject` casts any `Long` to `int` and throws ClassCastException. A decoded torrent with a number (the `piece length`) cannot be written back, although TorrentTest.java:60-67 expects re-encoding to reproduce the file | `d1:ni5ee` decodes to `{n: 5L}`; writing it stops after `d1:n` | write `Long` and `Byte` numbers as numbers | high (not executed) | Findings.DecodedNumberRejected | Findings.ReencodeDecoded |
| src/main/java/org/benjamin/Bencoder.java:57 | the length prefix of a string is `s.length()`, its count of UTF-16 code units, but the bytes after it are `s.getBytes(charset)`. Under UTF-8 a non-ASCII string gets a prefix shorter than its bytes. The same holds for the earlier generation at src/main/java/pp/raindev/benjamin/Bencoder.java:49. BencoderTest.java:53-58 pins the character count | the list `["Ω"]` under UTF-8 is written `l1:` CE A9 `e`, which reads back as IllegalStateException | the prefix counts the bytes written, as BEP 3 defines a byte string | medium (not executed; the repository's own test asserts the as-written output) | Findings.OmegaUnreadable | Findings.TextRoundTrip |
