# BEncode codec and info-hash accumulator

This project models the core of `BEncodeLib`, a C# library that reads and
writes BEncode. BEncode is the serialisation of the BitTorrent protocol
(BEP 3). The model covers three parts:

- **`TorrentBDecoder`** is a recursive-descent reader with a one-byte
  lookahead. In its lookahead field, 0 means "nothing held".
  - It reads byte strings (`<length>:<bytes>`), integers (`i<digits>e`),
    lists (`l…e`) and dictionaries (`d…e`).
  - While it reads the value stored under the key `"info"`, it feeds every
    raw byte it reads into an `InfoHash` accumulator. The SHA-1 of those
    bytes is the torrent's info-hash.
  - In the model it is the class `Decoding.TorrentBDecoder`, over an
    in-memory input (`seq<byte>`) with a read position. Every method is
    proved to return exactly what a pure grammar returns (module `Grammar`).
    That grammar reads from a `Cursor`, made of the position, the
    "watching" flag and the bytes mirrored so far.
  - Exceptions become values of the `Error` datatype.
- **`BEncoder`** writes a value tree to a stream. In the model, its methods
  append to a `ByteSink`. Each method is proved to append exactly the pure
  `Encode` of its argument.
- **`InfoHash`** is an append-only byte buffer. It grows by reallocating
  and copying. In the model it is the class `InfoHashing.InfoHash`, over an
  `array<byte>` and an index. It keeps the invariant
  `0 <= index <= contents.Length`, and its contents are tracked as a ghost
  sequence. SHA-1 is passed in as a function.

On top of the operations, the project proves:

- decoding an encoding gives the value back and stops right after it
  (`RoundTrip.DecodeEncode`);
- decoding a dictionary's encoding succeeds exactly when no key is repeated
  (`RoundTrip.DecodeDictionaryIffDistinct`);
- the info-hash of an encoded torrent is the SHA-1 of the encoding of its
  `"info"` value, and of nothing else (`TorrentInfo.InfoHashOfEncoded`).
  This holds when the torrent is `WellFormed` (distinct keys in every
  dictionary, non-negative 64-bit integers) and no value in it holds a
  nested `"info"` key;
- for any input at all that decodes to such a dictionary, the info-hash is
  the SHA-1 of nothing when there is no `"info"` entry, and otherwise of
  exactly the slice of the input that the `"info"` value is read from
  (`TorrentInfo.InfoHashOfInput`).

The model reproduces the following behaviours of the code as written. Where
they depart from BEP 3 or from the intent of the code, they are kept as the
code has them; module `Examples` pins each one to a concrete input.

- **Negative integers lose their sign.** After a `'-'`, the first digit is
  stored twice and the minus sign never is. So `i-5e` decodes to 55, and a
  negative integer never round-trips. `WellFormed` therefore admits only
  non-negative integers.
- **Length prefixes are loose.** A byte-string length may have leading
  zeros (`03:abc` reads `abc`). It is accumulated in a 32-bit `int` that
  wraps silently (`ByteUtil.Wrap32`), so `4294967299:abc` reads `abc`
  (`Examples.LengthWraps`). A wrapped length that is negative makes the
  read fail.
- **Short reads are not always errors.** A byte string whose payload is cut
  short by the end of input yields the bytes that are there. It fails only
  while the info-hash is being fed, because the accumulator then indexes
  past the short result.
- **End of input is always an error**, even before the first byte. The
  decoder's `-1` checks can never hold.
- **One NUL can vanish in front of an element.** A NUL byte where a list
  or dictionary expects its next element or its closing `e` is read into
  the lookahead. Because 0 also means "nothing held", the decoder reads the
  next byte over it, so the NUL is skipped. Exactly one NUL is skipped, and
  the byte after it is always decoded as an element. So `l`, NUL, `e` fails
  with an unknown-type error, and so do two NULs in a row
  (`Examples.NulOnlyBeforeElement`). When a NUL is skipped inside the
  `"info"` value, it is still fed to the info-hash.
- **Repeated keys fail late.** A repeated dictionary key is detected only
  after its value has been decoded, by `Dictionary.Add`.
- **A nested `"info"` key ends the info-hash early.** Inside the tracked
  value, a nested `"info"` key turns mirroring off once the nested value
  ends, so the rest of the outer `"info"` value is not hashed
  (`Examples.NestedInfoCutsMirror`).
- **The block overload of `InfoHash.Update` treats its length as an end
  index.** Its loop runs from `position` to `length`. The decoder only ever
  calls it with position 0, where the two readings agree.
- **The encoder writes dictionary entries in insertion order.** It does not
  sort them by key, as BEP 3 asks.

Dictionary keys are kept as raw bytes. The decoder turns them into .NET
strings with the text encoding passed to its constructor, and the encoder
with UTF-8 (see "Left out").

## Model

| member | source | states |
|---|---|---|
| InfoHashing.InfoHash.constructor | BEncodeLib/InfoHash.cs:31-36 | a fresh accumulator holds no bytes and has a capacity of 1024 |
| InfoHashing.InfoHash.Update | BEncodeLib/InfoHash.cs:38-44 | the contents become the old contents followed by the byte, the index grows by one, and the buffer invariant is kept (growth happens before the write) |
| InfoHashing.InfoHash.UpdateBlock | BEncodeLib/InfoHash.cs:46-55 | appends the bytes of the block from `position` up to index `length` (length is an end index), growing first; it runs without an out-of-range access exactly when `InBounds` holds, and when the loop throws, the index has already moved past one more zero slot, which stays in the contents |
| InfoHashing.InfoHash.CopyBlock | BEncodeLib/InfoHash.cs:51-54 | the copy loop appends the block's bytes from `position` to where it stops, and it stops only at `length` or at the first index outside the block |
| InfoHashing.InfoHash.SkipSlot | BEncodeLib/InfoHash.cs:53 | the `_index++` that runs before the out-of-range read throws appends one zero byte |
| InfoHashing.AppendedWhole | BEncodeLib/InfoHash.cs:46-55 | a block passed from position 0 with its own length, as the decoder passes it, is appended whole and in order |
| InfoHashing.AppendedCount | BEncodeLib/InfoHash.cs:46-55 | from any in-range position the loop appends exactly `length - position` bytes, the block's bytes from that position on, in order |
| InfoHashing.InfoHash.Digest | BEncodeLib/InfoHash.cs:57-61 | the digest is the hash of exactly the appended bytes, and asking for it changes nothing |
| InfoHashing.InfoHash.GrowContents | BEncodeLib/InfoHash.cs:63-70 | the capacity doubles, and the appended bytes and the index are unchanged |
| InfoHashing.InfoHash.GrowContentsAtLeast | BEncodeLib/InfoHash.cs:72-79 | the capacity becomes `min + 2 * old`, so `min` more bytes fit; the appended bytes and the index are unchanged |
| Encoding.Encode | BEncodeLib/BEncoder.cs:90-116 | every encoding is at least two bytes long |
| Encoding.EncodeString | BEncodeLib/BEncoder.cs:45-52 | a byte string's encoding is at least two bytes longer than its payload (a digit and the colon) |
| Encoding.EncodeItems | BEncodeLib/BEncoder.cs:68-71 | the elements of a list take at least two bytes each |
| Encoding.EncodeEntries | BEncodeLib/BEncoder.cs:81-85 | the entries of a dictionary take at least four bytes each (a key of at least two, a value of at least two) |
| ByteUtil.Digits | BEncodeLib/BEncoder.cs:47 | a count is written as a non-empty run of ASCII digits |
| ByteUtil.Decimal | BEncodeLib/BEncoder.cs:39 | a number is written with a leading `'-'` exactly when it is negative, and ASCII digits after it |
| ByteUtil.Utf8 | BEncodeLib/BEncoder.cs:56 | a text string takes between one and four bytes per character |
| Encoding.ByteSink.WriteByte | BEncodeLib/BEncoder.cs:37-42 | the sink grows by the one byte written |
| Encoding.ByteSink.Write | BEncodeLib/BEncoder.cs:45-52 | the sink grows by the block written |
| Encoding.BencodeInteger | BEncodeLib/BEncoder.cs:35-43 | appends `'i'`, the decimal digits of the number (with a `'-'` if negative) and `'e'` |
| Encoding.BencodeBytes | BEncodeLib/BEncoder.cs:45-52 | appends the decimal byte count, `':'` and the bytes |
| Encoding.BencodeText | BEncodeLib/BEncoder.cs:54-62 | appends the string's UTF-8 bytes, prefixed with their count |
| ByteUtil.Utf8Length | BEncodeLib/BEncoder.cs:54-62 | a text string's byte count is at least its character count, and equals it exactly when every character is ASCII |
| Encoding.BencodeList | BEncodeLib/BEncoder.cs:64-74 | appends `'l'`, each element's encoding in list order, and `'e'` |
| Encoding.BencodeDictionary | BEncodeLib/BEncoder.cs:76-88 | appends `'d'`, then for each entry in insertion order its key encoded as a byte string followed by its value, then `'e'` |
| Encoding.BencodeValue | BEncodeLib/BEncoder.cs:90-116 | dispatches on the kind of value and appends exactly its encoding |
| Encoding.EncodeStartsWithMarker | BEncodeLib/BEncoder.cs:35-88 | every encoding is at least two bytes long and starts with a digit, `'i'`, `'l'` or `'d'`, which are exactly the bytes the decoder dispatches on |
| Encoding.EncodeStringPrefix | BEncodeLib/BEncoder.cs:45-52 | a byte string's encoding is a run of digits whose value is the payload's byte count, then `':'`, then the payload |
| Encoding.EncodeItemsAppend | BEncodeLib/BEncoder.cs:64-74 | the encoding of a list body grows by one element's encoding per element written |
| Encoding.EncodeEntriesAppend | BEncodeLib/BEncoder.cs:76-88 | the encoding of a dictionary body grows by one key and one value per entry written |
| Examples.EntriesInInsertionOrder | BEncodeLib/BEncoder.cs:76-88 | the entries `b` then `a` are written as `d1:bi1e1:ai2ee`, keys unsorted |
| ByteUtil.DecimalValue | BEncodeLib/TorrentBDecoder.cs:175-180 | the value of `k` decimal digits is below `10^k` |
| ByteUtil.DecimalValueOfDigits | BEncodeLib/TorrentBDecoder.cs:175-180 | parsing the decimal digits the encoder writes for `n` gives back `n` |
| ByteUtil.DigitsNoLeadingZero | BEncodeLib/TorrentBDecoder.cs:159-160 | the digits written for a positive number start with 1-9, as the decoder demands |
| ByteUtil.LongDigitsLength | BEncodeLib/TorrentBDecoder.cs:147 | a 64-bit number has at most 19 digits, so it fits the 256-character digit buffer |
| ByteUtil.Wrap32 | BEncodeLib/TorrentBDecoder.cs:202-203 | the length counter's 32-bit wrap-around: the result is a 32-bit value congruent to the exact one |
| Decoding.TorrentBDecoder.constructor | BEncodeLib/TorrentBDecoder.cs:37-44 | a new decoder stands at position 0, holds no lookahead, is not watching, and has a fresh, empty accumulator |
| Decoding.TorrentBDecoder.GetInfoHash | BEncodeLib/TorrentBDecoder.cs:46-49 | the info-hash is the hash of exactly the bytes fed to the accumulator |
| Decoding.TorrentBDecoder.Decode | BEncodeLib/TorrentBDecoder.cs:61-90 | returns what the grammar's `ParseValue` gives from the decoder's current state, and on success leaves no lookahead held and the state at the grammar's cursor |
| Decoding.TorrentBDecoder.GetNextIndicator | BEncodeLib/TorrentBDecoder.cs:92-103 | returns the held byte if there is one; otherwise reads one byte, holds it, and feeds it to the accumulator when watching; end of input is an error |
| Decoding.TorrentBDecoder.Read | BEncodeLib/TorrentBDecoder.cs:105-116 | reads one byte, feeding it to the accumulator when watching; end of input is an error |
| Decoding.TorrentBDecoder.ReadBlock | BEncodeLib/TorrentBDecoder.cs:118-126 | reads up to `n` bytes (fewer at the end of input); when watching it feeds them to the accumulator and fails if fewer than `n` came |
| Decoding.TorrentBDecoder.DecodeLong | BEncodeLib/TorrentBDecoder.cs:128-181 | follows `ParseInteger`: `i0e` is 0, a `0` before anything but `e` is an error, and so are `-0`, a bad first digit, a missing `e`, a digit buffer overflow and a value outside 64 bits |
| Decoding.TorrentBDecoder.DecodeSigned | BEncodeLib/TorrentBDecoder.cs:147-163 | follows `IntegerSigned`: after `'-'` the first digit is stored twice and the sign is dropped |
| Decoding.TorrentBDecoder.DecodeDigits | BEncodeLib/TorrentBDecoder.cs:162-180 | the digit loop over the 256-byte buffer follows `IntegerDigits`: the digits up to `e`, then the 64-bit range check |
| Decoding.TorrentBDecoder.DecodeByteString | BEncodeLib/TorrentBDecoder.cs:188-212 | follows `ParseByteString`: length digits (leading zeros allowed, 32-bit wrap), then `':'`, then a read of that many bytes |
| Decoding.TorrentBDecoder.DecodeList | BEncodeLib/TorrentBDecoder.cs:214-236 | follows `ListItems`: elements in input order until `e`, with no lookahead left held |
| Decoding.TorrentBDecoder.DecodeElement | BEncodeLib/TorrentBDecoder.cs:229-230 | one turn of the list loop keeps the loop's agreement with `ListItems`: an element's error ends the list, otherwise the element is appended and the next lookahead fetched, after moving forward |
| Decoding.TorrentBDecoder.DecodeDictionary | BEncodeLib/TorrentBDecoder.cs:238-270 | follows `DictItems`: entries in input order until `e`, with no lookahead left held |
| Decoding.TorrentBDecoder.DecodeKeyValue | BEncodeLib/TorrentBDecoder.cs:250-262 | follows `KeyValue`: a non-string key is an error; the `"info"` key turns watching on for its value and off after it; a repeated key is an error raised after the value is read |
| Decoding.TorrentBDecoder.DecodeEntry | BEncodeLib/TorrentBDecoder.cs:250-264 | one turn of the dictionary loop keeps the loop's agreement with `DictItems`: an entry's error ends the dictionary, otherwise the entry is appended and the next lookahead fetched, after moving forward |
| Decoding.DecodeWithInfoHash | BEncodeLib.Example/Program.cs:16-20 | decoding an input with a new decoder and then asking for the info-hash gives the grammar's value or error, and the hash of exactly the bytes the grammar mirrors |
| Grammar.Parse | BEncodeLib/TorrentBDecoder.cs:61-90 | an empty input is an end-of-input error, and a value that is read consumes at least one byte |
| Grammar.ReadBlock | BEncodeLib/TorrentBDecoder.cs:118-126 | the block read is the input's bytes from the position on; it is shorter than asked only at the end of input, never while watching, and a non-negative count never fails when not watching |
| Grammar.ParseByteString | BEncodeLib/TorrentBDecoder.cs:188-212 | the payload is the input's bytes just before where the read stops, after at least one length byte |
| Grammar.ParseInteger | BEncodeLib/TorrentBDecoder.cs:128-181 | an integer that is read is never negative and consumes at least one byte |
| Grammar.IntegerZero | BEncodeLib/TorrentBDecoder.cs:137-145 | after a `0`, the read succeeds exactly when the next byte is `e`, giving 0 right after it; any other byte is a leading-zero error |
| Grammar.IntegerSigned | BEncodeLib/TorrentBDecoder.cs:150-157 | `-0` is a negative-zero error, and the value read is never negative |
| Grammar.IntegerDigits | BEncodeLib/TorrentBDecoder.cs:159-180 | a first digit outside 1-9 is an invalid-start error; otherwise the value read is non-negative and consumes input |
| Grammar.ListElement | BEncodeLib/TorrentBDecoder.cs:229-230 | an element and the rest of the list consume input and strictly extend the elements read so far |
| Grammar.DictEntry | BEncodeLib/TorrentBDecoder.cs:250-264 | an entry and the rest of the dictionary consume input and strictly extend the entries read so far |
| Grammar.KeyValue | BEncodeLib/TorrentBDecoder.cs:250-262 | an entry that is read has a key not read before in this dictionary, and after the `"info"` key's value watching is off |
| Grammar.ParseValue | BEncodeLib/TorrentBDecoder.cs:61-90 | a value that is read consumes at least one byte and stays within the input |
| Grammar.LengthDigits | BEncodeLib/TorrentBDecoder.cs:198-206 | the length loop stays within the input |
| Grammar.IntDigits | BEncodeLib/TorrentBDecoder.cs:165-176 | the digit loop collects only ASCII digits and stays within the input; a byte after the digits that is not `e` is a missing-end error, and a digit with the 256-byte buffer full is a buffer-overflow error |
| Grammar.ListItems | BEncodeLib/TorrentBDecoder.cs:225-233 | a list that is read consumes at least its closing `e` and extends the elements read so far |
| Grammar.DictItems | BEncodeLib/TorrentBDecoder.cs:246-267 | a dictionary that is read consumes at least its closing `e` and extends the entries read so far |
| Grammar.LengthMissingColon | BEncodeLib/TorrentBDecoder.cs:208-209 | after the length digits, a byte that is neither a digit nor `':'` is a missing-colon error |
| Grammar.ValueUnknownType | BEncodeLib/TorrentBDecoder.cs:70-89 | a first byte other than a digit, `'i'`, `'l'` or `'d'` is an unknown-type error |
| ByteUtil.Wrap32Step | BEncodeLib/TorrentBDecoder.cs:203 | wrapping the counter to 32 bits after every `num*10 + i` step gives the same as wrapping the exact value once |
| RoundTrip.LengthDigitsWrapRun | BEncodeLib/TorrentBDecoder.cs:198-211 | over any run of digits followed by `':'`, the length loop gives the 32-bit wrap of the run's exact decimal value and stops right after the `':'` |
| Mirroring.ValueMirror | BEncodeLib/TorrentBDecoder.cs:92-126 | a value without an `"info"` key moves over exactly its own bytes, keeps the watching flag, and mirrors those bytes exactly when watching |
| Mirroring.ListItemsMirror | BEncodeLib/TorrentBDecoder.cs:214-236 | the same for the rest of a list |
| Mirroring.DictItemsMirror | BEncodeLib/TorrentBDecoder.cs:238-270 | the same for the rest of a dictionary |
| Mirroring.KeyValueMirror | BEncodeLib/TorrentBDecoder.cs:250-262 | the same for one dictionary entry whose key is not `"info"` |
| Mirroring.ByteStringMirror | BEncodeLib/TorrentBDecoder.cs:188-212 | the same for a byte string |
| Mirroring.IntegerMirror | BEncodeLib/TorrentBDecoder.cs:128-181 | the same for an integer |
| RoundTrip.ParseEncoded | BEncodeLib/TorrentBDecoder.cs:61-270 | from any position and watching state, the encoding of a well-formed value is read back as that value, ending right after it |
| RoundTrip.ParseEncodedString | BEncodeLib/TorrentBDecoder.cs:188-212 | a byte string's encoding reads back as the same bytes and consumes exactly the encoding |
| RoundTrip.ParseEncodedInteger | BEncodeLib/TorrentBDecoder.cs:128-181 | a non-negative 64-bit integer's encoding reads back as the same integer and consumes exactly the encoding |
| RoundTrip.DecodeEncodedPrefix | BEncodeLib/BEncoder.cs:90-116 | an input that starts with a value's encoding decodes to that value, and the bytes after it are never read |
| RoundTrip.DecodeEncode | BEncodeLib/BEncoder.cs:90-116 | decoding what the encoder writes gives back every well-formed value and consumes the whole encoding |
| RoundTrip.DictRepeatRun | BEncodeLib/TorrentBDecoder.cs:248-265 | the rest of a dictionary in which some entry repeats a key fails with `DuplicateKey` |
| RoundTrip.DecodeRejectsRepeatedKey | BEncodeLib/TorrentBDecoder.cs:259 | the encoding of a dictionary with a repeated key fails to decode with `DuplicateKey` |
| RoundTrip.DecodeDictionaryIffDistinct | BEncodeLib/TorrentBDecoder.cs:238-270 | a dictionary's encoding decodes exactly when its keys are pairwise distinct |
| TorrentInfo.InfoBytesUnique | BEncodeLib/TorrentBDecoder.cs:253-262 | with distinct keys, only the one `"info"` entry's value contributes to the mirrored bytes |
| TorrentInfo.DictInfoRun | BEncodeLib/TorrentBDecoder.cs:248-265 | the entries of a top-level dictionary mirror exactly the encodings of the `"info"` entries' values |
| TorrentInfo.KeyValueInfoAny | BEncodeLib/TorrentBDecoder.cs:253-262 | on any input, an entry read while not watching whose value holds no `"info"` key leaves watching off; a key other than `"info"` mirrors nothing, and the `"info"` key mirrors exactly the raw bytes its value is read from |
| TorrentInfo.DictItemsInfoAny | BEncodeLib/TorrentBDecoder.cs:246-267 | on any input, the rest of a dictionary read while not watching, whose values hold no `"info"` key: the new keys are not among the earlier ones, no new `"info"` entry means nothing is mirrored, and an `"info"` entry means exactly its value's raw bytes are mirrored |
| TorrentInfo.DictEntryInfoAny | BEncodeLib/TorrentBDecoder.cs:250-264 | the same from the start of one entry |
| TorrentInfo.InfoHashOfInput | BEncodeLib/TorrentBDecoder.cs:92-126 | any input that decodes to a dictionary whose values hold no `"info"` key mirrors nothing without an `"info"` entry, and with one exactly the input slice its value is read from |
| TorrentInfo.InfoHashOfEncoded | BEncodeLib/TorrentBDecoder.cs:92-126 | decoding an encoded torrent whose values hold no nested `"info"` key gives the torrent back and mirrors exactly the encoding of its `"info"` value, from its first marker byte to its last byte |
| Examples.NegativeReadsDoubled | BEncodeLib/TorrentBDecoder.cs:150-163 | `i-5e` decodes to 55 |
| Examples.ZeroForms | BEncodeLib/TorrentBDecoder.cs:137-154 | `i0e` is 0, `i03e` is a leading-zero error, `i-0e` a negative-zero error |
| Examples.EmptyInput | BEncodeLib/TorrentBDecoder.cs:61-68 | an empty input is an end-of-input error, not a null result |
| Examples.LengthWithLeadingZero | BEncodeLib/TorrentBDecoder.cs:198-206 | `03:abc` reads `abc` |
| Examples.ShortReadOutsideInfo | BEncodeLib/TorrentBDecoder.cs:118-126 | `5:ab` reads `ab` without error |
| Examples.ShortReadInsideInfo | BEncodeLib/TorrentBDecoder.cs:118-126 | the same short string under the `"info"` key is a short-read error |
| Examples.NulSkippedInList | BEncodeLib/TorrentBDecoder.cs:92-103 | `l`, NUL, `i1ee` decodes to the list holding 1 |
| Examples.NulOnlyBeforeElement | BEncodeLib/TorrentBDecoder.cs:225-230 | `l`, NUL, `e` and `l`, NUL, NUL, `e` both fail as unknown types |
| Examples.EmptyContainers | BEncodeLib/TorrentBDecoder.cs:214-270 | `le` is the empty list and `de` the empty dictionary |
| Examples.UnterminatedInteger | BEncodeLib/TorrentBDecoder.cs:167-176 | `i12x` is a missing-end error |
| Examples.LongOverflow | BEncodeLib/TorrentBDecoder.cs:162-180 | `i9223372036854775808e` passes the digit loop and fails the 64-bit range check of `long.Parse` |
| Examples.LengthWithoutColon | BEncodeLib/TorrentBDecoder.cs:200-209 | `3;abc` is a missing-colon error |
| Examples.LengthWraps | BEncodeLib/TorrentBDecoder.cs:200-211 | `4294967299:abc` reads `abc`: the length counter wraps around to 3 |
| Examples.UnknownFirstByte | BEncodeLib/TorrentBDecoder.cs:70-89 | `x` is an unknown-type error |
| Examples.IntegerKey | BEncodeLib/TorrentBDecoder.cs:251 | `di1ei2ee` fails because its key is not a byte string |
| Examples.UpdateLengthIsEnd | BEncodeLib/InfoHash.cs:46-55 | a block update from position 1 with length 2 appends one byte, not two |
| Examples.InfoValueMirrored | BEncodeLib/TorrentBDecoder.cs:253-262 | in `d4:infod4:name4:testee` exactly the bytes of the inner dictionary are mirrored |
| Examples.NestedInfoCutsMirror | BEncodeLib/TorrentBDecoder.cs:261-262 | in `d4:infod4:infoi1e1:xi2eee` mirroring stops after the inner `"info"` value, short of the end of the outer one |

## Left out

- SHA-1 (`SHA1Managed.ComputeHash`) is foreign cryptography. It is a function parameter of `Digest`, `GetInfoHash` and `DecodeWithInfoHash`.
- `Stream`, `BinaryReader` and `Dispose` are replaced by an in-memory input sequence with a read position, and by a `ByteSink` holding the bytes written.
- The distinct .NET exception types become cases of one `Error` datatype. The state a decoder is left in after an error is not specified.
- The text conversions are not modelled: `GetString` of dictionary keys and in `DecodeString`, which use the `encoding` given to the decoder's constructor (BEncodeLib/TorrentBDecoder.cs:37-40, 251), and `GetBytes` and the `(string)` key cast in the encoder. The decoder model drops the `encoding` argument and keeps keys as raw bytes. Comparing raw key bytes agrees with the source only for an encoding that maps distinct byte strings to distinct strings and maps `"info"` from its ASCII bytes. Under UTF-8, keys that are distinct as bytes but invalid UTF-8 can collapse to the same .NET string, and the source would then report a duplicate that the model does not.
- Encoding.BencodeText: the UTF-8 encoding of text is modelled by `ByteUtil.Utf8` on code points. The .NET encoder's handling of unpaired UTF-16 surrogates is not captured.
- `DecodeString` (BEncodeLib/TorrentBDecoder.cs:183-186) is `DecodeByteString` followed by `GetString`. It is not part of this model.
- The encoder's "Type not supported" fallback and its dispatch on runtime types are left out: values are a closed datatype, so every case is covered. Text strings are encoded by their own method, `BencodeText`.
- The `_indicator == -1` test in `Decode` and the `c == -1` test in `Read` can never hold, so they are not modelled. End of input is always an error.
- The re-checks of the marker byte at the start of `DecodeLong`, `DecodeByteString`, `DecodeList` and `DecodeDictionary` cannot fail, because `Decode` has just dispatched on that byte. They are modelled as preconditions.
- InfoHashing.InfoHash.UpdateBlock: a 32-bit overflow of `_index + length` and the failure of an array allocation are not modelled, because integers are unbounded. When the loop reads out of range with the buffer already full, which needs `length <= 0` so that no growth happened, the source moves `_index` past the end of the array; the model leaves the contents unchanged in that case.
- InfoHashing.InfoHash.GrowContents and InfoHashing.InfoHash.GrowContentsAtLeast: the new capacity `_contents.Length * 2` (BEncodeLib/InfoHash.cs:65, 74) is an `int` product that would overflow past 2^31 bytes; capacities are unbounded in the model.
- Decoding.TorrentBDecoder.ReadBlock: `ReadBytes(num)` allocates a buffer of `num` bytes before reading, which can fail for a large declared length; the model reads only the bytes present.
- Encoding.BencodeInteger: `n.ToString()` (BEncodeLib/BEncoder.cs:39) uses the current culture's negative sign; the model always writes ASCII `'-'`.
- `TorrentFile.cs` (projection of a decoded dictionary into torrent fields) and the rest of `Program.cs` (file I/O and console output) are not part of this model.
