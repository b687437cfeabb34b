/** Concrete inputs worked through the grammar, the encoder and the
    info-hash buffer: how the decoder treats signs, zeros, lengths, NUL
    bytes, repeated keys and nested "info" keys, byte for byte. Bytes are
    written as their ASCII codes: 'a' 97, 'b' 98, 'c' 99, 'x' 120, and
    the constants of `ByteUtil` for digits and markers. */
module Examples {
  import opened ByteUtil
  import opened BValue
  import opened Grammar
  import opened Encoding
  import opened InfoHashing
  import opened Mirroring
  import opened TorrentInfo
  import opened RoundTrip

  /** A cursor at `p` that is not watching and has mirrored nothing. */
  function Plain(p: nat): Cursor {
    Cursor(p, false, [])
  }

  lemma SliceJoin(s: seq<byte>, i: nat, j: nat, k: nat)
    requires i <= j <= k <= |s|
    ensures s[i..j] + s[j..k] == s[i..k]
  {
  }

  /** An integer of one digit `k` from 1 to 9, read from `c`. */
  lemma OneDigitInteger(s: seq<byte>, c: Cursor, k: nat)
    requires 1 <= k <= 9 && c.pos + 3 <= |s|
    requires s[c.pos] == MarkerInt && s[c.pos + 1] as int == Zero as int + k && s[c.pos + 2] == MarkerEnd
    ensures ParseValue(s, c) == Ok(Parsed(Integer(k as i64), Advance(s, c, 3)))
  {
    var c1 := Advance(s, c, 1);
    OneDigitBody(s, c1, k);
    assert Take(s, c) == Ok(Parsed(MarkerInt, c1));
    AdvanceAdd(s, c, 1, 2);
  }

  /** The digit and the 'e' after the 'i'. */
  lemma OneDigitBody(s: seq<byte>, c1: Cursor, k: nat)
    requires 1 <= k <= 9 && c1.pos + 2 <= |s|
    requires s[c1.pos] as int == Zero as int + k && s[c1.pos + 1] == MarkerEnd
    ensures ParseInteger(s, c1) == Ok(Parsed(k as i64, Advance(s, c1, 2)))
  {
    var d := s[c1.pos];
    var c2 := Advance(s, c1, 1);
    var c3 := Advance(s, c2, 1);
    assert Take(s, c1) == Ok(Parsed(d, c2));
    assert Take(s, c2) == Ok(Parsed(MarkerEnd, c3));
    assert IntDigits(s, c3, [d], MarkerEnd) == Ok(Parsed([d], c3));
    assert DecimalValue([d]) == k by {
      assert [d][..0] == [];
    }
    assert IntegerDigits(s, c2, false, d) == Ok(Parsed(k as i64, c3));
    AdvanceAdd(s, c1, 1, 1);
  }

  /** "i-5e": the sign is checked but not kept, and the digit after it is
      stored twice, so the value read is 55. */
  lemma NegativeReadsDoubled()
    ensures Parse([MarkerInt, Minus, 53, MarkerEnd]) == Ok(Parsed(Integer(55), Cursor(4, false, [])))
  {
    assert DecimalValue([53, 53]) == 55;
  }

  /** "i0e" is zero; "i03e" and "i-0e" are rejected. */
  lemma ZeroForms()
    ensures Parse([MarkerInt, Zero, MarkerEnd]) == Ok(Parsed(Integer(0), Cursor(3, false, [])))
    ensures Parse([MarkerInt, Zero, 51, MarkerEnd]) == Err(LeadingZero)
    ensures Parse([MarkerInt, Minus, Zero, MarkerEnd]) == Err(NegativeZero)
  {
  }

  /** Nothing to read is an error, not an empty value. */
  lemma EmptyInput()
    ensures Parse([]) == Err(EndOfInput)
  {
  }

  /** "03:abc": the length may have leading zeros. */
  lemma LengthWithLeadingZero()
    ensures Parse([Zero, 51, Colon, 97, 98, 99]) == Ok(Parsed(ByteString([97, 98, 99]), Cursor(6, false, [])))
  {
    var s: seq<byte> := [Zero, 51, Colon, 97, 98, 99];
    assert LengthDigits(s, Plain(3), 3, Colon) == Ok(Parsed(3, Plain(3)));
    assert LengthDigits(s, Plain(2), 0, 51) == Ok(Parsed(3, Plain(3)));
    assert s[3..6] == [97, 98, 99];
    assert ReadBlock(s, Plain(3), 3) == Ok(Parsed([97, 98, 99], Plain(6)));
    assert ParseByteString(s, Plain(1), Zero) == Ok(Parsed([97, 98, 99], Plain(6)));
  }

  /** "5:ab": outside the "info" value a short byte string is accepted
      with the bytes that are there. */
  lemma ShortReadOutsideInfo()
    ensures Parse([53, Colon, 97, 98]) == Ok(Parsed(ByteString([97, 98]), Cursor(4, false, [])))
  {
    var s: seq<byte> := [53, Colon, 97, 98];
    assert LengthDigits(s, Plain(2), 5, Colon) == Ok(Parsed(5, Plain(2)));
    assert s[2..4] == [97, 98];
    assert ReadBlock(s, Plain(2), 5) == Ok(Parsed([97, 98], Plain(4)));
    assert ParseByteString(s, Plain(1), 53) == Ok(Parsed([97, 98], Plain(4)));
  }

  /** "d4:info5:ab": inside it, the same short byte string fails. */
  lemma ShortReadInsideInfo()
    ensures Parse([MarkerDict, 52, Colon] + InfoKey + [53, Colon, 97, 98]) == Err(ShortRead)
  {
    var s: seq<byte> := [MarkerDict, 52, Colon] + InfoKey + [53, Colon, 97, 98];
    assert LengthDigits(s, Plain(3), 4, Colon) == Ok(Parsed(4, Plain(3)));
    assert s[3..7] == InfoKey;
    assert ParseByteString(s, Plain(2), 52) == Ok(Parsed(InfoKey, Plain(7)));
    var c := Cursor(7, true, []);
    assert s[7..8] == [53] && s[8..9] == [Colon];
    var c1 := Cursor(9, true, [53, Colon]);
    assert LengthDigits(s, c1, 5, Colon) == Ok(Parsed(5, c1));
    assert ParseByteString(s, Cursor(8, true, [53]), 53) == Err(ShortRead);
    assert ParseValue(s, c) == Err(ShortRead);
    assert KeyValue(s, Plain(1), []) == Err(ShortRead);
    assert DictItems(s, Plain(1), []) == Err(ShortRead);
  }

  /** "l\0i1ee": a NUL where the next element or the 'e' is expected is
      skipped. */
  lemma NulSkippedInList()
    ensures Parse([MarkerList, 0, MarkerInt, 49, MarkerEnd, MarkerEnd]) ==
      Ok(Parsed(List([Integer(1)]), Cursor(6, false, [])))
  {
    var s: seq<byte> := [MarkerList, 0, MarkerInt, 49, MarkerEnd, MarkerEnd];
    assert IntDigits(s, Plain(5), [49], MarkerEnd) == Ok(Parsed([49], Plain(5)));
    assert DecimalValue([49]) == 1;
    assert IntegerDigits(s, Plain(4), false, 49) == Ok(Parsed(1, Plain(5)));
    assert ParseValue(s, Plain(2)) == Ok(Parsed(Integer(1), Plain(5)));
    assert ListItems(s, Plain(5), [Integer(1)]) == Ok(Parsed(List([Integer(1)]), Plain(6)));
    assert [] + [Integer(1)] == [Integer(1)];
    assert ListElement(s, Plain(2), []) == Ok(Parsed(List([Integer(1)]), Plain(6)));
    assert ListItems(s, Plain(1), []) == ListElement(s, Plain(2), []);
  }

  /** Only one NUL is skipped, and only in front of an element: in "l\0e"
      the 'e' is then read as the start of an element, and in "l\0\0e"
      the second NUL is; both are unknown types. */
  lemma NulOnlyBeforeElement()
    ensures Parse([MarkerList, 0, MarkerEnd]) == Err(UnknownType)
    ensures Parse([MarkerList, 0, 0, MarkerEnd]) == Err(UnknownType)
  {
    var s: seq<byte> := [MarkerList, 0, MarkerEnd];
    assert ParseValue(s, Plain(2)) == Err(UnknownType);
    assert ListItems(s, Plain(1), []) == ListElement(s, Plain(2), []);
    var t: seq<byte> := [MarkerList, 0, 0, MarkerEnd];
    assert ParseValue(t, Plain(2)) == Err(UnknownType);
    assert ListItems(t, Plain(1), []) == ListElement(t, Plain(2), []);
  }

  /** "i12x": a digit run that does not end in 'e'. */
  lemma UnterminatedInteger()
    ensures Parse([MarkerInt, 49, 50, 120]) == Err(MissingIntegerEnd)
  {
    var s: seq<byte> := [MarkerInt, 49, 50, 120];
    assert IntDigits(s, Plain(4), [49, 50], 120) == Err(MissingIntegerEnd);
    assert IntDigits(s, Plain(3), [49], 50) == Err(MissingIntegerEnd);
    assert IntegerDigits(s, Plain(2), false, 49) == Err(MissingIntegerEnd);
  }

  /** "3;abc": a length that is not followed by ':'. */
  lemma LengthWithoutColon()
    ensures Parse([51, 59, 97, 98, 99]) == Err(MissingColon)
  {
    var s: seq<byte> := [51, 59, 97, 98, 99];
    LengthMissingColon(s, Plain(2), 3, 59);
    assert ParseByteString(s, Plain(1), 51) == Err(MissingColon);
  }

  /** "x": a first byte the decoder does not dispatch on. */
  lemma UnknownFirstByte()
    ensures Parse([120]) == Err(UnknownType)
  {
    ValueUnknownType([120], Plain(0));
  }

  /** "i9223372036854775808e": one more than the largest 64-bit value
      passes the digit loop and fails the range check of `long.Parse`. */
  lemma LongOverflow()
    ensures Parse([MarkerInt] + Digits(MaxLong + 1) + [MarkerEnd]) == Err(IntegerOverflow)
  {
    var n := MaxLong + 1;
    var ds := Digits(n);
    var s := [MarkerInt] + ds + [MarkerEnd];
    LongDigitsLength(n / 10);
    DigitsNoLeadingZero(n);
    DecimalValueOfDigits(n);
    assert s[1..1 + |ds + [MarkerEnd]|] == ds + [MarkerEnd];
    IntDigitsRun(s, Plain(2), [], ds);
    AppendNil(ds);
    IntDigitsFirst(s, Plain(2), ds[0]);
    assert IntegerDigits(s, Plain(2), false, ds[0]) == Err(IntegerOverflow);
    assert ParseInteger(s, Plain(1)) == Err(IntegerOverflow);
  }

  /** "4294967299:abc": the length counter wraps around to 3, so the
      three bytes after the ':' are the byte string. */
  lemma LengthWraps()
    ensures Parse([52, 50, 57, 52, 57, 54, 55, 50, 57, 57, Colon, 97, 98, 99])
      == Ok(Parsed(ByteString([97, 98, 99]), Plain(14)))
  {
    var s: seq<byte> := [52, 50, 57, 52, 57, 54, 55, 50, 57, 57, Colon, 97, 98, 99];
    assert LengthDigits(s, Plain(11), 3, s[10]) == Ok(Parsed(3, Plain(11)));
    assert LengthDigits(s, Plain(10), 429496729, s[9]) == Ok(Parsed(3, Plain(11)));
    assert LengthDigits(s, Plain(9), 42949672, s[8]) == Ok(Parsed(3, Plain(11)));
    assert LengthDigits(s, Plain(8), 4294967, s[7]) == Ok(Parsed(3, Plain(11)));
    assert LengthDigits(s, Plain(7), 429496, s[6]) == Ok(Parsed(3, Plain(11)));
    assert LengthDigits(s, Plain(6), 42949, s[5]) == Ok(Parsed(3, Plain(11)));
    assert LengthDigits(s, Plain(5), 4294, s[4]) == Ok(Parsed(3, Plain(11)));
    assert LengthDigits(s, Plain(4), 429, s[3]) == Ok(Parsed(3, Plain(11)));
    assert LengthDigits(s, Plain(3), 42, s[2]) == Ok(Parsed(3, Plain(11)));
    assert LengthDigits(s, Plain(2), 4, s[1]) == Ok(Parsed(3, Plain(11)));
    assert s[11..14] == [97, 98, 99];
    assert ReadBlock(s, Plain(11), 3) == Ok(Parsed([97, 98, 99], Plain(14)));
    assert ParseByteString(s, Plain(1), 52) == Ok(Parsed([97, 98, 99], Plain(14)));
  }

  /** "le" and "de" are the empty list and the empty dictionary. */
  lemma EmptyContainers()
    ensures Parse([MarkerList, MarkerEnd]) == Ok(Parsed(List([]), Cursor(2, false, [])))
    ensures Parse([MarkerDict, MarkerEnd]) == Ok(Parsed(Dictionary([]), Cursor(2, false, [])))
  {
    assert ListItems([MarkerList, MarkerEnd], Plain(1), []) == Ok(Parsed(List([]), Plain(2)));
    assert DictItems([MarkerDict, MarkerEnd], Plain(1), []) == Ok(Parsed(Dictionary([]), Plain(2)));
  }

  /** "di1ei2ee": a key that is not a byte string fails. */
  lemma IntegerKey()
    ensures Parse([MarkerDict, MarkerInt, 49, MarkerEnd, MarkerInt, 50, MarkerEnd, MarkerEnd]) == Err(KeyNotString)
  {
    var s: seq<byte> := [MarkerDict, MarkerInt, 49, MarkerEnd, MarkerInt, 50, MarkerEnd, MarkerEnd];
    assert IntDigits(s, Plain(4), [49], MarkerEnd) == Ok(Parsed([49], Plain(4)));
    assert DecimalValue([49]) == 1;
    assert IntegerDigits(s, Plain(3), false, 49) == Ok(Parsed(1, Plain(4)));
    assert ParseValue(s, Plain(1)) == Ok(Parsed(Integer(1), Plain(4)));
    assert KeyValue(s, Plain(1), []) == Err(KeyNotString);
    assert DictEntry(s, Plain(1), []) == Err(KeyNotString);
    assert DictItems(s, Plain(1), []) == Err(KeyNotString);
  }

  /** The encoder writes dictionary entries in the order they were added,
      not sorted by key: {"b": 1, "a": 2} is "d1:bi1e1:ai2ee". */
  lemma EntriesInInsertionOrder()
    ensures Encode(Dictionary([Entry([98], Integer(1)), Entry([97], Integer(2))])) ==
      [MarkerDict, 49, Colon, 98, MarkerInt, 49, MarkerEnd,
       49, Colon, 97, MarkerInt, 50, MarkerEnd, MarkerEnd]
  {
  }

  /** `Update(a, 1, 2)` copies one byte, not two: the length is taken as
      the index to stop at. */
  lemma UpdateLengthIsEnd()
    ensures Appended([97, 98, 99, 120], 1, 2) == [98]
    ensures Appended([97, 98, 99, 120], 0, 2) == [97, 98]
  {
  }

  /** "d4:name4:teste", the encoding of the dictionary {"name": "test"}. */
  const SampleInfoBytes: seq<byte> :=
    [MarkerDict, 52, Colon, 110, 97, 109, 101, 52, Colon, 116, 101, 115, 116, MarkerEnd]

  /** "d4:infod4:name4:testee", a torrent with that dictionary as its
      "info" value. */
  const Sample: seq<byte> := [MarkerDict, 52, Colon] + InfoKey + SampleInfoBytes + [MarkerEnd]

  const SampleInfo: Value := Dictionary([Entry([110, 97, 109, 101], ByteString([116, 101, 115, 116]))])

  lemma SampleInfoEncoding()
    ensures Encode(SampleInfo) == SampleInfoBytes
  {
    var name, test: seq<byte> := [110, 97, 109, 101], [116, 101, 115, 116];
    assert Digits(4) == [52];
    assert EncodeString(name) == [52, Colon] + name;
    assert Encode(ByteString(test)) == [52, Colon] + test;
    assert [Entry(name, ByteString(test))][1..] == [];
    assert EncodeEntries([Entry(name, ByteString(test))]) == [52, Colon] + name + [52, Colon] + test;
  }

  lemma SampleEncoding()
    ensures Encode(Dictionary([Entry(InfoKey, SampleInfo)])) == Sample
  {
    SampleInfoEncoding();
    assert Digits(4) == [52];
    assert EncodeString(InfoKey) == [52, Colon] + InfoKey;
    assert [Entry(InfoKey, SampleInfo)][1..] == [];
    assert EncodeEntries([Entry(InfoKey, SampleInfo)]) == [52, Colon] + InfoKey + SampleInfoBytes;
  }

  /** In `Sample` the info-hash covers exactly the bytes of the "info"
      value, from its 'd' to its 'e'. */
  lemma InfoValueMirrored()
    ensures Parse(Sample).Ok? && Parse(Sample).value.rest.mirrored == SampleInfoBytes
  {
    SampleInfoEncoding();
    SampleEncoding();
    InfoHashOfEncoded([Entry(InfoKey, SampleInfo)], 0);
  }

  /** "d4:infod4:infoi1e1:xi2eee", a dictionary whose "info" value holds a
      further "info" key. */
  const Nested: seq<byte> := [MarkerDict, 52, Colon] + InfoKey + [MarkerDict, 52, Colon] + InfoKey +
    [MarkerInt, 49, MarkerEnd, 49, Colon, 120, MarkerInt, 50, MarkerEnd, MarkerEnd, MarkerEnd]

  /** The bytes of `Nested` up to the end of the inner "info" value. */
  function NestedPrefix(): seq<byte> {
    Nested[7..17]
  }

  /** The inner "info" key and its value, read while watching: mirroring
      is off once the value ends. */
  lemma NestedInnerEntry()
    ensures KeyValue(Nested, Cursor(8, true, Nested[7..8]), []) ==
      Ok(Parsed(Entry(InfoKey, Integer(1)), Cursor(17, false, NestedPrefix())))
  {
    var s := Nested;
    var w8 := Cursor(8, true, s[7..8]);
    var w14 := Cursor(14, true, s[7..14]);
    assert EncodeString(InfoKey) == [52, Colon] + InfoKey && s[8..14] == [52, Colon] + InfoKey;
    ParseEncodedString(s, w8, InfoKey);
    ValueMirror(s, w8);
    SliceJoin(s, 7, 8, 14);
    OneDigitInteger(s, w14, 1);
    SliceJoin(s, 7, 14, 17);
    ValueUnfold(s, w8, [], Parsed(ByteString(InfoKey), w14), w14);
  }

  /** The entry "x" after it, read with mirroring off. */
  lemma NestedSecondEntry(e1: Entry)
    requires e1.key == InfoKey
    ensures KeyValue(Nested, Cursor(17, false, NestedPrefix()), [e1]) ==
      Ok(Parsed(Entry([120], Integer(2)), Cursor(23, false, NestedPrefix())))
  {
    var s, m := Nested, NestedPrefix();
    var c := Cursor(17, false, m);
    assert s[19] == 120 && s[19..20] == [120];
    assert LengthDigits(s, Cursor(19, false, m), 1, Colon) == Ok(Parsed(1, Cursor(19, false, m)));
    assert ParseValue(s, c) == Ok(Parsed(ByteString([120]), Cursor(20, false, m)));
    assert IntDigits(s, Cursor(23, false, m), [50], MarkerEnd) == Ok(Parsed([50], Cursor(23, false, m)));
    assert DecimalValue([50]) == 2;
    assert ParseValue(s, Cursor(20, false, m)) == Ok(Parsed(Integer(2), Cursor(23, false, m)));
    assert Keys([e1]) == [InfoKey];
  }

  /** The inner dictionary after its first entry, read with mirroring off. */
  lemma NestedInnerRest()
    ensures DictItems(Nested, Cursor(17, false, NestedPrefix()), [Entry(InfoKey, Integer(1))]) ==
      Ok(Parsed(Dictionary([Entry(InfoKey, Integer(1)), Entry([120], Integer(2))]), Cursor(24, false, NestedPrefix())))
  {
    var s, m := Nested, NestedPrefix();
    var e1, e2 := Entry(InfoKey, Integer(1)), Entry([120], Integer(2));
    var c17, c23 := Cursor(17, false, m), Cursor(23, false, m);
    assert Take(s, c23) == Ok(Parsed(MarkerEnd, Cursor(24, false, m)));
    DictItemsUnfold(s, c23, [e1, e2]);
    NestedSecondEntry(e1);
    DictEntryUnfold(s, c17, [e1]);
    assert [e1] + [e2] == [e1, e2];
    assert Take(s, c17) == Ok(Parsed(49, Cursor(18, false, m)));
    DictItemsUnfold(s, c17, [e1]);
  }

  /** The inner dictionary, from its 'd' read while watching. */
  lemma NestedInner()
    ensures ParseValue(Nested, Cursor(7, true, [])) == Ok(Parsed(
      Dictionary([Entry(InfoKey, Integer(1)), Entry([120], Integer(2))]), Cursor(24, false, NestedPrefix())))
  {
    var s := Nested;
    var w8 := Cursor(8, true, s[7..8]);
    NestedInnerItems();
    assert [] + s[7..8] == s[7..8] && s[7] == MarkerDict;
    assert Take(s, Cursor(7, true, [])) == Ok(Parsed(MarkerDict, w8));
  }

  /** The entries of the inner dictionary and its closing 'e'. */
  lemma NestedInnerItems()
    ensures DictItems(Nested, Cursor(8, true, Nested[7..8]), []) == Ok(Parsed(
      Dictionary([Entry(InfoKey, Integer(1)), Entry([120], Integer(2))]), Cursor(24, false, NestedPrefix())))
  {
    var s := Nested;
    var e1 := Entry(InfoKey, Integer(1));
    var w8 := Cursor(8, true, s[7..8]);
    NestedInnerRest();
    NestedInnerEntry();
    DictEntryUnfold(s, w8, []);
    assert [] + [e1] == [e1];
    assert Take(s, w8).value.value == 52;
    DictItemsUnfold(s, w8, []);
  }


  /** An "info" key inside the "info" value turns mirroring off when its
      own value ends, so the info-hash covers "d4:infoi1e" and not the
      whole value "d4:infoi1e1:xi2ee". */
  lemma NestedInfoCutsMirror()
    ensures Parse(Nested).Ok? && Parse(Nested).value.rest.mirrored == Nested[7..17]
    ensures Nested[7..17] != Nested[7..24]
  {
    var s, m := Nested, NestedPrefix();
    assert s[3..7] == InfoKey;
    assert LengthDigits(s, Plain(3), 4, Colon) == Ok(Parsed(4, Plain(3)));
    assert ParseValue(s, Plain(1)) == Ok(Parsed(ByteString(InfoKey), Plain(7)));
    NestedInner();
    var outer := Entry(InfoKey, Dictionary([Entry(InfoKey, Integer(1)), Entry([120], Integer(2))]));
    assert KeyValue(s, Plain(1), []) == Ok(Parsed(outer, Cursor(24, false, m)));
    assert [] + [outer] == [outer];
    assert Take(s, Cursor(24, false, m)) == Ok(Parsed(MarkerEnd, Cursor(25, false, m)));
    DictItemsUnfold(s, Cursor(24, false, m), [outer]);
    DictEntryUnfold(s, Plain(1), []);
    DictItemsUnfold(s, Plain(1), []);
    assert DictItems(s, Plain(1), []) == Ok(Parsed(Dictionary([outer]), Cursor(25, false, m)));
    assert |s[7..24]| == 17;
  }
}
