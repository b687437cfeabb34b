/** The BEncode serialiser (BEncodeLib/BEncoder.cs): a pure `Encode` that
    defines the wire form, and the stream-writing methods that produce it. */
module Encoding {
  import opened ByteUtil
  import opened BValue

  /** `<decimal length>:<bytes>` */
  function EncodeString(b: seq<byte>): (r: seq<byte>)
    ensures |r| >= |b| + 2
  {
    Digits(|b|) + [Colon] + b
  }

  /** The wire form of a value; dictionary entries are written in the
      order they are held in, without sorting the keys. */
  function Encode(v: Value): (r: seq<byte>)
    ensures |r| >= 2
    decreases v, 1
  {
    match v
    case Integer(n) => [MarkerInt] + Decimal(n as int) + [MarkerEnd]
    case ByteString(b) => EncodeString(b)
    case List(items) => [MarkerList] + EncodeItems(items) + [MarkerEnd]
    case Dictionary(es) => [MarkerDict] + EncodeEntries(es) + [MarkerEnd]
  }

  /** The elements of a list, each encoded in turn. */
  function EncodeItems(items: seq<Value>): (r: seq<byte>)
    ensures |r| >= 2 * |items|
    decreases items, 0
  {
    if items == [] then [] else Encode(items[0]) + EncodeItems(items[1..])
  }

  /** The entries of a dictionary: each key as a byte string, then its value. */
  function EncodeEntries(es: seq<Entry>): (r: seq<byte>)
    ensures |r| >= 4 * |es|
    decreases es, 0
  {
    if es == [] then [] else EncodeString(es[0].key) + Encode(es[0].value) + EncodeEntries(es[1..])
  }

  /** Every encoding starts with a byte the decoder dispatches on, so it
      never starts with 'e' or with the NUL the decoder treats as "no byte". */
  lemma EncodeStartsWithMarker(v: Value)
    ensures |Encode(v)| >= 2 && IsTypeMarker(Encode(v)[0])
  {
    match v
    case ByteString(b) =>
      assert Encode(v)[0] == Digits(|b|)[0];
    case _ =>
  }

  /** The length prefix of a byte string states its payload byte count. */
  lemma EncodeStringPrefix(b: seq<byte>)
    ensures var e := EncodeString(b);
      var k := |Digits(|b|)|;
      e[k] == Colon && AllDigits(e[..k]) && DecimalValue(e[..k]) == |b| && e[k + 1..] == b
  {
    var e := EncodeString(b);
    var k := |Digits(|b|)|;
    assert e[..k] == Digits(|b|);
    DecimalValueOfDigits(|b|);
  }

  /** A list's encoding is its element encodings concatenated in list order. */
  lemma {:induction false} EncodeItemsAppend(items: seq<Value>, v: Value)
    ensures EncodeItems(items + [v]) == EncodeItems(items) + Encode(v)
  {
    if items == [] {
      assert [v][1..] == [];
    } else {
      assert (items + [v])[1..] == items[1..] + [v];
      EncodeItemsAppend(items[1..], v);
    }
  }

  /** A dictionary's encoding is its entries, key then value, in the
      order they are held. */
  lemma {:induction false} EncodeEntriesAppend(es: seq<Entry>, e: Entry)
    ensures EncodeEntries(es + [e]) == EncodeEntries(es) + EncodeString(e.key) + Encode(e.value)
  {
    if es == [] {
      assert [e][1..] == [];
    } else {
      assert (es + [e])[1..] == es[1..] + [e];
      EncodeEntriesAppend(es[1..], e);
    }
  }

  /** The `Stream` the encoder writes to, as the sequence of bytes written. */
  class ByteSink {
    var bytes: seq<byte>

    constructor ()
      ensures bytes == []
    {
      bytes := [];
    }

    method WriteByte(b: byte)
      modifies this
      ensures bytes == old(bytes) + [b]
    {
      bytes := bytes + [b];
    }

    method Write(a: seq<byte>)
      modifies this
      ensures bytes == old(bytes) + a
    {
      bytes := bytes + a;
    }
  }

  /** `Bencode(long, Stream)` */
  method BencodeInteger(n: i64, s: ByteSink)
    modifies s
    ensures s.bytes == old(s.bytes) + Encode(Integer(n))
  {
    s.WriteByte(MarkerInt);
    s.Write(Decimal(n as int));
    s.WriteByte(MarkerEnd);
  }

  /** `Bencode(byte[], Stream)` */
  method BencodeBytes(b: seq<byte>, s: ByteSink)
    modifies s
    ensures s.bytes == old(s.bytes) + Encode(ByteString(b))
  {
    s.Write(Digits(|b|));
    s.WriteByte(Colon);
    s.Write(b);
  }

  /** `Bencode(string, Stream)`: the text is written as its UTF-8 bytes, and
      the length prefix counts those bytes, not the characters. */
  method BencodeText(str: string, s: ByteSink)
    modifies s
    ensures s.bytes == old(s.bytes) + EncodeString(Utf8(str))
  {
    var bytes := Utf8(str);
    s.Write(Digits(|bytes|));
    s.WriteByte(Colon);
    s.Write(bytes);
  }

  /** `Bencode(IList, Stream)` */
  method BencodeList(items: seq<Value>, s: ByteSink)
    modifies s
    ensures s.bytes == old(s.bytes) + Encode(List(items))
    decreases List(items), 1
  {
    s.WriteByte(MarkerList);
    for i := 0 to |items|
      invariant s.bytes == old(s.bytes) + [MarkerList] + EncodeItems(items[..i])
    {
      ghost var written := s.bytes;
      BencodeValue(items[i], s);
      ItemWritten(old(s.bytes) + [MarkerList], items, i, written, s.bytes);
    }
    assert items[..|items|] == items;
    s.WriteByte(MarkerEnd);
  }

  /** Writing the `i`-th element after the first `i` gives the first
      `i + 1`. */
  lemma ItemWritten(start: seq<byte>, items: seq<Value>, i: nat, written: seq<byte>, now: seq<byte>)
    requires i < |items| && written == start + EncodeItems(items[..i])
    requires now == written + Encode(items[i])
    ensures now == start + EncodeItems(items[..i + 1])
  {
    EncodeItemsAppend(items[..i], items[i]);
    assert items[..i + 1] == items[..i] + [items[i]];
    Regroup(start, written, now, EncodeItems(items[..i]), Encode(items[i]), []);
  }

  /** `Bencode(IDictionary, Stream)`: each key as a string, then its value,
      in the dictionary's enumeration order. */
  method BencodeDictionary(es: seq<Entry>, s: ByteSink)
    modifies s
    ensures s.bytes == old(s.bytes) + Encode(Dictionary(es))
    decreases Dictionary(es), 1
  {
    s.WriteByte(MarkerDict);
    for i := 0 to |es|
      invariant s.bytes == old(s.bytes) + [MarkerDict] + EncodeEntries(es[..i])
    {
      ghost var written := s.bytes;
      BencodeBytes(es[i].key, s);
      BencodeValue(es[i].value, s);
      EntryWritten(old(s.bytes) + [MarkerDict], es, i, written, s.bytes);
    }
    assert es[..|es|] == es;
    s.WriteByte(MarkerEnd);
  }

  /** Writing the `i`-th entry's key and value after the first `i` entries
      gives the first `i + 1` entries. */
  lemma EntryWritten(start: seq<byte>, es: seq<Entry>, i: nat, written: seq<byte>, now: seq<byte>)
    requires i < |es| && written == start + EncodeEntries(es[..i])
    requires now == written + Encode(ByteString(es[i].key)) + Encode(es[i].value)
    ensures now == start + EncodeEntries(es[..i + 1])
  {
    EncodeEntriesAppend(es[..i], es[i]);
    assert es[..i + 1] == es[..i] + [es[i]];
    Regroup(start, written, now, EncodeEntries(es[..i]), EncodeString(es[i].key), Encode(es[i].value));
  }

  lemma Regroup(start: seq<byte>, written: seq<byte>, now: seq<byte>, a: seq<byte>, b: seq<byte>, c: seq<byte>)
    requires written == start + a && now == written + b + c
    ensures now == start + (a + b + c)
  {
  }

  /** `Bencode(object, Stream)`: dispatch on the kind of value. */
  method BencodeValue(v: Value, s: ByteSink)
    modifies s
    ensures s.bytes == old(s.bytes) + Encode(v)
    decreases v, 2
  {
    match v
    case ByteString(b) => BencodeBytes(b, s);
    case Integer(n) => BencodeInteger(n, s);
    case List(items) => BencodeList(items, s);
    case Dictionary(es) => BencodeDictionary(es, s);
  }
}
