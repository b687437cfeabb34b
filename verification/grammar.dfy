/** The decoder's behaviour as pure functions over the input bytes
    (BEncodeLib/TorrentBDecoder.cs), without its one-byte lookahead field:
    each production starts at the position of its first byte. A cursor
    also carries the "inside the info value" flag and every byte mirrored
    into the info-hash so far, so the functions state exactly which bytes
    the accumulator receives. */
module Grammar {
  import opened ByteUtil
  import opened BValue

  /** The position of the next unread byte, whether bytes read now are
      mirrored into the info-hash (`_inInfoMap`), and the bytes mirrored
      so far. */
  datatype Cursor = Cursor(pos: nat, watching: bool, mirrored: seq<byte>)

  /** A decoded item and the cursor after it. */
  datatype Parsed<+T> = Parsed(value: T, rest: Cursor)

  /** The cursor after `k` more raw bytes are read: they are mirrored
      exactly when the cursor is watching. */
  function Advance(s: seq<byte>, c: Cursor, k: nat): Cursor
    requires c.pos + k <= |s|
  {
    Cursor(c.pos + k, c.watching, if c.watching then c.mirrored + s[c.pos..c.pos + k] else c.mirrored)
  }

  /** Reading `a` bytes and then `b` more is reading `a + b` bytes. */
  lemma AdvanceAdd(s: seq<byte>, c: Cursor, a: nat, b: nat)
    requires c.pos + a + b <= |s|
    ensures Advance(s, Advance(s, c, a), b) == Advance(s, c, a + b)
  {
    var p := c.pos;
    var x, y := s[p..p + a], s[p + a..p + a + b];
    assert x + y == s[p..p + a + b];
    assert c.mirrored + x + y == c.mirrored + (x + y);
  }

  /** Reading one byte: `ReadByte` fails at the end of the input. */
  function Take(s: seq<byte>, c: Cursor): Result<Parsed<byte>>
    requires c.pos <= |s|
  {
    if c.pos == |s| then Err(EndOfInput) else Ok(Parsed(s[c.pos], Advance(s, c, 1)))
  }

  /** `Read(n)`: `ReadBytes` rejects a negative count and returns what is
      left when fewer than `n` bytes remain; mirroring such a short block
      indexes past its end, so a short read fails only while watching. */
  function ReadBlock(s: seq<byte>, c: Cursor, n: int): (r: Result<Parsed<seq<byte>>>)
    requires c.pos <= |s|
    ensures r.Ok? ==> c.pos <= r.value.rest.pos <= |s| && r.value.value == s[c.pos..r.value.rest.pos]
    ensures r.Ok? ==> |r.value.value| == n || (|r.value.value| < n && r.value.rest.pos == |s|)
    ensures r.Ok? && c.watching ==> |r.value.value| == n
    ensures n >= 0 && !c.watching ==> r.Ok?
  {
    if n < 0 then Err(NegativeLength)
    else
      var got := if n <= |s| - c.pos then n else |s| - c.pos;
      if c.watching && got < n then Err(ShortRead)
      else Ok(Parsed(s[c.pos..c.pos + got], Advance(s, c, got)))
  }

  /** The length loop of `DecodeByteString`: `b` is the byte just read and
      `num` the 32-bit count so far; digits are folded in with C#'s
      wrap-around, and the first non-digit must be ':'. */
  function LengthDigits(s: seq<byte>, c: Cursor, num: int, b: byte): (r: Result<Parsed<int>>)
    requires c.pos <= |s|
    ensures r.Ok? ==> c.pos <= r.value.rest.pos <= |s|
    decreases |s| - c.pos
  {
    if IsDigit(b) then
      var t :- Take(s, c);
      LengthDigits(s, t.rest, Wrap32(num * 10 + (b as int - Zero as int)), t.value)
    else if b == Colon then Ok(Parsed(num, c))
    else Err(MissingColon)
  }

  /** A byte string after its first digit `d0` has been read. */
  function ParseByteString(s: seq<byte>, c: Cursor, d0: byte): (r: Result<Parsed<seq<byte>>>)
    requires c.pos <= |s| && IsDigit(d0)
    ensures r.Ok? ==> c.pos < r.value.rest.pos - |r.value.value| <= r.value.rest.pos <= |s|
    ensures r.Ok? ==> r.value.value == s[r.value.rest.pos - |r.value.value|..r.value.rest.pos]
  {
    var t :- Take(s, c);
    var n :- LengthDigits(s, t.rest, d0 as int - Zero as int, t.value);
    ReadBlock(s, n.rest, n.value)
  }

  /** The digit loop of `DecodeLong`: `b` is the byte just read and `chars`
      the 256-character buffer's filled part; the run must end in 'e'. */
  function IntDigits(s: seq<byte>, c: Cursor, chars: seq<byte>, b: byte): (r: Result<Parsed<seq<byte>>>)
    requires c.pos <= |s| && AllDigits(chars)
    ensures r.Ok? ==> c.pos <= r.value.rest.pos <= |s| && AllDigits(r.value.value)
    ensures !IsDigit(b) && b != MarkerEnd ==> r == Err(MissingIntegerEnd)
    ensures IsDigit(b) && |chars| >= 256 ==> r == Err(DigitBufferOverflow)
    decreases |s| - c.pos
  {
    if IsDigit(b) then
      if |chars| >= 256 then Err(DigitBufferOverflow)
      else
        var t :- Take(s, c);
        IntDigits(s, t.rest, chars + [b], t.value)
    else if b == MarkerEnd then Ok(Parsed(chars, c))
    else Err(MissingIntegerEnd)
  }

  /** An integer after its 'i' has been read: "0" must be followed by
      'e' at once; anything else goes on with the optional sign. */
  function ParseInteger(s: seq<byte>, c: Cursor): (r: Result<Parsed<i64>>)
    requires c.pos <= |s|
    ensures r.Ok? ==> r.value.value >= 0 && c.pos < r.value.rest.pos <= |s|
  {
    var p1 :- Take(s, c);
    if p1.value == Zero then IntegerZero(s, p1.rest) else IntegerSigned(s, p1.rest, p1.value)
  }

  /** "i0" must be followed by 'e'. */
  function IntegerZero(s: seq<byte>, c: Cursor): (r: Result<Parsed<i64>>)
    requires c.pos <= |s|
    ensures c.pos < |s| ==> (r.Ok? <==> s[c.pos] == MarkerEnd)
    ensures c.pos < |s| && s[c.pos] != MarkerEnd ==> r == Err(LeadingZero)
    ensures r.Ok? ==> r.value.value == 0 && r.value.rest.pos == c.pos + 1
  {
    var p2 :- Take(s, c);
    if p2.value == MarkerEnd then Ok(Parsed(0, p2.rest)) else Err(LeadingZero)
  }

  /** `first` is the byte after 'i'. A '-' is checked against "-0" but
      never stored: the digit after it goes into the buffer, and then goes
      in again as the first digit, so "i-5e" reads as 55. */
  function IntegerSigned(s: seq<byte>, c: Cursor, first: byte): (r: Result<Parsed<i64>>)
    requires c.pos <= |s|
    ensures first == Minus && c.pos < |s| && s[c.pos] == Zero ==> r == Err(NegativeZero)
    ensures r.Ok? ==> r.value.value >= 0 && c.pos < r.value.rest.pos <= |s|
  {
    if first == Minus then
      var q :- Take(s, c);
      if q.value == Zero then Err(NegativeZero) else IntegerDigits(s, q.rest, true, q.value)
    else IntegerDigits(s, c, false, first)
  }

  /** The first digit `d` (already read) must be 1-9; the buffer then holds
      it once, or twice after a '-'. Then the digit loop, and `long.Parse`
      with its range check. */
  function IntegerDigits(s: seq<byte>, c: Cursor, afterMinus: bool, d: byte): (r: Result<Parsed<i64>>)
    requires c.pos <= |s|
    ensures !(One <= d <= Nine) ==> r == Err(InvalidIntegerStart)
    ensures r.Ok? ==> 0 <= r.value.value && c.pos < r.value.rest.pos <= |s|
  {
    if !(One <= d <= Nine) then Err(InvalidIntegerStart)
    else
      var t :- Take(s, c);
      var ds :- IntDigits(s, t.rest, if afterMinus then [d, d] else [d], t.value);
      var n := DecimalValue(ds.value);
      if n > MaxLong then Err(IntegerOverflow) else Ok(Parsed(n as i64, ds.rest))
  }

  /** `Decode`: read the type marker and dispatch on it. */
  function ParseValue(s: seq<byte>, c: Cursor): (r: Result<Parsed<Value>>)
    requires c.pos <= |s|
    ensures r.Ok? ==> c.pos < r.value.rest.pos <= |s|
    decreases |s| - c.pos, 0
  {
    var m :- Take(s, c);
    if IsDigit(m.value) then
      var b :- ParseByteString(s, m.rest, m.value);
      Ok(Parsed(ByteString(b.value), b.rest))
    else if m.value == MarkerInt then
      var n :- ParseInteger(s, m.rest);
      Ok(Parsed(Integer(n.value), n.rest))
    else if m.value == MarkerList then ListItems(s, m.rest, [])
    else if m.value == MarkerDict then DictItems(s, m.rest, [])
    else Err(UnknownType)
  }

  /** The loop of `DecodeList` at the byte that decides whether another
      element follows. 'e' ends the list; a NUL is taken for "no byte
      held" and the element starts at the byte after it. */
  function ListItems(s: seq<byte>, c: Cursor, acc: seq<Value>): (r: Result<Parsed<Value>>)
    requires c.pos <= |s|
    ensures r.Ok? ==> c.pos < r.value.rest.pos <= |s|
    ensures r.Ok? ==> r.value.value.List? && acc <= r.value.value.items
    decreases |s| - c.pos, 2
  {
    var p :- Take(s, c);
    if p.value == MarkerEnd then Ok(Parsed(List(acc), p.rest))
    else if p.value == 0 then ListElement(s, p.rest, acc)
    else ListElement(s, c, acc)
  }

  /** One element of a list, then the rest of the list. */
  function ListElement(s: seq<byte>, c: Cursor, acc: seq<Value>): (r: Result<Parsed<Value>>)
    requires c.pos <= |s|
    ensures r.Ok? ==> c.pos < r.value.rest.pos <= |s|
    ensures r.Ok? ==> r.value.value.List? && acc < r.value.value.items
    decreases |s| - c.pos, 1
  {
    var v :- ParseValue(s, c);
    ListItems(s, v.rest, acc + [v.value])
  }

  /** The loop of `DecodeDictionary` at the byte that decides whether
      another entry follows; as for lists, a NUL there is skipped. */
  function DictItems(s: seq<byte>, c: Cursor, acc: seq<Entry>): (r: Result<Parsed<Value>>)
    requires c.pos <= |s|
    ensures r.Ok? ==> c.pos < r.value.rest.pos <= |s|
    ensures r.Ok? ==> r.value.value.Dictionary? && acc <= r.value.value.entries
    decreases |s| - c.pos, 3
  {
    var p :- Take(s, c);
    if p.value == MarkerEnd then Ok(Parsed(Dictionary(acc), p.rest))
    else if p.value == 0 then DictEntry(s, p.rest, acc)
    else DictEntry(s, c, acc)
  }

  /** One entry of a dictionary, then the rest of the dictionary. */
  function DictEntry(s: seq<byte>, c: Cursor, acc: seq<Entry>): (r: Result<Parsed<Value>>)
    requires c.pos <= |s|
    ensures r.Ok? ==> c.pos < r.value.rest.pos <= |s|
    ensures r.Ok? ==> r.value.value.Dictionary? && acc < r.value.value.entries
    decreases |s| - c.pos, 2
  {
    var e :- KeyValue(s, c, acc);
    DictItems(s, e.rest, acc + [e.value])
  }

  /** A key and its value. The key must decode to a byte string; the key
      "info" turns watching on for its value and off after it (whatever it
      was before); a key already in `acc` is rejected once its value has
      been decoded. */
  function KeyValue(s: seq<byte>, c: Cursor, acc: seq<Entry>): (r: Result<Parsed<Entry>>)
    requires c.pos <= |s|
    ensures r.Ok? ==> c.pos < r.value.rest.pos <= |s|
    ensures r.Ok? ==> r.value.value.key !in Keys(acc)
    ensures r.Ok? && r.value.value.key == InfoKey ==> !r.value.rest.watching
    decreases |s| - c.pos, 1
  {
    var k :- ParseValue(s, c);
    if !k.value.ByteString? then Err(KeyNotString)
    else
      var key := k.value.bytes;
      var isInfo := key == InfoKey;
      var c2 := if isInfo then k.rest.(watching := true) else k.rest;
      var v :- ParseValue(s, c2);
      if key in Keys(acc) then Err(DuplicateKey)
      else Ok(Parsed(Entry(key, v.value), if isInfo then v.rest.(watching := false) else v.rest))
  }

  /** Decoding a whole input from its first byte, not watching. */
  function Parse(s: seq<byte>): (r: Result<Parsed<Value>>)
    ensures |s| == 0 ==> r == Err(EndOfInput)
    ensures r.Ok? ==> 0 < r.value.rest.pos <= |s|
  {
    ParseValue(s, Cursor(0, false, []))
  }

  /** After the length digits, a byte that is neither a digit nor ':'
      is an error. */
  lemma LengthMissingColon(s: seq<byte>, c: Cursor, num: int, b: byte)
    requires c.pos <= |s| && !IsDigit(b) && b != Colon
    ensures LengthDigits(s, c, num, b) == Err(MissingColon)
  {
  }

  /** A value whose first byte is not one `Decode` dispatches on is an
      unknown type. */
  lemma ValueUnknownType(s: seq<byte>, c: Cursor)
    requires c.pos < |s| && !IsTypeMarker(s[c.pos])
    ensures ParseValue(s, c) == Err(UnknownType)
  {
  }

  /** One step of the list loop: the byte at `c` ends the list, is a NUL
      that is skipped, or is left for the next element. */
  lemma ListItemsUnfold(s: seq<byte>, c: Cursor, acc: seq<Value>)
    requires c.pos <= |s|
    ensures Take(s, c).Err? ==> ListItems(s, c, acc) == Err(Take(s, c).error)
    ensures Take(s, c).Ok? ==>
      var p := Take(s, c).value;
      ListItems(s, c, acc) ==
        if p.value == MarkerEnd then Ok(Parsed(List(acc), p.rest))
        else ListElement(s, if p.value == 0 then p.rest else c, acc)
  {
  }

  lemma ListElementUnfold(s: seq<byte>, c: Cursor, acc: seq<Value>)
    requires c.pos <= |s|
    ensures ParseValue(s, c).Err? ==> ListElement(s, c, acc) == Err(ParseValue(s, c).error)
    ensures ParseValue(s, c).Ok? ==>
      var p := ParseValue(s, c).value;
      ListElement(s, c, acc) == ListItems(s, p.rest, acc + [p.value])
  {
  }

  lemma DictItemsUnfold(s: seq<byte>, c: Cursor, acc: seq<Entry>)
    requires c.pos <= |s|
    ensures Take(s, c).Err? ==> DictItems(s, c, acc) == Err(Take(s, c).error)
    ensures Take(s, c).Ok? ==>
      var p := Take(s, c).value;
      DictItems(s, c, acc) ==
        if p.value == MarkerEnd then Ok(Parsed(Dictionary(acc), p.rest))
        else DictEntry(s, if p.value == 0 then p.rest else c, acc)
  {
  }

  lemma DictEntryUnfold(s: seq<byte>, c: Cursor, acc: seq<Entry>)
    requires c.pos <= |s|
    ensures KeyValue(s, c, acc).Err? ==> DictEntry(s, c, acc) == Err(KeyValue(s, c, acc).error)
    ensures KeyValue(s, c, acc).Ok? ==>
      var e := KeyValue(s, c, acc).value;
      DictEntry(s, c, acc) == DictItems(s, e.rest, acc + [e.value])
  {
  }

  /** The key of an entry fails, or is not a byte string. */
  lemma KeyUnfold(s: seq<byte>, c: Cursor, acc: seq<Entry>)
    requires c.pos <= |s|
    ensures ParseValue(s, c).Err? ==> KeyValue(s, c, acc) == Err(ParseValue(s, c).error)
    ensures ParseValue(s, c).Ok? && !ParseValue(s, c).value.value.ByteString? ==>
      KeyValue(s, c, acc) == Err(KeyNotString)
  {
  }

  /** After a byte-string key `k` and the watching flag set for its value
      (`c2`): the value fails, the key is a repeat, or the entry is made. */
  lemma ValueUnfold(s: seq<byte>, c: Cursor, acc: seq<Entry>, k: Parsed<Value>, c2: Cursor)
    requires c.pos <= |s| && ParseValue(s, c) == Ok(k) && k.value.ByteString?
    requires c2 == if k.value.bytes == InfoKey then k.rest.(watching := true) else k.rest
    ensures c2.pos <= |s|
    ensures ParseValue(s, c2).Err? ==> KeyValue(s, c, acc) == Err(ParseValue(s, c2).error)
    ensures ParseValue(s, c2).Ok? ==>
      var v := ParseValue(s, c2).value;
      var key := k.value.bytes;
      KeyValue(s, c, acc) ==
        if key in Keys(acc) then Err(DuplicateKey)
        else Ok(Parsed(Entry(key, v.value), if key == InfoKey then v.rest.(watching := false) else v.rest))
  {
  }
}
