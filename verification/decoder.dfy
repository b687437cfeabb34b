/** The streaming decoder (BEncodeLib/TorrentBDecoder.cs): a recursive
    descent over an input read one byte at a time, with a one-byte
    lookahead in `indicator` (0 meaning "nothing held") and the bytes of
    the "info" value mirrored into an `InfoHash` as they are read. Every
    method is proved to do exactly what the pure grammar in module
    `Grammar` says, from the cursor its state stands for. */
module Decoding {
  import opened ByteUtil
  import opened BValue
  import opened InfoHashing
  import opened Grammar

  /** `r` is what `spec` gives, and on success nothing is held (`held`
      is 0) and `after` is the grammar's cursor. */
  ghost predicate Settled<T>(r: Result<T>, spec: Result<Parsed<T>>, held: byte, after: Cursor) {
    match spec
    case Err(e) => r == Err(e)
    case Ok(p) => r == Ok(p.value) && held == 0 && after == p.rest
  }

  /** As `Settled`, for a byte that is left held. */
  ghost predicate Held(b: Result<byte>, spec: Result<Parsed<byte>>, held: byte, after: Cursor) {
    match spec
    case Err(e) => b == Err(e)
    case Ok(p) => b == Ok(p.value) && held == p.value && after == p.rest
  }

  /** Where the list loop stands: failed with the grammar's error, at the
      closing 'e' with the grammar's list, or before the next element. */
  ghost predicate ListLoop(s: seq<byte>, spec: Result<Parsed<Value>>, next: Result<byte>,
                           items: seq<Value>, after: Cursor, at: Cursor)
  {
    match next
    case Err(e) => spec == Err(e)
    case Ok(b) =>
      if b == MarkerEnd then spec == Ok(Parsed(List(items), after))
      else at.pos <= |s| && spec == ListElement(s, at, items)
  }

  /** The lookahead fetched after `items` from `c` puts the list loop
      where the grammar's `ListItems` is. */
  lemma ListNext(s: seq<byte>, c: Cursor, items: seq<Value>, next: Result<byte>,
                 held: byte, after: Cursor, at: Cursor)
    requires c.pos <= |s| && Held(next, Take(s, c), held, after)
    requires next.Ok? ==> at == if held == 0 then after else c
    ensures ListLoop(s, ListItems(s, c, items), next, items, after, at)
  {
    ListItemsUnfold(s, c, items);
  }

  /** An element decoded from `at` fails the list or extends `items`. */
  lemma ListDecoded(s: seq<byte>, spec: Result<Parsed<Value>>, items: seq<Value>, at: Cursor,
                    v: Result<Value>, held: byte, after: Cursor)
    requires at.pos <= |s| && spec == ListElement(s, at, items)
    requires Settled(v, ParseValue(s, at), held, after)
    ensures v.Err? ==> spec == Err(v.error)
    ensures v.Ok? ==> after.pos <= |s| && spec == ListItems(s, after, items + [v.value])
  {
    ListElementUnfold(s, at, items);
  }

  /** As `ListLoop`, for the entries of a dictionary. */
  ghost predicate DictLoop(s: seq<byte>, spec: Result<Parsed<Value>>, next: Result<byte>,
                           entries: seq<Entry>, after: Cursor, at: Cursor)
  {
    match next
    case Err(e) => spec == Err(e)
    case Ok(b) =>
      if b == MarkerEnd then spec == Ok(Parsed(Dictionary(entries), after))
      else at.pos <= |s| && spec == DictEntry(s, at, entries)
  }

  lemma DictNext(s: seq<byte>, c: Cursor, entries: seq<Entry>, next: Result<byte>,
                 held: byte, after: Cursor, at: Cursor)
    requires c.pos <= |s| && Held(next, Take(s, c), held, after)
    requires next.Ok? ==> at == if held == 0 then after else c
    ensures DictLoop(s, DictItems(s, c, entries), next, entries, after, at)
  {
    DictItemsUnfold(s, c, entries);
  }

  lemma DictDecoded(s: seq<byte>, spec: Result<Parsed<Value>>, entries: seq<Entry>, at: Cursor,
                    e: Result<Entry>, held: byte, after: Cursor)
    requires at.pos <= |s| && spec == DictEntry(s, at, entries)
    requires Settled(e, KeyValue(s, at, entries), held, after)
    ensures e.Err? ==> spec == Err(e.error)
    ensures e.Ok? ==> after.pos <= |s| && spec == DictItems(s, after, entries + [e.value])
  {
    DictEntryUnfold(s, at, entries);
  }

  class TorrentBDecoder {
    /** The stream, as the bytes it holds, and the reader's position. */
    const input: seq<byte>
    var pos: nat
    /** `_indicator`: the byte read ahead, or 0 when none is held. */
    var indicator: byte
    /** `_inInfoMap`: whether bytes read now go to the info-hash. */
    var inInfoMap: bool
    const infoHash: InfoHash

    /** A held lookahead byte is the byte just before `pos`, and it was
        mirrored when read if the decoder is watching (the flag only ever
        changes while nothing is held). */
    ghost predicate Valid()
      reads this, infoHash, infoHash.Repr
    {
      Owns() && Lookahead()
    }

    ghost predicate Owns()
      reads this, infoHash, infoHash.Repr
    {
      this !in infoHash.Repr && infoHash.Valid()
    }

    ghost predicate Lookahead()
      requires Owns()
      reads this, infoHash, infoHash.Repr
    {
      pos <= |input| &&
      (indicator != 0 ==>
        1 <= pos && input[pos - 1] == indicator &&
        (inInfoMap ==> 1 <= |infoHash.Contents| && infoHash.Contents[|infoHash.Contents| - 1] == indicator))
    }

    /** The cursor after every byte read so far, the lookahead included. */
    ghost function After(): Cursor
      reads this, infoHash
    {
      Cursor(pos, inInfoMap, infoHash.Contents)
    }

    /** The grammar cursor the state stands for: a held lookahead byte
        counts as not yet read. */
    ghost function Abs(): Cursor
      requires Valid()
      reads this, infoHash, infoHash.Repr
    {
      if indicator == 0 then After()
      else
        var n := |infoHash.Contents|;
        Cursor(pos - 1, inInfoMap, if inInfoMap then infoHash.Contents[..n - 1] else infoHash.Contents)
    }

    /** The bytes not yet consumed by the grammar; the recursion measure. */
    ghost function Remaining(): int
      reads this
    {
      |input| - pos + (if indicator == 0 then 0 else 1)
    }

    /** `r` is what the grammar gives, and on success the decoder holds no
        lookahead and has read exactly up to the grammar's cursor. */
    ghost predicate Matches<T>(r: Result<T>, spec: Result<Parsed<T>>)
      reads this, infoHash
    {
      Settled(r, spec, indicator, After())
    }

    /** As `Matches`, for a byte that is left held as the lookahead. */
    ghost predicate Fetched(b: Result<byte>, spec: Result<Parsed<byte>>)
      reads this, infoHash
    {
      Held(b, spec, indicator, After())
    }

    /** Reading the held byte again from the abstract cursor lands where
        the decoder already is. */
    lemma HeldByte()
      requires Valid() && indicator != 0
      ensures Take(input, Abs()) == Ok(Parsed(indicator, After()))
    {
      var cs := infoHash.Contents;
      if inInfoMap {
        assert cs[..|cs| - 1] + input[pos - 1..pos] == cs;
      }
    }

    /** A decoder at the start of `s`, holding nothing and not watching. */
    constructor (s: seq<byte>)
      ensures Valid() && fresh(infoHash) && fresh(infoHash.Repr)
      ensures input == s && pos == 0 && indicator == 0 && !inInfoMap && infoHash.Contents == []
      ensures Abs() == Cursor(0, false, [])
    {
      input := s;
      pos := 0;
      indicator := 0;
      inInfoMap := false;
      infoHash := new InfoHash();
    }

    /** The digest of the bytes mirrored so far. */
    method GetInfoHash(sha1: seq<byte> -> seq<byte>) returns (d: seq<byte>)
      requires Valid()
      ensures d == sha1(infoHash.Contents)
    {
      d := infoHash.Digest(sha1);
    }

    /** Returns the held byte, or reads one and holds it (mirroring it when
        watching); a NUL read this way leaves nothing held. */
    method GetNextIndicator() returns (b: Result<byte>)
      requires Valid()
      modifies this, infoHash.Repr
      ensures Valid() && fresh(infoHash.Repr - old(infoHash.Repr))
      ensures Fetched(b, Take(input, old(Abs())))
      ensures b.Ok? ==> Abs() == if indicator == 0 then After() else old(Abs())
    {
      if indicator == 0 {
        if pos == |input| {
          return Err(EndOfInput);
        }
        ghost var before := infoHash.Contents;
        indicator := input[pos];
        pos := pos + 1;
        if inInfoMap {
          infoHash.Update(indicator);
          assert (before + [indicator])[..|before|] == before;
        }
      } else {
        HeldByte();
      }
      b := Ok(indicator);
    }

    /** `Read()`: one byte, mirrored when watching. */
    method Read() returns (b: Result<byte>)
      requires Valid() && indicator == 0
      modifies this, infoHash.Repr
      ensures Valid() && fresh(infoHash.Repr - old(infoHash.Repr))
      ensures Matches(b, Take(input, old(After())))
    {
      if pos == |input| {
        return Err(EndOfInput);
      }
      var c := input[pos];
      pos := pos + 1;
      if inInfoMap {
        infoHash.Update(c);
      }
      b := Ok(c);
    }

    /** `Read(int)`: up to `n` bytes, then `Update(result, 0, n)` on the
        info-hash when watching. */
    method ReadBlock(n: int) returns (r: Result<seq<byte>>)
      requires Valid() && indicator == 0
      modifies this, infoHash.Repr
      ensures Valid() && fresh(infoHash.Repr - old(infoHash.Repr))
      ensures Matches(r, Grammar.ReadBlock(input, old(After()), n))
    {
      if n < 0 {
        return Err(NegativeLength);
      }
      var got := if n <= |input| - pos then n else |input| - pos;
      var result := input[pos..pos + got];
      pos := pos + got;
      if inInfoMap {
        var ok := infoHash.UpdateBlock(result, 0, n);
        if !ok {
          return Err(ShortRead);
        }
        assert Appended(result, 0, n) == result by {
          if 0 < n {
            assert result[0..n] == result;
          }
        }
      }
      r := Ok(result);
    }

    /** `DecodeByteString`, with the first length digit held: the digits
        are folded into a 32-bit `num` that wraps on overflow, then ':' and
        `num` raw bytes. */
    method DecodeByteString() returns (r: Result<seq<byte>>)
      requires Valid() && IsDigit(indicator)
      modifies this, infoHash.Repr
      ensures Valid() && fresh(infoHash.Repr - old(infoHash.Repr))
      ensures Matches(r, ParseByteString(input, old(After()), old(indicator)))
    {
      var num: int := indicator as int - Zero as int;
      indicator := 0;
      ghost var spec := ParseByteString(input, After(), old(indicator));
      var c := Read();
      if c.Err? {
        return Err(c.error);
      }
      ghost var length := LengthDigits(input, After(), num, c.value);
      assert spec == (if length.Err? then Err(length.error)
                      else Grammar.ReadBlock(input, length.value.rest, length.value.value));
      while IsDigit(c.value)
        invariant Valid() && fresh(infoHash.Repr - old(infoHash.Repr)) && indicator == 0
        invariant c.Ok? && length == LengthDigits(input, After(), num, c.value)
        decreases |input| - pos
      {
        num := Wrap32(num * 10 + (c.value as int - Zero as int));
        c := Read();
        if c.Err? {
          return Err(c.error);
        }
      }
      if c.value != Colon {
        return Err(MissingColon);
      }
      r := ReadBlock(num);
    }

    /** `DecodeLong`, with the 'i' held: "0" must be followed by 'e' at
        once, anything else goes on with the optional sign. */
    method DecodeLong() returns (r: Result<i64>)
      requires Valid() && indicator == MarkerInt
      modifies this, infoHash.Repr
      ensures Valid() && fresh(infoHash.Repr - old(infoHash.Repr))
      ensures Matches(r, ParseInteger(input, old(After())))
    {
      indicator := 0;
      var c := Read();
      if c.Err? {
        return Err(c.error);
      }
      if c.value == Zero {
        var e := Read();
        if e.Err? {
          return Err(e.error);
        }
        if e.value == MarkerEnd {
          return Ok(0);
        }
        return Err(LeadingZero);
      }
      r := DecodeSigned(c.value);
    }

    /** The part of `DecodeLong` after a first byte `first` other than '0':
        after a '-' the next byte goes into the 256-character buffer in the
        sign's place, so the sign is lost. */
    method DecodeSigned(first: byte) returns (r: Result<i64>)
      requires Valid() && indicator == 0
      modifies this, infoHash.Repr
      ensures Valid() && fresh(infoHash.Repr - old(infoHash.Repr))
      ensures Matches(r, IntegerSigned(input, old(After()), first))
    {
      var chars := new byte[256];
      var off := 0;
      var d := first;
      if d == Minus {
        var c := Read();
        if c.Err? {
          return Err(c.error);
        }
        d := c.value;
        if d == Zero {
          return Err(NegativeZero);
        }
        chars[off] := d;
        off := off + 1;
      }
      r := DecodeDigits(chars, off, d);
    }

    /** The first digit `d` must be 1-9 and is stored after what the buffer
        already holds; then the digit loop, which writes past the buffer's
        end when more than 256 characters come, the closing 'e', and
        `long.Parse` of the buffer with its 64-bit range check. */
    method DecodeDigits(chars: array<byte>, off0: int, d: byte) returns (r: Result<i64>)
      requires Valid() && indicator == 0
      requires chars !in infoHash.Repr && chars.Length == 256
      requires off0 == 0 || (off0 == 1 && chars[0] == d)
      modifies this, infoHash.Repr, chars
      ensures Valid() && fresh(infoHash.Repr - old(infoHash.Repr))
      ensures Matches(r, IntegerDigits(input, old(After()), off0 == 1, d))
    {
      if d < One || d > Nine {
        return Err(InvalidIntegerStart);
      }
      var off := off0;
      chars[off] := d;
      off := off + 1;
      assert chars[..off] == if off0 == 1 then [d, d] else [d];
      var c := Read();
      if c.Err? {
        return Err(c.error);
      }
      ghost var digits := IntDigits(input, After(), chars[..off], c.value);
      while IsDigit(c.value)
        invariant Valid() && fresh(infoHash.Repr - old(infoHash.Repr)) && indicator == 0
        invariant chars !in infoHash.Repr && 1 <= off <= 256
        invariant AllDigits(chars[..off])
        invariant c.Ok? && digits == IntDigits(input, After(), chars[..off], c.value)
        decreases |input| - pos
      {
        if off >= 256 {
          return Err(DigitBufferOverflow);
        }
        ghost var filled := chars[..off];
        chars[off] := c.value;
        off := off + 1;
        assert chars[..off] == filled + [c.value];
        c := Read();
        if c.Err? {
          return Err(c.error);
        }
      }
      if c.value != MarkerEnd {
        return Err(MissingIntegerEnd);
      }
      var n := DecimalValue(chars[..off]);
      if n > MaxLong {
        return Err(IntegerOverflow);
      }
      r := Ok(n as i64);
    }

    /** `Decode`: fetch the lookahead and dispatch on it. */
    method Decode() returns (r: Result<Value>)
      requires Valid()
      modifies this, infoHash.Repr
      ensures Valid() && fresh(infoHash.Repr - old(infoHash.Repr))
      ensures Matches(r, ParseValue(input, old(Abs())))
      decreases Remaining(), 1
    {
      var m := GetNextIndicator();
      if m.Err? {
        return Err(m.error);
      }
      if IsDigit(indicator) {
        var b := DecodeByteString();
        r := if b.Ok? then Ok(ByteString(b.value)) else Err(b.error);
      } else if indicator == MarkerInt {
        var n := DecodeLong();
        r := if n.Ok? then Ok(Integer(n.value)) else Err(n.error);
      } else if indicator == MarkerList {
        r := DecodeList();
      } else if indicator == MarkerDict {
        r := DecodeDictionary();
      } else {
        r := Err(UnknownType);
      }
    }

    /** `DecodeList`, with the 'l' held: values are decoded until the
        lookahead is 'e'. A failure leaves the loop with its error in
        `next`. */
    method DecodeList() returns (r: Result<Value>)
      requires Valid() && indicator == MarkerList
      modifies this, infoHash.Repr
      ensures Valid() && fresh(infoHash.Repr - old(infoHash.Repr))
      ensures Matches(r, ListItems(input, old(After()), []))
      decreases Remaining(), 0
    {
      indicator := 0;
      ghost var start := After();
      ghost var spec := ListItems(input, start, []);
      var items: seq<Value> := [];
      var next := GetNextIndicator();
      ListNext(input, start, items, next, indicator, After(), Abs());
      while next.Ok? && next.value != MarkerEnd
        invariant Valid() && fresh(infoHash.Repr - old(infoHash.Repr))
        invariant ListLoop(input, spec, next, items, After(), Abs())
        invariant next.Ok? ==> pos > old(pos)
        decreases if next.Ok? then |input| - pos + 1 else 0
      {
        items, next := DecodeElement(spec, items, next);
      }
      if next.Err? {
        r := Err(next.error);
      } else {
        indicator := 0;
        r := Ok(List(items));
      }
    }

    /** One pass of `DecodeList`'s loop: `result.Add(Decode())`, then the
        next lookahead. A failure ends the pass with its error in `next`. */
    method DecodeElement(ghost spec: Result<Parsed<Value>>, items: seq<Value>, ghost held: Result<byte>)
      returns (items': seq<Value>, next: Result<byte>)
      requires Valid() && held.Ok? && held.value != MarkerEnd
      requires ListLoop(input, spec, held, items, After(), Abs())
      modifies this, infoHash.Repr
      ensures Valid() && fresh(infoHash.Repr - old(infoHash.Repr))
      ensures ListLoop(input, spec, next, items', After(), Abs())
      ensures next.Ok? ==> pos > old(pos)
      decreases Remaining(), 2
    {
      ghost var at := Abs();
      var v := Decode();
      ListDecoded(input, spec, items, at, v, indicator, After());
      if v.Err? {
        items', next := items, Err(v.error);
      } else {
        ghost var c := After();
        items' := items + [v.value];
        next := GetNextIndicator();
        ListNext(input, c, items', next, indicator, After(), Abs());
      }
    }

    /** `DecodeDictionary`, with the 'd' held: entries are decoded and
        added until the lookahead is 'e'. A failure leaves the loop with
        its error in `next`. */
    method DecodeDictionary() returns (r: Result<Value>)
      requires Valid() && indicator == MarkerDict
      modifies this, infoHash.Repr
      ensures Valid() && fresh(infoHash.Repr - old(infoHash.Repr))
      ensures Matches(r, DictItems(input, old(After()), []))
      decreases Remaining(), 0
    {
      indicator := 0;
      ghost var start := After();
      ghost var spec := DictItems(input, start, []);
      var entries: seq<Entry> := [];
      var next := GetNextIndicator();
      DictNext(input, start, entries, next, indicator, After(), Abs());
      while next.Ok? && next.value != MarkerEnd
        invariant Valid() && fresh(infoHash.Repr - old(infoHash.Repr))
        invariant DictLoop(input, spec, next, entries, After(), Abs())
        invariant next.Ok? ==> pos > old(pos)
        decreases if next.Ok? then |input| - pos + 1 else 0
      {
        entries, next := DecodeEntry(spec, entries, next);
      }
      if next.Err? {
        r := Err(next.error);
      } else {
        indicator := 0;
        r := Ok(Dictionary(entries));
      }
    }

    /** One pass of `DecodeDictionary`'s loop: a key and its value added
        to the result, then the next lookahead. A failure ends the pass
        with its error in `next`. */
    method DecodeEntry(ghost spec: Result<Parsed<Value>>, entries: seq<Entry>, ghost held: Result<byte>)
      returns (entries': seq<Entry>, next: Result<byte>)
      requires Valid() && held.Ok? && held.value != MarkerEnd
      requires DictLoop(input, spec, held, entries, After(), Abs())
      modifies this, infoHash.Repr
      ensures Valid() && fresh(infoHash.Repr - old(infoHash.Repr))
      ensures DictLoop(input, spec, next, entries', After(), Abs())
      ensures next.Ok? ==> pos > old(pos)
      decreases Remaining(), 3
    {
      ghost var at := Abs();
      var e := DecodeKeyValue(entries);
      DictDecoded(input, spec, entries, at, e, indicator, After());
      if e.Err? {
        entries', next := entries, Err(e.error);
      } else {
        ghost var c := After();
        entries' := entries + [e.value];
        next := GetNextIndicator();
        DictNext(input, c, entries', next, indicator, After(), Abs());
      }
    }

    /** One pass of `DecodeDictionary`'s loop up to `Dictionary.Add`: a key,
        which must decode to a byte string, then its value. The key "info"
        turns mirroring on for its value and off after it; a key already in
        `entries` fails, after its value has been decoded. */
    method DecodeKeyValue(entries: seq<Entry>) returns (r: Result<Entry>)
      requires Valid()
      modifies this, infoHash.Repr
      ensures Valid() && fresh(infoHash.Repr - old(infoHash.Repr))
      ensures Matches(r, KeyValue(input, old(Abs()), entries))
      decreases Remaining(), 2
    {
      ghost var start := Abs();
      KeyUnfold(input, start, entries);
      var k := Decode();
      if k.Err? {
        r := Err(k.error);
      } else if !k.value.ByteString? {
        r := Err(KeyNotString);
      } else {
        ghost var keyParsed := Parsed(k.value, After());
        var key := k.value.bytes;
        var isInfoMap := key == InfoKey;
        if isInfoMap {
          inInfoMap := true;
        }
        ValueUnfold(input, start, entries, keyParsed, After());
        var v := Decode();
        if v.Err? {
          r := Err(v.error);
        } else if key in Keys(entries) {
          r := Err(DuplicateKey);
        } else {
          if isInfoMap {
            inInfoMap := false;
          }
          r := Ok(Entry(key, v.value));
        }
      }
    }
  }

  /** A decoder over `s`, one `Decode` and then `GetInfoHash`: the value
      is what the grammar parses from the start of `s`, and the digest is
      `sha1` of exactly the bytes the grammar mirrors. */
  method DecodeWithInfoHash(s: seq<byte>, sha1: seq<byte> -> seq<byte>)
    returns (r: Result<Value>, digest: seq<byte>)
    ensures Parse(s).Err? ==> r == Err(Parse(s).error)
    ensures Parse(s).Ok? ==> r == Ok(Parse(s).value.value)
    ensures Parse(s).Ok? ==> digest == sha1(Parse(s).value.rest.mirrored)
  {
    var decoder := new TorrentBDecoder(s);
    r := decoder.Decode();
    digest := decoder.GetInfoHash(sha1);
  }
}
