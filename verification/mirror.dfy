/** Which bytes reach the info-hash: a production that contains no "info"
    key moves the cursor forward over exactly the bytes it reads, leaves
    the watching flag as it was, and mirrors exactly those bytes when
    watching and nothing otherwise. */
module Mirroring {
  import opened ByteUtil
  import opened BValue
  import opened Grammar

  /** `d` is `c` after reading the bytes between them, as `Advance` does. */
  ghost predicate Mirrors(s: seq<byte>, c: Cursor, d: Cursor) {
    c.pos <= d.pos <= |s| && d == Advance(s, c, d.pos - c.pos)
  }

  lemma MirrorsTrans(s: seq<byte>, a: Cursor, b: Cursor, c: Cursor)
    requires Mirrors(s, a, b) && Mirrors(s, b, c)
    ensures Mirrors(s, a, c)
  {
    AdvanceAdd(s, a, b.pos - a.pos, c.pos - b.pos);
  }

  lemma MirrorsRefl(s: seq<byte>, c: Cursor)
    requires c.pos <= |s|
    ensures Mirrors(s, c, c)
  {
    assert s[c.pos..c.pos] == [];
  }

  lemma TakeMirrors(s: seq<byte>, c: Cursor)
    requires c.pos <= |s| && Take(s, c).Ok?
    ensures Mirrors(s, c, Take(s, c).value.rest)
  {
  }

  /** Only the bytes of the length and its ':' are read by the length loop. */
  lemma {:induction false} LengthDigitsMirror(s: seq<byte>, c: Cursor, num: int, b: byte)
    requires c.pos <= |s| && LengthDigits(s, c, num, b).Ok?
    ensures Mirrors(s, c, LengthDigits(s, c, num, b).value.rest)
    decreases |s| - c.pos
  {
    if IsDigit(b) {
      var t := Take(s, c).value;
      TakeMirrors(s, c);
      var num' := Wrap32(num * 10 + (b as int - Zero as int));
      LengthDigitsMirror(s, t.rest, num', t.value);
      MirrorsTrans(s, c, t.rest, LengthDigits(s, t.rest, num', t.value).value.rest);
    } else {
      MirrorsRefl(s, c);
    }
  }

  /** Only the digits and the closing 'e' are read by the digit loop. */
  lemma {:induction false} IntDigitsMirror(s: seq<byte>, c: Cursor, chars: seq<byte>, b: byte)
    requires c.pos <= |s| && AllDigits(chars) && IntDigits(s, c, chars, b).Ok?
    ensures Mirrors(s, c, IntDigits(s, c, chars, b).value.rest)
    decreases |s| - c.pos
  {
    if IsDigit(b) {
      var t := Take(s, c).value;
      TakeMirrors(s, c);
      IntDigitsMirror(s, t.rest, chars + [b], t.value);
      MirrorsTrans(s, c, t.rest, IntDigits(s, t.rest, chars + [b], t.value).value.rest);
    } else {
      MirrorsRefl(s, c);
    }
  }

  lemma ReadBlockMirror(s: seq<byte>, c: Cursor, n: int)
    requires c.pos <= |s| && ReadBlock(s, c, n).Ok?
    ensures Mirrors(s, c, ReadBlock(s, c, n).value.rest)
  {
  }

  lemma ByteStringMirror(s: seq<byte>, c: Cursor, d0: byte)
    requires c.pos <= |s| && IsDigit(d0) && ParseByteString(s, c, d0).Ok?
    ensures c.pos < ParseByteString(s, c, d0).value.rest.pos
    ensures Mirrors(s, c, ParseByteString(s, c, d0).value.rest)
  {
    var t := Take(s, c).value;
    TakeMirrors(s, c);
    var n := LengthDigits(s, t.rest, d0 as int - Zero as int, t.value).value;
    LengthDigitsMirror(s, t.rest, d0 as int - Zero as int, t.value);
    MirrorsTrans(s, c, t.rest, n.rest);
    var p := ReadBlock(s, n.rest, n.value).value;
    assert ParseByteString(s, c, d0).value == p;
    ReadBlockMirror(s, n.rest, n.value);
    MirrorsTrans(s, c, n.rest, p.rest);
  }

  lemma IntegerDigitsMirror(s: seq<byte>, c: Cursor, afterMinus: bool, d: byte)
    requires c.pos <= |s| && IntegerDigits(s, c, afterMinus, d).Ok?
    ensures Mirrors(s, c, IntegerDigits(s, c, afterMinus, d).value.rest)
  {
    var t := Take(s, c).value;
    TakeMirrors(s, c);
    var chars := if afterMinus then [d, d] else [d];
    var ds := IntDigits(s, t.rest, chars, t.value).value;
    IntDigitsMirror(s, t.rest, chars, t.value);
    assert IntegerDigits(s, c, afterMinus, d).value.rest == ds.rest;
    MirrorsTrans(s, c, t.rest, ds.rest);
  }

  lemma IntegerSignedMirror(s: seq<byte>, c: Cursor, first: byte)
    requires c.pos <= |s| && IntegerSigned(s, c, first).Ok?
    ensures Mirrors(s, c, IntegerSigned(s, c, first).value.rest)
  {
    var r := IntegerSigned(s, c, first).value.rest;
    if first == Minus {
      var q := Take(s, c).value;
      TakeMirrors(s, c);
      IntegerDigitsMirror(s, q.rest, true, q.value);
      assert r == IntegerDigits(s, q.rest, true, q.value).value.rest;
      MirrorsTrans(s, c, q.rest, r);
    } else {
      IntegerDigitsMirror(s, c, false, first);
    }
  }

  lemma IntegerMirror(s: seq<byte>, c: Cursor)
    requires c.pos <= |s| && ParseInteger(s, c).Ok?
    ensures c.pos < ParseInteger(s, c).value.rest.pos
    ensures Mirrors(s, c, ParseInteger(s, c).value.rest)
  {
    var p1 := Take(s, c).value;
    TakeMirrors(s, c);
    var r := ParseInteger(s, c).value.rest;
    if p1.value == Zero {
      var p2 := Take(s, p1.rest).value;
      TakeMirrors(s, p1.rest);
      assert r == p2.rest;
    } else {
      IntegerSignedMirror(s, p1.rest, p1.value);
      assert r == IntegerSigned(s, p1.rest, p1.value).value.rest;
    }
    MirrorsTrans(s, c, p1.rest, r);
  }

  /** A value without an "info" key leaves the watching flag as it was and
      mirrors, when watching, exactly its own raw bytes. */
  lemma {:induction false} ValueMirror(s: seq<byte>, c: Cursor)
    requires c.pos <= |s| && ParseValue(s, c).Ok? && NoInfoKey(ParseValue(s, c).value.value)
    ensures Mirrors(s, c, ParseValue(s, c).value.rest)
    decreases |s| - c.pos, 0
  {
    var r := ParseValue(s, c).value.rest;
    var m := Take(s, c).value;
    TakeMirrors(s, c);
    if IsDigit(m.value) {
      ByteStringMirror(s, m.rest, m.value);
      assert r == ParseByteString(s, m.rest, m.value).value.rest;
    } else if m.value == MarkerInt {
      IntegerMirror(s, m.rest);
      assert r == ParseInteger(s, m.rest).value.rest;
    } else if m.value == MarkerList {
      assert ParseValue(s, c) == ListItems(s, m.rest, []);
      ListItemsMirror(s, m.rest, []);
    } else {
      assert ParseValue(s, c) == DictItems(s, m.rest, []);
      DictItemsMirror(s, m.rest, []);
    }
    MirrorsTrans(s, c, m.rest, r);
  }

  lemma {:induction false} ListItemsMirror(s: seq<byte>, c: Cursor, acc: seq<Value>)
    requires c.pos <= |s| && ListItems(s, c, acc).Ok? && NoInfoKey(ListItems(s, c, acc).value.value)
    ensures Mirrors(s, c, ListItems(s, c, acc).value.rest)
    decreases |s| - c.pos, 2
  {
    var t := Take(s, c).value;
    TakeMirrors(s, c);
    if t.value == MarkerEnd {
    } else if t.value == 0 {
      ListElementMirror(s, t.rest, acc);
      MirrorsTrans(s, c, t.rest, ListItems(s, c, acc).value.rest);
    } else {
      ListElementMirror(s, c, acc);
    }
  }

  lemma {:induction false} ListElementMirror(s: seq<byte>, c: Cursor, acc: seq<Value>)
    requires c.pos <= |s| && ListElement(s, c, acc).Ok? && NoInfoKey(ListElement(s, c, acc).value.value)
    ensures Mirrors(s, c, ListElement(s, c, acc).value.rest)
    decreases |s| - c.pos, 1
  {
    var p := ListElement(s, c, acc).value;
    var v := ParseValue(s, c).value;
    assert ListElement(s, c, acc) == ListItems(s, v.rest, acc + [v.value]);
    var items := p.value.items;
    assert acc + [v.value] <= items;
    assert items[|acc|] == v.value;
    ValueMirror(s, c);
    ListItemsMirror(s, v.rest, acc + [v.value]);
    MirrorsTrans(s, c, v.rest, p.rest);
  }

  lemma {:induction false} DictItemsMirror(s: seq<byte>, c: Cursor, acc: seq<Entry>)
    requires c.pos <= |s| && DictItems(s, c, acc).Ok? && NoInfoKey(DictItems(s, c, acc).value.value)
    ensures Mirrors(s, c, DictItems(s, c, acc).value.rest)
    decreases |s| - c.pos, 3
  {
    var t := Take(s, c).value;
    TakeMirrors(s, c);
    if t.value == MarkerEnd {
    } else if t.value == 0 {
      DictEntryMirror(s, t.rest, acc);
      MirrorsTrans(s, c, t.rest, DictItems(s, c, acc).value.rest);
    } else {
      DictEntryMirror(s, c, acc);
    }
  }

  lemma {:induction false} DictEntryMirror(s: seq<byte>, c: Cursor, acc: seq<Entry>)
    requires c.pos <= |s| && DictEntry(s, c, acc).Ok? && NoInfoKey(DictEntry(s, c, acc).value.value)
    ensures Mirrors(s, c, DictEntry(s, c, acc).value.rest)
    decreases |s| - c.pos, 2
  {
    var p := DictEntry(s, c, acc).value;
    var e := KeyValue(s, c, acc).value;
    assert DictEntry(s, c, acc) == DictItems(s, e.rest, acc + [e.value]);
    assert acc + [e.value] <= p.value.entries;
    assert p.value.entries[|acc|] == e.value;
    KeyValueMirror(s, c, acc);
    DictItemsMirror(s, e.rest, acc + [e.value]);
    MirrorsTrans(s, c, e.rest, p.rest);
  }

  /** A key other than "info" and a value without one are read as they
      stand, watching or not. */
  lemma {:induction false} KeyValueMirror(s: seq<byte>, c: Cursor, acc: seq<Entry>)
    requires c.pos <= |s| && KeyValue(s, c, acc).Ok?
    requires KeyValue(s, c, acc).value.value.key != InfoKey
    requires NoInfoKey(KeyValue(s, c, acc).value.value.value)
    ensures Mirrors(s, c, KeyValue(s, c, acc).value.rest)
    decreases |s| - c.pos, 1
  {
    var k := ParseValue(s, c).value;
    ValueMirror(s, c);
    var v := ParseValue(s, k.rest).value;
    assert KeyValue(s, c, acc).value == Parsed(Entry(k.value.bytes, v.value), v.rest);
    ValueMirror(s, k.rest);
    MirrorsTrans(s, c, k.rest, v.rest);
  }
}
