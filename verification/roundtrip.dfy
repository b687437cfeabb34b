/** Decoding what the encoder writes: for the values the decoder can read
    back (`WellFormed`), parsing `Encode(v)` from any position gives `v`
    and consumes exactly the encoding. */
module RoundTrip {
  import opened ByteUtil
  import opened BValue
  import opened Grammar
  import opened Encoding

  /** `t` occurs in `s` at position `p`. */
  predicate At(s: seq<byte>, p: nat, t: seq<byte>) {
    p + |t| <= |s| && s[p..p + |t|] == t
  }

  lemma AtSplit(s: seq<byte>, p: nat, a: seq<byte>, b: seq<byte>)
    requires At(s, p, a + b)
    ensures At(s, p, a) && At(s, p + |a|, b)
  {
    assert s[p..p + |a|] == (a + b)[..|a|];
    assert s[p + |a|..p + |a| + |b|] == (a + b)[|a|..];
  }

  /** An occurrence of `whole + [MarkerEnd]`, where `whole` is `x + rest`:
      `x` first, then `rest` and the end marker. */
  lemma AtCons(s: seq<byte>, p: nat, x: seq<byte>, rest: seq<byte>, whole: seq<byte>)
    requires whole == x + rest && At(s, p, whole + [MarkerEnd])
    ensures At(s, p, x) && At(s, p + |x|, rest + [MarkerEnd])
  {
    assert whole + [MarkerEnd] == x + (rest + [MarkerEnd]);
    AtSplit(s, p, x, rest + [MarkerEnd]);
  }

  lemma AppendNil<T>(xs: seq<T>)
    ensures [] + xs == xs && xs + [] == xs
  {
  }

  /** Appending one digit to a run multiplies its value by ten and adds the digit. */
  lemma DecimalValueSnoc(ds: seq<byte>, b: byte)
    requires AllDigits(ds) && IsDigit(b)
    ensures AllDigits(ds + [b])
    ensures DecimalValue(ds + [b]) == DecimalValue(ds) * 10 + (b as int - Zero as int)
  {
    assert (ds + [b])[..|ds|] == ds;
  }

  /** Dropping the first byte of an occurrence. */
  lemma AtTail(s: seq<byte>, p: nat, t: seq<byte>)
    requires At(s, p, t) && |t| >= 1
    ensures s[p] == t[0] && At(s, p + 1, t[1..])
  {
    assert s[p..p + |t|][0] == s[p];
    assert s[p + 1..p + |t|] == s[p..p + |t|][1..];
  }

  /** The length loop over the digits `ds` and the ':' after them, with
      `pre` already folded in and the byte before `c` just read: while the
      number stays below 2^31 nothing wraps, and the loop stops right after
      the ':'. */
  lemma {:induction false} LengthDigitsRun(s: seq<byte>, c: Cursor, pre: seq<byte>, ds: seq<byte>)
    requires 1 <= c.pos <= |s| && AllDigits(pre) && AllDigits(ds)
    requires DecimalValue(pre + ds) < 0x8000_0000
    requires At(s, c.pos - 1, ds + [Colon])
    ensures LengthDigits(s, c, DecimalValue(pre), s[c.pos - 1]).Ok?
    ensures LengthDigits(s, c, DecimalValue(pre), s[c.pos - 1]).value.value == DecimalValue(pre + ds)
    ensures LengthDigits(s, c, DecimalValue(pre), s[c.pos - 1]).value.rest.pos == c.pos + |ds|
    decreases |ds|
  {
    var b := s[c.pos - 1];
    AtTail(s, c.pos - 1, ds + [Colon]);
    if ds == [] {
      assert pre + ds == pre;
    } else {
      assert (ds + [Colon])[1..] == ds[1..] + [Colon];
      assert IsDigit(ds[0]) && b == ds[0];
      AtTail(s, c.pos, ds[1..] + [Colon]);
      var t := Take(s, c).value;
      DecimalValueSnoc(pre, b);
      assert pre + ds == (pre + [b]) + ds[1..];
      DecimalValuePrefix(pre + ds, |pre| + 1);
      assert (pre + ds)[..|pre| + 1] == pre + [b];
      Wrap32Identity(DecimalValue(pre + [b]));
      LengthDigitsRun(s, t.rest, pre + [b], ds[1..]);
    }
  }

  /** The length loop over any run of digits `ds` and the ':' after
      them, with the first `k` digits already folded into `num` and the
      byte before `c` just read: however long the run, the count is its
      value wrapped to 32 bits, and the loop stops right after the ':'. */
  lemma {:induction false} LengthDigitsWrapRun(s: seq<byte>, c: Cursor, pre: seq<byte>, ds: seq<byte>)
    requires 1 <= c.pos <= |s| && AllDigits(pre) && AllDigits(ds)
    requires At(s, c.pos - 1, ds + [Colon])
    ensures LengthDigits(s, c, Wrap32(DecimalValue(pre)), s[c.pos - 1]).Ok?
    ensures LengthDigits(s, c, Wrap32(DecimalValue(pre)), s[c.pos - 1]).value.value == Wrap32(DecimalValue(pre + ds))
    ensures LengthDigits(s, c, Wrap32(DecimalValue(pre)), s[c.pos - 1]).value.rest.pos == c.pos + |ds|
    decreases |ds|
  {
    var b := s[c.pos - 1];
    AtTail(s, c.pos - 1, ds + [Colon]);
    if ds == [] {
      assert pre + ds == pre;
    } else {
      assert (ds + [Colon])[1..] == ds[1..] + [Colon];
      assert IsDigit(ds[0]) && b == ds[0];
      AtTail(s, c.pos, ds[1..] + [Colon]);
      var t := Take(s, c).value;
      DecimalValueSnoc(pre, b);
      Wrap32Step(DecimalValue(pre), b as int - Zero as int);
      assert pre + ds == (pre + [b]) + ds[1..];
      LengthDigitsWrapRun(s, t.rest, pre + [b], ds[1..]);
    }
  }

  /** The digit loop of an integer over the digits `ds` and the 'e' after
      them, with `chars` already in the buffer and the byte before `c`
      just read. */
  lemma {:induction false} IntDigitsRun(s: seq<byte>, c: Cursor, chars: seq<byte>, ds: seq<byte>)
    requires 1 <= c.pos <= |s| && AllDigits(chars) && AllDigits(ds) && |chars| + |ds| <= 256
    requires At(s, c.pos - 1, ds + [MarkerEnd])
    ensures IntDigits(s, c, chars, s[c.pos - 1]).Ok?
    ensures IntDigits(s, c, chars, s[c.pos - 1]).value.value == chars + ds
    ensures IntDigits(s, c, chars, s[c.pos - 1]).value.rest.pos == c.pos + |ds|
    decreases |ds|
  {
    var b := s[c.pos - 1];
    AtTail(s, c.pos - 1, ds + [MarkerEnd]);
    if ds == [] {
      assert chars + ds == chars;
    } else {
      assert (ds + [MarkerEnd])[1..] == ds[1..] + [MarkerEnd];
      assert IsDigit(ds[0]) && b == ds[0];
      AtTail(s, c.pos, ds[1..] + [MarkerEnd]);
      var t := Take(s, c).value;
      assert chars + ds == (chars + [b]) + ds[1..];
      IntDigitsRun(s, t.rest, chars + [b], ds[1..]);
    }
  }

  /** Starting the digit loop with an empty buffer at the first digit is
      starting it with that digit in the buffer at the next byte. */
  lemma IntDigitsFirst(s: seq<byte>, c: Cursor, d: byte)
    requires c.pos < |s| && IsDigit(d)
    ensures IntDigits(s, c, [], d) == IntDigits(s, Take(s, c).value.rest, [d], Take(s, c).value.value)
  {
    assert [] + [d] == [d];
  }

  /** A positive number's digits and the 'e' after them, from the first
      digit, which is the byte before `c`. */
  lemma IntegerDigitsRun(s: seq<byte>, c: Cursor, n: i64)
    requires 1 <= c.pos <= |s| && n > 0 && At(s, c.pos - 1, Digits(n as int) + [MarkerEnd])
    ensures IntegerDigits(s, c, false, s[c.pos - 1]).Ok?
    ensures IntegerDigits(s, c, false, s[c.pos - 1]).value.value == n
    ensures IntegerDigits(s, c, false, s[c.pos - 1]).value.rest.pos == c.pos + |Digits(n as int)|
  {
    var ds := Digits(n as int);
    DigitsNoLeadingZero(n as int);
    LongDigitsLength(n as int);
    AtTail(s, c.pos - 1, ds + [MarkerEnd]);
    AppendNil(ds);
    IntDigitsRun(s, c, [], ds);
    IntDigitsFirst(s, c, s[c.pos - 1]);
    DecimalValueOfDigits(n as int);
  }

  /** An integer's text after its 'i': a non-negative number's digits and
      the 'e' read back as that number. */
  lemma IntegerRun(s: seq<byte>, c: Cursor, n: i64)
    requires c.pos <= |s| && n >= 0 && At(s, c.pos, Decimal(n as int) + [MarkerEnd])
    ensures ParseInteger(s, c).Ok?
    ensures ParseInteger(s, c).value.value == n
    ensures ParseInteger(s, c).value.rest.pos == c.pos + |Decimal(n as int)| + 1
  {
    var ds := Digits(n as int);
    assert Decimal(n as int) == ds;
    AtTail(s, c.pos, ds + [MarkerEnd]);
    var p1 := Take(s, c).value;
    if n == 0 {
      assert ds == [Zero];
      AtTail(s, c.pos + 1, [MarkerEnd]);
    } else {
      DigitsNoLeadingZero(n as int);
      IntegerDigitsRun(s, p1.rest, n);
      assert ParseInteger(s, c) == IntegerDigits(s, p1.rest, false, ds[0]);
    }
  }

  /** A byte string's length digits and ':' from the first digit, which
      is the byte before `c`, with `t` the byte after it: the length loop
      yields the length and stops after the ':'. */
  lemma LengthRun(s: seq<byte>, c: Cursor, len: nat, t: Parsed<byte>)
    requires 1 <= c.pos <= |s| && len < 0x8000_0000 && At(s, c.pos - 1, Digits(len) + [Colon])
    requires Take(s, c) == Ok(t)
    ensures IsDigit(s[c.pos - 1])
    ensures LengthDigits(s, t.rest, s[c.pos - 1] as int - Zero as int, t.value).Ok?
    ensures LengthDigits(s, t.rest, s[c.pos - 1] as int - Zero as int, t.value).value.value == len
    ensures LengthDigits(s, t.rest, s[c.pos - 1] as int - Zero as int, t.value).value.rest.pos == c.pos + |Digits(len)|
  {
    DecimalValueOfDigits(len);
    LengthRunOf(s, c, Digits(len), t);
  }

  /** `LengthRun` for any run of digits `ds` whose value fits. */
  lemma LengthRunOf(s: seq<byte>, c: Cursor, ds: seq<byte>, t: Parsed<byte>)
    requires 1 <= c.pos <= |s| && ds != [] && AllDigits(ds) && DecimalValue(ds) < 0x8000_0000
    requires At(s, c.pos - 1, ds + [Colon]) && Take(s, c) == Ok(t)
    ensures IsDigit(s[c.pos - 1])
    ensures LengthDigits(s, t.rest, s[c.pos - 1] as int - Zero as int, t.value).Ok?
    ensures LengthDigits(s, t.rest, s[c.pos - 1] as int - Zero as int, t.value).value.value == DecimalValue(ds)
    ensures LengthDigits(s, t.rest, s[c.pos - 1] as int - Zero as int, t.value).value.rest.pos == c.pos + |ds|
  {
    DigitsAtTail(s, c.pos - 1, ds, Colon);
    TakeNext(s, c, t);
    LengthDigitsRun(s, t.rest, [ds[0]], ds[1..]);
  }

  /** The byte `Take` reads and the position after it. */
  lemma TakeNext(s: seq<byte>, c: Cursor, t: Parsed<byte>)
    requires c.pos <= |s| && Take(s, c) == Ok(t)
    ensures c.pos < |s| && t.value == s[c.pos] && t.rest.pos == c.pos + 1
  {
  }

  /** The first digit of an occurrence of a run of digits and a
      terminator, and the occurrence of the rest after it. */
  lemma DigitsAtTail(s: seq<byte>, p: nat, ds: seq<byte>, term: byte)
    requires ds != [] && AllDigits(ds) && At(s, p, ds + [term])
    ensures p < |s| && s[p] == ds[0] && IsDigit(s[p]) && At(s, p + 1, ds[1..] + [term])
    ensures [ds[0]] + ds[1..] == ds && AllDigits([ds[0]])
    ensures DecimalValue([ds[0]]) == ds[0] as int - Zero as int
  {
    AtTail(s, p, ds + [term]);
    assert (ds + [term])[1..] == ds[1..] + [term];
    DecimalValueSnoc([], ds[0]);
    assert [] + [ds[0]] == [ds[0]];
  }

  /** A byte string's encoding from its first digit, which is the byte
      before `c`: the length digits, the ':' and the payload read back as
      the payload. */
  lemma ByteStringRun(s: seq<byte>, c: Cursor, b: seq<byte>)
    requires 1 <= c.pos <= |s| && |b| < 0x8000_0000 && At(s, c.pos - 1, EncodeString(b))
    ensures IsDigit(s[c.pos - 1])
    ensures ParseByteString(s, c, s[c.pos - 1]).Ok?
    ensures ParseByteString(s, c, s[c.pos - 1]).value.value == b
    ensures ParseByteString(s, c, s[c.pos - 1]).value.rest.pos == c.pos - 1 + |EncodeString(b)|
  {
    var ds := Digits(|b|);
    AtSplit(s, c.pos - 1, ds + [Colon], b);
    assert c.pos < |s| by {
      AtTail(s, c.pos - 1, ds + [Colon]);
    }
    var t := Take(s, c).value;
    LengthRun(s, c, |b|, t);
    var n := LengthDigits(s, t.rest, s[c.pos - 1] as int - Zero as int, t.value).value;
    assert ParseByteString(s, c, s[c.pos - 1]) == ReadBlock(s, n.rest, |b|);
  }

  /** The dictionary entries the decoder reads back: keys within the
      32-bit length counter, values it reads back, no key twice, and no key
      already in `acc`. */
  predicate EntriesReadable(acc: seq<Entry>, es: seq<Entry>) {
    (forall i :: 0 <= i < |es| ==> |es[i].key| < 0x8000_0000 && WellFormed(es[i].value)) &&
    (forall i, j :: 0 <= i < j < |es| ==> es[i].key != es[j].key) &&
    (forall i :: 0 <= i < |es| ==> es[i].key !in Keys(acc))
  }

  /** Moving the first entry into `acc` keeps the rest readable. */
  lemma EntriesReadableNext(acc: seq<Entry>, es: seq<Entry>)
    requires es != [] && EntriesReadable(acc, es)
    ensures es[0].key !in Keys(acc)
    ensures EntriesReadable(acc + [es[0]], es[1..])
  {
    var ks := Keys(acc + [es[0]]);
    assert ks == Keys(acc) + [es[0].key];
    forall i | 0 <= i < |es| - 1
      ensures es[1..][i].key !in ks
    {
      assert es[0].key != es[i + 1].key;
    }
  }

  /** Parsing a byte string's encoding as a value. */
  lemma ParseEncodedString(s: seq<byte>, c: Cursor, b: seq<byte>)
    requires c.pos <= |s| && |b| < 0x8000_0000 && At(s, c.pos, EncodeString(b))
    ensures ParseValue(s, c).Ok?
    ensures ParseValue(s, c).value.value == ByteString(b)
    ensures ParseValue(s, c).value.rest.pos == c.pos + |EncodeString(b)|
  {
    AtTail(s, c.pos, EncodeString(b));
    var m := Take(s, c).value;
    ByteStringRun(s, m.rest, b);
  }

  /** `Decode` on an 'l' or a 'd': the list or dictionary loop after it. */
  lemma ValueContainer(s: seq<byte>, c: Cursor)
    requires c.pos < |s|
    ensures s[c.pos] == MarkerList ==> ParseValue(s, c) == ListItems(s, Advance(s, c, 1), [])
    ensures s[c.pos] == MarkerDict ==> ParseValue(s, c) == DictItems(s, Advance(s, c, 1), [])
  {
  }

  /** `Decode` on an 'i': the integer after it. */
  lemma ValueInteger(s: seq<byte>, c: Cursor)
    requires c.pos < |s| && s[c.pos] == MarkerInt && ParseInteger(s, Advance(s, c, 1)).Ok?
    ensures var n := ParseInteger(s, Advance(s, c, 1)).value;
      ParseValue(s, c) == Ok(Parsed(Integer(n.value), n.rest))
  {
  }

  /** A list's remaining bytes: the first element's encoding, which
      starts with a type marker, then the rest. */
  lemma ItemsAt(s: seq<byte>, p: nat, items: seq<Value>)
    requires items != [] && At(s, p, EncodeItems(items) + [MarkerEnd])
    ensures p < |s| && IsTypeMarker(s[p])
    ensures At(s, p, Encode(items[0]))
    ensures At(s, p + |Encode(items[0])|, EncodeItems(items[1..]) + [MarkerEnd])
  {
    var x, rest := Encode(items[0]), EncodeItems(items[1..]);
    assert EncodeItems(items) == x + rest;
    EncodeStartsWithMarker(items[0]);
    FrontAt(s, p, x, rest);
  }

  /** An occurrence of `x + rest` and the end marker starts with `x[0]`. */
  lemma FrontAt(s: seq<byte>, p: nat, x: seq<byte>, rest: seq<byte>)
    requires |x| >= 1 && At(s, p, x + rest + [MarkerEnd])
    ensures p < |s| && s[p] == x[0] && At(s, p, x) && At(s, p + |x|, rest + [MarkerEnd])
  {
    AtCons(s, p, x, rest, x + rest);
    AtTail(s, p, x);
  }

  /** An occurrence of an entry's key encoding, then the bytes `ev`, then
      `rest` and the end marker: it starts with a digit. */
  lemma EntryAt(s: seq<byte>, p: nat, key: seq<byte>, ev: seq<byte>, rest: seq<byte>, whole: seq<byte>)
    requires whole == EncodeString(key) + ev + rest && At(s, p, whole + [MarkerEnd])
    ensures p < |s| && IsDigit(s[p])
    ensures At(s, p, EncodeString(key) + ev)
    ensures At(s, p + |EncodeString(key) + ev|, rest + [MarkerEnd])
  {
    var x := EncodeString(key) + ev;
    AtCons(s, p, x, rest, whole);
    AtTail(s, p, x);
    assert x[0] == Digits(|key|)[0];
  }

  /** A dictionary's remaining bytes: the first entry's key and value,
      which start with a digit, then the rest. */
  lemma EntriesAt(s: seq<byte>, p: nat, es: seq<Entry>)
    requires es != [] && At(s, p, EncodeEntries(es) + [MarkerEnd])
    ensures p < |s| && IsDigit(s[p])
    ensures At(s, p, EncodeString(es[0].key) + Encode(es[0].value))
    ensures At(s, p + |EncodeString(es[0].key) + Encode(es[0].value)|, EncodeEntries(es[1..]) + [MarkerEnd])
  {
    EntryAt(s, p, es[0].key, Encode(es[0].value), EncodeEntries(es[1..]), EncodeEntries(es));
  }

  /** The closing 'e' of an exhausted list or dictionary. */
  lemma EndAt(s: seq<byte>, p: nat)
    requires At(s, p, [MarkerEnd])
    ensures p < |s| && s[p] == MarkerEnd
  {
    AtTail(s, p, [MarkerEnd]);
  }

  /** An integer's encoding read as a value. */
  lemma ParseEncodedInteger(s: seq<byte>, c: Cursor, n: i64)
    requires c.pos <= |s| && n >= 0 && At(s, c.pos, Encode(Integer(n)))
    ensures ParseValue(s, c).Ok?
    ensures ParseValue(s, c).value.value == Integer(n)
    ensures ParseValue(s, c).value.rest.pos == c.pos + |Encode(Integer(n))|
  {
    var e := Encode(Integer(n));
    AtTail(s, c.pos, e);
    assert e[1..] == Decimal(n as int) + [MarkerEnd];
    IntegerRun(s, Advance(s, c, 1), n);
    ValueInteger(s, c);
  }

  /** Parsing the encoding of a value the decoder can read back, from
      any cursor (watching or not), yields the value and stops right after
      its encoding. */
  lemma {:induction false} ParseEncoded(s: seq<byte>, c: Cursor, v: Value)
    requires c.pos <= |s| && WellFormed(v) && At(s, c.pos, Encode(v))
    ensures ParseValue(s, c).Ok?
    ensures ParseValue(s, c).value.value == v
    ensures ParseValue(s, c).value.rest.pos == c.pos + |Encode(v)|
    decreases |s| - c.pos, 1
  {
    match v
    case Integer(n) => ParseEncodedInteger(s, c, n);
    case ByteString(b) => ParseEncodedString(s, c, b);
    case List(items) => ParseEncodedList(s, c, items);
    case Dictionary(es) => ParseEncodedDictionary(s, c, es);
  }

  /** A list's encoding read as a value. */
  lemma {:induction false} ParseEncodedList(s: seq<byte>, c: Cursor, items: seq<Value>)
    requires c.pos <= |s| && WellFormed(List(items)) && At(s, c.pos, Encode(List(items)))
    ensures ParseValue(s, c).Ok?
    ensures ParseValue(s, c).value.value == List(items)
    ensures ParseValue(s, c).value.rest.pos == c.pos + |Encode(List(items))|
    decreases |s| - c.pos, 0
  {
    var e := Encode(List(items));
    AtTail(s, c.pos, e);
    assert e[1..] == EncodeItems(items) + [MarkerEnd];
    ValueContainer(s, c);
    ListRun(s, Advance(s, c, 1), [], items);
    AppendNil(items);
  }

  /** A dictionary's encoding read as a value. */
  lemma {:induction false} ParseEncodedDictionary(s: seq<byte>, c: Cursor, es: seq<Entry>)
    requires c.pos <= |s| && WellFormed(Dictionary(es)) && At(s, c.pos, Encode(Dictionary(es)))
    ensures ParseValue(s, c).Ok?
    ensures ParseValue(s, c).value.value == Dictionary(es)
    ensures ParseValue(s, c).value.rest.pos == c.pos + |Encode(Dictionary(es))|
    decreases |s| - c.pos, 0
  {
    var e := Encode(Dictionary(es));
    AtTail(s, c.pos, e);
    assert e[1..] == EncodeEntries(es) + [MarkerEnd];
    ValueContainer(s, c);
    DictRun(s, Advance(s, c, 1), [], es);
    AppendNil(es);
  }

  /** The rest of a list, its elements' encodings and the closing 'e',
      read back as the remaining elements after `acc`. */
  lemma {:induction false} ListRun(s: seq<byte>, c: Cursor, acc: seq<Value>, items: seq<Value>)
    requires c.pos <= |s| && (forall i :: 0 <= i < |items| ==> WellFormed(items[i]))
    requires At(s, c.pos, EncodeItems(items) + [MarkerEnd])
    ensures ListItems(s, c, acc).Ok?
    ensures ListItems(s, c, acc).value.value == List(acc + items)
    ensures ListItems(s, c, acc).value.rest.pos == c.pos + |EncodeItems(items)| + 1
    decreases |s| - c.pos, 3
  {
    if items == [] {
      ListItemsUnfold(s, c, acc);
      EndAt(s, c.pos);
      AppendNil(acc);
    } else {
      var x := items[0];
      ListStep(s, c, acc, items);
      var p := ParseValue(s, c).value;
      ListRun(s, p.rest, acc + [x], items[1..]);
    }
  }

  /** The first remaining element of a list: the loop reads it and goes
      on after it with the rest of the elements. */
  lemma {:induction false} ListStep(s: seq<byte>, c: Cursor, acc: seq<Value>, items: seq<Value>)
    requires c.pos <= |s| && items != [] && (forall i :: 0 <= i < |items| ==> WellFormed(items[i]))
    requires At(s, c.pos, EncodeItems(items) + [MarkerEnd])
    ensures ParseValue(s, c).Ok?
    ensures ParseValue(s, c).value.value == items[0]
    ensures ParseValue(s, c).value.rest.pos == c.pos + |Encode(items[0])|
    ensures ListItems(s, c, acc) == ListItems(s, ParseValue(s, c).value.rest, acc + [items[0]])
    ensures At(s, ParseValue(s, c).value.rest.pos, EncodeItems(items[1..]) + [MarkerEnd])
    ensures forall i :: 0 <= i < |items[1..]| ==> WellFormed(items[1..][i])
    ensures ParseValue(s, c).value.rest.pos + |EncodeItems(items[1..])| == c.pos + |EncodeItems(items)|
    ensures acc + [items[0]] + items[1..] == acc + items
    decreases |s| - c.pos, 2
  {
    ListItemsUnfold(s, c, acc);
    ItemsAt(s, c.pos, items);
    ParseEncoded(s, c, items[0]);
    ListElementUnfold(s, c, acc);
    ItemsCons(items);
    MoveFirst(acc, items);
  }

  lemma ItemsCons(items: seq<Value>)
    requires items != []
    ensures |EncodeItems(items)| == |Encode(items[0])| + |EncodeItems(items[1..])|
    ensures forall i :: 0 <= i < |items[1..]| ==> items[1..][i] == items[i + 1]
  {
  }

  /** The rest of a dictionary, its entries' encodings and the closing
      'e', read back as the remaining entries after `acc`. */
  lemma {:induction false} DictRun(s: seq<byte>, c: Cursor, acc: seq<Entry>, es: seq<Entry>)
    requires c.pos <= |s| && EntriesReadable(acc, es)
    requires At(s, c.pos, EncodeEntries(es) + [MarkerEnd])
    ensures DictItems(s, c, acc).Ok?
    ensures DictItems(s, c, acc).value.value == Dictionary(acc + es)
    ensures DictItems(s, c, acc).value.rest.pos == c.pos + |EncodeEntries(es)| + 1
    decreases |s| - c.pos, 4
  {
    if es == [] {
      DictItemsUnfold(s, c, acc);
      EndAt(s, c.pos);
      AppendNil(acc);
    } else {
      var x := es[0];
      DictStep(s, c, acc, es);
      var p := KeyValue(s, c, acc).value;
      DictRun(s, p.rest, acc + [x], es[1..]);
    }
  }

  /** The first remaining entry of a dictionary: the loop reads it and
      goes on after it with the rest of the entries. */
  lemma {:induction false} DictStep(s: seq<byte>, c: Cursor, acc: seq<Entry>, es: seq<Entry>)
    requires c.pos <= |s| && es != [] && EntriesReadable(acc, es)
    requires At(s, c.pos, EncodeEntries(es) + [MarkerEnd])
    ensures KeyValue(s, c, acc).Ok?
    ensures KeyValue(s, c, acc).value.value == es[0]
    ensures KeyValue(s, c, acc).value.rest.pos == c.pos + |EncodeString(es[0].key) + Encode(es[0].value)|
    ensures DictItems(s, c, acc) == DictItems(s, KeyValue(s, c, acc).value.rest, acc + [es[0]])
    ensures At(s, KeyValue(s, c, acc).value.rest.pos, EncodeEntries(es[1..]) + [MarkerEnd])
    ensures EntriesReadable(acc + [es[0]], es[1..])
    ensures KeyValue(s, c, acc).value.rest.pos + |EncodeEntries(es[1..])| == c.pos + |EncodeEntries(es)|
    ensures acc + [es[0]] + es[1..] == acc + es
    decreases |s| - c.pos, 3
  {
    DictItemsUnfold(s, c, acc);
    EntriesAt(s, c.pos, es);
    EntriesReadableNext(acc, es);
    KeyValueRun(s, c, acc, es[0]);
    DictEntryUnfold(s, c, acc);
    EntriesCons(es);
    MoveFirst(acc, es);
  }

  lemma EntriesCons(es: seq<Entry>)
    requires es != []
    ensures |EncodeEntries(es)| == |EncodeString(es[0].key) + Encode(es[0].value)| + |EncodeEntries(es[1..])|
  {
  }

  lemma MoveFirst<T>(acc: seq<T>, xs: seq<T>)
    requires xs != []
    ensures acc + [xs[0]] + xs[1..] == acc + xs
  {
    assert [xs[0]] + xs[1..] == xs;
  }

  /** One entry, its key's encoding then its value's, read back as that
      entry when the key is not already in `acc`. */
  lemma {:induction false} KeyValueRun(s: seq<byte>, c: Cursor, acc: seq<Entry>, x: Entry)
    requires c.pos <= |s| && |x.key| < 0x8000_0000 && WellFormed(x.value) && x.key !in Keys(acc)
    requires At(s, c.pos, EncodeString(x.key) + Encode(x.value))
    ensures KeyValue(s, c, acc).Ok?
    ensures KeyValue(s, c, acc).value.value == x
    ensures KeyValue(s, c, acc).value.rest.pos == c.pos + |EncodeString(x.key)| + |Encode(x.value)|
    decreases |s| - c.pos, 2
  {
    AtSplit(s, c.pos, EncodeString(x.key), Encode(x.value));
    ParseEncodedString(s, c, x.key);
    var k := ParseValue(s, c).value;
    var c2 := if x.key == InfoKey then k.rest.(watching := true) else k.rest;
    ParseEncoded(s, c2, x.value);
    ValueUnfold(s, c, acc, k, c2);
  }

  /** An input that holds a value's encoding followed by any bytes decodes
      to that value, and decoding stops right after the encoding: the
      bytes after it are never read. */
  lemma DecodeEncodedPrefix(v: Value, tail: seq<byte>)
    requires WellFormed(v)
    ensures Parse(Encode(v) + tail).Ok?
    ensures Parse(Encode(v) + tail).value.value == v
    ensures Parse(Encode(v) + tail).value.rest.pos == |Encode(v)|
  {
    var s := Encode(v) + tail;
    assert s[0..|Encode(v)|] == Encode(v);
    ParseEncoded(s, Cursor(0, false, []), v);
  }

  /** Decoding what the encoder writes gives back the value, for every
      value the decoder can read back. */
  lemma DecodeEncode(v: Value)
    requires WellFormed(v)
    ensures Parse(Encode(v)).Ok?
    ensures Parse(Encode(v)).value.value == v
    ensures Parse(Encode(v)).value.rest.pos == |Encode(v)|
  {
    AppendNil(Encode(v));
    DecodeEncodedPrefix(v, []);
  }

  /** Entries whose keys and values the decoder can read one by one. */
  predicate EntriesWellFormed(es: seq<Entry>) {
    forall i :: 0 <= i < |es| ==> |es[i].key| < 0x8000_0000 && WellFormed(es[i].value)
  }

  /** Some entry has a key already held in `acc` or in an entry before it. */
  predicate RepeatsKey(acc: seq<Entry>, es: seq<Entry>) {
    exists j :: 0 <= j < |es| && es[j].key in Keys(acc + es[..j])
  }

  /** One entry whose key is already in `acc`: its value is decoded, and
      then `Dictionary.Add` fails. */
  lemma KeyValueRepeat(s: seq<byte>, c: Cursor, acc: seq<Entry>, x: Entry)
    requires c.pos <= |s| && |x.key| < 0x8000_0000 && WellFormed(x.value) && x.key in Keys(acc)
    requires At(s, c.pos, EncodeString(x.key) + Encode(x.value))
    ensures KeyValue(s, c, acc) == Err(DuplicateKey)
  {
    AtSplit(s, c.pos, EncodeString(x.key), Encode(x.value));
    ParseEncodedString(s, c, x.key);
    var k := ParseValue(s, c).value;
    var c2 := if x.key == InfoKey then k.rest.(watching := true) else k.rest;
    ParseEncoded(s, c2, x.value);
    ValueUnfold(s, c, acc, k, c2);
  }

  /** A repeat that is not the first entry is still a repeat once the
      first entry has been moved into `acc`. */
  lemma RepeatsKeyNext(acc: seq<Entry>, es: seq<Entry>, j: nat)
    requires 0 < j < |es| && es[j].key in Keys(acc + es[..j])
    ensures RepeatsKey(acc + [es[0]], es[1..])
  {
    assert acc + [es[0]] + es[1..][..j - 1] == acc + es[..j];
    assert es[1..][j - 1] == es[j];
  }

  /** The rest of a dictionary in which some entry repeats a key: the
      loop fails with `DuplicateKey` when it reaches that entry. */
  lemma {:induction false} DictRepeatRun(s: seq<byte>, c: Cursor, acc: seq<Entry>, es: seq<Entry>)
    requires c.pos <= |s| && EntriesWellFormed(es) && RepeatsKey(acc, es)
    requires At(s, c.pos, EncodeEntries(es) + [MarkerEnd])
    ensures DictItems(s, c, acc) == Err(DuplicateKey)
    decreases |es|
  {
    if es[0].key in Keys(acc) {
      DictRepeatHead(s, c, acc, es);
    } else {
      DictRepeatNext(s, c, acc, es);
      EntriesAt(s, c.pos, es);
      DictRepeatRun(s, KeyValue(s, c, acc).value.rest, acc + [es[0]], es[1..]);
    }
  }

  /** The first remaining entry repeats a key already read. */
  lemma DictRepeatHead(s: seq<byte>, c: Cursor, acc: seq<Entry>, es: seq<Entry>)
    requires c.pos <= |s| && es != [] && EntriesWellFormed(es) && es[0].key in Keys(acc)
    requires At(s, c.pos, EncodeEntries(es) + [MarkerEnd])
    ensures DictItems(s, c, acc) == Err(DuplicateKey)
  {
    DictItemsUnfold(s, c, acc);
    EntriesAt(s, c.pos, es);
    DictEntryUnfold(s, c, acc);
    KeyValueRepeat(s, c, acc, es[0]);
  }

  /** The first remaining entry has a new key: the loop reads it, and the
      repeat is still ahead in the rest of the entries. */
  lemma DictRepeatNext(s: seq<byte>, c: Cursor, acc: seq<Entry>, es: seq<Entry>)
    requires c.pos <= |s| && EntriesWellFormed(es) && RepeatsKey(acc, es) && es[0].key !in Keys(acc)
    requires At(s, c.pos, EncodeEntries(es) + [MarkerEnd])
    ensures KeyValue(s, c, acc).Ok? && KeyValue(s, c, acc).value.rest.pos <= |s|
    ensures DictItems(s, c, acc) == DictItems(s, KeyValue(s, c, acc).value.rest, acc + [es[0]])
    ensures KeyValue(s, c, acc).value.rest.pos == c.pos + |EncodeString(es[0].key) + Encode(es[0].value)|
    ensures EntriesWellFormed(es[1..]) && RepeatsKey(acc + [es[0]], es[1..])
  {
    var j :| 0 <= j < |es| && es[j].key in Keys(acc + es[..j]);
    assert j != 0 by {
      AppendNil(acc);
    }
    DictItemsUnfold(s, c, acc);
    EntriesAt(s, c.pos, es);
    DictEntryUnfold(s, c, acc);
    KeyValueRun(s, c, acc, es[0]);
    RepeatsKeyNext(acc, es, j);
    assert EntriesWellFormed(es[1..]) by {
      ItemsTail(es);
    }
  }

  lemma ItemsTail<T>(xs: seq<T>)
    requires xs != []
    ensures forall i :: 0 <= i < |xs[1..]| ==> xs[1..][i] == xs[i + 1]
  {
  }

  /** Decoding the encoding of a dictionary in which some key comes
      twice fails with `DuplicateKey`. */
  lemma DecodeRejectsRepeatedKey(es: seq<Entry>)
    requires EntriesWellFormed(es) && RepeatsKey([], es)
    ensures Parse(Encode(Dictionary(es))) == Err(DuplicateKey)
  {
    var s := Encode(Dictionary(es));
    var c := Cursor(0, false, []);
    assert s[0..|s|] == s;
    AtTail(s, 0, s);
    assert s[1..] == EncodeEntries(es) + [MarkerEnd];
    ValueContainer(s, c);
    DictRepeatRun(s, Advance(s, c, 1), [], es);
  }

  /** For entries the decoder can read one by one, decoding the
      dictionary's encoding succeeds exactly when no key comes twice. */
  lemma DecodeDictionaryIffDistinct(es: seq<Entry>)
    requires EntriesWellFormed(es)
    ensures Parse(Encode(Dictionary(es))).Ok? <==>
      forall i, j :: 0 <= i < j < |es| ==> es[i].key != es[j].key
  {
    if forall i, j :: 0 <= i < j < |es| ==> es[i].key != es[j].key {
      DecodeEncode(Dictionary(es));
    } else {
      var i, j :| 0 <= i < j < |es| && es[i].key == es[j].key;
      assert Keys([] + es[..j])[i] == es[j].key;
      DecodeRejectsRepeatedKey(es);
    }
  }
}
