/** Which bytes the decoder feeds into the info-hash when it reads an
    encoded torrent: the encoding of the value of the "info" key of the
    top-level dictionary, and nothing else, so the digest is the SHA-1 of
    exactly those bytes (the BitTorrent info-hash). */
module TorrentInfo {
  import opened ByteUtil
  import opened BValue
  import opened Grammar
  import opened Encoding
  import opened Mirroring
  import opened RoundTrip

  /** The encodings of the values of the "info" entries of `es`, in order. */
  function InfoBytes(es: seq<Entry>): seq<byte> {
    if es == [] then []
    else (if es[0].key == InfoKey then Encode(es[0].value) else []) + InfoBytes(es[1..])
  }

  /** Entries none of which is keyed "info" contribute nothing. */
  lemma {:induction false} InfoBytesNone(es: seq<Entry>)
    requires forall j :: 0 <= j < |es| ==> es[j].key != InfoKey
    ensures InfoBytes(es) == []
  {
    if es != [] {
      assert es[0].key != InfoKey;
      InfoBytesNone(es[1..]);
    }
  }

  /** With distinct keys, the one "info" entry at index `i` contributes
      its value's encoding and the others nothing. */
  lemma {:induction false} InfoBytesUnique(es: seq<Entry>, i: nat)
    requires i < |es| && es[i].key == InfoKey
    requires forall j, k :: 0 <= j < k < |es| ==> es[j].key != es[k].key
    ensures InfoBytes(es) == Encode(es[i].value)
  {
    if i == 0 {
      forall j | 0 <= j < |es[1..]|
        ensures es[1..][j].key != InfoKey
      {
        assert es[0].key != es[j + 1].key;
      }
      InfoBytesNone(es[1..]);
      AppendNil(Encode(es[0].value));
    } else {
      assert es[0].key != es[i].key;
      assert es[1..][i - 1] == es[i];
      InfoBytesUnique(es[1..], i - 1);
      AppendNil(InfoBytes(es[1..]));
    }
  }

  /** A cursor moved over an occurrence of `t` by `Advance` has `t` added
      to its mirrored bytes exactly when it is watching. */
  lemma MirrorsAt(s: seq<byte>, c: Cursor, d: Cursor, t: seq<byte>)
    requires Mirrors(s, c, d) && At(s, c.pos, t) && d.pos == c.pos + |t|
    ensures d.watching == c.watching
    ensures d.mirrored == if c.watching then c.mirrored + t else c.mirrored
  {
  }

  /** One entry read while not watching: the cursor after it is not
      watching, and it has mirrored the value's encoding exactly when the
      key is "info". */
  lemma KeyValueInfo(s: seq<byte>, c: Cursor, acc: seq<Entry>, x: Entry)
    requires c.pos <= |s| && !c.watching && x.key !in Keys(acc)
    requires |x.key| < 0x8000_0000 && WellFormed(x.value) && NoInfoKey(x.value)
    requires At(s, c.pos, EncodeString(x.key) + Encode(x.value))
    ensures KeyValue(s, c, acc).Ok?
    ensures !KeyValue(s, c, acc).value.rest.watching
    ensures KeyValue(s, c, acc).value.rest.mirrored ==
      c.mirrored + (if x.key == InfoKey then Encode(x.value) else [])
  {
    KeyValueRun(s, c, acc, x);
    AtSplit(s, c.pos, EncodeString(x.key), Encode(x.value));
    ParseEncodedString(s, c, x.key);
    var k := ParseValue(s, c).value;
    ValueMirror(s, c);
    MirrorsAt(s, c, k.rest, EncodeString(x.key));
    var c2 := if x.key == InfoKey then k.rest.(watching := true) else k.rest;
    ParseEncoded(s, c2, x.value);
    var v := ParseValue(s, c2).value;
    ValueMirror(s, c2);
    MirrorsAt(s, c2, v.rest, Encode(x.value));
    ValueUnfold(s, c, acc, k, c2);
    AppendNil(c.mirrored);
  }

  /** The entries of a dictionary read while not watching, none of whose
      values holds an "info" key: the bytes mirrored are the encodings of
      the "info" entries' values. */
  lemma {:induction false} DictInfoRun(s: seq<byte>, c: Cursor, acc: seq<Entry>, es: seq<Entry>)
    requires c.pos <= |s| && !c.watching && EntriesReadable(acc, es)
    requires forall j :: 0 <= j < |es| ==> NoInfoKey(es[j].value)
    requires At(s, c.pos, EncodeEntries(es) + [MarkerEnd])
    ensures DictItems(s, c, acc).Ok?
    ensures DictItems(s, c, acc).value.rest.mirrored == c.mirrored + InfoBytes(es)
    decreases |es|
  {
    DictRun(s, c, acc, es);
    if es == [] {
      DictItemsUnfold(s, c, acc);
      EndAt(s, c.pos);
      AppendNil(c.mirrored);
    } else {
      var x := es[0];
      DictStep(s, c, acc, es);
      EntriesAt(s, c.pos, es);
      EntriesReadableNext(acc, es);
      KeyValueInfo(s, c, acc, x);
      var p := KeyValue(s, c, acc).value;
      assert forall j :: 0 <= j < |es[1..]| ==> NoInfoKey(es[1..][j].value) by {
        ItemsTail(es);
      }
      DictInfoRun(s, p.rest, acc + [x], es[1..]);
      InfoBytesCons(c.mirrored, es);
    }
  }

  lemma InfoBytesCons(m: seq<byte>, es: seq<Entry>)
    requires es != []
    ensures m + InfoBytes(es) ==
      m + (if es[0].key == InfoKey then Encode(es[0].value) else []) + InfoBytes(es[1..])
  {
    AppendAssoc(m, if es[0].key == InfoKey then Encode(es[0].value) else [], InfoBytes(es[1..]));
  }

  lemma AppendAssoc<T>(a: seq<T>, b: seq<T>, c: seq<T>)
    ensures a + (b + c) == a + b + c
  {
  }

  /** The info-hash of an encoded torrent: decoding the encoding of a
      dictionary with an "info" entry, where no value holds a further
      "info" key, mirrors exactly the encoding of the "info" value. */
  lemma InfoHashOfEncoded(es: seq<Entry>, i: nat)
    requires WellFormed(Dictionary(es)) && i < |es| && es[i].key == InfoKey
    requires forall j :: 0 <= j < |es| ==> NoInfoKey(es[j].value)
    ensures Parse(Encode(Dictionary(es))).Ok?
    ensures Parse(Encode(Dictionary(es))).value.value == Dictionary(es)
    ensures Parse(Encode(Dictionary(es))).value.rest.mirrored == Encode(es[i].value)
  {
    var s := Encode(Dictionary(es));
    var c0 := Cursor(0, false, []);
    DecodeEncode(Dictionary(es));
    DictionaryBody(es);
    ValueContainer(s, c0);
    var c1 := Advance(s, c0, 1);
    assert c1 == Cursor(1, false, []);
    DictInfoRun(s, c1, [], es);
    InfoBytesUnique(es, i);
    AppendNil(Encode(es[i].value));
  }

  /** A dictionary's encoding is a 'd', then its entries and an 'e'. */
  lemma DictionaryBody(es: seq<Entry>)
    ensures |Encode(Dictionary(es))| >= 1 && Encode(Dictionary(es))[0] == MarkerDict
    ensures At(Encode(Dictionary(es)), 1, EncodeEntries(es) + [MarkerEnd])
  {
    var s := Encode(Dictionary(es));
    assert s[1..1 + |EncodeEntries(es) + [MarkerEnd]|] == EncodeEntries(es) + [MarkerEnd];
  }

  /** The bytes `s[a..b]` are read, watching, as the value `v`, with `m`
      mirrored before them: the raw span of an "info" value. */
  ghost predicate WatchedSpan(s: seq<byte>, a: nat, b: nat, m: seq<byte>, v: Value) {
    a <= b <= |s| && ParseValue(s, Cursor(a, true, m)) == Ok(Parsed(v, Cursor(b, true, m + s[a..b])))
  }

  /** The entries from index `n` on hold no "info" key in their values. */
  ghost predicate ValuesFrom(es: seq<Entry>, n: nat) {
    forall j :: n <= j < |es| ==> NoInfoKey(es[j].value)
  }

  /** What reading entries from `c` to `r.rest`, after the entries `acc`,
      leaves behind: the watching flag off, keys not in `acc`, nothing
      mirrored when no new entry is keyed "info", and the raw bytes of the
      "info" value mirrored when one is. */
  ghost predicate InfoMirrored(s: seq<byte>, c: Cursor, acc: seq<Entry>, r: Parsed<Value>) {
    r.value.Dictionary? && c.pos <= r.rest.pos <= |s| && !r.rest.watching &&
    FreshKeys(acc, r.value.entries) &&
    ((forall j :: |acc| <= j < |r.value.entries| ==> r.value.entries[j].key != InfoKey) ==>
      r.rest.mirrored == c.mirrored) &&
    (forall j :: |acc| <= j < |r.value.entries| && r.value.entries[j].key == InfoKey ==>
      SpanMirrored(s, c.pos, c.mirrored, r, r.value.entries[j].value))
  }

  /** The entries of `es` after `acc` have keys not in `acc`. */
  ghost predicate FreshKeys(acc: seq<Entry>, es: seq<Entry>) {
    forall j :: |acc| <= j < |es| ==> es[j].key !in Keys(acc)
  }

  /** `r` ends with `m` followed by the raw bytes, after `lo`, that the
      value `v` was read from while watching. */
  ghost predicate SpanMirrored(s: seq<byte>, lo: nat, m: seq<byte>, r: Parsed<Value>, v: Value) {
    exists a, b :: lo < a <= b <= r.rest.pos && WatchedSpan(s, a, b, m, v) && r.rest.mirrored == m + s[a..b]
  }

  /** One entry read on any input, not watching: a key other than "info"
      mirrors nothing; the key "info" mirrors exactly the raw bytes its
      value is read from, and watching is off again after it. */
  lemma KeyValueInfoAny(s: seq<byte>, c: Cursor, acc: seq<Entry>)
    requires c.pos <= |s| && !c.watching && KeyValue(s, c, acc).Ok?
    requires NoInfoKey(KeyValue(s, c, acc).value.value.value)
    ensures !KeyValue(s, c, acc).value.rest.watching
    ensures KeyValue(s, c, acc).value.value.key != InfoKey ==> KeyValue(s, c, acc).value.rest.mirrored == c.mirrored
    ensures KeyValue(s, c, acc).value.value.key == InfoKey ==>
      exists a :: c.pos < a && WatchedSpan(s, a, KeyValue(s, c, acc).value.rest.pos, c.mirrored, KeyValue(s, c, acc).value.value.value) &&
        KeyValue(s, c, acc).value.rest.mirrored == c.mirrored + s[a..KeyValue(s, c, acc).value.rest.pos]
  {
    var e := KeyValue(s, c, acc).value;
    KeyUnfold(s, c, acc);
    var k := ParseValue(s, c).value;
    ValueMirror(s, c);
    var c2 := if k.value.bytes == InfoKey then k.rest.(watching := true) else k.rest;
    ValueUnfold(s, c, acc, k, c2);
    if e.value.key == InfoKey {
      var v := ParseValue(s, c2).value;
      assert e == Parsed(Entry(InfoKey, v.value), v.rest.(watching := false));
      ValueMirror(s, c2);
      assert WatchedSpan(s, k.rest.pos, e.rest.pos, c.mirrored, e.value.value);
    } else {
      KeyValueMirror(s, c, acc);
    }
  }

  /** The rest of a dictionary read on any input, not watching. */
  lemma {:induction false} DictItemsInfoAny(s: seq<byte>, c: Cursor, acc: seq<Entry>)
    requires c.pos <= |s| && !c.watching && DictItems(s, c, acc).Ok?
    requires ValuesFrom(DictItems(s, c, acc).value.value.entries, |acc|)
    ensures InfoMirrored(s, c, acc, DictItems(s, c, acc).value)
    decreases |s| - c.pos, 3
  {
    var p := Take(s, c).value;
    if p.value == MarkerEnd {
    } else if p.value == 0 {
      DictEntryInfoAny(s, p.rest, acc);
      InfoMirroredLift(s, c, p.rest, acc, DictItems(s, c, acc).value);
    } else {
      DictEntryInfoAny(s, c, acc);
    }
  }

  lemma {:induction false} DictEntryInfoAny(s: seq<byte>, c: Cursor, acc: seq<Entry>)
    requires c.pos <= |s| && !c.watching && DictEntry(s, c, acc).Ok?
    requires ValuesFrom(DictEntry(s, c, acc).value.value.entries, |acc|)
    ensures InfoMirrored(s, c, acc, DictEntry(s, c, acc).value)
    decreases |s| - c.pos, 2
  {
    var r := DictEntry(s, c, acc).value;
    var e := KeyValue(s, c, acc).value;
    var acc' := acc + [e.value];
    assert DictEntry(s, c, acc) == DictItems(s, e.rest, acc');
    assert acc' <= r.value.entries && r.value.entries[|acc|] == e.value;
    KeyValueInfoAny(s, c, acc);
    DictItemsInfoAny(s, e.rest, acc');
    if e.value.key == InfoKey {
      var a :| c.pos < a && WatchedSpan(s, a, e.rest.pos, c.mirrored, e.value.value) &&
        e.rest.mirrored == c.mirrored + s[a..e.rest.pos];
      InfoEntryFirst(s, c, e.rest, acc, e.value, r, a);
    } else {
      InfoMirroredShift(s, e.rest, acc, e.value, r);
      InfoMirroredLift(s, c, e.rest, acc, r);
    }
  }

  /** The keys of `acc` with one more entry. */
  lemma KeysSnoc(acc: seq<Entry>, x: Entry)
    ensures Keys(acc + [x]) == Keys(acc) + [x.key]
  {
  }

  /** Entries read from `d`, reached from `c` without mirroring, mirror
      from `c` what they mirror from `d`. */
  lemma InfoMirroredLift(s: seq<byte>, c: Cursor, d: Cursor, acc: seq<Entry>, r: Parsed<Value>)
    requires c.pos < d.pos && d.mirrored == c.mirrored && InfoMirrored(s, d, acc, r)
    ensures InfoMirrored(s, c, acc, r)
  {
    var es := r.value.entries;
    forall j | |acc| <= j < |es| && es[j].key == InfoKey
      ensures SpanMirrored(s, c.pos, c.mirrored, r, es[j].value)
    {
      var a, b :| d.pos < a <= b <= r.rest.pos && WatchedSpan(s, a, b, d.mirrored, es[j].value) &&
        r.rest.mirrored == d.mirrored + s[a..b];
    }
  }

  /** An entry `x` keyed other than "info" and not in `acc` can be counted
      among the entries read. */
  lemma InfoMirroredShift(s: seq<byte>, d: Cursor, acc: seq<Entry>, x: Entry, r: Parsed<Value>)
    requires InfoMirrored(s, d, acc + [x], r) && |acc| < |r.value.entries| && r.value.entries[|acc|] == x
    requires x.key != InfoKey && x.key !in Keys(acc)
    ensures InfoMirrored(s, d, acc, r)
  {
    var es, n := r.value.entries, |acc|;
    FreshKeysNext(acc, x, es);
    forall j | n <= j < |es| && es[j].key == InfoKey
      ensures SpanMirrored(s, d.pos, d.mirrored, r, es[j].value)
    {
      assert n + 1 <= j;
    }
  }

  /** An "info" entry `x`, read from `c` to `d` with its value at `s[a..d.pos]`,
      followed by the entries read from `d`: the info bytes are mirrored,
      and no later entry is keyed "info". */
  lemma InfoEntryFirst(s: seq<byte>, c: Cursor, d: Cursor, acc: seq<Entry>, x: Entry, r: Parsed<Value>, a: nat)
    requires InfoMirrored(s, d, acc + [x], r) && |acc| < |r.value.entries| && r.value.entries[|acc|] == x
    requires x.key == InfoKey && x.key !in Keys(acc)
    requires c.pos < a && WatchedSpan(s, a, d.pos, c.mirrored, x.value) && d.mirrored == c.mirrored + s[a..d.pos]
    ensures InfoMirrored(s, c, acc, r)
  {
    var es, n := r.value.entries, |acc|;
    FreshKeysNext(acc, x, es);
    forall j | n <= j < |es| && es[j].key == InfoKey
      ensures SpanMirrored(s, c.pos, c.mirrored, r, es[j].value)
    {
      assert j == n;
      assert c.pos < a <= d.pos <= r.rest.pos;
    }
  }

  /** An entry `x` with a key not in `acc`, followed by entries whose keys
      are not in `acc + [x]`: none of them has `x`'s key. */
  lemma FreshKeysNext(acc: seq<Entry>, x: Entry, es: seq<Entry>)
    requires FreshKeys(acc + [x], es) && |acc| < |es| && es[|acc|] == x && x.key !in Keys(acc)
    ensures FreshKeys(acc, es)
    ensures forall j :: |acc| < j < |es| ==> es[j].key != x.key
  {
    KeysSnoc(acc, x);
    forall j | |acc| < j < |es| ensures es[j].key !in Keys(acc) && es[j].key != x.key {
      assert es[j].key !in Keys(acc) + [x.key];
    }
  }

  /** The info-hash of any input that decodes to a dictionary whose values
      hold no "info" key: without an "info" entry nothing is mirrored, and
      with one exactly the raw bytes its value was read from. */
  lemma InfoHashOfInput(s: seq<byte>)
    requires Parse(s).Ok? && Parse(s).value.value.Dictionary?
    requires ValuesFrom(Parse(s).value.value.entries, 0)
    ensures (forall j :: 0 <= j < |Parse(s).value.value.entries| ==> Parse(s).value.value.entries[j].key != InfoKey) ==>
      Parse(s).value.rest.mirrored == []
    ensures forall j :: 0 <= j < |Parse(s).value.value.entries| && Parse(s).value.value.entries[j].key == InfoKey ==>
      exists a, b :: 0 < a <= b <= Parse(s).value.rest.pos && WatchedSpan(s, a, b, [], Parse(s).value.value.entries[j].value) &&
        Parse(s).value.rest.mirrored == s[a..b]
  {
    var c0 := Cursor(0, false, []);
    assert s[0] == MarkerDict;
    ValueContainer(s, c0);
    assert Advance(s, c0, 1) == Cursor(1, false, []);
    DictItemsInfoAny(s, Cursor(1, false, []), []);
    forall a, b | 0 <= a <= b <= |s| ensures [] + s[a..b] == s[a..b] {
      AppendNil(s[a..b]);
    }
  }
}
