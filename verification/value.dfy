/** The decoded BEncode value tree and the decoder's error outcomes. */
module BValue {
  import opened ByteUtil

  /** A BEncode value: a 64-bit integer, a byte string, a list, or a
      dictionary whose entries keep the order in which they were added
      (the enumeration order of a .NET `Dictionary` that was only added to). */
  datatype Value =
    | Integer(n: i64)
    | ByteString(bytes: seq<byte>)
    | List(items: seq<Value>)
    | Dictionary(entries: seq<Entry>)

  datatype Entry = Entry(key: seq<byte>, value: Value)

  /** The reasons a decode fails; each stands for the .NET exception the
      decoder lets escape at that point. */
  datatype Error =
    | EndOfInput          // BinaryReader.ReadByte at the end of the stream
    | UnknownType         // Decode: byte that starts no production
    | LeadingZero         // "i0" not followed by 'e'
    | NegativeZero        // "i-0"
    | InvalidIntegerStart // first digit outside 1-9
    | MissingIntegerEnd   // digits not followed by 'e'
    | DigitBufferOverflow // more than 256 characters in the char buffer
    | IntegerOverflow     // long.Parse beyond the 64-bit range
    | MissingColon        // length digits not followed by ':'
    | NegativeLength      // ReadBytes with a negative (wrapped) count
    | ShortRead           // InfoHash.Update indexing past a short ReadBytes result
    | KeyNotString        // the cast of a dictionary key to byte[]
    | DuplicateKey        // Dictionary.Add with a key already present

  datatype Result<+T> = Ok(value: T) | Err(error: Error) {
    predicate IsFailure() {
      Err?
    }

    function PropagateFailure<U>(): Result<U>
      requires Err?
    {
      Err(error)
    }

    function Extract(): T
      requires Ok?
    {
      value
    }
  }

  /** The keys of a dictionary's entries, in order. */
  function Keys(es: seq<Entry>): (ks: seq<seq<byte>>)
    ensures |ks| == |es|
    ensures forall i :: 0 <= i < |es| ==> ks[i] == es[i].key
  {
    if es == [] then [] else [es[0].key] + Keys(es[1..])
  }

  /** The key whose value the decoder mirrors into the info-hash. */
  const InfoKey: seq<byte> := [105, 110, 102, 111] // "info"

  /** No dictionary anywhere inside `v` has the key "info". */
  predicate NoInfoKey(v: Value)
    decreases v
  {
    match v
    case List(items) => forall i :: 0 <= i < |items| ==> NoInfoKey(items[i])
    case Dictionary(es) =>
      forall i :: 0 <= i < |es| ==> es[i].key != InfoKey && NoInfoKey(es[i].value)
    case _ => true
  }

  /** The values the decoder can give back unchanged after encoding: the
      integers it can read (it drops the minus sign), byte strings whose
      length fits its 32-bit length counter, and dictionaries without a
      repeated key. */
  predicate WellFormed(v: Value)
    decreases v
  {
    match v
    case Integer(n) => n >= 0
    case ByteString(b) => |b| < 0x8000_0000
    case List(items) => forall i :: 0 <= i < |items| ==> WellFormed(items[i])
    case Dictionary(es) =>
      (forall i :: 0 <= i < |es| ==> |es[i].key| < 0x8000_0000 && WellFormed(es[i].value)) &&
      (forall i, j :: 0 <= i < j < |es| ==> es[i].key != es[j].key)
  }
}
