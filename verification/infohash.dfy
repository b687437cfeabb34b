/** The append-only byte buffer that collects the raw bytes of the "info"
    value and hashes them on request (BEncodeLib/InfoHash.cs). */
module InfoHashing {
  import opened ByteUtil

  /** The bytes `Update(a, position, length)` appends: the loop copies
      `a[i]` for `position <= i < length` and stops at the first index
      outside `a`, so `length` acts as an end index, not a count. */
  function Appended(a: seq<byte>, position: int, length: int): seq<byte> {
    if 0 <= position <= |a| && position < length then
      a[position..if length <= |a| then length else |a|]
    else []
  }

  /** Whether that loop runs to its end without indexing outside `a`. */
  predicate InBounds(a: seq<byte>, position: int, length: int) {
    length <= position || (0 <= position && length <= |a|)
  }

  /** What the decoder passes, a whole block from position 0 with its own
      length as the count, is appended as it stands. */
  lemma AppendedWhole(a: seq<byte>)
    ensures InBounds(a, 0, |a|) && Appended(a, 0, |a|) == a
  {
    assert a[0..|a|] == a;
  }

  /** From a position `p` inside `a` the copy stops at index `length`,
      so `length - p` bytes are appended, not `length`. */
  lemma AppendedCount(a: seq<byte>, p: int, length: int)
    requires 0 <= p <= length <= |a|
    ensures InBounds(a, p, length)
    ensures |Appended(a, p, length)| == length - p
    ensures forall i :: 0 <= i < length - p ==> Appended(a, p, length)[i] == a[p + i]
  {
  }

  class InfoHash {
    // public view: the bytes appended so far, and the objects used
    ghost var Contents: seq<byte>
    ghost var Repr: set<object>

    // implementation: `_contents` and `_index`
    var contents: array<byte>
    var index: int

    ghost predicate Valid()
      reads this, Repr
    {
      Repr == {this, contents} &&
      1024 <= contents.Length &&
      0 <= index <= contents.Length &&
      Contents == contents[..index] &&
      (forall j :: index <= j < contents.Length ==> contents[j] == 0)
    }

    /** A fresh accumulator: empty, with room for 1024 bytes. */
    constructor ()
      ensures Valid() && fresh(Repr)
      ensures Contents == [] && contents.Length == 1024
    {
      contents := new byte[1024](_ => 0);
      index := 0;
      Contents := [];
      Repr := {this, contents};
    }

    /** Appends one byte, doubling the buffer first when it is full. */
    method Update(c: byte)
      requires Valid()
      modifies Repr
      ensures Valid() && fresh(Repr - old(Repr))
      ensures Contents == old(Contents) + [c]
      ensures index == old(index) + 1
    {
      if index == contents.Length {
        GrowContents();
      }
      contents[index] := c;
      index := index + 1;
      Contents := Contents + [c];
    }

    /** Appends `a[position..length)`. `ok` is false where C# throws
        `IndexOutOfRangeException` part-way through the copy: `_index++`
        has then already stepped over one more slot, which still holds 0,
        so that 0 counts as appended too. The one state the model cannot
        hold is left as it was: a full buffer with a negative position and
        `length <= 0`, where the source steps `_index` past the array. */
    method UpdateBlock(a: seq<byte>, position: int, length: int) returns (ok: bool)
      requires Valid()
      modifies Repr
      ensures Valid() && fresh(Repr - old(Repr))
      ensures ok == InBounds(a, position, length)
      ensures Contents == old(Contents) + Appended(a, position, length) +
        (if ok || (length <= 0 && old(index) == old(contents.Length)) then [] else [0])
    {
      if index + length > contents.Length {
        GrowContentsAtLeast(length);
      }
      var i := CopyBlock(a, position, length);
      ok := length <= i;
      assert Appended(a, position, length) == (if i == position then [] else a[position..i]);
      if !ok && index < contents.Length {
        SkipSlot();
      }
    }

    /** The copy loop `for (i = position; i < length; i++)`, which stops
        at the first `i` where C# would throw on `array[i]`; the buffer
        already has room for the block. */
    method CopyBlock(a: seq<byte>, position: int, length: int) returns (i: int)
      requires Valid() && index + length <= contents.Length
      modifies this, contents
      ensures Valid() && Repr == old(Repr) && contents == old(contents)
      ensures i == position || (0 <= position < i <= length && i <= |a|)
      ensures !(i < length && 0 <= i < |a|)
      ensures Contents == old(Contents) + (if i == position then [] else a[position..i])
    {
      i := position;
      while i < length && 0 <= i < |a|
        invariant Repr == old(Repr) && contents == old(contents)
        invariant i == position || (0 <= position < i <= length && i <= |a|)
        invariant old(index) <= index <= contents.Length && old(index) + length <= contents.Length
        invariant index == old(index) + (i - position)
        invariant forall j :: index <= j < contents.Length ==> contents[j] == 0
        invariant contents[..index] == old(Contents) + (if i == position then [] else a[position..i])
        decreases length - i
      {
        contents[index] := a[i];
        index := index + 1;
        assert a[position..i + 1] == (if i == position then [] else a[position..i]) + [a[i]];
        i := i + 1;
      }
      Contents := contents[..index];
    }

    /** The `_index++` of a copy step whose read of `array[i]` threw: the
        index moves over a slot nothing was stored in, which holds 0. */
    method SkipSlot()
      requires Valid() && index < contents.Length
      modifies this
      ensures Valid() && Repr == old(Repr)
      ensures Contents == old(Contents) + [0]
    {
      assert contents[..index + 1] == contents[..index] + [0];
      index := index + 1;
      Contents := contents[..index];
    }

    /** The SHA-1 of exactly the bytes appended so far; `sha1` stands for
        `SHA1Managed.ComputeHash`, which this model does not define. */
    method Digest(sha1: seq<byte> -> seq<byte>) returns (d: seq<byte>)
      requires Valid()
      ensures d == sha1(Contents)
    {
      d := sha1(contents[..index]);
    }

    /** Doubles the capacity, keeping the appended bytes in place. */
    method GrowContents()
      requires Valid()
      modifies this
      ensures Valid() && fresh(contents) && fresh(Repr - old(Repr))
      ensures contents.Length == 2 * old(contents.Length)
      ensures Contents == old(Contents) && index == old(index)
    {
      var newArray := new byte[contents.Length * 2](_ => 0);
      forall i | 0 <= i < index {
        newArray[i] := contents[i];
      }
      contents := newArray;
      Repr := {this, contents};
    }

    /** Grows the capacity to `minLength` plus twice the old capacity, so
        that a block of `minLength` bytes fits without a second growth. */
    method GrowContentsAtLeast(minLength: int)
      requires Valid() && minLength >= 0
      modifies this
      ensures Valid() && fresh(contents) && fresh(Repr - old(Repr))
      ensures contents.Length == minLength + 2 * old(contents.Length)
      ensures index + minLength <= contents.Length
      ensures Contents == old(Contents) && index == old(index)
    {
      var newArray := new byte[minLength + contents.Length * 2](_ => 0);
      forall i | 0 <= i < index {
        newArray[i] := contents[i];
      }
      contents := newArray;
      Repr := {this, contents};
    }
  }
}
