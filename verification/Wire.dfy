/** Bytes on the wire, and the Buffer class of src/buffer.cpp. */
module Wire {

  type byte = x: int | 0 <= x < 256

  /** `raw()[i]`: the byte array ends in a NUL. */
  function ByteAt(s: seq<byte>, i: nat): byte
    requires i <= |s|
  {
    if i < |s| then s[i] else 0
  }

  /** The first `n` elements, or all of them. */
  function Take<T>(s: seq<T>, n: nat): seq<T> {
    if n <= |s| then s[..n] else s
  }

  function Rest<T>(s: seq<T>, n: nat): seq<T> {
    if n <= |s| then s[n..] else []
  }

  /** strlen((const char *)data + from): up to the next NUL, or to the end of the buffer. */
  function CStringLength(s: seq<byte>, from: nat): (n: nat)
    requires from <= |s|
    ensures from + n <= |s|
    ensures forall i :: from <= i < from + n ==> s[i] != 0
    ensures from + n < |s| ==> s[from + n] == 0
    decreases |s| - from
  {
    if from < |s| && s[from] != 0 then 1 + CStringLength(s, from + 1) else 0
  }

  predicate NulFree(s: seq<byte>) {
    forall i :: 0 <= i < |s| ==> s[i] != 0
  }

  lemma CStringLengthIs(s: seq<byte>, from: nat, n: nat)
    requires from + n <= |s| && (forall i :: from <= i < from + n ==> s[i] != 0)
    requires from + n < |s| ==> s[from + n] == 0
    ensures CStringLength(s, from) == n
  {
  }

  class Buffer {
    var buff: seq<byte>

    constructor ()
      ensures buff == []
    {
      buff := [];
    }

    method Append(data: seq<byte>, size: nat)
      requires size <= |data|
      modifies this
      ensures buff == old(buff) + data[..size]
    {
      if size <= 0 {
        return;
      }
      buff := buff + data[..size];
    }

    /** Drop the first `size` bytes. */
    method ChopBack(size: nat)
      modifies this
      ensures buff == Rest(old(buff), size)
    {
      if size <= 0 {
        return;
      }
      buff := Rest(buff, size);
    }

    /** Move the first `size` bytes into `res`: at its end, or over what it held. */
    method Pop(res: seq<byte>, size: nat, appendVal: bool) returns (r: seq<byte>)
      modifies this
      ensures appendVal ==> r == res + Take(old(buff), size)
      ensures !appendVal ==> r == Take(old(buff), size)
      ensures buff == Rest(old(buff), size)
      ensures Take(old(buff), size) + buff == old(buff)
    {
      if appendVal {
        r := res + Take(buff, size);
      } else {
        r := Take(buff, size);
      }
      buff := Rest(buff, size);
    }

    method Size() returns (n: nat)
      ensures n == |buff|
    {
      n := |buff|;
    }
  }
}
