/** Byte-order conversion. */
module Endianness {
  import opened Chips

  function LittleEndian(bytes: seq<byte>): nat {
    if bytes == [] then 0
    else
      var low: nat := bytes[0];
      low + 0x100 * LittleEndian(bytes[1..])
  }

  function BigEndian(bytes: seq<byte>): nat {
    if bytes == [] then 0
    else
      var low: nat := bytes[|bytes| - 1];
      low + 0x100 * BigEndian(bytes[..|bytes| - 1])
  }

  function Reversed(s: seq<byte>): (r: seq<byte>)
    ensures |r| == |s|
    ensures forall i :: 0 <= i < |s| ==> r[i] == s[|s| - 1 - i]
  {
    seq<byte>(|s|, i requires 0 <= i < |s| => s[|s| - 1 - i])
  }

  /** Reversing the bytes turns one byte order into the other. */
  lemma {:induction false} ReversedOrder(s: seq<byte>)
    ensures LittleEndian(Reversed(s)) == BigEndian(s)
    decreases |s|
  {
    if s != [] {
      ReversedOrder(s[..|s| - 1]);
      assert Reversed(s)[1..] == Reversed(s[..|s| - 1]);
    }
  }

  lemma ReversedTwice(s: seq<byte>)
    ensures Reversed(Reversed(s)) == s
  {
  }

  /** The bytes of a number, least significant first. */
  function Bytes(n: nat, x: nat): (s: seq<byte>)
    ensures |s| == n
  {
    if n == 0 then [] else [x % 0x100] + Bytes(n - 1, x / 0x100)
  }

  lemma {:induction false} BytesOf(s: seq<byte>)
    ensures Bytes(|s|, LittleEndian(s)) == s
    decreases |s|
  {
    if s != [] {
      BytesOf(s[1..]);
    }
  }

  /** The number with its bytes in the opposite order, as an n-byte word. */
  function SwapEndian(n: nat, x: nat): nat {
    LittleEndian(Reversed(Bytes(n, x)))
  }

  /** Swapping a word loaded from big-endian bytes gives their value. */
  lemma SwapEndianLoads(s: seq<byte>)
    ensures SwapEndian(|s|, LittleEndian(s)) == BigEndian(s)
  {
    BytesOf(s);
    ReversedOrder(s);
  }

  /** Swapping twice changes nothing. */
  lemma SwapEndianTwice(s: seq<byte>)
    ensures SwapEndian(|s|, SwapEndian(|s|, LittleEndian(s))) == LittleEndian(s)
  {
    BytesOf(s);
    BytesOf(Reversed(s));
    ReversedTwice(s);
  }

  /** Reverse the first bytes of a buffer in place, from both ends inwards. */
  method SwapEndianN(data: array<byte>, length: nat)
    requires length <= data.Length
    modifies data
    ensures data[..length] == Reversed(old(data[..length])) && data[length..] == old(data[length..])
  {
    var pos: nat, left: nat := 0, length;
    while left > 1
      invariant 2 * pos + left == length <= data.Length
      invariant forall k :: 0 <= k < pos || length - pos <= k < length ==> data[k] == old(data[length - 1 - k])
      invariant forall k :: pos <= k < length - pos || length <= k < data.Length ==> data[k] == old(data[k])
    {
      var temp := data[pos];
      data[pos] := data[pos + left - 1];
      data[pos + left - 1] := temp;
      pos := pos + 1;
      left := left - 2;
    }
  }
}
