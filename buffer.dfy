/**
 * The byte buffer the codec reads from and appends to. Its implementation
 * is not part of this model; this class keeps only what the codec uses:
 * the bytes written and not yet read. A read drops bytes from the front.
 */
module Buffers {
  import opened Wrappers
  import opened Bytes
  import opened VarInt

  class Buffer {
    /** The bytes written and not yet read. */
    var readable: seq<Byte>

    function ReadableBytes(): (n: nat)
      reads this
      ensures n == |readable|
    {
      |readable|
    }

    constructor (init: seq<Byte>)
      ensures readable == init
    {
      readable := init;
    }

    /** Appends s. */
    method Write(s: seq<Byte>)
      modifies this
      ensures readable == old(readable) + s
    {
      readable := readable + s;
    }

    /** Takes the next n bytes, or nothing at all when fewer than n are left. */
    method Read(n: nat) returns (r: Option<seq<Byte>>)
      modifies this
      ensures n <= old(|readable|) ==>
                r == Some(old(readable)[..n]) && readable == old(readable)[n..]
      ensures n > old(|readable|) ==> r == None && readable == old(readable)
    {
      if n <= |readable| {
        r := Some(readable[..n]);
        readable := readable[n..];
      } else {
        r := None;
      }
    }

    method WriteVarInt64(v: Int64)
      modifies this
      ensures readable == old(readable) + EncodeVarInt64(v)
    {
      readable := readable + EncodeVarInt64(v);
    }

    /** Takes one varint; on failure nothing is consumed. */
    method ReadVarInt64() returns (r: Option<Int64>)
      modifies this
      ensures match DecodeVarInt64(old(readable))
              case None => r == None && readable == old(readable)
              case Some((v, k)) => r == Some(v) && readable == old(readable)[k..]
    {
      match DecodeVarInt64(readable)
      case None =>
        r := None;
      case Some((v, k)) =>
        r := Some(v);
        readable := readable[k..];
    }
  }
}
