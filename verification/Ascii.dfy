/** Bytes and the ASCII text decoding (`Encoding.ASCII.GetString`) the relay
    applies to what it receives. */
module Ascii {

  newtype byte = x: int | 0 <= x < 256

  /** One byte as `Encoding.ASCII` decodes it: bytes above 0x7F are not ASCII
      and become the replacement character `?`. */
  function CharOf(b: byte): (c: char)
    ensures b < 128 ==> c as int == b as int
    ensures b >= 128 ==> c == '?'
  {
    if b < 128 then (b as int) as char else '?'
  }

  /** `Encoding.ASCII.GetString(bytes)`: one character per byte. */
  function AsciiText(bs: seq<byte>): (s: string)
    ensures |s| == |bs|
    ensures forall i :: 0 <= i < |bs| ==> s[i] == CharOf(bs[i])
  {
    seq(|bs|, i requires 0 <= i < |bs| => CharOf(bs[i]))
  }
}
