/** Bytes as the Rust code sees them (`u8`), and byte strings written as ASCII text. */
module Bytes {

  type Byte = x: int | 0 <= x < 256

  /** The bytes of an ASCII string literal, such as Rust's `b"..."`. */
  function Ascii(s: string): (r: seq<Byte>)
    requires forall i :: 0 <= i < |s| ==> s[i] as int < 128
    ensures |r| == |s|
    ensures forall i :: 0 <= i < |s| ==> r[i] == s[i] as int
  {
    seq(|s|, i requires 0 <= i < |s| => s[i] as int)
  }
}
