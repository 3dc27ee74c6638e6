/** Types shared by the models of the recovery image's C sources. */
module Common {

  /** A value or its absence: a C pointer that may be NULL. */
  datatype Option<+T> = None | Some(value: T)

  /** An `unsigned char`: the target compiles `char` as unsigned (ARM). */
  type Byte = b: int | 0 <= b < 0x100

  /** The bytes of an ASCII literal. */
  function Ascii(s: string): (r: seq<Byte>)
    requires forall k :: 0 <= k < |s| ==> s[k] as int < 0x80
    ensures |r| == |s|
    ensures forall k :: 0 <= k < |s| ==> r[k] == s[k] as int
  {
    seq(|s|, k requires 0 <= k < |s| => s[k] as int)
  }
}
