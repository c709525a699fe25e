/**
 * Shared vocabulary: bytes, optional values, and the ASCII encoding that the
 * servers apply to their textual headers (Python's `str.encode("ascii")`).
 */
module Common {

  /** One octet of a request body or a response stream. */
  newtype byte = b: int | 0 <= b < 256

  datatype Option<T> = None | Some(value: T)

  /** True when every character of `s` is a 7-bit ASCII character. */
  predicate IsAscii(s: string)
  {
    forall i :: 0 <= i < |s| ==> s[i] as int < 128
  }

  /**
   * The bytes of a string, one byte per character. For ASCII text, the only
   * text the servers encode, each byte is the character's code.
   */
  function Ascii(s: string): (b: seq<byte>)
    ensures |b| == |s|
    ensures IsAscii(s) ==> forall i :: 0 <= i < |s| ==> b[i] as int == s[i] as int
  {
    seq(|s|, i requires 0 <= i < |s| => (s[i] as int % 256) as byte)
  }

  /** Encoding distributes over concatenation, so a header can be encoded piecewise. */
  lemma AsciiConcat(s: string, t: string)
    ensures Ascii(s + t) == Ascii(s) + Ascii(t)
  {
    assert forall i :: 0 <= i < |s + t| ==> (s + t)[i] == if i < |s| then s[i] else t[i - |s|];
  }
}
