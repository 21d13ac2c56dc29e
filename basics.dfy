/** Bytes, text and an optional value: the vocabulary shared by every other module. */
module Basics {

  /** One byte of UTF-8 text, as `source.as_bytes()` yields them. */
  newtype byte = x: int | 0 <= x < 256

  /**
    The bytes of a text, one per character. For ASCII text, the only text the templates and
    the examples contain, this is its UTF-8 encoding: each character is the byte of the same value.
  */
  function Bytes(s: string): (r: seq<byte>)
    ensures |r| == |s|
    ensures forall k :: 0 <= k < |s| && s[k] as int < 128 ==> r[k] as int == s[k] as int
  {
    seq(|s|, k requires 0 <= k < |s| => (s[k] as int % 256) as byte)
  }

  /** Encoding distributes over concatenation. */
  lemma BytesAppend(a: string, b: string)
    ensures Bytes(a + b) == Bytes(a) + Bytes(b)
  {
    assert forall k :: 0 <= k < |a + b| ==> (a + b)[k] == if k < |a| then a[k] else b[k - |a|];
  }

  datatype Option<T> = None | Some(value: T)
}
