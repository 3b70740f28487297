/** Bytes and the text codec of a response.  The codec stands for the
    response's content encoding; it is a pair of total functions about which
    nothing is assumed unless a lemma names a law as a hypothesis. */
module Encoding {

  newtype byte = x: int | 0 <= x < 256

  datatype Codec = Codec(decode: seq<byte> -> string, encode: string -> seq<byte>)

  /** Re-encoding decoded bytes gives the bytes back (true of a codec that
      accepts every byte sequence, such as a single-byte encoding). */
  ghost predicate RoundTrips(c: Codec) {
    forall b: seq<byte> :: c.encode(c.decode(b)) == b
  }
}
