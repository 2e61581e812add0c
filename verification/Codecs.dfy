/** The compression library, of which no more is known than that it gets back what it compressed. */
module Codecs {
  import opened Bits

  datatype Codec = Codec(deflate: seq<Byte> -> seq<Byte>, inflate: seq<Byte> -> seq<Byte>)

  ghost predicate Inverse(c: Codec) {
    forall s :: c.inflate(c.deflate(s)) == s
  }

  /** A library, if not a good one: it puts a byte in front. */
  ghost function OneMoreByte(): Codec {
    Codec(s => [0] + s, s => if s == [] then [] else s[1..])
  }

  lemma OneMoreByteInverse()
    ensures Inverse(OneMoreByte())
  {
    forall s: seq<Byte> ensures OneMoreByte().inflate(OneMoreByte().deflate(s)) == s {
      assert ([0] + s)[1..] == s;
    }
  }
}
