/** The SHA-1 digest, computed over a message that comes in chunks. */
module Sha1Stream {
  import opened Bits
  import opened Collections
  import opened Numbers
  import opened Sha1Block

  const TWO29 := 0x2000_0000

  // ----- The digest of a whole message -----

  /** The state after the first k blocks of a message. */
  ghost function Fold(m: seq<Byte>, k: nat): State
    requires 64 * k <= |m|
  {
    if k == 0 then INITIAL else Compress(Fold(m, k - 1), m[64 * (k - 1)..64 * k])
  }

  ghost function Be64(n: nat): (b: seq<Byte>)
    requires n < TWO64
    ensures |b| == 8
  {
    Be32(n / TWO32) + Be32(n % TWO32)
  }

  /** The message with a one bit, zeros up to eight bytes short of a block, and its length in bits. */
  ghost function Padded(m: seq<Byte>): (p: seq<Byte>)
    ensures |p| % 64 == 0
  {
    PaddedLength(|m|);
    m + [0x80] + Zeros((55 - |m|) % 64) + Be64(8 * |m| % TWO64)
  }

  lemma PaddedLength(n: nat)
    ensures (n + 1 + (55 - n) % 64 + 8) % 64 == 0
  {}

  ghost function Digest(m: seq<Byte>): seq<Byte> {
    Bytes(Fold(Padded(m), |Padded(m)| / 64))
  }

  ghost function Concat(chunks: seq<seq<Byte>>): seq<Byte> {
    if chunks == [] then [] else Concat(chunks[..|chunks| - 1]) + chunks[|chunks| - 1]
  }

  // ----- Steps -----

  /** More bytes behind a message leave its blocks alone. */
  lemma {:induction false} FoldMore(m: seq<Byte>, x: seq<Byte>, k: nat)
    requires 64 * k <= |m|
    ensures Fold(m + x, k) == Fold(m, k)
  {
    if k > 0 {
      FoldMore(m, x, k - 1);
      assert (m + x)[64 * (k - 1)..64 * k] == m[64 * (k - 1)..64 * k];
    }
  }

  /** The lengths of a message and of a chunk, in two words: the upper word comes out right just when the chunk is
      below 2^29 bytes, or the lower word overflows. */
  lemma CountStep(n: nat, len: nat, count0: nat, count1: nat)
    requires count0 == 8 * n % TWO32 && count1 == n / TWO29 % TWO32
    ensures var carried := if (count0 + 8 * len) % TWO32 < 8 * len then 1 else 0;
      ((count1 + carried) % TWO32 + len / TWO29) % TWO32 == (n + len) / TWO29 % TWO32
      <==> len < TWO29 || n % TWO29 + len % TWO29 >= TWO29
  {
    var a, b, c, d := n / TWO29, n % TWO29, len / TWO29, len % TWO29;
    var carry := if b + d >= TWO29 then 1 else 0;
    var carried := if (count0 + 8 * len) % TWO32 < 8 * len then 1 else 0;
    Div32(8 * n, a, 8 * b);
    LowerWord(b, c, d);
    Div29(n + len, a + c + carry, b + d - TWO29 * carry);
    UpperWord(a, c, carry, carried);
  }

  lemma Div29(x: nat, q: nat, r: nat)
    requires r < TWO29 && x == TWO29 * q + r
    ensures x / TWO29 == q && x % TWO29 == r
  {}

  /** A first chunk of 2^29 bytes: the upper word becomes two, and should be one. */
  lemma LongChunkCountsTwice()
    ensures var len := TWO29;
      var carried := if (0 + 8 * len) % TWO32 < 8 * len then 1 else 0;
      && ((0 + carried) % TWO32 + len / TWO29) % TWO32 == 2 && (0 + len) / TWO29 % TWO32 == 1
      && !(len < TWO29 || 0 % TWO29 + len % TWO29 >= TWO29)
  {
    CountStep(0, TWO29, 0, 0);
  }

  lemma LowerWord(b: nat, c: nat, d: nat)
    requires b < TWO29 && d < TWO29
    ensures var len := TWO29 * c + d;
      && (8 * b + 8 * len) % TWO32 == 8 * (b + d) % TWO32 == 8 * (b + d) - (if b + d >= TWO29 then TWO32 else 0)
      && ((8 * b + 8 * len) % TWO32 < 8 * len <==> c > 0 || b + d >= TWO29)
  {
    assert 8 * b + 8 * (TWO29 * c + d) == TWO32 * c + 8 * (b + d);
  }

  lemma UpperWord(a: nat, c: nat, carry: nat, carried: nat)
    requires carry <= 1 && carried <= 1
    ensures ((a % TWO32 + carried) % TWO32 + c) % TWO32 == (a + c + carry) % TWO32 <==> carried == carry
  {}

  class Sha1 {
    var state: State
    var count0: nat
    var count1: nat
    const buffer: array<Byte>
    ghost var message: seq<Byte>

    /** The state is that after the message's whole blocks, the rest is in the buffer, and the lower word of the
        count of bits is right. */
    ghost predicate Valid()
      reads this, buffer
    {
      && buffer.Length == 64 && count0 == 8 * |message| % TWO32
      && state == Fold(message, |message| / 64)
      && buffer[..|message| % 64] == message[64 * (|message| / 64)..]
    }

    /** So is the upper word. */
    ghost predicate CountRight()
      reads this
    {
      count1 == |message| / TWO29 % TWO32
    }

    /** The lower word tells the place in the buffer. */
    lemma Place()
      requires Valid()
      ensures count0 == 8 * |message| % TWO32 && count0 / 8 % 64 == |message| % 64
    {
      CountLow(|message|, count0);
    }

    constructor ()
      ensures Valid() && CountRight() && message == [] && fresh(buffer)
    {
      state, count0, count1, message := INITIAL, 0, 0, [];
      buffer := new Byte[64](_ => 0);
    }

    method CopyIn(at: nat, data: seq<Byte>)
      requires at + |data| <= buffer.Length
      modifies buffer
      ensures buffer[..] == old(buffer[..at]) + data + old(buffer[at + |data|..])
    {
      forall i | 0 <= i < |data| {
        buffer[at + i] := data[i];
      }
    }

    /** Adds a chunk's length to the count. */
    method Count(len: nat)
      requires 8 * len < TWO64 && count0 == 8 * |message| % TWO32
      modifies this`count0, this`count1
      ensures count0 == 8 * (|message| + len) % TWO32
      ensures old(CountRight()) ==>
        (count1 == (|message| + len) / TWO29 % TWO32 <==> len < TWO29 || |message| % TWO29 + len % TWO29 >= TWO29)
    {
      CountMore(|message|, len);
      if CountRight() {
        CountStep(|message|, len, count0, count1);
      }
      count0 := (count0 + 8 * len) % TWO32;
      if count0 < 8 * len {
        count1 := (count1 + 1) % TWO32;
      }
      count1 := (count1 + len / TWO29) % TWO32;
    }

    /** A chunk of the message. The count stays right just when the chunk is below 2^29 bytes or the lower word of
        the count overflows. */
    method Update(data: seq<Byte>)
      requires Valid() && 8 * |data| < TWO64
      modifies this`state, this`count0, this`count1, this`message, buffer
      ensures Valid() && message == old(message) + data
      ensures old(CountRight()) ==>
        (CountRight() <==> |data| < TWO29 || old(|message|) % TWO29 + |data| % TWO29 >= TWO29)
    {
      hide Fold;
      Place();
      var j := count0 / 8 % 64;
      Count(|data|);
      ghost var was := message;
      message := message + data;
      Absorb(j, data, was);
    }

    /** Fills the buffer, steps over the blocks that are whole, and keeps the rest. */
    method Absorb(j: nat, data: seq<Byte>, ghost was: seq<Byte>)
      requires buffer.Length == 64 && message == was + data && j == |was| % 64
      requires state == Fold(was, |was| / 64) && buffer[..j] == was[64 * (|was| / 64)..]
      modifies this`state, buffer
      ensures state == Fold(message, |message| / 64)
      ensures buffer[..|message| % 64] == message[64 * (|message| / 64)..]
    {
      hide Fold, Valid, CountRight;
      ghost var k := |was| / 64;
      FoldMore(was, data, k);
      var i, to := 0, j;
      if j + |data| > 63 {
        i := 64 - j;
        CopyIn(j, data[..i]);
        FirstBlock(was, data, j, buffer[..]);
        FoldStep(message, k);
        state := Transform(state, buffer[..]);
        k := k + 1;
        while i + 63 < |data|
          invariant i <= |data| && |was| + i == 64 * k <= |message|
          invariant state == Fold(message, k)
        {
          InMessage(was, data, i, i + 64);
          FoldStep(message, k);
          state := Transform(state, data[i..i + 64]);
          i := i + 64;
          k := k + 1;
        }
        to := 0;
      }
      ghost var front := buffer[..to];
      CopyIn(to, data[i..]);
      Rest(was, data, buffer[..], front, i, to, k);
    }

    /** Zeros up to eight bytes short of a block. */
    method PadZeros()
      requires Valid()
      modifies this`state, this`count0, this`count1, this`message, buffer
      ensures Valid() && message == old(message) + Zeros((56 - old(|message|)) % 64)
    {
      hide Sha1.Valid, CountRight;
      ghost var m := message;
      ghost var zeros := 0;
      assert m + Zeros(0) == m;
      Place();
      PadStep(|m|, 0);
      while count0 / 8 % 64 != 56
        invariant Valid() && message == m + Zeros(zeros) && zeros <= (56 - |m|) % 64
        invariant count0 / 8 % 64 == |message| % 64 && (|message| % 64 != 56 <==> zeros < (56 - |m|) % 64)
        decreases (56 - |m|) % 64 - zeros
      {
        Update([0]);
        assert Zeros(zeros) + [0] == Zeros(zeros + 1);
        zeros := zeros + 1;
        Place();
        PadStep(|m|, zeros);
      }
    }

    lemma Done()
      requires Valid()
      ensures state == Fold(message, |message| / 64)
    {}

    /** The digest: that of the padded message, if the count is right. */
    method Final() returns (digest: seq<Byte>)
      requires Valid()
      modifies this`state, this`count0, this`count1, this`message, buffer
      ensures message == old(message) + [0x80] + Zeros((55 - |old(message)|) % 64) + Be32(old(count1) % TWO32) + Be32(old(count0) % TWO32)
      ensures |message| % 64 == 0 && digest == Bytes(Fold(message, |message| / 64))
      ensures old(CountRight()) ==> digest == Digest(old(message))
    {
      hide Sha1.Valid, Fold, Zeros, Be32, Be64, Padded, ByteOf, Bytes;
      Place();
      ghost var m := message;
      var finalCount := Be32(count1 % TWO32) + Be32(count0);
      Update([0x80]);
      PadZeros();
      Update(finalCount);
      Done();
      WithTrailer(m, finalCount[..4], finalCount[4..]);
      digest := StateBytes(state);
      if old(CountRight()) {
        IsPadded(m);
      }
    }
  }

  lemma WithTrailer(m: seq<Byte>, hi: seq<Byte>, lo: seq<Byte>)
    requires |hi| == 4 == |lo|
    ensures var p := m + [0x80] + Zeros((56 - |m + [0x80]|) % 64) + (hi + lo);
      p == m + [0x80] + Zeros((55 - |m|) % 64) + hi + lo && |p| % 64 == 0
  {
    hide Zeros;
    PaddedLength(|m|);
    assert (56 - |m + [0x80]|) % 64 == (55 - |m|) % 64;
  }

  /** The bytes of the state, one by one. */
  method StateBytes(state: State) returns (digest: seq<Byte>)
    ensures digest == Bytes(state)
  {
    hide ByteOf;
    digest := [];
    for i := 0 to 20
      invariant digest == Bytes(state)[..i]
    {
      digest := digest + [ByteOf(WordsOf(state)[i / 4], i % 4)];
    }
  }

  /** The place in the buffer, from the lower word. */
  lemma CountLow(n: nat, count0: nat)
    requires count0 == 8 * n % TWO32
    ensures count0 / 8 % 64 == n % 64
  {
    var q, r := n / TWO29, n % TWO29;
    Div32(8 * n, q, 8 * r);
    assert count0 / 8 == r;
    assert n == 64 * (0x80_0000 * q) + r;
  }

  lemma CountMore(n: nat, len: nat)
    ensures (8 * n % TWO32 + 8 * len) % TWO32 == 8 * (n + len) % TWO32
  {
    var q, r := 8 * n / TWO32, 8 * n % TWO32;
    var x := r + 8 * len;
    Div32(8 * (n + len), q + x / TWO32, x % TWO32);
  }

  lemma PadStep(n: nat, zeros: nat)
    requires zeros <= (56 - n) % 64
    ensures (n + zeros) % 64 != 56 <==> zeros < (56 - n) % 64
  {}

  lemma IsPadded(m: seq<Byte>)
    ensures m + [0x80] + Zeros((56 - |m + [0x80]|) % 64) + (Be32(|m| / TWO29 % TWO32) + Be32(8 * |m| % TWO32)) == Padded(m)
  {
    hide Zeros, Be32, Be64;
    CountBytes(|m|);
  }

  lemma Div32(x: nat, q: nat, r: nat)
    requires r < TWO32 && x == TWO32 * q + r
    ensures x / TWO32 == q && x % TWO32 == r
  {}

  lemma Div64(x: nat, q: nat, r: nat)
    requires r < TWO64 && x == TWO64 * q + r
    ensures x / TWO64 == q && x % TWO64 == r
  {}

  lemma CountBytes(n: nat)
    ensures Be32(n / TWO29 % TWO32) + Be32(8 * n % TWO32) == Be64(8 * n % TWO64)
  {
    hide Be32;
    var q, r := n / TWO29, n % TWO29;
    var a, b := q / TWO32, q % TWO32;
    Div32(8 * n, q, 8 * r);
    Div64(8 * n, a, TWO32 * b + 8 * r);
    Div32(8 * n % TWO64, b, 8 * r);
  }

  lemma FirstBlock(was: seq<Byte>, data: seq<Byte>, j: nat, buffer: seq<Byte>)
    requires j == |was| % 64 && j + |data| > 63 && |buffer| == 64
    requires buffer == was[64 * (|was| / 64)..] + data[..64 - j]
    ensures var k := |was| / 64; 64 * (k + 1) <= |was + data| && (was + data)[64 * k..64 * (k + 1)] == buffer
  {}

  lemma FoldStep(m: seq<Byte>, k: nat)
    requires 64 * (k + 1) <= |m|
    ensures Fold(m, k + 1) == Compress(Fold(m, k), m[64 * k..64 * (k + 1)])
  {}

  lemma InMessage(was: seq<Byte>, data: seq<Byte>, a: nat, b: nat)
    requires a <= b <= |data|
    ensures (was + data)[|was| + a..|was| + b] == data[a..b]
  {}

  /** What is left is in the buffer. */
  lemma Rest(was: seq<Byte>, data: seq<Byte>, buffer: seq<Byte>, front: seq<Byte>, i: nat, to: nat, k: nat)
    requires i <= |data| && |front| == to && to + |data| - i <= |buffer| == 64 && to + |data| - i < 64
    requires buffer[..to + |data| - i] == front + data[i..]
    requires if i == 0 then 64 * k <= |was| && front == was[64 * k..] else front == [] && |was| + i == 64 * k
    ensures k == |was + data| / 64 && buffer[..|was + data| % 64] == (was + data)[64 * k..]
  {}

  /** However a message is cut into chunks below 2^29 bytes, the digest is that of the whole. */
  method Hash(chunks: seq<seq<Byte>>) returns (digest: seq<Byte>)
    requires forall c | c in chunks :: |c| < TWO29
    ensures digest == Digest(Concat(chunks))
  {
    var s := new Sha1();
    for i := 0 to |chunks|
      invariant s.Valid() && s.CountRight() && fresh(s) && fresh(s.buffer)
      invariant s.message == Concat(chunks[..i])
    {
      assert chunks[..i + 1][..i] == chunks[..i];
      assert chunks[i] in chunks;
      s.Update(chunks[i]);
    }
    assert chunks[..|chunks|] == chunks;
    digest := s.Final();
  }
}
