/** The volume: its block bitmap, its free-block counter and the rotating start of allocation, and the bytes
    of its blocks. */
module HfsVolume {
  import opened Bits
  import opened BlockBitmap
  import opened Extents
  import ExtentRecords

  // ----- Bitmaps as values -----

  /** The first n bits of a bitmap: block b is bit 7 - b % 8 of byte b / 8. */
  ghost function BitsOf(bytes: seq<Byte>, n: nat): (used: seq<bool>)
    requires n <= 8 * |bytes|
    ensures |used| == n
  {
    seq(n, b requires 0 <= b < n => Bit(bytes[b / 8], 7 - b % 8))
  }

  /** Changing one bit of one byte. */
  lemma BitsUpdate(bytes: seq<Byte>, n: nat, b: nat, byte: Byte, v: bool)
    requires b < n <= 8 * |bytes|
    requires forall j | 0 <= j < 8 :: Bit(byte, j) == if j == 7 - b % 8 then v else Bit(bytes[b / 8], j)
    ensures BitsOf(bytes[b / 8 := byte], n) == BitsOf(bytes, n)[b := v]
  {
    hide Bit;
    var was, now := BitsOf(bytes, n)[b := v], BitsOf(bytes[b / 8 := byte], n);
    forall c | 0 <= c < n ensures now[c] == was[c] {
      assert c / 8 == b / 8 && c % 8 == b % 8 ==> c == b;
    }
  }

  /** The number of clear bits. */
  ghost function CountFree(used: seq<bool>): nat {
    if used == [] then 0
    else CountFree(used[..|used| - 1]) + if used[|used| - 1] then 0 else 1
  }

  lemma {:induction false} CountUpdate(used: seq<bool>, b: nat, v: bool)
    requires b < |used|
    ensures CountFree(used[b := v]) + (if v then 1 else 0) == CountFree(used) + if used[b] then 1 else 0
  {
    var n := |used| - 1;
    if b == n {
      assert used[b := v][..n] == used[..n];
    } else {
      assert used[b := v][..n] == used[..n][b := v];
      CountUpdate(used[..n], b, v);
    }
  }

  lemma {:induction false} FreeBlockExists(used: seq<bool>)
    requires CountFree(used) > 0
    ensures exists f :: 0 <= f < |used| && !used[f]
  {
    if used[|used| - 1] {
      FreeBlockExists(used[..|used| - 1]);
    }
  }

  class Volume {
    const blockSize: nat
    const totalBlocks: nat
    const allocation: array<Byte>
    const image: array<Byte>
    var freeBlocks: nat
    var nextAllocation: nat
    var overflow: ExtentRecords.Tree

    ghost predicate Shape() {
      && blockSize > 0 && totalBlocks > 0 && totalBlocks <= 8 * allocation.Length
      && image.Length == totalBlocks * blockSize && allocation != image
    }

    /** The allocation bitmap. */
    ghost function Used(): (used: seq<bool>)
      requires Shape()
      reads allocation
      ensures |used| == totalBlocks
    {
      BitsOf(allocation[..], totalBlocks)
    }

    /** The free-block count is right, the last block (which holds the alternate volume header) is
        reserved, and allocation starts inside the volume. */
    ghost predicate Valid()
      reads this`freeBlocks, this`nextAllocation, allocation
    {
      Shape() && freeBlocks == CountFree(Used()) && Used()[totalBlocks - 1] && nextAllocation < totalBlocks
    }

    method IsBlockUsed(block: nat) returns (used: bool)
      requires Shape() && block < totalBlocks
      ensures used == Used()[block]
    {
      var byte := allocation[block / 8];
      MaskTest(byte, 7 - block % 8);
      used := And(byte, Shl(1, 7 - block % 8)) != 0;
    }

    method SetBlockUsed(block: nat, used: bool)
      requires Shape() && block < totalBlocks
      modifies allocation
      ensures Used() == old(Used())[block := used]
    {
      hide Or, And, Shl;
      ghost var bytes := allocation[..];
      var byte, k := allocation[block / 8], 7 - block % 8;
      if used {
        SetBit(byte, k);
        allocation[block / 8] := Or(byte, Shl(1, k));
      } else {
        ClearBit(byte, k);
        allocation[block / 8] := And(byte, 255 - Shl(1, k));
      }
      ghost var byte' := allocation[block / 8];
      assert bytes[block / 8] == byte;
      assert forall j | 0 <= j < 8 :: Bit(byte', j) == if j == k then used else Bit(byte, j);
      BitsUpdate(bytes, totalBlocks, block, byte', used);
      assert allocation[..] == bytes[block / 8 := allocation[block / 8]];
    }

    /** Writes bytes to the image. */
    method WriteImage(offset: nat, data: seq<Byte>)
      requires offset + |data| <= image.Length
      modifies image
      ensures image[..] == Overwrite(old(image[..]), offset, data)
    {
      var i := 0;
      while i < |data|
        invariant 0 <= i <= |data|
        invariant image[..offset] == old(image[..offset])
        invariant image[offset..offset + i] == data[..i]
        invariant image[offset + i..] == old(image[offset + i..])
      {
        assert old(image[offset + i..])[1..] == old(image[offset + i + 1..]);
        image[offset + i] := data[i];
        i := i + 1;
      }
      assert image[..] == image[..offset] + image[offset..offset + |data|] + image[offset + |data|..];
    }

    /** Reads bytes of the image into a buffer. */
    method ReadImage(offset: nat, n: nat, buffer: array<Byte>, at: nat)
      requires offset + n <= image.Length && at + n <= buffer.Length && buffer != image
      modifies buffer
      ensures buffer[..] == Overwrite(old(buffer[..]), at, image[offset..offset + n])
    {
      var i := 0;
      while i < n
        invariant 0 <= i <= n
        invariant forall j | 0 <= j < buffer.Length ::
          buffer[j] == if at <= j < at + i then image[offset + (j - at)] else old(buffer[j])
      {
        buffer[at + i] := image[offset + i];
        i := i + 1;
      }
    }
  }
}
