/** Sequences and maps, as several of the models need them. */
module Collections {
  import opened Bits

  ghost function Zeros(n: nat): (z: seq<Byte>)
    ensures |z| == n
  {
    seq(n, _ => 0)
  }

  /** A part of a part is a part. */
  lemma SliceOfSlice(s: seq<Byte>, start: nat, len: nat, o: nat, n: nat)
    requires start + len <= |s| && o + n <= len
    ensures s[start..start + len][o..o + n] == s[start + o..start + o + n]
  {
    var a, b := s[start..start + len][o..o + n], s[start + o..start + o + n];
    assert forall k | 0 <= k < n :: a[k] == b[k];
    assert |a| == |b|;
  }

  /** Insertion into a tree: a key that is there keeps its record. */
  function AddToTree<K, V>(tree: map<K, V>, key: K, record: V): map<K, V> {
    if key in tree then tree else tree[key := record]
  }
}
