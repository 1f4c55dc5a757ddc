/** Copying bytes into part of a fixed buffer. */
module Slices {
  import opened Prelude

  /** A buffer with the bytes from `start` on replaced by `data`. */
  function Patched(whole: Bytes, start: nat, data: Bytes): (r: Bytes)
    requires start + |data| <= |whole|
    ensures |r| == |whole|
  {
    whole[..start] + data + whole[start + |data|..]
  }

  lemma PatchedNothing(whole: Bytes, start: nat)
    requires start <= |whole|
    ensures Patched(whole, start, []) == whole
  {
  }

  /** Two adjacent patches are one. */
  lemma PatchedTwice(whole: Bytes, start: nat, a: Bytes, b: Bytes)
    requires start + |a| + |b| <= |whole|
    ensures Patched(Patched(whole, start, a), start + |a|, b) == Patched(whole, start, a + b)
  {
    var mid := Patched(whole, start, a);
    assert mid[..start + |a|] == whole[..start] + a;
    assert mid[start + |a| + |b|..] == whole[start + |a| + |b|..];
  }

  lemma PatchedSlice(whole: Bytes, start: nat, data: Bytes)
    requires start + |data| <= |whole|
    ensures Patched(whole, start, data)[start..start + |data|] == data
  {
  }

  /** `copy_from_slice` into a sub-slice. */
  method WriteAt(output: array<Byte>, start: nat, data: Bytes)
    requires start + |data| <= output.Length
    modifies output
    ensures output[..] == Patched(old(output[..]), start, data)
  {
    for i := 0 to |data|
      invariant output[..start + i] == old(output[..start]) + data[..i]
      invariant forall k :: start + i <= k < output.Length ==> output[k] == old(output[k])
    {
      output[start + i] := data[i];
      assert data[..i + 1] == data[..i] + [data[i]];
      assert output[..start + i + 1] == output[..start + i] + [data[i]];
    }
    assert data[..|data|] == data && output[start + |data|..] == old(output[start + |data|..]);
    assert output[..] == output[..start + |data|] + output[start + |data|..];
  }
}
