/**
 The contract a file keeps with whoever reads and writes it: one flat sequence
 of bytes. This is the reference the block store is measured against, in the
 terms of POSIX.1-2017 `read()`, `pwrite()` and `ftruncate()`.
 */
module FlatFile {
  import opened Common

  /** `ftruncate()`: cut, or extend with zeros. */
  function Resize(f: Bytes, length: nat): (g: Bytes)
    ensures |g| == length
    ensures forall i :: 0 <= i < length ==> g[i] == if i < |f| then f[i] else 0
  {
    if length <= |f| then f[..length] else f + Zeros(length - |f|)
  }

  /** `pwrite()`: a gap between the old end and `offset` reads as zeros. */
  function Overwrite(f: Bytes, offset: nat, bytes: Bytes): (g: Bytes)
    ensures |g| == Max(|f|, offset + |bytes|)
    ensures forall i :: 0 <= i < |g| ==>
              g[i] == if offset <= i < offset + |bytes| then bytes[i - offset]
                      else if i < |f| then f[i]
                      else 0
  {
    var g := Resize(f, Max(|f|, offset + |bytes|));
    g[..offset] + bytes + g[offset + |bytes|..]
  }

  /** `pread()`: the bytes from `offset` up to `offset + size`, as far as there are any. */
  function Slice(f: Bytes, offset: nat, size: nat): (r: Bytes)
    ensures |r| == if offset >= |f| then 0 else Min(size, |f| - offset)
    ensures forall i :: 0 <= i < |r| ==> r[i] == f[offset + i]
  {
    if offset >= |f| then [] else f[offset..Min(offset + size, |f|)]
  }
}
