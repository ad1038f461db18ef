/** Copying from what was already written, as decompressors do. */
module BackCopy {
  import opened Bits

  /** `len` bytes copied from `dist` back; the copy may overlap what it writes. */
  function Copy(out: seq<byte>, dist: nat, len: nat): (r: seq<byte>)
    requires 1 <= dist <= |out|
    ensures |r| == |out| + len && out <= r
    decreases len
  {
    if len == 0 then out else Copy(out + [out[|out| - dist]], dist, len - 1)
  }
}
