/** Copies between and within buffers. */
module Memory {
  import opened CInts

  /** `memcpy` between distinct buffers. */
  method MemCpy(dst: array<byte>, at: nat, src: array<byte>, from: nat, n: nat)
    requires dst != src && at + n <= dst.Length && from + n <= src.Length
    modifies dst
    ensures forall k | 0 <= k < dst.Length :: dst[k] == if at <= k < at + n then src[from + k - at] else old(dst[k])
  {
    forall k | at <= k < at + n {
      dst[k] := src[from + k - at];
    }
  }

  /** `memmove` to the front of a buffer. */
  method MoveToFront(buf: array<byte>, from: nat, n: nat)
    requires from + n <= buf.Length
    modifies buf
    ensures buf[..n] == old(buf[from..from + n])
  {
    forall i | 0 <= i < n {
      buf[i] := buf[from + i];
    }
  }
}
