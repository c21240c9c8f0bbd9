/** The byte ring as the driver keeps it: one buffer changed in place, two pointers, a skip counter. */
module RingBuffer {
  import opened ByteRing
  import opened CInts
  import opened Memory

  class RingBuffer {
    const buffer: array<byte>
    var read: nat
    var write: nat
    var skipCount: u64
    var logWriteBufferIsFull: bool

    ghost function View(): Ring
      reads this, buffer
    {
      Ring(buffer[..], read, write)
    }

    constructor (size: nat)
      ensures fresh(buffer) && buffer.Length == size
      ensures Valid(View()) && Contents(View()) == [] && read == 0 && skipCount == 0
      ensures logWriteBufferIsFull
    {
      buffer := new byte[size](_ => 0);
      read, write := 0, 0;
      skipCount := 0;
      logWriteBufferIsFull := true;
    }

    /** `apt_usbtrx_ringbuffer_write`: all of `src[..size]` or nothing. */
    method Write(src: array<byte>, size: nat) returns (wsize: int)
      requires Valid(View()) && size <= src.Length && src != buffer
      modifies this`write, this`skipCount, this`logWriteBufferIsFull, buffer
      ensures View() == WriteRing(old(View()), src[..size])
      ensures wsize == if Accepts(old(View()), src[..size]) then size else -1
      ensures skipCount == ToU64(old(skipCount) + if wsize < 0 then size else 0)
      ensures logWriteBufferIsFull == (old(logWriteBufferIsFull) && wsize >= 0)
    {
      if size == 0 {
        return 0;
      }
      var pread, pwrite, end, skip := read, write, buffer.Length, 0;
      if pread <= pwrite {
        if pwrite + size <= end {
          MemCpy(buffer, pwrite, src, 0, size);
          pwrite := pwrite + size;
        } else {
          var first := end - pwrite;
          var second := size - first;
          if second < pread {
            if first > 0 {
              MemCpy(buffer, pwrite, src, 0, first);
            }
            if second > 0 {
              MemCpy(buffer, 0, src, first, second);
            }
            pwrite := second;
          } else {
            skip := size;
          }
        }
      } else {
        if pwrite + size < pread {
          MemCpy(buffer, pwrite, src, 0, size);
          pwrite := pwrite + size;
        } else {
          skip := size;
        }
      }
      write := pwrite;
      assert buffer[..] == WriteRing(old(View()), src[..size]).buf;
      if skip > 0 {
        skipCount := ToU64(skipCount + skip);
        if logWriteBufferIsFull {
          logWriteBufferIsFull := false;
        }
        return -1;
      }
      return size;
    }

    /** The part of a read up to the publication of its pointer. */
    method CopyOut(dst: array<byte>, at: nat, size: nat) returns (rsize: nat, pread: nat)
      requires Valid(View()) && at + size <= dst.Length && dst != buffer
      modifies dst
      ensures var plan := PlanRead(buffer.Length, read, write, size);
        rsize == plan.first + plan.second <= size && pread == plan.next
      ensures CopiedFrom(dst[at..at + rsize], View(), size)
      ensures forall k | 0 <= k < dst.Length && !(at <= k < at + rsize) :: dst[k] == old(dst[k])
    {
      var pwrite, end := write, buffer.Length;
      pread, rsize := read, 0;
      if pread < pwrite {
        var todo := if pread + size <= pwrite then size else pwrite - pread;
        MemCpy(dst, at, buffer, pread, todo);
        pread := pread + todo;
        rsize := todo;
      } else if pread > pwrite {
        if pread + size <= end {
          MemCpy(dst, at, buffer, pread, size);
          pread := pread + size;
          rsize := size;
        } else {
          var first := end - pread;
          var second := size - first;
          if second > pwrite {
            second := pwrite;
          }
          if first > 0 {
            MemCpy(dst, at, buffer, pread, first);
          }
          if second > 0 {
            MemCpy(dst, at + first, buffer, 0, second);
          }
          pread := second;
          rsize := first + second;
        }
      }
    }

    /** `apt_usbtrx_ringbuffer_rawread`: up to `size` bytes, stored from `dst[at]` on. */
    method RawRead(dst: array<byte>, at: nat, size: nat) returns (rsize: int)
      requires Valid(View()) && at + size <= dst.Length && dst != buffer
      modifies this`read, dst
      ensures View() == ReadRing(old(View()), size)
      ensures rsize == |BytesRead(old(View()), size)| <= size
      ensures dst[at..at + rsize] == BytesRead(old(View()), size)
      ensures forall k | 0 <= k < dst.Length && !(at <= k < at + rsize) :: dst[k] == old(dst[k])
    {
      if size == 0 {
        return 0;
      }
      var pread;
      rsize, pread := CopyOut(dst, at, size);
      CopiedIsRead(dst[at..at + rsize], View(), size);
      if rsize > 0 {
        read := pread;
      }
    }

    method IsEmpty() returns (empty: bool)
      requires Valid(View())
      ensures empty <==> Contents(View()) == []
    {
      UsedSizeIsLength(View());
      empty := read == write;
    }

    method Clear()
      modifies this`read, this`write, this`logWriteBufferIsFull
      ensures View() == Ring(buffer[..], 0, 0) && logWriteBufferIsFull
      ensures Valid(View()) && Contents(View()) == []
    {
      read := 0;
      write := 0;
      logWriteBufferIsFull := true;
    }

    method GetUsedSize() returns (used: int)
      requires Valid(View())
      ensures used == |Contents(View())|
    {
      UsedSizeIsLength(View());
      used := if write >= read then write - read else write + (buffer.Length - read);
    }

    method GetFreeSize() returns (free: int)
      requires Valid(View())
      ensures free == buffer.Length - |Contents(View())| >= 0
    {
      UsedSizeIsLength(View());
      var used := GetUsedSize();
      free := buffer.Length - used;
    }
  }
}
