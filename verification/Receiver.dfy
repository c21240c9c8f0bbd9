/** The receive callback: one buffer in which the bytes of successive transfers are scanned and carried over. */
module Receiver {
  import opened CInts
  import opened Frames
  import opened Memory

  const RX_BUFFER_SIZE: nat := 1024

  /** The status codes after which a transfer is not submitted again. */
  const ENOENT := 2
  const EPIPE := 32
  const EPROTO := 71
  const ESHUTDOWN := 108

  class Receiver {
    const buffer: array<byte>
    var dataSize: nat
    var onclosing: bool
    /** The messages handed to `apt_usbtrx_dispatch_msg`, oldest first. */
    var dispatched: seq<Msg>
    /** All bytes that completed transfers have brought, in order. */
    ghost var stream: seq<byte>

    /** Whatever the transfers were, the messages dispatched and the bytes kept are those of one scan of the stream. */
    ghost predicate Valid()
      reads this, buffer
    {
      && buffer.Length == 2048 && dataSize < 82
      && Scan(stream) == Scanned(dispatched, buffer[..dataSize])
    }

    ghost function Carried(): seq<byte>
      reads this, buffer
      requires Valid()
    {
      buffer[..dataSize]
    }

    constructor ()
      ensures Valid() && fresh(buffer) && Carried() == [] && dispatched == [] && stream == [] && !onclosing
    {
      buffer := new byte[RX_BUFFER_SIZE * 2](_ => 0);
      dataSize := 0;
      onclosing := false;
      dispatched := [];
      stream := [];
    }

    /** The loop of the callback: dispatches what is complete in the first `totalSize` bytes. */
    method ScanBuffer(totalSize: nat) returns (processed: nat, remain: nat)
      requires totalSize <= buffer.Length
      modifies this`dispatched
      ensures processed + remain == totalSize
      ensures var r := Scan(buffer[..totalSize]);
        dispatched == old(dispatched) + r.msgs && buffer[processed..processed + remain] == r.rest
    {
      processed, remain := 0, totalSize;
      ghost var found: seq<Msg>, stream := [], buffer[..totalSize];
      StartScan(stream);
      while remain >= CMD_MIN_LENGTH
        invariant processed + remain == totalSize
        invariant dispatched == old(dispatched) + found
        invariant ScannedTo(stream, processed, found)
        decreases remain
      {
        var r := MsgParse(buffer, processed, remain);
        assert buffer[processed..processed + remain] == stream[processed..];
        if r.NotEnough? {
          ScanStopsHere(stream, processed, found);
          return;
        }
        if r.Failure? {
          ScanPastFailure(stream, processed, found);
          processed := processed + 1;
          remain := remain - 1;
        } else {
          ScanPastMessage(stream, processed, found, r.msg);
          found := found + [r.msg];
          dispatched := dispatched + [r.msg];
          processed := processed + FrameLength(r.msg);
          remain := remain - FrameLength(r.msg);
        }
      }
      EndScan(stream, processed, found);
      assert buffer[processed..processed + remain] == stream[processed..];
    }

    /** The bytes of a completed transfer join those carried over, and all of them are scanned. */
    method Receive(transfer: array<byte>, actualLength: nat)
      requires Valid() && transfer != buffer && actualLength <= transfer.Length && actualLength <= 1024
      modifies this`dataSize, this`dispatched, this`stream, buffer
      ensures Valid() && stream == old(stream) + transfer[..actualLength]
      ensures var r := Scan(old(Carried()) + transfer[..actualLength]);
        dispatched == old(dispatched) + r.msgs && Carried() == r.rest
    {
      ghost var all := Carried() + transfer[..actualLength];
      MemCpy(buffer, dataSize, transfer, 0, actualLength);
      var totalSize := dataSize + actualLength;
      assert buffer[..totalSize] == all;
      CarryIsShort(all);
      var processed, remain := ScanBuffer(totalSize);
      if remain > 0 {
        if processed > 0 {
          MoveToFront(buffer, processed, remain);
        }
        dataSize := remain;
      } else {
        dataSize := 0;
      }
      assert transfer[..actualLength] == old(transfer[..actualLength]);
      ScanInTwo(stream, transfer[..actualLength]);
      stream := stream + transfer[..actualLength];
    }

    /** `apt_usbtrx_read_bulk_callback`; the result says whether the transfer is submitted again. */
    method OnTransfer(status: int, transfer: array<byte>, actualLength: nat) returns (resubmit: bool)
      requires Valid() && transfer != buffer && actualLength <= transfer.Length && actualLength <= 1024
      modifies this`dataSize, this`dispatched, this`stream, buffer
      ensures Valid()
      ensures stream == old(stream) + if onclosing || status != 0 then [] else transfer[..actualLength]
      ensures resubmit <==> !onclosing && status !in {-2, -32, -71, -108}
      ensures onclosing || status != 0 ==> dispatched == old(dispatched) && Carried() == old(Carried())
      ensures !onclosing && status == 0 ==>
        var r := Scan(old(Carried()) + transfer[..actualLength]);
        dispatched == old(dispatched) + r.msgs && Carried() == r.rest
    {
      if onclosing {
        return false;
      }
      if status == 0 {
        Receive(transfer, actualLength);
        return true;
      }
      return status != -ENOENT && status != -EPIPE && status != -EPROTO && status != -ESHUTDOWN;
    }
  }
}
