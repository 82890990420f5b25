/** The network buffer of databuffer.c: one allocation divided into room at the head, the data,
    room that belongs to neither end, and room at the tail. Seen from outside it is a byte
    sequence that grows and shrinks at both ends. */
module DataBuffer {
  import opened Bytes

  class Buffer {
    var buffer: array<Byte>
    var data: nat
    var headAvail: nat
    var dataAvail: nat
    var tailAvail: nat
    var dataSize: nat

    ghost predicate Valid()
      reads this
    {
      && headAvail + dataSize + dataAvail + tailAvail == buffer.Length
      && data == headAvail
    }

    ghost function Contents(): (s: seq<Byte>)
      requires Valid()
      reads this, buffer
      ensures |s| == dataSize
    {
      buffer[headAvail..headAvail + dataSize]
    }

    /** buf_new. */
    constructor (size: nat)
      ensures Valid() && fresh(buffer) && Contents() == []
      ensures buffer.Length == dataAvail == size
    {
      buffer := new Byte[size];
      data, headAvail, dataAvail, tailAvail, dataSize := 0, 0, size, 0, 0;
    }

    /** buf_total_size. */
    function TotalSize(): nat
      reads this
    {
      headAvail + dataAvail + tailAvail + dataSize
    }

    /** memmove inside the buffer. */
    method Move(dst: nat, src: nat, n: nat)
      requires dst + n <= buffer.Length && src + n <= buffer.Length
      modifies buffer
      ensures buffer[dst..dst + n] == old(buffer[src..src + n])
      ensures forall i :: 0 <= i < buffer.Length && !(dst <= i < dst + n) ==> buffer[i] == old(buffer[i])
    {
      forall i | 0 <= i < n {
        buffer[dst + i] := buffer[src + i];
      }
      ghost var moved := old(buffer[src..src + n]);
      assert forall i :: 0 <= i < n ==> moved[i] == old(buffer[src + i]);
    }

    /** The accounting of buf_resize when the new size is smaller: room is given up in the order
        unassigned, tail, head (moving the data down), and last the end of the data. */
    method Shrink(newSize: nat)
      requires Valid() && newSize < buffer.Length
      modifies this, buffer
      ensures buffer == old(buffer) && headAvail + dataSize + dataAvail + tailAvail == newSize
      ensures dataSize == Min(newSize, old(dataSize))
      ensures buffer[headAvail..headAvail + dataSize] == old(Contents())[..dataSize]
      ensures dataAvail == old(dataAvail) - Min(old(buffer.Length) - newSize, old(dataAvail))
      ensures dataAvail > 0 ==> tailAvail == old(tailAvail)
      ensures tailAvail > 0 ==> headAvail == old(headAvail)
    {
      ghost var before := Contents();
      var rem := TotalSize() - newSize;
      if rem > dataAvail {
        rem := rem - dataAvail;
        dataAvail := 0;
      } else {
        dataAvail := dataAvail - rem;
        rem := 0;
      }
      if rem > tailAvail {
        rem := rem - tailAvail;
        tailAvail := 0;
      } else {
        tailAvail := tailAvail - rem;
        rem := 0;
      }
      rem := ShrinkHead(rem);
      // What is left never exceeds the data, so the C code's clamp to an empty buffer is not needed.
      dataSize := dataSize - rem;
      assert buffer[headAvail..headAvail + dataSize] == before[..dataSize];
    }

    /** Gives up head room and moves the data down to the room that is left. */
    method ShrinkHead(rem: nat) returns (left: nat)
      requires headAvail + dataSize <= buffer.Length
      modifies `headAvail, buffer
      ensures headAvail == old(headAvail) - Min(rem, old(headAvail)) && left == rem - Min(rem, old(headAvail))
      ensures buffer[headAvail..headAvail + dataSize] == old(buffer[headAvail..headAvail + dataSize])
    {
      if rem > headAvail {
        left := rem - headAvail;
        Move(0, headAvail, dataSize);
        headAvail := 0;
      } else {
        headAvail := headAvail - rem;
        Move(headAvail, headAvail + rem, dataSize);
        left := 0;
      }
    }

    /** realloc of the allocation. */
    method Reallocate(newSize: nat)
      requires headAvail + dataSize <= newSize && headAvail + dataSize <= buffer.Length
      modifies `buffer
      ensures fresh(buffer) && buffer.Length == newSize
      ensures buffer[headAvail..headAvail + dataSize] == old(buffer[headAvail..headAvail + dataSize])
    {
      var tmp := new Byte[newSize];
      forall i | 0 <= i < newSize && i < buffer.Length {
        tmp[i] := buffer[i];
      }
      assert tmp[headAvail..headAvail + dataSize] == buffer[headAvail..headAvail + dataSize];
      buffer := tmp;
    }

    /** buf_resize: the data is cut at its end when the new size cannot hold it and survives
        otherwise; a larger size adds unassigned room only. */
    method Resize(newSize: nat)
      requires Valid()
      modifies this, buffer
      ensures Valid() && fresh(buffer) && buffer.Length == newSize
      ensures Contents() == old(Contents())[..Min(newSize, old(dataSize))]
      ensures newSize >= old(buffer.Length) ==>
                && headAvail == old(headAvail) && tailAvail == old(tailAvail)
                && dataAvail == old(dataAvail) + newSize - old(buffer.Length)
      ensures newSize < old(buffer.Length) ==>
                && dataAvail == old(dataAvail) - Min(old(buffer.Length) - newSize, old(dataAvail))
                && (dataAvail > 0 ==> tailAvail == old(tailAvail))
                && (tailAvail > 0 ==> headAvail == old(headAvail))
    {
      var total := TotalSize();
      var more := 0;
      if newSize < total {
        Shrink(newSize);
      } else {
        more := newSize - total;
      }
      Reallocate(newSize);
      if newSize == 0 {
        data, headAvail, dataAvail, tailAvail, dataSize := 0, 0, 0, 0, 0;
        return;
      }
      dataAvail := dataAvail + more;
      data := headAvail;
    }

    /** buf_reuse. */
    method Reuse()
      requires Valid()
      modifies this
      ensures Valid() && Contents() == [] && buffer == old(buffer) && dataAvail == buffer.Length
    {
      dataAvail := TotalSize();
      headAvail, tailAvail, dataSize, data := 0, 0, 0, 0;
    }

    /** Shortfall of a reserve against one end's room and the unassigned room. */
    static function Shortfall(n: nat, avail: nat): nat {
      if n > avail then n - avail else 0
    }

    /** The part both reserves share: the room at one end does not suffice, so the missing
        `need` bytes come from the unassigned room, enlarged when it is too small. */
    method Claim(need: nat)
      requires Valid()
      modifies this, buffer
      ensures headAvail == old(headAvail) && tailAvail == old(tailAvail)
      ensures dataSize == old(dataSize) && data == headAvail
      ensures headAvail + dataSize + dataAvail + tailAvail + need == buffer.Length
      ensures buffer == old(buffer) || fresh(buffer)
      ensures buffer.Length == old(buffer.Length) + Shortfall(need, old(dataAvail))
      ensures buffer[headAvail..headAvail + dataSize] == old(Contents())
    {
      if need > dataAvail {
        Resize(TotalSize() + need - dataAvail);
        dataAvail := 0;
      } else {
        dataAvail := dataAvail - need;
      }
    }

    /** buf_reserve_begin: n bytes of unspecified content appear in front of the data. */
    method ReserveBegin(n: nat) returns (at: nat)
      requires Valid()
      modifies this, buffer
      ensures Valid() && (buffer == old(buffer) || fresh(buffer))
      ensures buffer.Length == old(buffer.Length) + Shortfall(n, old(headAvail + dataAvail))
      ensures at == headAvail && dataSize == n + old(dataSize) && Contents()[n..] == old(Contents())
      ensures tailAvail == old(tailAvail)
    {
      if headAvail >= n {
        headAvail := headAvail - n;
      } else {
        Claim(n - headAvail);
        Move(n, headAvail, dataSize);
        headAvail := 0;
      }
      data := headAvail;
      dataSize := dataSize + n;
      return headAvail;
    }

    /** buf_reserve_end: n bytes of unspecified content appear behind the data. */
    method ReserveEnd(n: nat) returns (at: nat)
      requires Valid()
      modifies this, buffer
      ensures Valid() && (buffer == old(buffer) || fresh(buffer))
      ensures buffer.Length == old(buffer.Length) + Shortfall(n, old(tailAvail + dataAvail))
      ensures at == headAvail + old(dataSize) && dataSize == old(dataSize) + n
      ensures Contents()[..old(dataSize)] == old(Contents())
      ensures headAvail == old(headAvail)
    {
      if tailAvail >= n {
        tailAvail := tailAvail - n;
      } else {
        Claim(n - tailAvail);
        tailAvail := 0;
      }
      at := headAvail + dataSize;
      dataSize := dataSize + n;
      data := headAvail;
      assert Contents()[..old(dataSize)] == buffer[headAvail..headAvail + old(dataSize)];
    }

    /** buf_insert_begin. */
    method InsertBegin(bytes: seq<Byte>)
      requires Valid()
      modifies this, buffer
      ensures Valid() && (buffer == old(buffer) || fresh(buffer))
      ensures Contents() == bytes + old(Contents())
      ensures buffer.Length == old(buffer.Length) + Shortfall(|bytes|, old(headAvail + dataAvail))
    {
      var at := ReserveBegin(|bytes|);
      ghost var whole := Contents();
      Store(at, bytes);
      forall i | 0 <= i < dataSize ensures Contents()[i] == (bytes + whole[|bytes|..])[i] {
        assert Contents()[i] == buffer[headAvail + i];
      }
      assert Contents() == bytes + whole[|bytes|..];
    }

    /** memcpy into the allocation. */
    method Store(at: nat, bytes: seq<Byte>)
      requires at + |bytes| <= buffer.Length
      modifies buffer
      ensures forall i :: 0 <= i < buffer.Length ==>
                buffer[i] == if at <= i < at + |bytes| then bytes[i - at] else old(buffer[i])
    {
      forall i | 0 <= i < |bytes| {
        buffer[at + i] := bytes[i];
      }
    }

    /** buf_insert_end. */
    method InsertEnd(bytes: seq<Byte>)
      requires Valid()
      modifies this, buffer
      ensures Valid() && (buffer == old(buffer) || fresh(buffer))
      ensures Contents() == old(Contents()) + bytes
      ensures buffer.Length == old(buffer.Length) + Shortfall(|bytes|, old(tailAvail + dataAvail))
    {
      var at := ReserveEnd(|bytes|);
      ghost var n, whole := dataSize - |bytes|, Contents();
      Store(at, bytes);
      forall i | 0 <= i < dataSize ensures Contents()[i] == (whole[..n] + bytes)[i] {
        assert Contents()[i] == buffer[headAvail + i];
      }
      assert Contents() == whole[..n] + bytes;
    }

    /** buf_remove_begin. */
    method RemoveBegin(n: nat)
      requires Valid()
      modifies this
      ensures Valid() && buffer == old(buffer)
      ensures Contents() == old(Contents())[Min(n, old(dataSize))..]
      ensures dataAvail == old(dataAvail) && tailAvail == old(tailAvail)
    {
      if n < dataSize {
        headAvail := headAvail + n;
        dataSize := dataSize - n;
      } else {
        headAvail := headAvail + dataSize;
        dataSize := 0;
      }
      data := headAvail;
    }

    /** buf_remove_end. */
    method RemoveEnd(n: nat)
      requires Valid()
      modifies this
      ensures Valid() && buffer == old(buffer)
      ensures Contents() == old(Contents())[..old(dataSize) - Min(n, old(dataSize))]
      ensures dataAvail == old(dataAvail) && headAvail == old(headAvail)
    {
      if n < dataSize {
        tailAvail := tailAvail + n;
        dataSize := dataSize - n;
      } else {
        tailAvail := tailAvail + dataSize;
        dataSize := 0;
      }
    }
  }
}
