/** `NetBuffer`: a growable byte array with a write and a read cursor, updated in place. */
module NetBuffers {
  import opened Bytes
  import opened BufferSpec

  class NetBuffer {
    var buffer: array<byte>
    var maxLen: nat
    var writePos: nat
    var readPos: nat
    var locked: bool
    ghost var copied: nat
    ghost var reallocs: nat

    ghost predicate Valid()
      reads this
    {
      buffer.Length == maxLen && readPos <= writePos <= maxLen
    }

    ghost function View(): (v: Buf)
      requires Valid()
      reads this, buffer
      ensures v.Valid()
    {
      Buf(buffer[..writePos], readPos, maxLen, locked, copied, reallocs)
    }

    constructor (len: nat)
      ensures Valid() && fresh(buffer)
      ensures View() == NewBuf(len)
    {
      buffer := new byte[len](_ => 0);
      maxLen := len;
      writePos, readPos, locked := 0, 0, false;
      copied, reallocs := 0, 0;
    }

    method SetLock()
      requires Valid()
      modifies this`locked
      ensures Valid() && View() == old(View()).(locked := true)
    {
      locked := true;
    }

    function Length(): nat
      reads this
    {
      writePos
    }

    predicate HasWrite()
      reads this
    {
      writePos > 0
    }

    predicate IsFull()
      reads this
    {
      writePos >= maxLen
    }

    function NeedReadLength(): nat
      requires Valid()
      reads this
    {
      writePos - readPos
    }

    predicate CanRead(len: nat)
      requires Valid()
      reads this
    {
      len <= NeedReadLength()
    }

    /** The bytes at `readData()`, up to the write cursor. */
    method Peek() returns (bs: bytes)
      requires Valid()
      ensures bs == View().Unread()
    {
      bs := buffer[readPos..writePos];
    }

    /** `readData(len)`: null, here `None`, when fewer bytes are left. */
    method ReadData(len: nat) returns (r: Option<bytes>)
      requires Valid()
      modifies this`readPos
      ensures Valid() && View() == old(View()).Read(len)
      ensures r == if old(View()).CanRead(len) then Some(old(View()).Unread()[..len]) else None
    {
      if !CanRead(len) {
        return None;
      }
      r := Some(buffer[readPos..readPos + len]);
      assert View().Unread()[..len] == buffer[readPos..readPos + len];
      readPos := readPos + len;
    }

    /** A socket writes `d` at `writeData()` and the cursor follows with `writeData(len)`. */
    method WriteData(d: bytes) returns (ok: bool)
      requires Valid()
      modifies this`writePos, buffer
      ensures Valid() && View() == old(View()).Fill(d)
      ensures ok <==> old(writePos) + |d| <= maxLen
    {
      if writePos + |d| > maxLen {
        return false;
      }
      forall i | 0 <= i < |d| {
        buffer[writePos + i] := d[i];
      }
      writePos := writePos + |d|;
      ok := true;
    }

    method ClearReadBuffer()
      requires Valid()
      modifies this, buffer
      ensures Valid() && buffer == old(buffer)
      ensures View() == old(View()).Compact()
    {
      forall i | 0 <= i < writePos - readPos {
        buffer[i] := buffer[readPos + i];
      }
      writePos := writePos - readPos;
      readPos := 0;
    }

    method Reset()
      requires Valid()
      modifies this, buffer
      ensures Valid() && buffer == old(buffer)
      ensures View() == old(View()).Reset()
    {
      if locked {
        return;
      }
      forall i | 0 <= i < writePos {
        buffer[i] := 0;
      }
      writePos, readPos := 0, 0;
    }

    method Resize(len: nat) returns (ok: bool)
      requires Valid()
      modifies this
      ensures Valid() && (buffer == old(buffer) || fresh(buffer))
      ensures View() == old(View()).Resize(len)
      ensures ok <==> !locked
    {
      if locked {
        return false;
      }
      if len > maxLen {
        maxLen := len * 2;
        var newBuffer := new byte[maxLen](_ => 0);
        forall i | 0 <= i < writePos {
          newBuffer[i] := buffer[i];
        }
        copied, reallocs := copied + writePos, reallocs + 1;
        buffer := newBuffer;
      }
      ok := true;
    }

    method Tail(base: bytes) returns (ok: bool)
      requires Valid()
      requires !locked ==> writePos + |base| <= maxLen
      modifies this`writePos, buffer
      ensures Valid()
      ensures View() == if locked then old(View()) else old(View()).(content := old(View()).content + base)
      ensures ok <==> !locked && base != []
    {
      if locked || |base| <= 0 {
        assert base == [] ==> buffer[..writePos] + base == buffer[..writePos];
        return false;
      }
      forall i | 0 <= i < |base| {
        buffer[writePos + i] := base[i];
      }
      writePos := writePos + |base|;
      ok := true;
    }

    method Head(base: bytes) returns (ok: bool)
      requires Valid()
      requires !locked ==> writePos + |base| <= maxLen
      modifies this`writePos, buffer
      ensures Valid()
      ensures View() == if locked then old(View()) else old(View()).(content := base + old(View()).content)
      ensures ok <==> !locked && base != []
    {
      if locked || |base| <= 0 {
        assert base == [] ==> base + buffer[..writePos] == buffer[..writePos];
        return false;
      }
      forall i | 0 <= i < writePos {
        buffer[|base| + i] := buffer[i];
      }
      forall i | 0 <= i < |base| {
        buffer[i] := base[i];
      }
      writePos := writePos + |base|;
      ok := true;
    }

    method TailData(base: bytes) returns (ok: bool)
      requires Valid()
      modifies this, buffer
      ensures Valid() && (buffer == old(buffer) || fresh(buffer))
      ensures View() == old(View()).TailData(base)
      ensures ok <==> !locked && base != []
    {
      var _ := Resize(writePos + |base|);
      ok := Tail(base);
    }

    method HeadData(base: bytes) returns (ok: bool)
      requires Valid()
      modifies this, buffer
      ensures Valid() && (buffer == old(buffer) || fresh(buffer))
      ensures View() == old(View()).HeadData(base)
      ensures ok <==> !locked && base != []
    {
      var _ := Resize(writePos + |base|);
      ok := Head(base);
    }

    /** Overwrites the first bytes; false and no change when there are too few of them. */
    method SetHead(base: bytes) returns (ok: bool)
      requires Valid()
      modifies buffer
      ensures Valid() && View() == old(View()).SetHead(base)
      ensures ok <==> !locked && |base| <= writePos
    {
      if locked {
        return false;
      }
      if |base| <= writePos {
        forall i | 0 <= i < |base| {
          buffer[i] := base[i];
        }
        return true;
      }
      return false;
    }

    /** Moves unread bytes behind `target`'s content, as many as fit there. */
    method ReadBuffer(target: NetBuffer) returns (ok: bool)
      requires Valid() && target.Valid()
      requires this != target ==> buffer != target.buffer
      modifies this`readPos, target`writePos, target.buffer
      ensures Valid() && target.Valid()
      ensures this == target ==> View() == old(View()) && !ok
      ensures this != target ==> View() == TransferSource(old(View()), old(target.View()))
      ensures this != target ==> target.View() == TransferTarget(old(View()), old(target.View()))
      ensures this != target ==>
        (ok <==> !target.locked && 0 < TransferLen(old(View()), old(target.View())))
    {
      if this == target {
        return false;
      }
      ghost var from, into := View(), target.View();
      if target.IsFull() || !HasWrite() {
        assert from.Unread()[..0] == [] && into.content + [] == into.content;
        return false;
      }
      var len := Min(writePos - readPos, target.maxLen - target.writePos);
      var p := ReadData(len);
      ok := target.Tail(p.value);
    }
  }
}
