/** `RedisBlock`, updated in place. */
module RedisBlocks {
  import opened Bytes
  import opened Decimal
  import opened BufferSpec
  import opened NetBuffers
  import opened FrameSpec
  import opened RespSpec
  import opened RedisBlockSpec

  /** `v` is what is unread in `buf`. */
  ghost predicate Left(buf: NetBuffer, v: bytes)
    reads buf, buf.buffer
  {
    buf.Valid() && buf.View().Unread() == v
  }

  class RedisBlock {
    const session: nat
    var state: State
    var kind: Kind
    var mutSize: nat
    var bufSize: nat
    var recvSize: nat
    var temp: bytes
    var recvList: seq<bytes>
    var data: NetBuffer?
    ghost var items: seq<Item>

    ghost function View(): Block
      reads this
    {
      Block(kind, state, mutSize, bufSize, temp, items, recvSize)
    }

    /** The list shows the values read, nulls as the sentinel. */
    ghost predicate Listed()
      reads this
    {
      recvList == Render(NONEXISTENT_KEY, items)
    }

    ghost predicate Receiving()
      reads this
    {
      Listed() && View().Valid() && state != Done
    }

    constructor (s: nat)
      ensures Receiving() && View() == FRESH_BLOCK && session == s
    {
      session := s;
      state, kind, mutSize, bufSize, recvSize := Init, NoReply, 0, 0, 0;
      temp, recvList, data := [], [], null;
      items := [];
    }

    predicate BodyDone() reads this { state == Done }

    method PushBack(content: bytes)
      requires Listed()
      modifies this`recvList, this`items
      ensures Listed() && items == old(items) + [Text(content)]
    {
      RenderSnoc(NONEXISTENT_KEY, items, Text(content));
      recvList, items := recvList + [content], items + [Text(content)];
    }

    method PushMissing()
      requires Listed()
      modifies this`recvList, this`items
      ensures Listed() && items == old(items) + [Null]
    {
      RenderSnoc(NONEXISTENT_KEY, items, Null);
      recvList, items := recvList + [NONEXISTENT_KEY], items + [Null];
    }

    /** Re-encodes the finished reply; false when an integer reply does not read as an `int`. */
    method MakeRedisBuffer() returns (ok: bool)
      requires kind != NoReply && kind != MultiBulkReply ==> recvList != []
      modifies this`data, this`recvSize
      ensures recvSize == if old(recvSize) == 0 then 1 else old(recvSize)
      ensures match MadeBuffer(kind, recvList, old(recvSize))
        case None => !ok
        case Some(d) => ok && data != null && fresh(data) && fresh(data.buffer) && data.Valid() && data.View() == d
    {
      if recvSize == 0 {
        recvSize := 1;
      }
      var made := new NetBuffer(recvSize);
      data := made;
      var _ := made.TailData(Le32(KindCode(kind)));
      ok := true;
      match kind {
        case NoReply =>
        case IntReply =>
          var v := LexicalInt(recvList[0]);
          if v.None? {
            return false;
          }
          var _ := made.TailData(LeInt(v.value));
        case MultiBulkReply =>
          var _ := made.TailData(LeInt(|recvList|));
          TailList(made);
        case _ =>
          var _ := made.TailData(recvList[0]);
      }
    }

    /** Every string of the list, behind its length. */
    method TailList(made: NetBuffer)
      requires made.Valid()
      modifies made, made.buffer
      ensures made.Valid() && (made.buffer == old(made.buffer) || fresh(made.buffer))
      ensures made.View() == TailItems(old(made.View()), recvList)
    {
      ghost var goal := TailItems(made.View(), recvList);
      for k := 0 to |recvList|
        invariant made.Valid() && (made.buffer == old(made.buffer) || fresh(made.buffer))
        invariant goal == TailItems(made.View(), recvList[k..])
      {
        assert recvList[k..][0] == recvList[k] && recvList[k..][1..] == recvList[k + 1..];
        var _ := made.TailData(LeInt(|recvList[k]|));
        var _ := made.TailData(recvList[k]);
      }
    }

    /** Reads on from `buf`, and re-encodes a reply this finishes; `None` when an exception leaves the call. */
    method Recv(buf: NetBuffer) returns (r: Option<bool>)
      requires Receiving() && buf.Valid()
      modifies this, buf, buf.buffer
      ensures buf.Valid() && buf.buffer == old(buf.buffer)
      ensures match BlockRecv(old(View()), old(buf.View().Unread()))
        case BlockFailed => r.None?
        case BlockStep(b, rest) =>
          && r == Some(b.state.Done?) && Listed() && buf.View().Unread() == rest
          && View() == b.(recvSize := recvSize) && (b.recvSize != 0 || !b.state.Done? ==> recvSize == b.recvSize)
          && (b.state.Done? ==> data != null && data.Valid() && data.View() == Made(b).value)
    {
      ghost var v := buf.View().Unread();
      ghost var left;
      r, left := Read(buf, v);
      if r == Some(true) {
        // every path that finishes a reply ends in this call
        var ok := MakeRedisBuffer();
        r := if ok then Some(true) else None;
      }
    }

    /** `recv` up to the re-encoding. */
    method Read(buf: NetBuffer, ghost v: bytes) returns (r: Option<bool>, ghost left: bytes)
      requires Receiving() && Left(buf, v)
      modifies this, buf, buf.buffer
      ensures Left(buf, left) && buf.buffer == old(buf.buffer)
      ensures match BlockRead(old(View()), v)
        case BlockFailed => r.None?
        case BlockStep(b, rest) => r == Some(b.state.Done?) && Listed() && View() == b && left == rest
    {
      left := v;
      if kind == NoReply {
        r, left := RecvFirst(buf, v);
        if r != Some(false) || kind == NoReply {
          return;
        }
      }
      if kind == BulkReply {
        r, left := RecvBulk(buf, left);
      } else {
        r, left := RecvElements(buf, left);
      }
    }

    /** The first line, and what it opens; without a whole line the type stays open. */
    method RecvFirst(buf: NetBuffer, ghost v: bytes) returns (r: Option<bool>, ghost left: bytes)
      requires Receiving() && kind == NoReply && Left(buf, v)
      modifies this, buf, buf.buffer
      ensures Left(buf, left) && buf.buffer == old(buf.buffer)
      ensures match ReadLine(old(temp), v)
        case None => r == Some(false) && Listed() && View() == old(View()).(temp := old(temp) + v) && left == []
        case Some((line, w)) =>
          left == w &&
          match BlockOpen(old(View()), line)
          case None => r.None?
          case Some(b) => r == Some(b.state.Done?) && Listed() && View() == b
    {
      var line;
      line, left := Readline(buf, v);
      if line.None? {
        return Some(false), left;
      }
      assert View() == old(View()).(temp := []);
      r := RecvType(line.value);
    }

    /** The first line decides the type; short replies are finished with it. */
    method RecvType(line: bytes) returns (r: Option<bool>)
      requires Receiving() && kind == NoReply && temp == []
      modifies this
      ensures match BlockOpen(old(View()), line)
        case None => r.None?
        case Some(b) => r == Some(b.state.Done?) && Listed() && View() == b
    {
      kind := ReplyType(line);
      match kind {
        case NoReply =>
          state := Done;
          recvSize := SIZE_OF_TYPE;
          r := Some(true);
        case StatusReply =>
          PushBack(line[1..]);
          state := Done;
          recvSize := SIZE_OF_TYPE + |recvList[0]|;
          r := Some(true);
        case ErrorReply =>
          if |line| < 4 {
            return None;
          }
          PushBack(line[4..]);
          recvSize := SIZE_OF_TYPE + |recvList[0]|;
          state := Done;
          r := Some(true);
        case IntReply =>
          PushBack(line[1..]);
          recvSize := SIZE_OF_TYPE + SIZE_OF_INT;
          state := Done;
          r := Some(true);
        case BulkReply =>
          r := RecvBulkHeader(line);
        case MultiBulkReply =>
          r := RecvCount(line);
      }
    }

    method RecvBulkHeader(line: bytes) returns (r: Option<bool>)
      requires Listed() && kind == BulkReply && state != Done && items == [] && temp == []
      requires ReplyType(line) == BulkReply
      modifies this
      ensures match BlockOpen(old(View()).(kind := NoReply), line)
        case None => r.None?
        case Some(b) => r == Some(b.state.Done?) && Listed() && View() == b
    {
      bufSize := 0;
      var size := LineNumber(line, MAX_BULK);
      if size.None? {
        return None;
      }
      recvSize := SIZE_OF_TYPE;
      if size.value == -1 {
        PushMissing();
        recvSize := recvSize + |NONEXISTENT_KEY|;
        state := Done;
        return Some(true);
      }
      bufSize := size.value + 2;
      state := Body;
      r := Some(false);
    }

    method RecvCount(line: bytes) returns (r: Option<bool>)
      requires Listed() && kind == MultiBulkReply && state != Done && items == [] && temp == []
      requires ReplyType(line) == MultiBulkReply
      modifies this
      ensures match BlockOpen(old(View()).(kind := NoReply), line)
        case None => r.None?
        case Some(b) => r == Some(b.state.Done?) && Listed() && View() == b
    {
      state := Body;
      mutSize := 0;
      var size := LineNumber(line, INT_MAX);
      if size.None? {
        return None;
      }
      recvSize := SIZE_OF_TYPE + SIZE_OF_INT;
      if size.value == -1 {
        state := Done;
        return Some(true);
      }
      mutSize := size.value;
      r := Some(false);
    }

    method RecvBulk(buf: NetBuffer, ghost v: bytes) returns (r: Option<bool>, ghost left: bytes)
      requires Receiving() && kind == BulkReply && Left(buf, v)
      modifies this, buf, buf.buffer
      ensures Left(buf, left) && buf.buffer == old(buf.buffer)
      ensures match BlockBulk(old(View()), v)
        case BlockFailed => r.None?
        case BlockStep(b, rest) => r == Some(b.state.Done?) && Listed() && View() == b && left == rest
    {
      var content;
      content, left := ReadLen(buf, bufSize, v);
      if content.None? {
        return Some(false), left;
      }
      FinishBulk(content.value);
      r := Some(true);
    }

    /** The payload is complete, with its CRLF. */
    method FinishBulk(content: bytes)
      requires Listed() && 2 <= |content| == bufSize
      modifies this`recvSize, this`recvList, this`items, this`state
      ensures Listed()
      ensures var b, t := old(View()), content[..bufSize - 2];
        View() == Finish(b.(items := b.items + [Text(t)], recvSize := b.recvSize + |t|))
    {
      var t := content[..bufSize - 2];
      recvSize := recvSize + |t|;
      PushBack(t);
      state := Done;
    }

    method RecvElements(buf: NetBuffer, ghost v: bytes) returns (r: Option<bool>, ghost left: bytes)
      requires Receiving() && kind == MultiBulkReply && Left(buf, v)
      modifies this, buf, buf.buffer
      ensures Left(buf, left) && buf.buffer == old(buf.buffer)
      ensures match BlockElements(old(View()), v)
        case BlockFailed => r.None?
        case BlockStep(b, rest) => r == Some(b.state.Done?) && Listed() && View() == b && left == rest
    {
      ghost var start := View();
      left := v;
      while true
        invariant Left(buf, left) && buf.buffer == old(buf.buffer)
        invariant Receiving() && kind == MultiBulkReply
        invariant BlockElements(View(), left) == BlockElements(start, v)
        decreases |left|
      {
        ghost var b, u := View(), left;
        r, left := RecvElement(buf, u);
        assert BlockElements(b, u) == BlockElements(start, v);
        if r != Some(true) {
          return;
        }
        if |recvList| == mutSize {
          state := Done;
          return;
        }
      }
    }

    /** One turn of the element loop; false when the bytes do not suffice. */
    method RecvElement(buf: NetBuffer, ghost v: bytes) returns (r: Option<bool>, ghost left: bytes)
      requires Receiving() && kind == MultiBulkReply && Left(buf, v)
      modifies this, buf, buf.buffer
      ensures Left(buf, left) && buf.buffer == old(buf.buffer)
      ensures match BlockElement(old(View()), v)
        case LineCut(b) => r == Some(false) && Listed() && View() == b && left == []
        case HeaderBad => r.None?
        case PayloadCut(b) => r == Some(false) && Listed() && View() == b && left == []
        case Element(b, w) => r == Some(true) && Listed() && View() == b && left == w
    {
      var line;
      line, left := Readline(buf, v);
      if line.None? {
        return Some(false), left;
      }
      state := Body;
      bufSize := 0;
      var size := LineNumber(line.value, MAX_BULK);
      if size.None? {
        return None, left;
      }
      assert View() == old(View()).(state := Body, bufSize := 0, temp := []);
      var whole;
      whole, left := RecvValue(buf, size.value, left);
      r := Some(whole);
    }

    method RecvValue(buf: NetBuffer, n: int, ghost v: bytes) returns (whole: bool, ghost left: bytes)
      requires Receiving() && kind == MultiBulkReply && temp == [] && bufSize == 0 && Left(buf, v) && -1 <= n
      modifies this, buf, buf.buffer
      ensures Left(buf, left) && buf.buffer == old(buf.buffer) && Listed()
      ensures match BlockValue(old(View()), n, v)
        case PayloadCut(b) => !whole && View() == b && left == []
        case Element(b, w) => whole && View() == b && left == w
    {
      if n == -1 {
        PushMissing();
        recvSize := recvSize + |NONEXISTENT_KEY|;
        recvSize := recvSize + SIZE_OF_INT;
        return true, v;
      }
      bufSize := n + 2;
      whole, left := RecvPayload(buf, v);
    }

    method RecvPayload(buf: NetBuffer, ghost v: bytes) returns (ok: bool, ghost left: bytes)
      requires Listed() && temp == [] && 2 <= bufSize && Left(buf, v)
      modifies this`temp, this`recvSize, this`recvList, this`items, buf, buf.buffer
      ensures Left(buf, left) && buf.buffer == old(buf.buffer) && Listed()
      ensures var n := bufSize - 2;
        if |v| < n + 2 then
          !ok && temp == v && left == [] && recvSize == old(recvSize) && items == old(items)
        else
          && ok && temp == [] && left == v[n + 2..]
          && recvSize == old(recvSize) + SIZE_OF_INT + n && items == old(items) + [Text(v[..n])]
    {
      var content;
      content, left := ReadLen(buf, bufSize, v);
      NothingKept(v, bufSize);
      if content.None? {
        return false, left;
      }
      PushElement(content.value[..bufSize - 2]);
      ok := true;
    }

    method PushElement(t: bytes)
      requires Listed()
      modifies this`recvSize, this`recvList, this`items
      ensures Listed() && items == old(items) + [Text(t)] && recvSize == old(recvSize) + SIZE_OF_INT + |t|
    {
      recvSize := recvSize + SIZE_OF_INT;
      recvSize := recvSize + |t|;
      PushBack(t);
    }

    /** Takes what has arrived of `len` bytes; the subtraction never wraps. */
    method ReadLen(buf: NetBuffer, len: nat, ghost v: bytes) returns (content: Option<bytes>, ghost left: bytes)
      requires Left(buf, v) && |temp| < len
      modifies this`temp, buf, buf.buffer
      ensures Left(buf, left) && buf.buffer == old(buf.buffer)
      ensures var need := len - |old(temp)|;
        if |v| < need then content.None? && temp == old(temp) + v && left == []
        else content == Some(old(temp) + v[..need]) && temp == [] && left == v[need..]
    {
      var toRead := buf.NeedReadLength();
      assert toRead == |v|;
      var need := len - |temp|;
      var ok := false;
      if need <= toRead {
        toRead := need;
        ok := true;
      }
      left := Take(buf, toRead, v);
      assert v[..|v|] == v;
      if ok {
        content := Some(temp);
        temp := [];
      } else {
        content := None;
      }
    }

    /** Takes the bytes through the next LF, or everything when there is none. */
    method Readline(buf: NetBuffer, ghost v: bytes) returns (line: Option<bytes>, ghost left: bytes)
      requires Left(buf, v)
      modifies this`temp, buf, buf.buffer
      ensures Left(buf, left) && buf.buffer == old(buf.buffer)
      ensures match ReadLine(old(temp), v)
        case None => line.None? && temp == old(temp) + v && left == []
        case Some((l, w)) => line == Some(l) && temp == [] && left == w
    {
      var unread := buf.Peek();
      var toRead := |unread|;
      var eol := IndexOf(unread, LF);
      if eol < |unread| {
        toRead := eol + 1;
      }
      left := Take(buf, toRead, v);
      assert unread[..|unread|] == unread;
      if eol < |unread| {
        line := Some(TrimLine(temp));
        temp := [];
      } else {
        line := None;
      }
    }

    method Take(buf: NetBuffer, n: nat, ghost v: bytes) returns (ghost left: bytes)
      requires Left(buf, v) && n <= |v|
      modifies this`temp, buf, buf.buffer
      ensures Left(buf, left) && buf.buffer == old(buf.buffer)
      ensures temp == old(temp) + v[..n] && left == v[n..]
    {
      ghost var source := buf.View();
      var bs := buf.ReadData(n);
      temp := temp + bs.value;
      buf.ClearReadBuffer();
      ReadThenCompact(source, n);
      left := v[n..];
    }
  }
}
