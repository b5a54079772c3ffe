/** `RedisParse`, updated in place, and the block that lets it read from a connection's buffer. */
module RedisParsers {
  import opened Bytes
  import opened BufferSpec
  import opened NetBuffers
  import opened FrameSpec
  import opened RespSpec
  import opened RespBytes

  /** "**missing-key**", what `RedisParse` lists for a null. */
  const MISSING_KEY: bytes := [42, 42, 109, 105, 115, 115, 105, 110, 103, 45, 107, 101, 121, 42, 42]

  /** The null bulk reply "$-1 CRLF" is listed as the text "**missing-key**". */
  lemma NullShown(rest: bytes)
    ensures var o := RespSpec.Parse(START, [36, 45, 49, 13, 10] + rest);
      o.Step? && o.p.done && o.rest == rest && Render(MISSING_KEY, o.p.items) == [Ascii("**missing-key**")]
  {
    NullBulkExample(rest);
    MissingKeyText();
    assert Render(MISSING_KEY, [Null]) == [MISSING_KEY];
  }

  lemma MissingKeyText()
    ensures MISSING_KEY == Ascii("**missing-key**")
  {
  }

  class RedisParse {
    var kind: Kind
    var multiCount: nat
    var tempMaxLen: nat
    var temp: bytes
    var recvList: seq<bytes>
    var done: bool
    ghost var items: seq<Item>

    ghost function View(): Parser
      reads this
    {
      Parser(kind, multiCount, tempMaxLen, temp, items, done)
    }

    ghost predicate Valid()
      reads this
    {
      View().Valid() && recvList == Render(MISSING_KEY, items)
    }

    constructor ()
      ensures Valid() && View() == START
    {
      kind, multiCount, tempMaxLen, temp, recvList, done := NoReply, 0, 0, [], [], false;
      items := [];
    }

    /** Reads on in `buf` from `readPos`; `None` when an exception leaves the call. */
    method Parse(buf: bytes, readPos: nat) returns (r: Option<bool>, pos: nat)
      requires Valid() && (readPos < |buf| || readPos == |buf| == 0)
      modifies this
      ensures match RespSpec.Parse(old(View()), buf[readPos..])
        case Failed => r.None?
        case Step(p, rest) =>
          && Valid() && View() == p && r == Some(p.done || buf == [])
          && readPos <= pos <= |buf| && buf[pos..] == rest
    {
      pos := readPos;
      if done || |buf| == 0 {
        return Some(true), pos;
      }
      if kind == NoReply {
        var typed;
        typed, pos := ParseType(buf, pos);
        if typed != Some(true) {
          return typed, pos;
        }
      }
      if !done {
        var whole;
        whole, pos := ParseBulk(buf, pos);
        if whole.None? {
          return None, pos;
        }
      }
      r := Some(done);
    }

    /** The first line decides the type; short replies are finished with it. */
    method ParseType(buf: bytes, readPos: nat) returns (r: Option<bool>, pos: nat)
      requires Valid() && kind == NoReply && !done && readPos <= |buf|
      modifies this
      ensures readPos <= pos <= |buf|
      ensures match ReadLine([], buf[readPos..])
        case None => r == Some(false) && Valid() && View() == old(View()) && pos == readPos
        case Some((line, v)) =>
          buf[pos..] == v &&
          match Open(old(View()), line)
          case None => r.None?
          case Some(p) => r == Some(true) && Valid() && View() == p
    {
      var content;
      content, pos := TakeLine(buf, readPos);
      if content.None? {
        return Some(false), pos;
      }
      var line := content.value;
      kind := ReplyType(line);
      match kind {
      case NoReply =>
        done := true;
      case ErrorReply =>
        if |line| < 4 {
          return None, pos;
        }
        PushBack(line[4..]);
        done := true;
      case BulkReply =>
        tempMaxLen := 0;
        var bulkLen := LineNumber(line, MAX_BULK);
        if bulkLen.None? {
          return None, pos;
        }
        if bulkLen.value == -1 {
          PushMissing();
          done := true;
        } else {
          tempMaxLen := bulkLen.value + 2;
          done := false;
        }
      case MultiBulkReply =>
        multiCount := 0;
        var count := LineNumber(line, INT_MAX);
        if count.None? {
          return None, pos;
        }
        if count.value == -1 {
          done := true;
        } else {
          multiCount := count.value;
          done := false;
        }
      case _ =>
        PushBack(line[1..]);
        done := true;
      }
      r := Some(true);
    }

    method PushBack(content: bytes)
      requires recvList == Render(MISSING_KEY, items)
      modifies this`recvList, this`items
      ensures items == old(items) + [Text(content)] && recvList == Render(MISSING_KEY, items)
    {
      RenderSnoc(MISSING_KEY, items, Text(content));
      recvList, items := recvList + [content], items + [Text(content)];
    }

    method PushMissing()
      requires recvList == Render(MISSING_KEY, items)
      modifies this`recvList, this`items
      ensures items == old(items) + [Null] && recvList == Render(MISSING_KEY, items)
    {
      RenderSnoc(MISSING_KEY, items, Null);
      recvList, items := recvList + [MISSING_KEY], items + [Null];
    }

    /** `parseBule`: the payload of a bulk string, or elements of an array until one is incomplete. */
    method ParseBulk(buf: bytes, readPos: nat) returns (r: Option<bool>, pos: nat)
      requires Valid() && !done && (kind == BulkReply || kind == MultiBulkReply) && readPos <= |buf|
      modifies this
      ensures readPos <= pos <= |buf|
      ensures match ReadBody(old(View()), buf[readPos..])
        case Failed => r.None?
        case Step(p, rest) => r == Some(p.done) && Valid() && View() == p && buf[pos..] == rest
    {
      if kind == BulkReply {
        r, pos := ParsePayload(buf, readPos);
      } else {
        r, pos := ParseElements(buf, readPos);
      }
    }

    method ParsePayload(buf: bytes, readPos: nat) returns (r: Option<bool>, pos: nat)
      requires Valid() && !done && kind == BulkReply && readPos <= |buf|
      modifies this
      ensures readPos <= pos <= |buf|
      ensures var o := ReadBulk(old(View()), buf[readPos..]);
        r == Some(o.p.done) && Valid() && View() == o.p && buf[pos..] == o.rest
    {
      var content;
      content, pos := TakeBytes(buf, readPos, tempMaxLen);
      if content.None? {
        return Some(false), pos;
      }
      PushBack(content.value[..tempMaxLen - 2]);
      done := true;
      r := Some(true);
    }

    method ParseElements(buf: bytes, readPos: nat) returns (r: Option<bool>, pos: nat)
      requires Valid() && !done && kind == MultiBulkReply && readPos <= |buf|
      modifies this
      ensures readPos <= pos <= |buf|
      ensures match ReadElements(old(View()), buf[readPos..])
        case Failed => r.None?
        case Step(p, rest) => r == Some(p.done) && Valid() && View() == p && buf[pos..] == rest
    {
      pos := readPos;
      ghost var start, u := View(), buf[readPos..];
      while true
        invariant readPos <= pos <= |buf|
        invariant Valid() && !done && kind == MultiBulkReply
        invariant ReadElements(View(), buf[pos..]) == ReadElements(start, u)
        decreases |buf| - pos
      {
        ghost var p, v := View(), buf[pos..];
        r, pos := ParseElement(buf, pos);
        assert ReadElements(p, v) == ReadElements(start, u);
        if r != Some(true) {
          return;
        }
        if multiCount == |recvList| {
          done := true;
          return;
        }
      }
    }

    /** One turn of the element loop; false when the bytes do not suffice. */
    method ParseElement(buf: bytes, readPos: nat) returns (r: Option<bool>, pos: nat)
      requires Valid() && !done && kind == MultiBulkReply && readPos <= |buf|
      modifies this
      ensures readPos <= pos <= |buf|
      ensures match ReadElement(old(View()), buf[readPos..])
        case NoLine => r == Some(false) && Valid() && View() == old(View()) && pos == readPos
        case BadHeader => r.None?
        case HalfRead(q) => r == Some(false) && Valid() && View() == q && buf[pos..] == []
        case Whole(q, v) => r == Some(true) && Valid() && View() == q && buf[pos..] == v && readPos < pos
    {
      var content;
      content, pos := TakeLine(buf, readPos);
      if content.None? {
        return Some(false), pos;
      }
      tempMaxLen := 0;
      var bulkLen := LineNumber(content.value, MAX_BULK);
      if bulkLen.None? {
        return None, pos;
      }
      var whole;
      whole, pos := ParseValue(buf, pos, bulkLen.value);
      r := Some(whole);
    }

    method ParseValue(buf: bytes, readPos: nat, n: int) returns (whole: bool, pos: nat)
      requires Valid() && !done && kind == MultiBulkReply && temp == [] && tempMaxLen == 0
      requires readPos <= |buf| && -1 <= n
      modifies this
      ensures readPos <= pos <= |buf| && Valid()
      ensures match ReadValue(old(View()), n, buf[readPos..])
        case HalfRead(q) => !whole && View() == q && buf[pos..] == []
        case Whole(q, v) => whole && View() == q && buf[pos..] == v
    {
      if n == -1 {
        PushMissing();
        return true, readPos;
      }
      tempMaxLen := n + 2;
      whole, pos := TakeValue(buf, readPos);
    }

    method TakeValue(buf: bytes, readPos: nat) returns (ok: bool, pos: nat)
      requires recvList == Render(MISSING_KEY, items) && temp == [] && 2 <= tempMaxLen && readPos <= |buf|
      modifies this`temp, this`recvList, this`items
      ensures readPos <= pos <= |buf| && recvList == Render(MISSING_KEY, items)
      ensures var n, v := tempMaxLen - 2, buf[readPos..];
        if |v| < n + 2 then !ok && temp == v && items == old(items) && buf[pos..] == []
        else ok && temp == [] && items == old(items) + [Text(v[..n])] && buf[pos..] == v[n + 2..]
    {
      ghost var v := buf[readPos..];
      var content;
      content, pos := TakeBytes(buf, readPos, tempMaxLen);
      NothingKept(v, tempMaxLen);
      if content.None? {
        return false, pos;
      }
      PushBack(content.value[..tempMaxLen - 2]);
      ok := true;
    }

    /** `readLine`: nothing is consumed while the line end is missing. */
    method TakeLine(buf: bytes, readPos: nat) returns (line: Option<bytes>, pos: nat)
      requires readPos <= |buf|
      modifies this`temp
      ensures readPos <= pos <= |buf|
      ensures match ReadLine(old(temp), buf[readPos..])
        case None => line.None? && temp == old(temp) && pos == readPos
        case Some((l, v)) => line == Some(l) && temp == [] && buf[pos..] == v && readPos < pos
    {
      var toRead := |buf| - readPos;
      if toRead <= 0 {
        return None, readPos;
      }
      var eol := IndexOf(buf[readPos..], LF);
      if eol == toRead {
        return None, readPos;
      }
      pos := readPos + eol + 1;
      assert buf[readPos..][..eol + 1] == buf[readPos..pos] && buf[readPos..][eol + 1..] == buf[pos..];
      temp := temp + buf[readPos..pos];
      line := Some(TrimLine(temp));
      temp := [];
    }

    /** `readLen`: what has arrived of the `len` bytes is kept aside; the subtraction never wraps. */
    method TakeBytes(buf: bytes, readPos: nat, len: nat) returns (content: Option<bytes>, pos: nat)
      requires readPos <= |buf| && |temp| < len
      modifies this`temp
      ensures readPos <= pos <= |buf|
      ensures var u, need := buf[readPos..], len - |old(temp)|;
        if |u| < need then content.None? && temp == old(temp) + u && buf[pos..] == []
        else content == Some(old(temp) + u[..need]) && temp == [] && buf[pos..] == u[need..]
    {
      var toRead := |buf| - readPos;
      if toRead <= 0 {
        assert buf[readPos..] == [] && temp + [] == temp;
        return None, readPos;
      }
      var need := len - |temp|;
      var ok := false;
      if need <= toRead {
        toRead := need;
        ok := true;
      }
      pos := readPos + toRead;
      assert buf[readPos..][..toRead] == buf[readPos..pos] && buf[readPos..][toRead..] == buf[pos..];
      temp := temp + buf[readPos..pos];
      if ok {
        content := Some(temp);
        temp := [];
      } else {
        content := None;
      }
    }
  }

  /** `RedisBlock2`: couples the parser's position to the buffer it reads from. */
  class RedisBlock2 {
    const session: nat
    const parser: RedisParse
    var state: State

    constructor (s: nat)
      ensures parser.Valid() && fresh(parser) && parser.View() == START
      ensures session == s && state == Init
    {
      session := s;
      parser := new RedisParse();
      state := Init;
    }

    predicate BodyDone() reads this { state == Done }

    /** Reads what it can and drops exactly that from `buf`; `None` when an exception leaves the call. */
    method Recv(buf: NetBuffer) returns (r: Option<bool>)
      requires parser.Valid() && buf.Valid() && {buf, buf.buffer} !! {this, parser}
      modifies this, parser, buf, buf.buffer
      ensures buf.buffer == old(buf.buffer)
      ensures match RespSpec.Parse(old(parser.View()), old(buf.View().Unread()))
        case Failed => r.None?
        case Step(p, rest) =>
          && parser.Valid() && parser.View() == p
          && r == Some(p.done || old(buf.View().Unread()) == [])
          && state == (if p.done then Done else Body)
          && buf.Valid() && buf.readPos == 0
          && buf.View().content == rest
    {
      var bs := buf.Peek();
      ghost var source := buf.View();
      var readPos;
      r, readPos := parser.Parse(bs, 0);
      assert bs[0..] == bs;
      if r.None? {
        return;
      }
      var _ := buf.ReadData(readPos);
      buf.ClearReadBuffer();
      ReadThenCompact(source, readPos);
      state := if parser.done then Done else Body;
    }
  }
}
