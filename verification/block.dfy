/** `NetBlock`: builds a frame by pushes, or receives one from a buffer that fills bit by bit. */
module Blocks {
  import opened Bytes
  import opened BufferSpec
  import opened FrameSpec
  import opened NetBuffers

  class NetBlock {
    var head: Header
    var state: State
    var session: nat
    var data: NetBuffer?
    ghost var pushes: seq<bytes>

    function Repr(): set<object>
      reads this, data
    {
      if data == null then {this} else var d: object := data; {this, d, data.buffer}
    }

    ghost predicate Valid()
      reads this, data
    {
      head.Valid() && (data != null ==> data.Valid())
    }

    /** A sending block holds the bytes its pushes call for. */
    ghost predicate Sending()
      reads Repr()
    {
      Valid() && data != null && !data.locked && data.View().content == SentBytes(pushes)
    }

    /** What a receiving block stands for. */
    ghost function Receiver(): Rx
      requires Valid()
      reads this, data, Repr()
    {
      Rx(state, head, if data == null then None else Some(data.View()))
    }

    ghost predicate Receiving()
      reads Repr()
    {
      Valid() && Receiver().Valid()
    }

    /** For sending when `size` is positive; the read loop makes blocks of size 0 to receive into. */
    constructor (s: nat, size: nat)
      ensures Valid() && fresh(Repr())
      ensures session == s && head == ZERO_HEAD && state == Init && pushes == []
      ensures size == 0 ==> data == null && Receiving() && Receiver() == FRESH
      ensures size > 0 ==> Sending()
    {
      head, state, session, data, pushes := ZERO_HEAD, Init, s, null, [];
      new;
      if size > 0 {
        // the session id, not the size, is the first capacity
        var buffer := new NetBuffer(s);
        var _ := buffer.TailData(EncodeHead(head));
        data := buffer;
        assert [] + EncodeHead(ZERO_HEAD) == EncodeHead(ZERO_HEAD);
      }
    }

    method Push(d: bytes) returns (ok: bool)
      requires Valid()
      modifies Repr()
      ensures ok && Valid() && fresh(Repr() - old(Repr()))
      ensures data == old(data) && session == old(session) && state == old(state)
      ensures data == null ==> head == old(head) && pushes == old(pushes)
      ensures old(Sending()) ==> Sending() && pushes == old(pushes) + [d]
    {
      if data != null {
        ghost var before := data.View().content;
        ghost var sending := Sending();
        var _ := data.TailData(d);
        Encrypt();
        pushes := pushes + [d];
        if sending {
          PushedContent(old(pushes), before, d);
        }
      }
      ok := true;
    }

    /** Writes the head for the present length over the first bytes; no encryption hook is ever set. */
    method Encrypt()
      requires Valid() && data != null
      modifies this`head, data.buffer
      ensures Valid()
      ensures head == FrameHead(|data.View().content|)
      ensures head.len == |old(data.View()).content| % 0x1_0000_0000 && head.mask == 0 && head.check == 0
      ensures data.View() == old(data.View()).SetHead(EncodeHead(head))
    {
      head := Header(data.Length() % TWO_32, 0, 0);
      var _ := data.SetHead(EncodeHead(head));
    }

    static lemma PushedContent(pushes: seq<bytes>, before: bytes, d: bytes)
      requires before == SentBytes(pushes)
      ensures HEAD_SIZE <= |before|
      ensures EncodeHead(FrameHead(|before + d|)) + (before + d)[HEAD_SIZE..] == SentBytes(pushes + [d])
    {
      var e := EncodeHead(if pushes == [] then ZERO_HEAD else FrameHead(HEAD_SIZE + |Concat(pushes)|));
      var payload := Concat(pushes);
      assert before == e + payload;
      ConcatSnoc(pushes, d);
      Regroup(e, payload, d);
      CutRight(e, payload + d, 0);
    }

    /** An independent block with the same bytes, for another session. */
    method Clone(s: nat) returns (b: NetBlock)
      requires Valid() && data != null
      ensures b.Valid() && fresh(b.Repr()) && b.data != null
      ensures b.session == s && b.head == head && b.state == state
      ensures b.data.View().content == data.View().content
      ensures b.data.View().Unread() == data.View().content && !b.data.locked && b.data.maxLen == data.maxLen
      ensures Sending() ==> b.Sending() && b.pushes == pushes
    {
      b := new NetBlock(s, 0);
      b.head, b.state := head, state;
      var buffer := new NetBuffer(data.maxLen);
      var content := data.buffer[..data.writePos];
      var _ := buffer.TailData(content);
      b.data := buffer;
      b.pushes := pushes;
      assert [] + content == content;
    }

    predicate BodyDone() reads this { state == Done }

    /** `None` when the announced length leaves no body that could be allocated. */
    method Recv(buf: NetBuffer) returns (r: Option<bool>)
      requires Receiving() && buf.Valid()
      requires {buf, buf.buffer} !! Repr()
      modifies Repr(), buf, buf.buffer
      ensures buf.Valid() && buf.buffer == old(buf.buffer)
      ensures Valid() && fresh(Repr() - old(Repr())) && session == old(session)
      ensures match RecvHead(old(Receiver()), old(buf.View().Unread()))
        case Refused => r.None?
        case Got(rx, rest, ret) =>
          && r == Some(ret) && Receiving() && Receiver() == rx
          && buf.View().Unread() == rest
          && (old(buf.readPos) == 0 ==> buf.readPos == 0)
      ensures old(state) == Done ==> r == Some(false) && buf.View() == old(buf.View()) && data == old(data)
    {
      if state == Init {
        var ok := TakeHead(buf);
        if !ok {
          return Some(false);
        }
        if head.len < HEAD_SIZE {
          return None;
        }
      }
      if state != State.Body {
        return Some(false);
      }
      var ret := RecvInBody(buf);
      r := Some(ret);
    }

    /** Reads the head once its 12 bytes are there. */
    method TakeHead(buf: NetBuffer) returns (ok: bool)
      requires Valid() && buf.Valid() && {buf, buf.buffer} !! Repr()
      modifies this`head, this`state, buf, buf.buffer
      ensures buf.Valid() && buf.buffer == old(buf.buffer)
      ensures var u := old(buf.View().Unread());
        if |u| < HEAD_SIZE then !ok && head == old(head) && state == old(state) && buf.View() == old(buf.View())
        else
          && ok && head == DecodeHead(u[..HEAD_SIZE]) && state == State.Body
          && buf.View().Unread() == u[HEAD_SIZE..] && buf.readPos == 0
    {
      ghost var source := buf.View();
      var bs := buf.ReadData(HEAD_SIZE);
      if bs.None? {
        return false;
      }
      buf.ClearReadBuffer();
      assert source.Read(HEAD_SIZE).Compact().Unread() == source.Unread()[HEAD_SIZE..];
      head := DecodeHead(bs.value);
      state := State.Body;
      ok := true;
    }

    /** The present body, or the one that is about to be allocated. */
    ghost function Body(): Buf
      requires Valid()
      reads this, data, Repr()
    {
      if data == null then NewBuf(if head.len < HEAD_SIZE then 0 else head.len - HEAD_SIZE) else data.View()
    }

    ghost predicate InBody()
      reads Repr()
    {
      && Valid() && state == State.Body && HEAD_SIZE <= head.len
      && var d := Body(); !d.locked && d.readPos == 0 && HEAD_SIZE + d.cap == head.len
    }

    method RecvInBody(buf: NetBuffer) returns (ret: bool)
      requires buf.Valid() && {buf, buf.buffer} !! Repr()
      requires InBody()
      modifies Repr(), buf, buf.buffer
      ensures buf.Valid() && buf.buffer == old(buf.buffer)
      ensures Valid() && fresh(Repr() - old(Repr())) && session == old(session)
      ensures RecvBody(old(head), old(Body()), old(buf.View().Unread())) == Got(Receiver(), buf.View().Unread(), ret)
      ensures buf.readPos == 0
    {
      ghost var d, source := Body(), buf.View();
      Absorb(buf, d, source);
      ret := LockFull(buf.View().Unread());
    }

    /** Locks a full body; the block is done then. */
    method LockFull(ghost rest: bytes) returns (ret: bool)
      requires Valid() && data != null && state == State.Body
      modifies this`state, data`locked
      ensures Valid() && Got(Receiver(), rest, ret) == LockWhenFull(head, old(data.View()), rest)
    {
      if data.IsFull() {
        state := Done;
        data.SetLock();
        return head.check == 0;
      }
      ret := false;
    }

    /** Allocates the body when there is none and moves what fits of the arrived bytes into it. */
    method Absorb(buf: NetBuffer, ghost d: Buf, ghost source: Buf)
      requires InBody() && d == Body()
      requires buf.Valid() && {buf, buf.buffer} !! Repr() && source == buf.View()
      modifies this`data, data, if data == null then {} else {data.buffer}, buf, buf.buffer
      ensures buf.Valid() && buf.buffer == old(buf.buffer) && buf.readPos == 0
      ensures Valid() && data != null && fresh(Repr() - old(Repr()))
      ensures RecvBody(head, d, source.Unread()) == LockWhenFull(head, data.View(), buf.View().Unread())
    {
      if data == null {
        data := new NetBuffer(head.len - HEAD_SIZE);
      }
      var _ := buf.ReadBuffer(data);
      buf.ClearReadBuffer();
      BodyByTransfer(head, source, d);
    }
  }
}
