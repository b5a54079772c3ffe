/** The read side of `Connection`: chunks come in, finished blocks are posted. */
module Connections {
  import opened Bytes
  import opened FrameSpec
  import opened NetBuffers
  import opened Blocks

  /** What one attempt to read a message came to. */
  datatype Reading = Unreadable | Pending | Finished(payload: bytes)

  class Connection {
    const session: nat
    var bufferRecv: NetBuffer
    var waitMessage: NetBlock?
    /** The payloads of the blocks handed to the receive event, in order. */
    var posted: seq<bytes>

    ghost var repr: set<object>

    ghost predicate Valid()
      reads this, repr
    {
      Framed() && (waitMessage != null ==> waitMessage.state != Done)
    }

    /** The same while the waiting block may have just been finished. */
    ghost predicate Framed()
      reads this, repr
    {
      && this in repr && bufferRecv in repr && bufferRecv.buffer in repr
      && bufferRecv.Valid() && bufferRecv.readPos == 0
      && (waitMessage != null ==>
            && waitMessage in repr && (waitMessage.data != null ==> waitMessage.data in repr)
            && waitMessage.Repr() <= repr
            && waitMessage.Receiving()
            && {this, bufferRecv, bufferRecv.buffer} !! waitMessage.Repr())
    }

    ghost function Wait(): (w: Option<Rx>)
      requires Valid()
      reads this, repr
      ensures Waiting(w)
    {
      if waitMessage == null then None else Some(waitMessage.Receiver())
    }

    ghost function View(): Conn
      requires Valid()
      reads this, repr
    {
      Live(posted, Wait(), bufferRecv.View().content)
    }

    constructor (s: nat, size: nat)
      ensures Valid() && fresh(repr) && bufferRecv.maxLen == size
      ensures View() == Live([], None, [])
    {
      session := s;
      bufferRecv := new NetBuffer(size);
      waitMessage := null;
      posted := [];
      new;
      repr := {this, bufferRecv, bufferRecv.buffer};
    }

    /** Makes a block to receive into when none is waiting. */
    method Await()
      requires Valid()
      modifies this`waitMessage, this`repr
      ensures Valid() && fresh(repr - old(repr)) && waitMessage != null && Wait() == Some(Current(old(Wait())))
    {
      if waitMessage == null {
        waitMessage := new NetBlock(session, 0);
        repr := repr + waitMessage.Repr();
      }
    }

    /** Lets the waiting block, a fresh one if there is none, read; hands it over when it is done. */
    method ReadMessage() returns (r: Reading)
      requires Valid() && bufferRecv.HasWrite()
      modifies repr
      ensures posted == old(posted) && bufferRecv == old(bufferRecv) && bufferRecv.buffer == old(bufferRecv.buffer)
      ensures match RecvHead(Current(old(Wait())), old(bufferRecv.View().content))
        case Refused => r == Unreadable
        case Got(rx, rest, _) =>
          && Valid() && fresh(repr - old(repr)) && bufferRecv.View().content == rest
          && (if rx.state.Done? then r == Finished(rx.data.value.content) && waitMessage == null
              else r == Pending && Wait() == Some(rx))
    {
      Await();
      var ok := ReadBlock();
      if !ok {
        return Unreadable;
      }
      r := HandOver();
    }

    /** One `recv` of the waiting block. */
    method ReadBlock() returns (ok: bool)
      requires Valid() && waitMessage != null
      modifies repr
      ensures posted == old(posted) && bufferRecv == old(bufferRecv) && bufferRecv.buffer == old(bufferRecv.buffer)
      ensures match RecvHead(old(waitMessage.Receiver()), old(bufferRecv.View().content))
        case Refused => !ok
        case Got(rx, rest, _) =>
          && ok && Framed() && fresh(repr - old(repr)) && bufferRecv.View().content == rest
          && waitMessage != null && waitMessage.Receiver() == rx
    {
      assert bufferRecv.View().Unread() == bufferRecv.View().content;
      var ret := waitMessage.Recv(bufferRecv);
      repr := repr + waitMessage.Repr();
      ok := ret.Some?;
      assert ok ==> bufferRecv.View().Unread() == bufferRecv.View().content;
    }

    /** A finished block is handed over, any other goes on waiting. */
    method HandOver() returns (r: Reading)
      requires Framed() && waitMessage != null
      modifies this`waitMessage
      ensures Valid()
      ensures var rx := old(waitMessage.Receiver());
        if rx.state.Done? then r == Finished(rx.data.value.content) && waitMessage == null
        else r == Pending && waitMessage == old(waitMessage)
    {
      if waitMessage.BodyDone() {
        r := Finished(waitMessage.data.buffer[..waitMessage.data.writePos]);
        waitMessage := null;
      } else {
        r := Pending;
      }
    }

    /** `bytes_transferred` bytes were read into the free space; false stands for a failed allocation. */
    method HandleReadSome(chunk: bytes) returns (ok: bool)
      requires Valid() && bufferRecv.writePos + |chunk| <= bufferRecv.maxLen
      modifies repr
      ensures match HandleRead(old(View()), chunk)
        case Broken(out) => !ok && posted == out
        case Live(out, wait, rest) => ok && Valid() && fresh(repr - old(repr)) && View() == Live(out, wait, rest)
      ensures ok ==> bufferRecv.maxLen == old(bufferRecv.maxLen) && bufferRecv.writePos < HEAD_SIZE
    {
      LessThanHeadLeft(Wait(), bufferRecv.View().content + chunk);
      var _ := bufferRecv.WriteData(chunk);
      ok := ReadMessages();
    }

    /** The read loop: message after message, until one stays incomplete. */
    method ReadMessages() returns (ok: bool)
      requires Valid()
      modifies repr
      ensures match Pump(old(Wait()), old(bufferRecv.View().content)).Posted(old(posted))
        case Broken(out) => !ok && posted == out
        case Live(out, wait, rest) => ok && Valid() && fresh(repr - old(repr)) && View() == Live(out, wait, rest)
      ensures bufferRecv == old(bufferRecv) && bufferRecv.buffer == old(bufferRecv.buffer)
    {
      ghost var goal := Pump(Wait(), bufferRecv.View().content).Posted(posted);
      ok := true;
      while bufferRecv.HasWrite()
        invariant ok && Valid() && fresh(repr - old(repr))
        invariant bufferRecv == old(bufferRecv) && bufferRecv.buffer == old(bufferRecv.buffer)
        invariant goal == Pump(Wait(), bufferRecv.View().content).Posted(posted)
        decreases |bufferRecv.View().content|
      {
        var r := PostMessage(goal);
        if r == Unreadable {
          ok := false;
          break;
        }
        if r == Pending {
          break;
        }
      }
      assert ok && bufferRecv.View().content == [] ==> goal == View() by {
        assert posted + [] == posted;
      }
    }

    /** One turn of the loop, which is to end in `goal`: a finished message is posted. */
    method PostMessage(ghost goal: Conn) returns (r: Reading)
      requires Valid() && bufferRecv.HasWrite()
      requires goal == Pump(Wait(), bufferRecv.View().content).Posted(posted)
      modifies repr
      ensures bufferRecv == old(bufferRecv) && bufferRecv.buffer == old(bufferRecv.buffer)
      ensures match r
        case Unreadable => goal == Broken(posted)
        case Pending => Valid() && fresh(repr - old(repr)) && goal == View()
        case Finished(_) =>
          && Valid() && fresh(repr - old(repr)) && |bufferRecv.View().content| < |old(bufferRecv.View().content)|
          && goal == Pump(Wait(), bufferRecv.View().content).Posted(posted)
    {
      PumpStep(Wait(), bufferRecv.View().content, posted);
      r := ReadMessage();
      if r.Finished? {
        posted := posted + [r.payload];
      }
    }
  }
}
