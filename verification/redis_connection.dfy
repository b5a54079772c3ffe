/** The read side of a `Connection` whose blocks are `RedisBlock2`. */
module RedisConnections {
  import opened Bytes
  import opened NetBuffers
  import opened RespPipeline
  import opened RespRoom
  import opened RespSpec
  import opened RedisParsers

  class RedisConnection {
    const session: nat
    const bufferRecv: NetBuffer
    var waitMessage: RedisBlock2?
    /** The parsers of the blocks handed to the receive event, in order. */
    ghost var posted: seq<Parser>
    ghost var repr: set<object>

    ghost predicate Valid()
      reads this, repr
    {
      && this in repr && bufferRecv in repr && bufferRecv.buffer in repr
      && bufferRecv.Valid() && bufferRecv.readPos == 0
      && (waitMessage != null ==>
            && waitMessage in repr && waitMessage.parser in repr
            && waitMessage.parser.Valid() && !waitMessage.parser.done
            && {this as object, bufferRecv, bufferRecv.buffer} !! {waitMessage as object, waitMessage.parser})
    }

    ghost function Reading(): (p: Parser)
      requires Valid()
      reads this, repr
      ensures p.Valid() && !p.done
    {
      if waitMessage == null then START else waitMessage.parser.View()
    }

    ghost function View(): (c: Client)
      requires Valid()
      reads this, repr
      ensures c.Valid()
    {
      Alive(posted, Reading(), bufferRecv.View().content)
    }

    constructor (s: nat, size: nat)
      ensures Valid() && fresh(repr) && bufferRecv.maxLen == size
      ensures View() == Alive([], START, [])
    {
      session := s;
      bufferRecv := new NetBuffer(size);
      waitMessage := null;
      posted := [];
      new;
      repr := {this, bufferRecv, bufferRecv.buffer};
    }

    /** One `parse`; `Some(true)` when it finished a reply, which is then posted. */
    method ReadMessage() returns (r: Option<bool>)
      requires Valid() && bufferRecv.HasWrite()
      modifies repr
      ensures bufferRecv.buffer == old(bufferRecv.buffer)
      ensures match Parse(old(Reading()), old(bufferRecv.View().content))
        case Failed => r.None? && posted == old(posted)
        case Step(p, rest) =>
          && Valid() && fresh(repr - old(repr)) && bufferRecv.View().content == rest
          && r == Some(p.done)
          && (if p.done then posted == old(posted) + [p] && waitMessage == null
              else posted == old(posted) && Reading() == p)
    {
      assert bufferRecv.View().Unread() == bufferRecv.View().content;
      if waitMessage == null {
        waitMessage := new RedisBlock2(session);
        repr := repr + {waitMessage, waitMessage.parser};
      }
      r := waitMessage.Recv(bufferRecv);
      if r.None? {
        return;
      }
      r := Some(waitMessage.BodyDone());
      if waitMessage.BodyDone() {
        posted := posted + [waitMessage.parser.View()];
        waitMessage := null;
      }
    }

    /**
     The bytes of `chunk` were read into the free space; false stands for an exception. What stays in the
     buffer is an unfinished line, so the buffer is full exactly when such a line fills it.
     */
    method HandleReadSome(chunk: bytes) returns (ok: bool)
      requires Valid() && bufferRecv.writePos + |chunk| <= bufferRecv.maxLen
      modifies repr
      ensures match DriveChunk(old(View()), chunk)
        case Dead(out) => !ok && posted == out
        case Alive(out, p, rest) => ok && Valid() && fresh(repr - old(repr)) && View() == Alive(out, p, rest)
      ensures ok ==> bufferRecv.maxLen == old(bufferRecv.maxLen) && LF !in bufferRecv.View().content
    {
      DriveLeavesLine(Reading(), bufferRecv.View().content + chunk);
      ghost var goal := DriveChunk(View(), chunk);
      var _ := bufferRecv.WriteData(chunk);
      ok := true;
      while bufferRecv.HasWrite()
        invariant ok && Valid() && fresh(repr - old(repr))
        invariant bufferRecv.buffer == old(bufferRecv.buffer)
        invariant goal == Drive(Reading(), bufferRecv.View().content).Posted(posted)
        decreases |bufferRecv.View().content|
      {
        var r := PostMessage(goal);
        if r.None? {
          ok := false;
          break;
        }
        if !r.value {
          break;
        }
      }
      assert ok && bufferRecv.View().content == [] ==> goal == View() by {
        assert posted + [] == posted;
      }
    }

    /** One turn of the loop, which is to end in `goal`. */
    method PostMessage(ghost goal: Client) returns (r: Option<bool>)
      requires Valid() && bufferRecv.HasWrite()
      requires goal == Drive(Reading(), bufferRecv.View().content).Posted(posted)
      modifies repr
      ensures bufferRecv.buffer == old(bufferRecv.buffer)
      ensures match r
        case None => goal == Dead(posted)
        case Some(whole) =>
          && Valid() && fresh(repr - old(repr))
          && if whole then
               && |bufferRecv.View().content| < |old(bufferRecv.View().content)|
               && goal == Drive(Reading(), bufferRecv.View().content).Posted(posted)
             else goal == View()
    {
      DriveStep(Reading(), bufferRecv.View().content, posted);
      r := ReadMessage();
    }
  }
}
