/** A connection that reads replies: a fresh parser after each completion, on the bytes left over. */
module RespPipeline {
  import opened Bytes
  import opened RespSpec
  import opened RespFragments
  import opened RespGrammar
  import opened RespReplies
  import opened RespCuts

  /** The finished parsers posted so far and, unless a call failed, the parser at work and the unread bytes. */
  datatype Client =
    | Dead(out: seq<Parser>)
    | Alive(out: seq<Parser>, p: Parser, rest: bytes)
  {
    function Posted(before: seq<Parser>): Client { this.(out := before + out) }

    predicate Valid() { Alive? ==> p.Valid() && !p.done }
  }

  /** The read loop: `parse` until nothing is left or a reply stays unfinished. */
  function Drive(p: Parser, u: bytes): (c: Client)
    requires p.Valid() && !p.done
    ensures c.Valid()
    decreases |u|
  {
    if u == [] then Alive([], p, [])
    else
      match Parse(p, u)
      case Failed => Dead([])
      case Step(q, rest) => if q.done then Drive(START, rest).Posted([q]) else Alive([], q, rest)
  }

  /** The loop's last `parse` left an array element half read. */
  predicate DriveStopsMid(p: Parser, u: bytes)
    requires p.Valid() && !p.done
    decreases |u|
  {
    u != [] &&
    match Parse(p, u)
    case Failed => false
    case Step(q, rest) => if q.done then DriveStopsMid(START, rest) else StopsMid(p, u)
  }

  function DriveChunk(c: Client, chunk: bytes): (r: Client)
    requires c.Valid()
    ensures r.Valid()
  {
    if c.Dead? then c else Drive(c.p, c.rest + chunk).Posted(c.out)
  }

  function DriveAll(c: Client, chunks: seq<bytes>): Client
    requires c.Valid()
    decreases |chunks|
  {
    if chunks == [] then c else DriveAll(DriveChunk(c, chunks[0]), chunks[1..])
  }

  lemma PostedTwice(c: Client, a: seq<Parser>, b: seq<Parser>)
    ensures c.Posted(b).Posted(a) == c.Posted(a + b)
    ensures c.Posted([]) == c
  {
  }

  /** One turn of the loop, with what was posted before. */
  lemma DriveStep(p: Parser, u: bytes, before: seq<Parser>)
    requires p.Valid() && !p.done && u != []
    ensures match Parse(p, u)
      case Failed => Drive(p, u).Posted(before) == Dead(before)
      case Step(q, rest) =>
        Drive(p, u).Posted(before) ==
          if q.done then Drive(START, rest).Posted(before + [q]) else Alive(before, q, rest)
  {
    assert before + [] == before;
    match Parse(p, u)
    case Failed =>
    case Step(q, rest) =>
      if q.done {
        PostedTwice(Drive(START, rest), before, [q]);
      }
  }

  /** Reading `u` and then `more` is reading `u + more`, unless `u` ends inside an array element. */
  lemma {:induction false} DriveMore(p: Parser, u: bytes, more: bytes)
    requires p.Valid() && !p.done && !DriveStopsMid(p, u)
    ensures Drive(p, u + more) == DriveChunk(Drive(p, u), more)
    decreases |u|
  {
    if u == [] {
      assert u + more == more;
      PostedTwice(Drive(p, more), [], []);
    } else {
      ParseMore(p, u, more);
      match Parse(p, u)
      case Failed =>
      case Step(q, rest) =>
        if q.done {
          DriveMore(START, rest, more);
          var later := Drive(START, rest);
          if later.Alive? {
            PostedTwice(Drive(later.p, later.rest + more), [q], later.out);
          }
        } else {
          DriveAgain(p, q, u, rest, more);
        }
    }
  }

  lemma DriveAgain(p: Parser, q: Parser, u: bytes, rest: bytes, more: bytes)
    requires p.Valid() && !p.done && u != [] && Parse(p, u) == Step(q, rest) && !q.done
    requires Parse(p, u + more) == Parse(q, rest + more)
    ensures Drive(p, u + more) == Drive(q, rest + more).Posted([])
  {
    PostedTwice(Drive(q, rest + more), [], []);
    if rest + more == [] {
      assert Parse(p, u + more) == Step(q, []);
    } else {
      assert u + more != [];
      assert Drive(p, u + more) == Drive(q, rest + more);
    }
  }

  // ---------------------------------------------------------------- pipelining

  predicate AllWellFormed(rs: seq<Reply>)
  {
    rs == [] || (WellFormed(rs[0]) && AllWellFormed(rs[1..]))
  }

  /** The finished parsers report exactly these replies, in order. */
  predicate Reports(out: seq<Parser>, rs: seq<Reply>)
  {
    |out| == |rs| && forall k :: 0 <= k < |rs| ==> Report(out[k], rs[k])
  }

  /**
   Pipelining: of a stream that begins with well-formed replies, exactly these are posted, in order,
   and the loop is then where a fresh parser would be that had seen nothing but the tail.
   */
  lemma {:induction false} Pipelining(rs: seq<Reply>, tail: bytes) returns (out: seq<Parser>)
    requires AllWellFormed(rs)
    ensures Reports(out, rs)
    ensures Drive(START, EncodeAll(rs) + tail) == Drive(START, tail).Posted(out)
    ensures DriveStopsMid(START, EncodeAll(rs) + tail) == DriveStopsMid(START, tail)
    decreases |rs|
  {
    if rs == [] {
      out := [];
      assert [] + tail == tail;
      PostedTwice(Drive(START, tail), [], []);
    } else {
      var v := EncodeAll(rs[1..]) + tail;
      Regroup(Encode(rs[0]), EncodeAll(rs[1..]), tail);
      var later := Pipelining(rs[1..], tail);
      var first := DriveReply(rs[0], v);
      out := [first] + later;
      PostedTwice(Drive(START, tail), [first], later);
    }
  }

  lemma DriveReply(r: Reply, v: bytes) returns (first: Parser)
    requires WellFormed(r)
    ensures Report(first, r)
    ensures Drive(START, Encode(r) + v) == Drive(START, v).Posted([first])
    ensures DriveStopsMid(START, Encode(r) + v) == DriveStopsMid(START, v)
  {
    ReplyFinished(r, v);
    first := Parse(START, Encode(r) + v).p;
    assert Encode(r) + v != [];
  }

  /** A tail that is a proper prefix of a reply posts nothing and is all still there to be finished. */
  lemma PipelineTail(rs: seq<Reply>, r: Reply, tail: bytes) returns (out: seq<Parser>)
    requires AllWellFormed(rs) && WellFormed(r) && tail < Encode(r)
    ensures Reports(out, rs)
    ensures var o := Parse(START, tail);
      o.Step? && !o.p.done && Drive(START, EncodeAll(rs) + tail) == Alive(out, o.p, o.rest)
  {
    out := Pipelining(rs, tail);
    SelfDelimiting(r, tail);
    assert out + [] == out;
  }

  // ---------------------------------------------------------------- pipelining over fragments

  /** No chunk but the last ends inside an array element of the stream. */
  predicate CutsHarmless(u: bytes, chunks: seq<bytes>)
    decreases |chunks|
  {
    |chunks| <= 1 || (!DriveStopsMid(START, u + chunks[0]) && CutsHarmless(u + chunks[0], chunks[1..]))
  }

  lemma {:induction false} FragmentsDriven(u: bytes, chunks: seq<bytes>)
    requires !DriveStopsMid(START, u) && CutsHarmless(u, chunks)
    ensures DriveAll(Drive(START, u), chunks) == Drive(START, u + Concat(chunks))
    decreases |chunks|
  {
    if chunks == [] {
      assert u + [] == u;
    } else {
      DriveMore(START, u, chunks[0]);
      Regroup(u, chunks[0], Concat(chunks[1..]));
      if |chunks| == 1 {
        assert Concat(chunks[1..]) == [] && chunks[0] + [] == chunks[0];
        assert DriveAll(Drive(START, u + chunks[0]), []) == Drive(START, u + chunks[0]);
      } else {
        FragmentsDriven(u + chunks[0], chunks[1..]);
      }
    }
  }

  /** Position `k` of the stream lies inside an array element. */
  predicate StreamCutInside(rs: seq<Reply>, k: nat)
    requires AllWellFormed(rs)
  {
    rs != [] &&
    if k < |Encode(rs[0])| then CutInside(rs[0], k) else StreamCutInside(rs[1..], k - |Encode(rs[0])|)
  }

  /** Where the harmful cuts of a stream of replies are. */
  lemma {:induction false} StreamCutPosition(rs: seq<Reply>, t: bytes)
    requires AllWellFormed(rs) && t <= EncodeAll(rs)
    ensures DriveStopsMid(START, t) <==> StreamCutInside(rs, |t|)
    decreases |rs|
  {
    if rs == [] {
      assert t == [];
    } else {
      var e, later := Encode(rs[0]), EncodeAll(rs[1..]);
      if |t| < |e| {
        PrefixWithin(e, later, t);
        SelfDelimiting(rs[0], t);
        CutPosition(rs[0], t);
      } else {
        var v := PrefixBehind(e, later, t);
        StreamCutPosition(rs[1..], v);
        var _ := DriveReply(rs[0], v);
      }
    }
  }

  /** No cut, the stream's beginning being `at` bytes back, falls inside an array element. */
  predicate StreamCutsClear(rs: seq<Reply>, at: nat, chunks: seq<bytes>)
    requires AllWellFormed(rs)
    decreases |chunks|
  {
    |chunks| <= 1 || (!StreamCutInside(rs, at + |chunks[0]|) && StreamCutsClear(rs, at + |chunks[0]|, chunks[1..]))
  }

  lemma OneChunkOf(u: bytes, x: bytes, later: bytes, s: bytes)
    requires u + (x + later) <= s
    ensures (u + x) + later <= s && u + x <= s && |u + x| == |u| + |x|
  {
    Regroup(u, x, later);
    assert u + x <= (u + x) + later;
  }

  lemma StreamClearStep(rs: seq<Reply>, u: bytes, chunks: seq<bytes>)
    requires AllWellFormed(rs) && |chunks| > 1
    ensures StreamCutsClear(rs, |u|, chunks)
      <==> !StreamCutInside(rs, |u + chunks[0]|) && StreamCutsClear(rs, |u + chunks[0]|, chunks[1..])
  {
  }

  lemma {:induction false} ClearCutsHarmless(rs: seq<Reply>, u: bytes, chunks: seq<bytes>)
    requires AllWellFormed(rs) && u + Concat(chunks) <= EncodeAll(rs) && StreamCutsClear(rs, |u|, chunks)
    ensures CutsHarmless(u, chunks)
    decreases |chunks|
  {
    if |chunks| > 1 {
      var v := u + chunks[0];
      OneChunkOf(u, chunks[0], Concat(chunks[1..]), EncodeAll(rs));
      StreamClearStep(rs, u, chunks);
      StreamCutPosition(rs, v);
      ClearCutsHarmless(rs, v, chunks[1..]);
    }
  }

  lemma OneMoreReply(rs: seq<Reply>, k: nat, tail: bytes)
    requires k < |rs| && WellFormed(rs[0]) && AllWellFormed(rs[1..][..k])
    ensures AllWellFormed(rs[..k + 1])
    ensures Encode(rs[0]) + (EncodeAll(rs[1..][..k]) + tail) == EncodeAll(rs[..k + 1]) + tail
  {
    assert rs[..k + 1][1..] == rs[1..][..k];
    Regroup(Encode(rs[0]), EncodeAll(rs[1..][..k]), tail);
  }

  /** A part of a stream of replies is its first replies and a proper part of the next one. */
  lemma {:induction false} WholeReplies(rs: seq<Reply>, t: bytes) returns (k: nat, tail: bytes)
    requires AllWellFormed(rs) && t <= EncodeAll(rs)
    ensures k <= |rs| && AllWellFormed(rs[..k]) && t == EncodeAll(rs[..k]) + tail
    ensures if k == |rs| then tail == [] else WellFormed(rs[k]) && tail < Encode(rs[k])
    decreases |rs|
  {
    if rs == [] {
      k, tail := 0, [];
    } else if |t| < |Encode(rs[0])| {
      k, tail := 0, t;
      PrefixWithin(Encode(rs[0]), EncodeAll(rs[1..]), t);
      assert [] + t == t;
    } else {
      var v := PrefixBehind(Encode(rs[0]), EncodeAll(rs[1..]), t);
      var j, w := WholeReplies(rs[1..], v);
      OneMoreReply(rs, j, w);
      assert j < |rs[1..]| ==> rs[1..][j] == rs[j + 1];
      k, tail := j + 1, w;
    }
  }

  /**
   However much of a stream of replies has arrived, and however it was cut outside array elements: exactly
   the replies that are complete have been posted, in order, and the parser at work stands where a fresh
   one does that has been given the bytes of the incomplete one.
   */
  lemma PipelineOverFragments(rs: seq<Reply>, chunks: seq<bytes>) returns (k: nat, tail: bytes, out: seq<Parser>)
    requires AllWellFormed(rs) && Concat(chunks) <= EncodeAll(rs) && StreamCutsClear(rs, 0, chunks)
    ensures k <= |rs| && Concat(chunks) == EncodeAll(rs[..k]) + tail
    ensures if k == |rs| then tail == [] else tail < Encode(rs[k])
    ensures Reports(out, rs[..k])
    ensures var o := Parse(START, tail);
      o.Step? && !o.p.done && DriveAll(Alive([], START, []), chunks) == Alive(out, o.p, o.rest)
  {
    assert [] + Concat(chunks) == Concat(chunks);
    ClearCutsHarmless(rs, [], chunks);
    FragmentsDriven([], chunks);
    k, tail := WholeReplies(rs, Concat(chunks));
    if k == |rs| {
      out := Pipelining(rs[..k], tail);
      assert out + [] == out;
    } else {
      out := PipelineTail(rs[..k], rs[k], tail);
    }
  }

  predicate NoArrays(rs: seq<Reply>) { forall k :: 0 <= k < |rs| ==> !rs[k].Array? }

  lemma {:induction false} NoArraysNoHarm(rs: seq<Reply>, k: nat)
    requires AllWellFormed(rs) && NoArrays(rs)
    ensures !StreamCutInside(rs, k)
    decreases |rs|
  {
    if rs != [] {
      assert !rs[0].Array?;
      if |Encode(rs[0])| <= k {
        NoArraysNoHarm(rs[1..], k - |Encode(rs[0])|);
      }
    }
  }

  lemma {:induction false} NoArraysClear(rs: seq<Reply>, at: nat, chunks: seq<bytes>)
    requires AllWellFormed(rs) && NoArrays(rs)
    ensures StreamCutsClear(rs, at, chunks)
    decreases |chunks|
  {
    if |chunks| > 1 {
      NoArraysNoHarm(rs, at + |chunks[0]|);
      NoArraysClear(rs, at + |chunks[0]|, chunks[1..]);
    }
  }

  /** Status, error, integer, bulk and null-array replies survive every fragmentation. */
  lemma AnyFragmentation(rs: seq<Reply>, chunks: seq<bytes>) returns (k: nat, tail: bytes, out: seq<Parser>)
    requires AllWellFormed(rs) && NoArrays(rs) && Concat(chunks) <= EncodeAll(rs)
    ensures k <= |rs| && Concat(chunks) == EncodeAll(rs[..k]) + tail
    ensures if k == |rs| then tail == [] else tail < Encode(rs[k])
    ensures Reports(out, rs[..k])
    ensures var o := Parse(START, tail);
      o.Step? && !o.p.done && DriveAll(Alive([], START, []), chunks) == Alive(out, o.p, o.rest)
  {
    NoArraysClear(rs, 0, chunks);
    k, tail, out := PipelineOverFragments(rs, chunks);
  }
}
