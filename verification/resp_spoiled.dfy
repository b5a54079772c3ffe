/** Streams of replies cut inside an array element: not all of the replies are posted then. */
module RespSpoiled {
  import opened Bytes
  import opened Decimal
  import opened RespSpec
  import opened RespFragments
  import opened RespGrammar
  import opened RespElements
  import opened RespCuts
  import opened RespPipeline

  // ---------------------------------------------------------------- one call

  /** A first line that what is reported of `r` can come from. */
  predicate Resembles(line: bytes, r: Reply)
  {
    match r
    case Status(s) => |line| == |s| + 1
    case Error(s) => |line| == |s| + 1
    case Integer(n) => |line| == |PrintInt(n)| + 1
    case Bulk(item) => LineNumber(line, MAX_BULK) == Some(if item.Null? then -1 else |item.text|)
    case Array(es) => LineNumber(line, INT_MAX) == Some(|es|)
    case NullArray => LineNumber(line, INT_MAX) == Some(-1)
  }

  /** What is left of a first line of which bytes are gone does not resemble it. */
  lemma LateResemblance(r: Reply, j: nat)
    requires WellFormed(r) && 1 <= j < |FirstLine(r)|
    ensures !Resembles(TrimLine(FirstLine(r)[j..]), r)
  {
    var c, s := FirstLineIsLine(r);
    LateLine(c, s, j);
    match r
    case Bulk(item) => LateHeader(DOLLAR, if item.Null? then -1 else |item.text|, j, MAX_BULK);
    case Array(es) => LateHeader(STAR, |es|, j, INT_MAX);
    case NullArray => LateHeader(STAR, -1, j, INT_MAX);
    case _ =>
      if j <= |s| + 1 {
        TrimIsPrefix(s[j - 1..]);
      }
  }

  /** A line that resembles the first line, read where `j` bytes of the reply are gone, ends behind that line. */
  lemma LateFirstLine(r: Reply, later: bytes, j: nat, line: bytes)
    requires WellFormed(r) && 1 <= j <= |Encode(r) + later|
    requires line != [] && line[|line| - 1] == LF && line <= (Encode(r) + later)[j..]
    requires Resembles(TrimLine(line), r)
    ensures j + |line| > |FirstLine(r)|
  {
    var c, s := FirstLineIsLine(r);
    var body := Encode(r)[|FirstLine(r)|..];
    assert Encode(r) == FirstLine(r) + body;
    Regroup(FirstLine(r), body, later);
    if j + |line| <= |FirstLine(r)| {
      LineWithin(c, s, body + later, j, line);
      LateResemblance(r, j);
    }
  }

  /**
   Of the bytes `hand` that the parser at work has, or is still to get, some of `r` and what is behind it are
   gone; or what it has read is not `r`.
   */
  predicate LateOn(p: Parser, hand: bytes, r: Reply, later: bytes)
    requires WellFormed(r)
  {
    && p.Valid() && !p.done
    && match p.kind
       case NoReply => p == START && Late(hand, Encode(r) + later)
       case BulkReply =>
         r.Bulk? && r.item.Text? && p.maxLen == |r.item.text| + 2 ==>
           Late(hand, Encode(r) + later) && |hand| < p.maxLen + |later|
       case MultiBulkReply =>
         r.Array? && p.count == |r.elements| ==>
           Entries(r.elements).Some? && Behind(p, hand, r.elements, Entries(r.elements).value, later)
       case _ => true
  }

  /** Whatever becomes of `o`: if it reports `r` in the end, bytes of `later` are gone. */
  predicate LateOutcome(o: Outcome, more: bytes, r: Reply, later: bytes)
    requires WellFormed(r)
  {
    o.Step? ==>
      if o.p.done then Report(o.p, r) ==> Late(o.rest + more, later)
      else LateOn(o.p, (o.p.temp + o.rest) + more, r, later)
  }

  lemma {:induction false} ElementsCount(p: Parser, u: bytes)
    requires p.Valid() && p.kind == MultiBulkReply && !p.done
    ensures var o := ReadElements(p, u);
      o.Step? ==> o.p.count == p.count && o.p.kind == MultiBulkReply && (o.p.done ==> 1 <= |o.p.items| == p.count)
    decreases |u|
  {
    match ReadElement(p, u)
    case Whole(q, v) =>
      if |q.items| != q.count {
        ElementsCount(q, v);
      }
    case _ =>
  }

  lemma LateElements(p: Parser, u: bytes, v: bytes, r: Reply, later: bytes)
    requires WellFormed(r) && p.kind == MultiBulkReply && LateOn(p, (p.temp + u) + v, r, later)
    ensures LateOutcome(ReadElements(p, u), v, r, later)
  {
    ElementsCount(p, u);
    if r.Array? && p.count == |r.elements| {
      BehindRun(p, u, v, r.elements, Entries(r.elements).value, later);
    }
  }

  /** A payload that makes this reply has its length. */
  lemma BulkReported(p: Parser, u: bytes, r: Reply)
    requires WellFormed(r) && p.Valid() && p.kind == BulkReply && !p.done && p.maxLen - |p.temp| <= |u|
    requires Report(ReadBulk(p, u).p, r)
    ensures r.Bulk? && r.item.Text? && p.maxLen == |r.item.text| + 2
  {
    assert ReadBulk(p, u).p.items[|p.items|] == r.item;
  }

  lemma LateBulk(p: Parser, u: bytes, v: bytes, r: Reply, later: bytes)
    requires WellFormed(r) && p.kind == BulkReply && LateOn(p, (p.temp + u) + v, r, later)
    ensures LateOutcome(ReadBulk(p, u), v, r, later)
  {
    if |u| < p.maxLen - |p.temp| {
      assert (p.temp + u) + [] == p.temp + u;
    } else if Report(ReadBulk(p, u).p, r) {
      BulkReported(p, u, r);
      WholeBulkLate(p, u, v, Encode(r), later);
    }
  }

  lemma WholeBulkLate(p: Parser, u: bytes, v: bytes, e: bytes, later: bytes)
    requires p.Valid() && p.kind == BulkReply && !p.done && p.maxLen - |p.temp| <= |u|
    requires Late((p.temp + u) + v, e + later) && |(p.temp + u) + v| < p.maxLen + |later|
    ensures Late(ReadBulk(p, u).rest + v, later)
  {
    BulkLeaves(p.temp, u, v, p.maxLen - |p.temp|);
    LateBehind((p.temp + u) + v, p.maxLen, e, later);
  }

  lemma LateBehind(hand: bytes, k: nat, a: bytes, later: bytes)
    requires Late(hand, a + later) && k <= |hand| < k + |later|
    ensures Late(hand[k..], later)
  {
    LateSuffix(hand, a + later, k);
    SuffixWithin(hand[k..], a, later);
  }

  lemma BulkLeaves(temp: bytes, u: bytes, v: bytes, need: nat)
    requires need <= |u|
    ensures u[need..] + v == ((temp + u) + v)[|temp| + need..]
  {
    CutRight(temp, u, need);
    CutLeft(temp + u, v, |temp| + need);
  }

  /** What a first line leaves. */
  lemma FirstLineLeaves(u: bytes, v: bytes, r: Reply, later: bytes)
    requires WellFormed(r) && Late(u + v, Encode(r) + later) && ReadLine([], u).Some?
    ensures var (line, y) := ReadLine([], u).value;
      && Late(y + v, Encode(r) + later)
      && (Resembles(line, r) ==> |FirstLine(r)| + |y + v| < |Encode(r) + later|)
  {
    var k := IndexOf(u, LF) + 1;
    assert [] + u[..k] == u[..k];
    LineLeaves(u, v, k, r, later);
  }

  lemma LineLeaves(u: bytes, v: bytes, k: nat, r: Reply, later: bytes)
    requires WellFormed(r) && Late(u + v, Encode(r) + later)
    requires 1 <= k <= |u| && u[k - 1] == LF
    ensures Late(u[k..] + v, Encode(r) + later)
    ensures Resembles(TrimLine(u[..k]), r) ==> |FirstLine(r)| + |u[k..] + v| < |Encode(r) + later|
  {
    var s := Encode(r) + later;
    CutLeft(u, v, k);
    LateSuffix(u + v, s, k);
    assert u[..k] <= u + v;
    if Resembles(TrimLine(u[..k]), r) {
      LateFirstLine(r, later, |s| - |u + v|, u[..k]);
    }
  }

  lemma LateOpened(line: bytes, y: bytes, v: bytes, r: Reply, later: bytes)
    requires WellFormed(r) && Late(y + v, Encode(r) + later)
    requires Resembles(line, r) ==> |FirstLine(r)| + |y + v| < |Encode(r) + later|
    ensures match Open(START, line)
      case None => true
      case Some(q) =>
        if q.done then Report(q, r) ==> Late(y + v, later) else LateOn(q, (q.temp + y) + v, r, later)
  {
    var q := Open(START, line);
    if q.Some? {
      assert [] + y == y;
      if q.value.done {
        if Report(q.value, r) {
          ReportResembles(line, r);
          assert FirstLine(r) == Encode(r);
          SuffixWithin(y + v, Encode(r), later);
        }
      } else if q.value.kind == MultiBulkReply && r.Array? && q.value.count == |r.elements| {
        LateArray(y + v, r.elements, later);
        AllListedHaveEntries(r.elements);
      }
    }
  }

  lemma ReportResembles(line: bytes, r: Reply)
    requires WellFormed(r) && Open(START, line).Some?
    requires var q := Open(START, line).value; q.done && Report(q, r)
    ensures Resembles(line, r) && FirstLine(r) == Encode(r)
  {
    var q := Open(START, line).value;
    assert q.items == [] || q.items == [q.items[0]];
  }

  lemma LateArray(hand: bytes, es: seq<Reply>, later: bytes)
    requires WellFormed(Array(es)) && Late(hand, Encode(Array(es)) + later)
    requires |FirstLine(Array(es))| + |hand| < |Encode(Array(es)) + later|
    ensures Late(hand, EncodeAll(es[0..]) + later)
  {
    var h, body := HeaderLine(STAR, |es|), EncodeAll(es);
    assert es[0..] == es;
    Regroup(h, body, later);
    SuffixWithin(hand, h, body + later);
  }

  lemma LateBody(p: Parser, u: bytes, v: bytes, r: Reply, later: bytes)
    requires WellFormed(r) && (p.kind == BulkReply || p.kind == MultiBulkReply)
    requires LateOn(p, (p.temp + u) + v, r, later)
    ensures LateOutcome(ReadBody(p, u), v, r, later)
  {
    if p.kind == BulkReply {
      LateBulk(p, u, v, r, later);
    } else {
      LateElements(p, u, v, r, later);
    }
  }

  /** Once bytes of `r` are gone, a call that finishes `r` has taken bytes from behind it. */
  lemma LateParse(p: Parser, u: bytes, v: bytes, r: Reply, later: bytes)
    requires WellFormed(r) && LateOn(p, (p.temp + u) + v, r, later)
    ensures LateOutcome(Parse(p, u), v, r, later)
  {
    if u == [] {
    } else if p.kind != NoReply {
      LateBody(p, u, v, r, later);
    } else if ReadLine(p.temp, u).Some? {
      assert [] + u == u;
      var (line, y) := ReadLine([], u).value;
      FirstLineLeaves(u, v, r, later);
      LateOpened(line, y, v, r, later);
      var q := Open(START, line);
      if q.Some? && !q.value.done {
        LateBody(q.value, y, v, r, later);
      }
    }
  }

  // ---------------------------------------------------------------- the read loop

  /** As far as both go, what was posted is what was to be posted. */
  predicate SoFar(out: seq<Parser>, rs: seq<Reply>)
  {
    forall k :: 0 <= k < |out| && k < |rs| ==> Report(out[k], rs[k])
  }

  lemma WellFormedAt(rs: seq<Reply>, k: nat)
    requires AllWellFormed(rs) && k < |rs|
    ensures WellFormed(rs[k])
    decreases |rs|
  {
    if k != 0 {
      WellFormedAt(rs[1..], k - 1);
    }
  }

  /** Something else was posted, or not all was posted and bytes of the next reply are gone. */
  predicate StreamLost(c: Client, more: bytes, rs: seq<Reply>)
    requires AllWellFormed(rs)
  {
    SoFar(c.out, rs) ==>
      && |c.out| < |rs|
      && (c.Alive? ==>
            && WellFormed(rs[|c.out|])
            && LateOn(c.p, (c.p.temp + c.rest) + more, rs[|c.out|], EncodeAll(rs[|c.out| + 1..])))
  }

  /** The read loop posts on. */
  lemma {:induction false} DriveGrows(p: Parser, u: bytes, before: seq<Parser>)
    requires p.Valid() && !p.done
    ensures before <= Drive(p, u).Posted(before).out
  {
  }

  lemma WrongPosted(u: bytes, q: Parser, before: seq<Parser>, rs: seq<Reply>)
    requires |before| < |rs| && !Report(q, rs[|before|])
    ensures !SoFar(Drive(START, u).Posted(before + [q]).out, rs)
  {
    DriveGrows(START, u, before + [q]);
    assert Drive(START, u).Posted(before + [q]).out[|before|] == (before + [q])[|before|] == q;
  }

  lemma OneMoreSoFar(before: seq<Parser>, q: Parser, rs: seq<Reply>)
    requires SoFar(before, rs) && |before| < |rs| && Report(q, rs[|before|])
    ensures SoFar(before + [q], rs)
  {
  }

  lemma NextReplyLate(u: bytes, v: bytes, rs: seq<Reply>, k: nat)
    requires AllWellFormed(rs) && k <= |rs| && Late(u + v, EncodeAll(rs[k..]))
    ensures k < |rs| && WellFormed(rs[k])
    ensures LateOn(START, (START.temp + u) + v, rs[k], EncodeAll(rs[k + 1..]))
  {
    assert k < |rs|;
    WellFormedAt(rs, k);
    assert rs[k..][0] == rs[k] && rs[k..][1..] == rs[k + 1..];
    assert [] + u == u;
  }

  /** A turn of the loop that posts `r`, or something else. */
  lemma PostedLost(q: Parser, rest: bytes, v: bytes, before: seq<Parser>, rs: seq<Reply>)
    requires AllWellFormed(rs) && SoFar(before, rs) && |before| < |rs|
    requires Report(q, rs[|before|]) ==> Late(rest + v, EncodeAll(rs[|before| + 1..]))
    ensures StreamLost(Drive(START, rest).Posted(before + [q]), v, rs)
    decreases |rest|, 1
  {
    if Report(q, rs[|before|]) {
      OneMoreSoFar(before, q, rs);
      NextReplyLate(rest, v, rs, |before| + 1);
      DriveLost(START, rest, v, before + [q], rs);
    } else {
      WrongPosted(rest, q, before, rs);
    }
  }

  lemma {:induction false} DriveLost(p: Parser, u: bytes, v: bytes, before: seq<Parser>, rs: seq<Reply>)
    requires AllWellFormed(rs) && SoFar(before, rs) && |before| < |rs| && WellFormed(rs[|before|])
    requires LateOn(p, (p.temp + u) + v, rs[|before|], EncodeAll(rs[|before| + 1..]))
    ensures StreamLost(Drive(p, u).Posted(before), v, rs)
    decreases |u|, 0
  {
    if u == [] {
      assert before + [] == before;
    } else {
      LateParse(p, u, v, rs[|before|], EncodeAll(rs[|before| + 1..]));
      DriveStep(p, u, before);
      match Parse(p, u)
      case Failed =>
      case Step(q, rest) =>
        if q.done {
          PostedLost(q, rest, v, before, rs);
        }
    }
  }

  lemma SoFarOf(out: seq<Parser>, all: seq<Parser>, rs: seq<Reply>)
    requires out <= all && SoFar(all, rs)
    ensures SoFar(out, rs)
  {
    forall k | 0 <= k < |out| && k < |rs| ensures Report(out[k], rs[k]) {
      assert out[k] == all[k];
    }
  }

  lemma ChunkLost(c: Client, x: bytes, v: bytes, rs: seq<Reply>)
    requires AllWellFormed(rs) && c.Valid() && StreamLost(c, x + v, rs)
    ensures StreamLost(DriveChunk(c, x), v, rs)
  {
    if c.Alive? {
      var d := DriveChunk(c, x);
      DriveGrows(c.p, c.rest + x, c.out);
      if SoFar(d.out, rs) {
        SoFarOf(c.out, d.out, rs);
        Regroup(c.p.temp + c.rest, x, v);
        Regroup(c.p.temp, c.rest, x);
        DriveLost(c.p, c.rest + x, v, c.out, rs);
      }
    }
  }

  /** Not all of the replies are posted, however the rest of the stream arrives. */
  lemma {:induction false} LostStream(c: Client, chunks: seq<bytes>, rs: seq<Reply>)
    requires AllWellFormed(rs) && c.Valid() && StreamLost(c, Concat(chunks), rs)
    ensures var d := DriveAll(c, chunks); SoFar(d.out, rs) ==> |d.out| < |rs|
    decreases |chunks|
  {
    if chunks != [] {
      ChunkLost(c, chunks[0], Concat(chunks[1..]), rs);
      LostStream(DriveChunk(c, chunks[0]), chunks[1..], rs);
    }
  }

  // ---------------------------------------------------------------- whole streams

  lemma CutReplyLost(r: Reply, t: bytes, more: bytes, later: bytes)
    requires WellFormed(r) && t + more == Encode(r) + later && CutInside(r, |t|)
    ensures LateOutcome(Parse(START, t), more, r, later) && Parse(START, t).Step? && !Parse(START, t).p.done
  {
    CutLost(r, t, more, later);
    assert t <= t + more;
    CutAnywhere(r, later, t);
    StopsUnfinished(START, t);
  }

  lemma FirstOfMore(rs: seq<Reply>, k: nat)
    requires 0 < k <= |rs|
    ensures |EncodeAll(rs[..k])| == |Encode(rs[0])| + |EncodeAll(rs[1..][..k - 1])|
  {
    assert rs[..k][1..] == rs[1..][..k - 1];
  }

  /** A position inside an element of the stream is one inside an element of the reply it falls in. */
  lemma {:induction false} CutInReply(rs: seq<Reply>, k: nat, m: nat, n: nat)
    requires AllWellFormed(rs) && k < |rs| && WellFormed(rs[k]) && m < |Encode(rs[k])|
    requires n == |EncodeAll(rs[..k])| + m
    ensures StreamCutInside(rs, n) == CutInside(rs[k], m)
    decreases k
  {
    if k != 0 {
      FirstOfMore(rs, k);
      CutInReply(rs[1..], k - 1, m, n - |Encode(rs[0])|);
    }
  }

  lemma StreamBehind(rs: seq<Reply>, k: nat)
    requires k < |rs|
    ensures EncodeAll(rs) == EncodeAll(rs[..k]) + (Encode(rs[k]) + EncodeAll(rs[k + 1..]))
    decreases k
  {
    if k == 0 {
      assert [] + (Encode(rs[0]) + EncodeAll(rs[1..])) == EncodeAll(rs);
    } else {
      StreamBehind(rs[1..], k - 1);
      assert rs[..k][1..] == rs[1..][..k - 1] && rs[1..][k - 1] == rs[k] && rs[1..][k..] == rs[k + 1..];
      Regroup(Encode(rs[0]), EncodeAll(rs[1..][..k - 1]), Encode(rs[k]) + EncodeAll(rs[k + 1..]));
    }
  }

  lemma TailBehind(a: bytes, tail: bytes, more: bytes, later: bytes)
    requires (a + tail) + more == a + later
    ensures tail + more == later
  {
    Regroup(a, tail, more);
    CutRight(a, tail + more, 0);
    CutRight(a, later, 0);
  }

  lemma TailOfStream(rs: seq<Reply>, k: nat, tail: bytes, more: bytes)
    requires k < |rs| && (EncodeAll(rs[..k]) + tail) + more == EncodeAll(rs)
    ensures tail + more == Encode(rs[k]) + EncodeAll(rs[k + 1..])
  {
    StreamBehind(rs, k);
    TailBehind(EncodeAll(rs[..k]), tail, more, Encode(rs[k]) + EncodeAll(rs[k + 1..]));
  }

  /** A cut inside an element leaves the whole stream behind. */
  lemma CutStreamLost(rs: seq<Reply>, t: bytes, more: bytes)
    requires AllWellFormed(rs) && t + more == EncodeAll(rs) && StreamCutInside(rs, |t|)
    ensures StreamLost(Drive(START, t), more, rs)
  {
    assert t <= t + more;
    var k, tail := WholeReplies(rs, t);
    if k == |rs| {
      assert rs[..k] == rs && t == EncodeAll(rs) + [];
      NoCutAtEnd(rs);
    } else {
      TailOfStream(rs, k, tail, more);
      CutInTail(rs, k, tail);
      CutPartLost(rs, k, tail, more);
    }
  }

  lemma CutInTail(rs: seq<Reply>, k: nat, tail: bytes)
    requires AllWellFormed(rs) && k < |rs| && WellFormed(rs[k]) && tail < Encode(rs[k])
    ensures StreamCutInside(rs, |EncodeAll(rs[..k]) + tail|) == CutInside(rs[k], |tail|)
  {
    CutInReply(rs, k, |tail|, |EncodeAll(rs[..k]) + tail|);
  }

  lemma CutPartLost(rs: seq<Reply>, k: nat, tail: bytes, more: bytes)
    requires AllWellFormed(rs) && k < |rs| && AllWellFormed(rs[..k]) && WellFormed(rs[k]) && tail < Encode(rs[k])
    requires tail + more == Encode(rs[k]) + EncodeAll(rs[k + 1..])
    requires CutInside(rs[k], |tail|)
    ensures StreamLost(Drive(START, EncodeAll(rs[..k]) + tail), more, rs)
  {
    var out := PipelineTail(rs[..k], rs[k], tail);
    CutAfterReplies(rs, k, tail, more, out);
  }

  lemma CutAfterReplies(rs: seq<Reply>, k: nat, tail: bytes, more: bytes, out: seq<Parser>)
    requires AllWellFormed(rs) && k < |rs| && WellFormed(rs[k]) && Reports(out, rs[..k])
    requires tail + more == Encode(rs[k]) + EncodeAll(rs[k + 1..]) && CutInside(rs[k], |tail|)
    ensures Parse(START, tail).Step?
    ensures StreamLost(Alive(out, Parse(START, tail).p, Parse(START, tail).rest), more, rs)
  {
    CutReplyLost(rs[k], tail, more, EncodeAll(rs[k + 1..]));
  }

  lemma {:induction false} NoCutAtEnd(rs: seq<Reply>)
    requires AllWellFormed(rs)
    ensures !StreamCutInside(rs, |EncodeAll(rs)|)
    decreases |rs|
  {
    if rs != [] {
      NoCutAtEnd(rs[1..]);
    }
  }

  /** All of these have been posted, and nothing else before the last of them. */
  predicate Posts(c: Client, rs: seq<Reply>) { |rs| <= |c.out| && SoFar(c.out, rs) }

  lemma {:induction false} PostedFrom(rs: seq<Reply>, u: bytes, chunks: seq<bytes>)
    requires AllWellFormed(rs) && u + Concat(chunks) == EncodeAll(rs) && !DriveStopsMid(START, u)
    ensures Posts(DriveAll(Drive(START, u), chunks), rs) <==> StreamCutsClear(rs, |u|, chunks)
    decreases |chunks|
  {
    if |chunks| <= 1 {
      PostedAtLast(rs, u, chunks);
    } else {
      var v, later := u + chunks[0], chunks[1..];
      Regroup(u, chunks[0], Concat(later));
      assert v <= v + Concat(later);
      DriveMore(START, u, chunks[0]);
      StreamClearStep(rs, u, chunks);
      StreamCutPosition(rs, v);
      if StreamCutInside(rs, |v|) {
        CutStreamLost(rs, v, Concat(later));
        LostStream(Drive(START, v), later, rs);
      } else {
        PostedFrom(rs, v, later);
      }
    }
  }

  lemma PostedAtLast(rs: seq<Reply>, u: bytes, chunks: seq<bytes>)
    requires AllWellFormed(rs) && u + Concat(chunks) == EncodeAll(rs) && !DriveStopsMid(START, u) && |chunks| <= 1
    ensures Posts(DriveAll(Drive(START, u), chunks), rs)
  {
    FragmentsDriven(u, chunks);
    var out := Pipelining(rs, []);
    assert EncodeAll(rs) + [] == EncodeAll(rs) && out + [] == out;
  }

  /**
   A stream of well-formed replies, arriving in any chunks: all of them are posted, in order, if and only if no
   cut falls inside an array element. Then nothing else is posted, and nothing is left.
   */
  lemma StreamInFragments(rs: seq<Reply>, chunks: seq<bytes>)
    requires AllWellFormed(rs) && Concat(chunks) == EncodeAll(rs)
    ensures var c := DriveAll(Alive([], START, []), chunks);
      && (Posts(c, rs) <==> StreamCutsClear(rs, 0, chunks))
      && (Posts(c, rs) ==> Reports(c.out, rs) && c == Alive(c.out, START, []))
  {
    assert [] + Concat(chunks) == Concat(chunks);
    PostedFrom(rs, [], chunks);
    if StreamCutsClear(rs, 0, chunks) {
      var k, tail, out := PipelineOverFragments(rs, chunks);
      WholeStream(rs, k, tail);
    }
  }

  lemma WholeStream(rs: seq<Reply>, k: nat, tail: bytes)
    requires k <= |rs| && EncodeAll(rs) == EncodeAll(rs[..k]) + tail
    requires if k == |rs| then tail == [] else tail < Encode(rs[k])
    ensures k == |rs| && rs[..k] == rs && tail == []
  {
    if k < |rs| {
      StreamBehind(rs, k);
      TailBehind(EncodeAll(rs[..k]), tail, [], Encode(rs[k]) + EncodeAll(rs[k + 1..]));
    }
  }
}
