/** What cutting the stream does to the parser: exactly when a cut is harmless, and why. */
module RespFragments {
  import opened Bytes
  import opened RespSpec

  /** The bytes `u` end between an array element's header line and the end of its payload. */
  predicate StopsInElement(p: Parser, u: bytes)
    requires p.Valid() && p.kind == MultiBulkReply && !p.done
    decreases |u|
  {
    match ReadElement(p, u)
    case HalfRead(_) => true
    case Whole(q, v) => |q.items| != q.count && StopsInElement(q, v)
    case _ => false
  }

  /** A call of `parse` on `u` that leaves an array element half read. */
  predicate StopsMid(p: Parser, u: bytes)
    requires p.Valid()
  {
    if p.done || u == [] then false
    else if p.kind == MultiBulkReply then StopsInElement(p, u)
    else if p.kind != NoReply then false
    else
      match ReadLine(p.temp, u)
      case None => false
      case Some((line, v)) =>
        match Open(p, line)
        case None => false
        case Some(q) => q.kind == MultiBulkReply && !q.done && StopsInElement(q, v)
  }

  /** The outcome `r` with `more` bytes arriving behind what it left unread. */
  function Resume(r: Outcome, more: bytes): Outcome
    requires r.Step? ==> r.p.Valid()
  {
    if r.Failed? then Failed else Parse(r.p, r.rest + more)
  }

  lemma ReadLineMore(temp: bytes, u: bytes, more: bytes)
    ensures ReadLine(temp, u).Some? ==>
      ReadLine(temp, u + more) == Some((ReadLine(temp, u).value.0, ReadLine(temp, u).value.1 + more))
  {
    var k := IndexOf(u, LF);
    if k < |u| {
      IndexOfBefore(u, more, LF);
      CutLeft(u, more, k + 1);
    }
  }

  lemma BulkMore(p: Parser, u: bytes, more: bytes)
    requires p.Valid() && p.kind == BulkReply && !p.done
    ensures var r := ReadBulk(p, u);
      ReadBulk(p, u + more) == if r.p.done then Step(r.p, r.rest + more) else ReadBulk(r.p, r.rest + more)
  {
    var need := p.maxLen - |p.temp|;
    if need <= |u| {
      CutLeft(u, more, need);
    } else {
      assert [] + more == more;
      if |u| + |more| < need {
        Regroup(p.temp, u, more);
      } else {
        CutRight(u, more, need - |u|);
        Regroup(p.temp, u, more[..need - |u|]);
      }
    }
  }

  lemma ReadElementMore(p: Parser, u: bytes, more: bytes)
    requires p.Valid() && p.kind == MultiBulkReply && !p.done
    ensures match ReadElement(p, u)
      case BadHeader => ReadElement(p, u + more) == BadHeader
      case Whole(q, v) => ReadElement(p, u + more) == Whole(q, v + more)
      case _ => true
  {
    ReadLineMore(p.temp, u, more);
    if ReadElement(p, u).Whole? {
      var (line, v) := ReadLine(p.temp, u).value;
      var n := LineNumber(line, MAX_BULK).value;
      if n != -1 {
        CutLeft(v, more, n);
        CutLeft(v, more, n + 2);
      }
    }
  }

  /** More bytes behind a run of elements: a finished run keeps its result, an unharmed one goes on. */
  lemma {:induction false} ElementsMore(p: Parser, u: bytes, more: bytes)
    requires p.Valid() && p.kind == MultiBulkReply && !p.done
    ensures match ReadElements(p, u)
      case Failed => ReadElements(p, u + more) == Failed
      case Step(q, rest) =>
        && (q.done ==> ReadElements(p, u + more) == Step(q, rest + more))
        && (!q.done && !StopsInElement(p, u) ==> ReadElements(p, u + more) == ReadElements(q, rest + more))
    decreases |u|
  {
    ReadElementMore(p, u, more);
    match ReadElement(p, u)
    case Whole(q, v) =>
      if |q.items| != q.count {
        ElementsMore(q, v, more);
      }
    case _ =>
  }

  lemma BodyMore(p: Parser, u: bytes, more: bytes)
    requires p.Valid() && !p.done && (p.kind == BulkReply || p.kind == MultiBulkReply)
    ensures match ReadBody(p, u)
      case Failed => ReadBody(p, u + more) == Failed
      case Step(q, rest) =>
        && (q.done ==> ReadBody(p, u + more) == Step(q, rest + more))
        && (!q.done ==> q.kind == p.kind)
        && (!q.done && !(p.kind == MultiBulkReply && StopsInElement(p, u)) ==>
              ReadBody(p, u + more) == ReadBody(q, rest + more))
  {
    if p.kind == BulkReply {
      BulkMore(p, u, more);
    } else {
      ElementsMore(p, u, more);
    }
  }

  lemma ParseBody(p: Parser, u: bytes)
    requires p.Valid() && !p.done && (p.kind == BulkReply || p.kind == MultiBulkReply)
    ensures Parse(p, u) == ReadBody(p, u)
  {
  }

  /** Bytes behind a finished reply stay unread, and a call that failed fails with more bytes too. */
  lemma ParseMore(p: Parser, u: bytes, more: bytes)
    requires p.Valid()
    ensures match Parse(p, u)
      case Failed => Parse(p, u + more) == Failed
      case Step(q, rest) =>
        && (q.done ==> Parse(p, u + more) == Step(q, rest + more))
        && (!StopsMid(p, u) ==> Parse(p, u + more) == Parse(q, rest + more))
  {
    if p.done {
    } else if u == [] {
      assert u + more == more;
    } else if p.kind != NoReply {
      ParseBodyMore(p, u, more);
    } else if ReadLine(p.temp, u).Some? {
      ReadLineMore(p.temp, u, more);
      var (line, v) := ReadLine(p.temp, u).value;
      var q := Open(p, line);
      if q.Some? && !q.value.done {
        ParseBodyMore(q.value, v, more);
      }
    }
  }

  lemma ParseBodyMore(p: Parser, u: bytes, more: bytes)
    requires p.Valid() && !p.done && (p.kind == BulkReply || p.kind == MultiBulkReply)
    ensures match ReadBody(p, u)
      case Failed => ReadBody(p, u + more) == Failed
      case Step(q, rest) =>
        && (q.done ==> ReadBody(p, u + more) == Step(q, rest + more))
        && (!(p.kind == MultiBulkReply && StopsInElement(p, u)) ==> ReadBody(p, u + more) == Parse(q, rest + more))
  {
    BodyMore(p, u, more);
    var r := ReadBody(p, u);
    if r.Step? && !r.p.done {
      ParseBody(r.p, r.rest + more);
    }
  }

  // ---------------------------------------------------------------- the harmful cuts

  /** Bytes that finish the pending payload but hold no LF. */
  function Filler(n: nat): (f: bytes)
    ensures |f| == n && LF !in f
  {
    seq(n, _ => 65)
  }

  /** After a harmful cut: the state left, and what one delivery of `u + Filler(need)` would have given. */
  lemma {:induction false} HarmfulCut(p: Parser, u: bytes) returns (need: nat)
    requires p.Valid() && p.kind == MultiBulkReply && !p.done && StopsInElement(p, u)
    ensures var r := ReadElements(p, u);
      && r.Step? && !r.p.done && r.rest == [] && 1 <= need
      && var whole := ReadElements(p, u + Filler(need));
         whole.Step? && |whole.p.items| == |r.p.items| + 1
    decreases |u|
  {
    match ReadElement(p, u)
    case Whole(q, v) =>
      need := HarmfulCut(q, v);
      ReadElementMore(p, u, Filler(need));
    case HalfRead(q) =>
      need := q.maxLen - |q.temp|;
      FilledElement(p, u, need);
  }

  /** A call that leaves an element half read consumes everything and finishes nothing. */
  lemma StopsUnfinished(p: Parser, u: bytes)
    requires p.Valid() && StopsMid(p, u)
    ensures Parse(p, u).Step? && !Parse(p, u).p.done && Parse(p, u).rest == []
  {
    if p.kind == MultiBulkReply {
      var _ := HarmfulCut(p, u);
    } else {
      var (line, v) := ReadLine(p.temp, u).value;
      var _ := HarmfulCut(Open(p, line).value, v);
    }
  }

  lemma FilledElement(p: Parser, u: bytes, need: nat)
    requires p.Valid() && p.kind == MultiBulkReply && !p.done && ReadElement(p, u).HalfRead?
    requires need == ReadElement(p, u).half.maxLen - |ReadElement(p, u).half.temp|
    ensures var t := ReadElement(p, u + Filler(need));
      t.Whole? && t.rest == [] && |t.p.items| == |p.items| + 1
  {
    var (line, v) := ReadLine(p.temp, u).value;
    ReadLineMore(p.temp, u, Filler(need));
    assert |v + Filler(need)| == LineNumber(line, MAX_BULK).value + 2;
  }

  lemma NoLineNoProgress(p: Parser, f: bytes)
    requires p.Valid() && p.kind == MultiBulkReply && !p.done && LF !in f
    ensures Parse(p, f) == Step(p, f)
  {
  }

  /** After a harmful cut there are bytes that one delivery and the resumed parse read differently. */
  lemma CutWitness(p: Parser, u: bytes) returns (more: bytes)
    requires p.Valid() && StopsMid(p, u)
    ensures Parse(p, u).Step? && Resume(Parse(p, u), more) != Parse(p, u + more)
  {
    var q, v := p, u;
    if p.kind == NoReply {
      var (line, v') := ReadLine(p.temp, u).value;
      q, v := Open(p, line).value, v';
    }
    var need := HarmfulCut(q, v);
    more := Filler(need);
    ReadLineMore(p.temp, u, more);
    var left := ReadElements(q, v).p;
    assert [] + more == more;
    NoLineNoProgress(left, more);
  }

  /**
   The exact condition under which a cut is harmless: whatever arrives next, the resumed parse gives
   the state, the reply and the leftover bytes of one delivery, if and only if the bytes so far do not
   end inside an array element.
   */
  lemma HarmlessCut(p: Parser, u: bytes)
    requires p.Valid()
    ensures (forall more: bytes :: Resume(Parse(p, u), more) == Parse(p, u + more)) <==> !StopsMid(p, u)
  {
    if StopsMid(p, u) {
      var more := CutWitness(p, u);
      assert Resume(Parse(p, u), more) != Parse(p, u + more);
    } else {
      forall more: bytes
        ensures Resume(Parse(p, u), more) == Parse(p, u + more)
      {
        ParseMore(p, u, more);
      }
    }
  }

  // ---------------------------------------------------------------- whole schedules

  /** One `parse` per chunk, as chunks are appended to the unread bytes. */
  function ParseAll(r: Outcome, chunks: seq<bytes>): Outcome
    requires r.Step? ==> r.p.Valid()
    decreases |chunks|
  {
    if chunks == [] then r else ParseAll(Resume(r, chunks[0]), chunks[1..])
  }

  /** No chunk but the last ends inside an array element of what `p` reads from `u`. */
  predicate CutsOutside(p: Parser, u: bytes, chunks: seq<bytes>)
    requires p.Valid()
    decreases |chunks|
  {
    |chunks| <= 1 || (!StopsMid(p, u + chunks[0]) && CutsOutside(p, u + chunks[0], chunks[1..]))
  }

  /** Any schedule whose cuts are all harmless gives what one delivery gives. */
  lemma {:induction false} FragmentsAsOne(p: Parser, u: bytes, chunks: seq<bytes>)
    requires p.Valid() && !StopsMid(p, u) && CutsOutside(p, u, chunks)
    ensures chunks != [] ==> ParseAll(Parse(p, u), chunks) == Parse(p, u + Concat(chunks))
    decreases |chunks|
  {
    if chunks != [] {
      var x, later := chunks[0], chunks[1..];
      ParseMore(p, u, x);
      assert Resume(Parse(p, u), x) == Parse(p, u + x);
      if later == [] {
        assert x + [] == x;
        assert ParseAll(Parse(p, u + x), []) == Parse(p, u + x);
      } else {
        FragmentsAsOne(p, u + x, later);
        Regroup(u, x, Concat(later));
      }
    }
  }
}
