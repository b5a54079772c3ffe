/**
 How many bytes the read loop leaves in the receive buffer. The parser leaves an unfinished line where it
 is, so a line longer than the buffer can never be finished.
 */
module RespRoom {
  import opened Bytes
  import opened RespSpec
  import opened RespGrammar
  import opened RespElements
  import opened RespReplies
  import opened RespCuts
  import opened RespPipeline

  // ---------------------------------------------------------------- any stream

  /** What a call leaves unread of an unfinished reply is an unfinished line. */
  lemma {:induction false} ElementsLeaveLine(p: Parser, u: bytes)
    requires p.Valid() && p.kind == MultiBulkReply && !p.done
    ensures var o := ReadElements(p, u); o.Step? && !o.p.done ==> LF !in o.rest
    decreases |u|
  {
    match ReadElement(p, u)
    case NoLine => NoLineLeft(p.temp, u);
    case Whole(q, v) =>
      if |q.items| != q.count {
        ElementsLeaveLine(q, v);
      }
    case _ =>
  }

  lemma NoLineLeft(temp: bytes, u: bytes)
    requires ReadLine(temp, u).None?
    ensures LF !in u
  {
    assert u[..|u|] == u;
  }

  lemma ParseLeavesLine(p: Parser, u: bytes)
    requires p.Valid() && !p.done
    ensures var o := Parse(p, u); o.Step? && !o.p.done ==> LF !in o.rest && (o.p.kind == BulkReply ==> o.rest == [])
  {
    if u != [] {
      if p.kind == MultiBulkReply {
        ElementsLeaveLine(p, u);
      } else if p.kind == NoReply {
        match ReadLine(p.temp, u)
        case None => NoLineLeft(p.temp, u);
        case Some((line, v)) =>
          var q := Open(p, line);
          if q.Some? && !q.value.done && q.value.kind == MultiBulkReply {
            ElementsLeaveLine(q.value, v);
          }
      }
    }
  }

  /** Between deliveries the buffer holds nothing but an unfinished line, and never a bulk payload. */
  lemma {:induction false} DriveLeavesLine(p: Parser, u: bytes)
    requires p.Valid() && !p.done
    ensures var c := Drive(p, u); c.Alive? ==> LF !in c.rest && (c.p.kind == BulkReply ==> c.rest == [])
    decreases |u|
  {
    if u != [] {
      ParseLeavesLine(p, u);
      match Parse(p, u)
      case Failed =>
      case Step(q, rest) =>
        if q.done {
          DriveLeavesLine(START, rest);
        }
    }
  }

  /** What is left gives nothing more without more bytes: a buffer that is full stays full. */
  lemma StalledForGood(p: Parser, u: bytes)
    requires p.Valid() && !p.done
    ensures var c := Drive(p, u); c.Alive? ==> DriveChunk(c, []) == c
  {
    DriveLeavesLine(p, u);
    var c := Drive(p, u);
    if c.Alive? {
      NothingInLine(c.p, c.rest);
      assert c.rest + [] == c.rest;
      PostedTwice(c, c.out, []);
    }
  }

  lemma NothingInLine(p: Parser, u: bytes)
    requires p.Valid() && !p.done && LF !in u && (p.kind == BulkReply ==> u == [])
    ensures Drive(p, u) == Alive([], p, u)
  {
  }

  // ---------------------------------------------------------------- streams of replies

  /** How many bytes are left unread when `k` bytes of these elements have arrived. */
  function UnreadIn(es: seq<Reply>, k: nat): nat
    requires AllListed(es)
  {
    if es == [] then 0
    else
      var size := |Encode(es[0])|;
      if k < |HeaderOf(es[0])| then k else if k < size then 0 else UnreadIn(es[1..], k - size)
  }

  /** The same of a reply. */
  function Unread(r: Reply, k: nat): nat
    requires WellFormed(r)
  {
    if k < |FirstLine(r)| then k
    else if r.Array? then UnreadIn(r.elements, k - |FirstLine(r)|)
    else 0
  }

  /** The same of a stream of replies. */
  function StreamUnread(rs: seq<Reply>, k: nat): nat
    requires AllWellFormed(rs)
  {
    if rs == [] then 0
    else if k < |Encode(rs[0])| then Unread(rs[0], k)
    else StreamUnread(rs[1..], k - |Encode(rs[0])|)
  }

  lemma {:induction false} ElementsUnread(p: Parser, es: seq<Reply>, t: bytes)
    requires p.Valid() && p.kind == MultiBulkReply && !p.done && p.temp == []
    requires |p.items| + |es| == p.count && es != [] && t < EncodeAll(es) && AllListed(es)
    ensures var o := ReadElements(p, t); o.Step? && |o.rest| == UnreadIn(es, |t|)
    decreases |es|
  {
    var e := es[0];
    var whole, later := Encode(e), EncodeAll(es[1..]);
    if |whole| <= |t| {
      var v := PrefixBehind(whole, later, t);
      ElementsStep(p, e, v);
      ElementsUnread(AfterItem(p, Entry(e).value), es[1..], v);
    } else {
      PrefixWithin(whole, later, t);
      ElementUnread(p, e, t);
    }
  }

  lemma ElementUnread(p: Parser, e: Reply, t: bytes)
    requires p.Valid() && p.kind == MultiBulkReply && !p.done && p.temp == []
    requires Listed(e) && t < Encode(e)
    ensures var o := ReadElements(p, t); o.Step? && |o.rest| == if |t| < |HeaderOf(e)| then |t| else 0
  {
    if e.NullArray? {
      UnfinishedHeader(STAR, -1, t);
    } else {
      ItemUnread(p, e.item, t);
    }
  }

  lemma ItemUnread(p: Parser, item: Item, t: bytes)
    requires p.Valid() && p.kind == MultiBulkReply && !p.done && p.temp == []
    requires FitsInt(item) && t < EncodeItem(item)
    ensures var o := ReadElements(p, t); o.Step? && |o.rest| == if |t| < |HeaderOf(Bulk(item))| then |t| else 0
  {
    var n := if item.Null? then -1 else |item.text|;
    var h := HeaderLine(DOLLAR, n);
    if |t| < |h| {
      assert t < h;
      UnfinishedHeader(DOLLAR, n, t);
    } else {
      var w := PrefixBehind(h, item.text + CRLF, t);
      HalfElement(p, n, w);
    }
  }

  lemma UnfinishedLine(c: byte, s: bytes, t: bytes)
    requires c != LF && LF !in s && t < Line(c, s)
    ensures Parse(START, t) == Step(START, t)
  {
  }

  lemma BulkUnread(item: Item, t: bytes)
    requires FitsInt(item) && HeaderOf(Bulk(item)) <= t < EncodeItem(item)
    ensures var o := Parse(START, t); o.Step? && o.rest == []
  {
    var w := PrefixBehind(HeaderOf(Bulk(item)), item.text + CRLF, t);
    BulkHeader(|item.text|, w);
  }

  lemma ArrayUnread(es: seq<Reply>, t: bytes)
    requires WellFormed(Array(es)) && HeaderLine(STAR, |es|) <= t < Encode(Array(es))
    ensures var o := Parse(START, t); o.Step? && |o.rest| == UnreadIn(es, |t| - |HeaderLine(STAR, |es|)|)
  {
    var v := PrefixBehind(HeaderLine(STAR, |es|), EncodeAll(es), t);
    ArrayHeader(|es|, v);
    ElementsUnread(ArrayOf(|es|), es, v);
  }

  lemma ReplyUnread(r: Reply, t: bytes)
    requires WellFormed(r) && t < Encode(r)
    ensures var o := Parse(START, t); o.Step? && |o.rest| == Unread(r, |t|)
  {
    var c, s := FirstLineIsLine(r);
    if |t| < |FirstLine(r)| {
      UnfinishedLine(c, s, t);
    } else if r.Bulk? {
      BulkUnread(r.item, t);
    } else {
      ArrayUnread(r.elements, t);
    }
  }

  /** The bytes left unread. */
  function Left(c: Client): nat { if c.Alive? then |c.rest| else 0 }

  lemma PartialUnread(r: Reply, t: bytes)
    requires WellFormed(r) && t < Encode(r)
    ensures Drive(START, t).Alive? && Left(Drive(START, t)) == Unread(r, |t|)
  {
    SelfDelimiting(r, t);
    ReplyUnread(r, t);
  }

  lemma StreamUnreadBehind(rs: seq<Reply>, v: bytes)
    requires AllWellFormed(rs) && rs != [] && Drive(START, v).Alive?
    ensures StreamUnread(rs, |Encode(rs[0]) + v|) == StreamUnread(rs[1..], |v|)
    ensures var c := Drive(START, Encode(rs[0]) + v); c.Alive? && Left(c) == Left(Drive(START, v))
  {
    var _ := DriveReply(rs[0], v);
  }

  lemma {:induction false} StreamUnreadExact(rs: seq<Reply>, t: bytes)
    requires AllWellFormed(rs) && t <= EncodeAll(rs)
    ensures Drive(START, t).Alive? && Left(Drive(START, t)) == StreamUnread(rs, |t|)
    decreases |rs|
  {
    if rs == [] {
      assert t == [];
    } else {
      var e, later := Encode(rs[0]), EncodeAll(rs[1..]);
      if |t| < |e| {
        PrefixWithin(e, later, t);
        PartialUnread(rs[0], t);
      } else {
        var v := PrefixBehind(e, later, t);
        StreamUnreadExact(rs[1..], v);
        StreamUnreadBehind(rs, v);
      }
    }
  }

  // ---------------------------------------------------------------- lines too long

  predicate LongHeader(es: seq<Reply>, cap: nat)
    requires AllListed(es)
  {
    es != [] && (|HeaderOf(es[0])| > cap || LongHeader(es[1..], cap))
  }

  predicate LongIn(r: Reply, cap: nat)
    requires WellFormed(r)
  {
    |FirstLine(r)| > cap || (r.Array? && LongHeader(r.elements, cap))
  }

  /** One of these replies has a line, CRLF included, of more than `cap` bytes; a payload is not a line. */
  predicate LongLine(rs: seq<Reply>, cap: nat)
    requires AllWellFormed(rs)
  {
    rs != [] && (LongIn(rs[0], cap) || LongLine(rs[1..], cap))
  }

  lemma {:induction false} ShortHeaders(es: seq<Reply>, k: nat, cap: nat)
    requires AllListed(es) && 1 <= cap && !LongHeader(es, cap)
    ensures UnreadIn(es, k) < cap
    decreases |es|
  {
    if es != [] && |Encode(es[0])| <= k {
      ShortHeaders(es[1..], k - |Encode(es[0])|, cap);
    }
  }

  lemma HeaderIsFirst(es: seq<Reply>)
    requires AllListed(es) && es != []
    ensures |HeaderOf(es[0])| <= |Encode(es[0])| && |EncodeAll(es)| == |Encode(es[0])| + |EncodeAll(es[1..])|
  {
  }

  lemma UnreadBehind(es: seq<Reply>, k: nat)
    requires AllListed(es) && es != []
    ensures UnreadIn(es, |Encode(es[0])| + k) == UnreadIn(es[1..], k)
  {
    HeaderIsFirst(es);
  }

  lemma UnreadHeader(es: seq<Reply>, k: nat)
    requires AllListed(es) && es != [] && k < |HeaderOf(es[0])|
    ensures k < |EncodeAll(es)| && UnreadIn(es, k) == k
  {
    HeaderIsFirst(es);
  }

  lemma {:induction false} LongHeaderStalls(es: seq<Reply>, cap: nat) returns (k: nat)
    requires AllListed(es) && LongHeader(es, cap)
    ensures k < |EncodeAll(es)| && cap <= UnreadIn(es, k)
    decreases |es|
  {
    if |HeaderOf(es[0])| > cap {
      k := cap;
      UnreadHeader(es, cap);
    } else {
      var later := LongHeaderStalls(es[1..], cap);
      HeaderIsFirst(es);
      UnreadBehind(es, later);
      k := |Encode(es[0])| + later;
    }
  }

  lemma {:induction false} ShortLines(rs: seq<Reply>, k: nat, cap: nat)
    requires AllWellFormed(rs) && 1 <= cap && !LongLine(rs, cap)
    ensures StreamUnread(rs, k) < cap
    decreases |rs|
  {
    if rs != [] {
      if |Encode(rs[0])| <= k {
        ShortLines(rs[1..], k - |Encode(rs[0])|, cap);
      } else if rs[0].Array? && |FirstLine(rs[0])| <= k {
        ShortHeaders(rs[0].elements, k - |FirstLine(rs[0])|, cap);
      }
    }
  }

  lemma LongInStalls(r: Reply, cap: nat) returns (k: nat)
    requires WellFormed(r) && LongIn(r, cap)
    ensures k < |Encode(r)| && cap <= Unread(r, k)
  {
    var _, _ := FirstLineIsLine(r);
    if |FirstLine(r)| > cap {
      k := cap;
    } else {
      k := LongHeaderStalls(r.elements, cap);
      k := |FirstLine(r)| + k;
    }
  }

  lemma {:induction false} LongLineStalls(rs: seq<Reply>, cap: nat) returns (k: nat)
    requires AllWellFormed(rs) && LongLine(rs, cap)
    ensures k <= |EncodeAll(rs)| && cap <= StreamUnread(rs, k)
    decreases |rs|
  {
    if LongIn(rs[0], cap) {
      k := LongInStalls(rs[0], cap);
    } else {
      k := LongLineStalls(rs[1..], cap);
      k := |Encode(rs[0])| + k;
    }
  }

  /**
   A receive buffer of `cap` bytes never fills up with unread bytes of a stream of replies, wherever the
   stream stands, if and only if no line of it, terminator included, is longer than the buffer.
   */
  lemma RoomExactly(rs: seq<Reply>, cap: nat)
    requires AllWellFormed(rs) && 1 <= cap
    ensures (forall t: bytes :: t <= EncodeAll(rs) ==> Left(Drive(START, t)) < cap) <==> !LongLine(rs, cap)
  {
    if LongLine(rs, cap) {
      var k := LongLineStalls(rs, cap);
      var t := EncodeAll(rs)[..k];
      StreamUnreadExact(rs, t);
      assert t <= EncodeAll(rs) && cap <= Left(Drive(START, t));
    } else {
      forall t: bytes | t <= EncodeAll(rs)
        ensures Left(Drive(START, t)) < cap
      {
        StreamUnreadExact(rs, t);
        ShortLines(rs, |t|, cap);
      }
    }
  }

  /** So a connection whose buffer holds every line has room for the next chunk, and reads every reply. */
  lemma AlwaysRoom(rs: seq<Reply>, chunks: seq<bytes>, cap: nat)
    requires AllWellFormed(rs) && Concat(chunks) <= EncodeAll(rs) && StreamCutsClear(rs, 0, chunks)
    requires 1 <= cap
    ensures var c := DriveAll(Alive([], START, []), chunks);
      c.Alive? && (!LongLine(rs, cap) ==> |c.rest| < cap) && |c.rest| == StreamUnread(rs, |Concat(chunks)|)
  {
    assert [] + Concat(chunks) == Concat(chunks);
    ClearCutsHarmless(rs, [], chunks);
    FragmentsDriven([], chunks);
    StreamUnreadExact(rs, Concat(chunks));
    RoomExactly(rs, cap);
  }
}
