/** The two parsers agree: after every chunk of every stream they stand for the same reply and the same bytes. */
module RedisBisimulation {
  import opened Bytes
  import opened Decimal
  import opened RespSpec
  import opened RespGrammar
  import opened RespReplies
  import opened RespPipeline
  import opened RespSpoiled
  import opened RedisBlockSpec

  /**
   Same type, counts, pending length, values (nulls apart from real strings) and completion; and the same
   bytes in hand, though `RedisBlock` keeps behind its `temp` what `RedisParse` leaves unread.
   */
  predicate Alike(p: Parser, u: bytes, b: Block, v: bytes)
  {
    && p.Valid() && b.Valid()
    && p.kind == b.kind && p.count == b.count && p.maxLen == b.bufSize && p.items == b.items
    && (p.done <==> b.state.Done?)
    && p.temp + u == b.temp + v
    && p.temp <= b.temp && LF !in b.temp[|p.temp|..]
    && (p.kind == BulkReply || p.done ==> p.temp == b.temp)
  }

  /** An integer reply whose text is no `int`: the one thing only `RedisBlock` rejects, when it re-encodes. */
  predicate BadInteger(p: Parser)
  {
    p.done && p.kind == IntReply && p.items != [] && p.items[0].Text? && LexicalInt(p.items[0].text).None?
  }

  predicate OutcomesAlike(o: Outcome, r: BlockOutcome)
  {
    match (o, r)
    case (Failed, BlockFailed) => true
    case (Step(p, u), BlockFailed) => BadInteger(p)
    case (Step(p, u), BlockStep(b, v)) => Alike(p, u, b, v) && !BadInteger(p) && (!p.done ==> v == [])
    case _ => false
  }

  /** The same of what was read, before anything is re-encoded. */
  predicate ReadsAlike(o: Outcome, r: BlockOutcome)
  {
    match (o, r)
    case (Failed, BlockFailed) => true
    case (Step(p, u), BlockStep(b, v)) => Alike(p, u, b, v) && (!p.done ==> v == [])
    case _ => false
  }

  lemma SplitTemp(temp: bytes, u: bytes, temp': bytes, v: bytes) returns (w: bytes)
    requires temp + u == temp' + v && temp <= temp' && LF !in temp'[|temp|..]
    ensures temp' == temp + w && u == w + v && LF !in w
  {
    w := temp'[|temp|..];
    assert temp' == temp + w;
    Regroup(temp, w, v);
    CutRight(temp, u, 0);
    CutRight(temp, w + v, 0);
    assert u == (temp + u)[|temp|..] == (temp + (w + v))[|temp|..] == w + v;
  }

  /** Both find the same line in the same bytes, wherever they keep its beginning. */
  lemma SameLine(temp: bytes, u: bytes, temp': bytes, v: bytes)
    requires temp + u == temp' + v && temp <= temp' && LF !in temp'[|temp|..]
    ensures ReadLine(temp, u) == ReadLine(temp', v)
    ensures ReadLine(temp, u).None? ==> temp <= temp' + v && LF !in (temp' + v)[|temp|..]
  {
    var w := SplitTemp(temp, u, temp', v);
    IndexOfAfter(w, v, LF);
    var k := IndexOf(v, LF);
    if k < |v| {
      CutRight(w, v, k + 1);
      Regroup(temp, w, v[..k + 1]);
    } else {
      assert v[..k] == v;
      Regroup(temp, w, v);
      CutRight(temp, w + v, 0);
    }
  }

  lemma SameElement(p: Parser, u: bytes, b: Block, v: bytes)
    requires Alike(p, u, b, v) && p.kind == MultiBulkReply && !p.done
    ensures match (ReadElement(p, u), BlockElement(b, v))
      case (NoLine, LineCut(c)) => Alike(p, u, c, [])
      case (BadHeader, HeaderBad) => true
      case (HalfRead(q), PayloadCut(c)) => Alike(q, [], c, [])
      case (Whole(q, w), Element(c, w')) => w == w' && Alike(q, w, c, w) && q.temp == c.temp
      case _ => false
  {
    SameLine(p.temp, u, b.temp, v);
    if ReadLine(p.temp, u).None? {
      assert (b.temp + v) + [] == b.temp + v;
    }
  }

  lemma {:induction false} SameElements(p: Parser, u: bytes, b: Block, v: bytes)
    requires Alike(p, u, b, v) && p.kind == MultiBulkReply && !p.done
    ensures ReadsAlike(ReadElements(p, u), BlockElements(b, v))
    decreases |u|
  {
    SameElement(p, u, b, v);
    match ReadElement(p, u)
    case Whole(q, w) =>
      var c := BlockElement(b, v).b;
      if |q.items| != q.count {
        SameElements(q, w, c, w);
      }
    case _ =>
  }

  lemma SameBulk(p: Parser, u: bytes, b: Block, v: bytes)
    requires Alike(p, u, b, v) && p.kind == BulkReply && !p.done
    ensures ReadsAlike(ReadBulk(p, u), BlockBulk(b, v))
  {
    CutRight(p.temp, u, 0);
    assert u == v;
    var need := p.maxLen - |p.temp|;
    if |u| < need {
      assert (p.temp + u) + [] == p.temp + u;
    }
  }

  lemma SameBody(p: Parser, u: bytes, b: Block, v: bytes)
    requires Alike(p, u, b, v) && !p.done && (p.kind == BulkReply || p.kind == MultiBulkReply)
    ensures ReadsAlike(ReadBody(p, u), BlockBody(b, v))
  {
    if p.kind == BulkReply {
      SameBulk(p, u, b, v);
    } else {
      SameElements(p, u, b, v);
    }
  }

  /** Both make the same of a first line. */
  lemma SameOpen(p: Parser, b: Block, line: bytes, w: bytes)
    requires p.Valid() && b.Valid() && p.kind == b.kind == NoReply && !p.done && !b.state.Done?
    requires p.count == b.count && p.maxLen == b.bufSize && p.items == b.items
    ensures match Open(p, line)
      case None => BlockOpen(b, line).None?
      case Some(q) => BlockOpen(b, line).Some? && Alike(q, w, BlockOpen(b, line).value, w)
  {
  }

  lemma SameRead(p: Parser, u: bytes, b: Block, v: bytes)
    requires Alike(p, u, b, v) && !p.done && v != []
    ensures ReadsAlike(Parse(p, u), BlockRead(b, v))
  {
    assert |p.temp + u| == |b.temp + v|;
    if p.kind != NoReply {
      SameBody(p, u, b, v);
    } else {
      SameLine(p.temp, u, b.temp, v);
      var r := ReadLine(p.temp, u);
      if r.None? {
        assert (b.temp + v) + [] == b.temp + v;
      } else {
        var (line, w) := r.value;
        SameOpen(p, b, line, w);
        var q := Open(p, line);
        if q.Some? && !q.value.done {
          SameBody(q.value, w, BlockOpen(b, line).value, w);
        }
      }
    }
  }

  /** Behind a finished reply both leave the same. */
  lemma SameLeft(p: Parser, u: bytes, b: Block, v: bytes)
    requires Alike(p, u, b, v) && p.done
    ensures u == v
  {
    CutRight(p.temp, u, 0);
    CutRight(b.temp, v, 0);
  }

  /** Re-encoding a finished reply fails exactly for a bad integer. */
  lemma MadeUnlessBad(p: Parser, u: bytes, b: Block)
    requires Alike(p, u, b, u) && p.done && HasValue(b)
    requires p.kind == IntReply ==> p.items[0].Text?
    ensures Made(b).None? <==> BadInteger(p)
  {
  }

  /** A finished integer reply has a text. */
  lemma IntegersHaveText(p: Parser, u: bytes)
    requires p.Valid() && !p.done
    ensures var o := Parse(p, u); o.Step? && o.p.kind == IntReply ==> o.p.done && o.p.items != [] && o.p.items[0].Text?
  {
  }

  /**
   Bisimulation, one call: from states that are alike, `RedisParse` and `RedisBlock` reach states that are
   alike, or fail together; only an integer reply whose text is no `int` fails in `RedisBlock` alone.
   */
  lemma SameStep(p: Parser, u: bytes, b: Block, v: bytes)
    requires Alike(p, u, b, v) && !p.done && v != []
    ensures OutcomesAlike(Parse(p, u), BlockRecv(b, v))
  {
    SameRead(p, u, b, v);
    IntegersHaveText(p, u);
    var o, r := Parse(p, u), BlockRead(b, v);
    if o.Step? && o.p.done {
      SameLeft(o.p, o.rest, r.b, r.rest);
      MadeUnlessBad(o.p, o.rest, r.b);
    }
  }

  lemma AlikeMore(p: Parser, u: bytes, b: Block, chunk: bytes)
    requires Alike(p, u, b, []) && !p.done
    ensures Alike(p, u + chunk, b, chunk)
  {
    assert b.temp + [] == b.temp;
    Regroup(p.temp, u, chunk);
  }

  // ---------------------------------------------------------------- whole streams

  /** Chunks are fed until a reply is finished or a call fails; those after that are not looked at. */
  function ParseChunks(o: Outcome, chunks: seq<bytes>): Outcome
    requires o.Step? ==> o.p.Valid()
    decreases |chunks|
  {
    if chunks == [] || o.Failed? || o.p.done then o
    else ParseChunks(Parse(o.p, o.rest + chunks[0]), chunks[1..])
  }

  function BlockChunks(r: BlockOutcome, chunks: seq<bytes>): BlockOutcome
    requires r.BlockStep? ==> r.b.Valid()
    decreases |chunks|
  {
    if chunks == [] || r.BlockFailed? || r.b.state.Done? then r
    else BlockChunks(BlockRecv(r.b, r.rest + chunks[0]), chunks[1..])
  }

  lemma {:induction false} SameChunks(o: Outcome, r: BlockOutcome, chunks: seq<bytes>)
    requires OutcomesAlike(o, r) && [] !in chunks
    ensures OutcomesAlike(ParseChunks(o, chunks), BlockChunks(r, chunks))
    decreases |chunks|
  {
    if chunks != [] && o.Step? && !o.p.done {
      assert [] + chunks[0] == chunks[0] && chunks[0] in chunks;
      AlikeMore(o.p, o.rest, r.b, chunks[0]);
      SameStep(o.p, o.rest + chunks[0], r.b, chunks[0]);
      SameChunks(Parse(o.p, o.rest + chunks[0]), BlockRecv(r.b, chunks[0]), chunks[1..]);
    }
  }

  /** Bisimulation over every stream and every way to cut it, harmful cuts included. */
  lemma Bisimulation(chunks: seq<bytes>)
    requires [] !in chunks
    ensures OutcomesAlike(ParseChunks(Step(START, []), chunks), BlockChunks(BlockStep(FRESH_BLOCK, []), chunks))
  {
    SameChunks(Step(START, []), BlockStep(FRESH_BLOCK, []), chunks);
  }

  // ---------------------------------------------------------------- pipelines

  /** The read loop of a connection whose blocks are `RedisBlock`. */
  datatype BlockClient =
    | Down(out: seq<Block>)
    | Up(out: seq<Block>, b: Block, rest: bytes)
  {
    function Posted(before: seq<Block>): BlockClient { this.(out := before + out) }

    predicate Valid() { Up? ==> b.Valid() && !b.state.Done? }
  }

  /** It takes everything there is: what stays in the receive buffer is nothing, so there is always room. */
  function BlockDrive(b: Block, v: bytes): (c: BlockClient)
    requires b.Valid() && !b.state.Done?
    ensures c.Valid() && (c.Up? ==> c.rest == [])
    decreases |v|
  {
    if v == [] then Up([], b, [])
    else
      match BlockRecv(b, v)
      case BlockFailed => Down([])
      case BlockStep(c, rest) =>
        if c.state.Done? then BlockDrive(FRESH_BLOCK, rest).Posted([c]) else Up([], c, rest)
  }

  function BlockDriveChunk(c: BlockClient, chunk: bytes): (r: BlockClient)
    requires c.Valid()
    ensures r.Valid() && (r.Up? ==> r.rest == [])
  {
    if c.Down? then c else BlockDrive(c.b, c.rest + chunk).Posted(c.out)
  }

  function BlockDriveAll(c: BlockClient, chunks: seq<bytes>): BlockClient
    requires c.Valid()
    decreases |chunks|
  {
    if chunks == [] then c else BlockDriveAll(BlockDriveChunk(c, chunks[0]), chunks[1..])
  }

  /** Two finished readers of the same reply. */
  predicate SameReply(p: Parser, b: Block)
  {
    p.done && b.state.Done? && p.kind == b.kind && p.count == b.count && p.items == b.items && !BadInteger(p)
  }

  /**
   Both loops have posted the same replies and stand alike, or both have failed; or the loop over `RedisBlock`
   has failed at a bad integer, which the other one has posted next.
   */
  predicate ClientsAlike(c: Client, d: BlockClient)
  {
    && |d.out| <= |c.out|
    && (forall k :: 0 <= k < |d.out| ==> SameReply(c.out[k], d.out[k]))
    && match d
       case Up(out, b, rest) => c.Alive? && |c.out| == |out| && Alike(c.p, c.rest, b, rest) && !c.p.done && rest == []
       case Down(out) => if |c.out| == |out| then c.Dead? else BadInteger(c.out[|out|])
  }

  lemma PostedAlike(c: Client, d: BlockClient, p: Parser, b: Block)
    requires ClientsAlike(c, d) && SameReply(p, b)
    ensures ClientsAlike(c.Posted([p]), d.Posted([b]))
  {
  }

  /** A turn of both loops that finishes no reply, or fails. */
  lemma SameLastTurn(p: Parser, u: bytes, b: Block, v: bytes)
    requires Alike(p, u, b, v) && !p.done && u != [] && v != []
    requires OutcomesAlike(Parse(p, u), BlockRecv(b, v))
    requires Parse(p, u).Step? && Parse(p, u).p.done ==> BlockRecv(b, v).BlockFailed?
    ensures ClientsAlike(Drive(p, u), BlockDrive(b, v))
  {
  }

  /** A turn of both loops that finishes a reply, and the turns after it. */
  lemma SameWholeTurn(p: Parser, u: bytes, b: Block, v: bytes, rest: bytes)
    requires Alike(p, u, b, v) && !p.done && u != [] && v != []
    requires var (o, r) := (Parse(p, u), BlockRecv(b, v));
      o.Step? && o.p.done && o.rest == rest && r.BlockStep? && r.b.state.Done? && r.rest == rest && SameReply(o.p, r.b)
    requires ClientsAlike(Drive(START, rest), BlockDrive(FRESH_BLOCK, rest))
    ensures ClientsAlike(Drive(p, u), BlockDrive(b, v))
  {
    PostedAlike(Drive(START, rest), BlockDrive(FRESH_BLOCK, rest), Parse(p, u).p, BlockRecv(b, v).b);
  }

  lemma {:induction false} SameDrive(p: Parser, u: bytes, b: Block, v: bytes)
    requires Alike(p, u, b, v) && !p.done && (v == [] ==> u == [])
    ensures ClientsAlike(Drive(p, u), BlockDrive(b, v))
    decreases |u|
  {
    assert |p.temp + u| == |b.temp + v|;
    if v != [] {
      SameStep(p, u, b, v);
      var o, r := Parse(p, u), BlockRecv(b, v);
      if o.Step? && o.p.done && r.BlockStep? {
        SameLeft(o.p, o.rest, r.b, r.rest);
        SameDrive(START, o.rest, FRESH_BLOCK, o.rest);
        SameWholeTurn(p, u, b, v, o.rest);
      } else {
        SameLastTurn(p, u, b, v);
      }
    }
  }

  lemma SameAgain(c: Client, d: BlockClient, before: seq<Parser>, posted: seq<Block>)
    requires ClientsAlike(c, d) && |before| == |posted|
    requires forall k :: 0 <= k < |before| ==> SameReply(before[k], posted[k])
    ensures ClientsAlike(c.Posted(before), d.Posted(posted))
  {
  }

  lemma SameChunk(c: Client, d: BlockClient, chunk: bytes)
    requires c.Valid() && d.Valid() && ClientsAlike(c, d) && chunk != []
    ensures ClientsAlike(DriveChunk(c, chunk), BlockDriveChunk(d, chunk))
  {
    if d.Up? {
      assert [] + chunk == chunk;
      AlikeMore(c.p, c.rest, d.b, chunk);
      SameDrive(c.p, c.rest + chunk, d.b, chunk);
      SameAgain(Drive(c.p, c.rest + chunk), BlockDrive(d.b, chunk), c.out, d.out);
    }
  }

  lemma {:induction false} SameClients(c: Client, d: BlockClient, chunks: seq<bytes>)
    requires c.Valid() && d.Valid() && ClientsAlike(c, d) && [] !in chunks
    ensures ClientsAlike(DriveAll(c, chunks), BlockDriveAll(d, chunks))
    decreases |chunks|
  {
    if chunks != [] {
      assert chunks[0] in chunks;
      SameChunk(c, d, chunks[0]);
      SameClients(DriveChunk(c, chunks[0]), BlockDriveChunk(d, chunks[0]), chunks[1..]);
    }
  }

  /** Bisimulation over whole connections: reply after reply, for every stream and every way to cut it. */
  lemma SamePipeline(chunks: seq<bytes>)
    requires [] !in chunks
    ensures ClientsAlike(DriveAll(Alive([], START, []), chunks), BlockDriveAll(Up([], FRESH_BLOCK, []), chunks))
  {
    SameClients(Alive([], START, []), Up([], FRESH_BLOCK, []), chunks);
  }

  // ---------------------------------------------------------------- delivery

  predicate Delivered(b: Block) { Sized(b) && b.state.Done? && Made(b).Some? }

  predicate AllDelivered(out: seq<Block>) { forall k :: 0 <= k < |out| ==> Delivered(out[k]) }

  lemma {:induction false} DriveDelivers(b: Block, v: bytes)
    requires Sized(b) && !b.state.Done?
    ensures var c := BlockDrive(b, v); AllDelivered(c.out) && (c.Up? ==> Sized(c.b))
    decreases |v|
  {
    if v != [] {
      ReadSized(b, v);
      var r := BlockRecv(b, v);
      if r.BlockStep? && r.b.state.Done? {
        DriveDelivers(FRESH_BLOCK, r.rest);
      }
    }
  }

  lemma {:induction false} AllDriveDelivers(c: BlockClient, chunks: seq<bytes>)
    requires c.Valid() && AllDelivered(c.out) && (c.Up? ==> Sized(c.b))
    ensures AllDelivered(BlockDriveAll(c, chunks).out)
    decreases |chunks|
  {
    if chunks != [] {
      if c.Up? {
        DriveDelivers(c.b, c.rest + chunks[0]);
      }
      AllDriveDelivers(BlockDriveChunk(c, chunks[0]), chunks[1..]);
    }
  }

  /**
   Whatever the stream and its fragmentation, every reply finished by `RedisBlock` is delivered in a buffer
   of exactly the announced size, never reallocated, that reads back as the reply.
   */
  lemma DeliveredExactly(chunks: seq<bytes>, k: nat)
    requires k < |BlockDriveAll(Up([], FRESH_BLOCK, []), chunks).out|
    ensures var b := BlockDriveAll(Up([], FRESH_BLOCK, []), chunks).out[k];
      && Delivered(b)
      && var d := Made(b).value;
         |d.content| == d.cap == b.recvSize && d.reallocs == 0 && Decode(d.content) == Some(Shown(b))
  {
    AllDriveDelivers(Up([], FRESH_BLOCK, []), chunks);
    var b := BlockDriveAll(Up([], FRESH_BLOCK, []), chunks).out[k];
    FinishedBuffer(b);
    ResultRoundTrip(b);
  }

  /** A finished block reports `r`. */
  predicate BlockReport(b: Block, r: Reply)
  {
    b.state.Done? && b.kind == KindOf(r) && Some(b.items) == Reported(r)
  }

  /** `RedisBlock` reads the same replies in one delivery, except for integers that do not fit `int`. */
  lemma BlockReadsReply(r: Reply, rest: bytes)
    ensures var e := BlockRecv(FRESH_BLOCK, Encode(r) + rest);
      (e.BlockStep? && BlockReport(e.b, r) && e.rest == rest)
      <==> WellFormed(r) && (r.Integer? ==> IsInt(r.n))
  {
    var u := Encode(r) + rest;
    ReplyFinished(r, rest);
    assert u != [];
    SameStep(START, u, FRESH_BLOCK, u);
    if r.Integer? {
      LexicalPrint(r.n);
    }
    var o, e := Parse(START, u), BlockRecv(FRESH_BLOCK, u);
    if e.BlockStep? && o.p.done {
      SameLeft(o.p, o.rest, e.b, e.rest);
    }
  }

  predicate BlockPosts(d: BlockClient, rs: seq<Reply>)
  {
    |rs| <= |d.out| && forall k :: 0 <= k < |rs| ==> BlockReport(d.out[k], rs[k])
  }

  predicate IntsFit(rs: seq<Reply>) { forall k :: 0 <= k < |rs| ==> rs[k].Integer? ==> IsInt(rs[k].n) }

  lemma BadIntegerExactly(p: Parser, r: Reply)
    requires Report(p, r)
    ensures BadInteger(p) <==> r.Integer? && !IsInt(r.n)
  {
    if r.Integer? {
      LexicalPrint(r.n);
    }
  }

  lemma BothPost(c: Client, d: BlockClient, rs: seq<Reply>)
    requires ClientsAlike(c, d) && BlockPosts(d, rs)
    ensures Posts(c, rs) && IntsFit(rs)
  {
    forall k | 0 <= k < |rs| ensures Report(c.out[k], rs[k]) && (rs[k].Integer? ==> IsInt(rs[k].n)) {
      assert SameReply(c.out[k], d.out[k]) && BlockReport(d.out[k], rs[k]);
      BadIntegerExactly(c.out[k], rs[k]);
    }
  }

  lemma BlockPostsToo(c: Client, d: BlockClient, rs: seq<Reply>)
    requires ClientsAlike(c, d) && c.Alive? && Reports(c.out, rs) && IntsFit(rs)
    ensures BlockPosts(d, rs) && d.Up? && |d.out| == |rs|
  {
    var n := |d.out|;
    if n < |rs| {
      assert Report(c.out[n], rs[n]);
      BadIntegerExactly(c.out[n], rs[n]);
    }
    forall k | 0 <= k < n ensures BlockReport(d.out[k], rs[k]) {
      assert SameReply(c.out[k], d.out[k]) && Report(c.out[k], rs[k]);
    }
  }

  /**
   A stream of well-formed replies, in any nonempty chunks: `RedisBlock` posts all of them, in order, if and only
   if no cut falls inside an array element and every integer is an `int`. Then it posts nothing else.
   */
  lemma BlockInFragments(rs: seq<Reply>, chunks: seq<bytes>)
    requires AllWellFormed(rs) && Concat(chunks) == EncodeAll(rs) && [] !in chunks
    ensures var d := BlockDriveAll(Up([], FRESH_BLOCK, []), chunks);
      && (BlockPosts(d, rs) <==> StreamCutsClear(rs, 0, chunks) && IntsFit(rs))
      && (BlockPosts(d, rs) ==> d.Up? && |d.out| == |rs|)
  {
    SamePipeline(chunks);
    StreamInFragments(rs, chunks);
    var c, d := DriveAll(Alive([], START, []), chunks), BlockDriveAll(Up([], FRESH_BLOCK, []), chunks);
    if BlockPosts(d, rs) {
      BothPost(c, d, rs);
    }
    if StreamCutsClear(rs, 0, chunks) && IntsFit(rs) {
      BlockPostsToo(c, d, rs);
    }
  }
}
