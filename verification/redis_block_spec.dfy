/**
 The other parser, `RedisBlock`: it takes every byte that arrives, partial lines included, keeps count
 of the size its result will need, and re-encodes a finished reply into a buffer of just that size.
 */
module RedisBlockSpec {
  import opened Bytes
  import opened Decimal
  import opened BufferSpec
  import opened FrameSpec
  import opened RespSpec

  /** "**nonexistent-key**", what `RedisBlock` lists for a null. */
  const NONEXISTENT_KEY: bytes :=
    [42, 42, 110, 111, 110, 101, 120, 105, 115, 116, 101, 110, 116, 45, 107, 101, 121, 42, 42]

  /** `recvSize` is the size announced for the result buffer, which is made when the state becomes done. */
  datatype Block = Block(kind: Kind, state: State, count: nat, bufSize: nat, temp: bytes,
                         items: seq<Item>, recvSize: nat)
  {
    predicate Valid()
    {
      && (kind == NoReply ==> items == [])
      && (kind == BulkReply && !state.Done? ==> 2 <= bufSize && |temp| < bufSize)
      && (kind.StatusReply? || kind.ErrorReply? || kind.IntReply? ==> state.Done?)
    }

    function List(): seq<bytes> { Render(NONEXISTENT_KEY, items) }
  }

  const FRESH_BLOCK: Block := Block(NoReply, Init, 0, 0, [], [], 0)

  const SIZE_OF_TYPE: nat := 4
  const SIZE_OF_INT: nat := 4

  // ---------------------------------------------------------------- the result buffer

  function KindCode(kind: Kind): nat
  {
    match kind
    case NoReply => 0
    case StatusReply => 1
    case ErrorReply => 2
    case IntReply => 3
    case BulkReply => 4
    case MultiBulkReply => 5
  }

  function TailItems(b: Buf, list: seq<bytes>): Buf
    decreases |list|
  {
    if list == [] then b
    else TailItems(b.TailData(LeInt(|list[0]|)).TailData(list[0]), list[1..])
  }

  /** `makeRedisBuffer`, append by append; `None` when an integer reply does not read as an `int`. */
  function MadeBuffer(kind: Kind, list: seq<bytes>, size: nat): Option<Buf>
    requires kind != NoReply && kind != MultiBulkReply ==> list != []
  {
    var b := NewBuf(if size == 0 then 1 else size).TailData(Le32(KindCode(kind)));
    match kind
    case NoReply => Some(b)
    case IntReply =>
      (match LexicalInt(list[0])
       case None => None
       case Some(v) => Some(b.TailData(LeInt(v))))
    case MultiBulkReply => Some(TailItems(b.TailData(LeInt(|list|)), list))
    case _ => Some(b.TailData(list[0]))
  }

  // ---------------------------------------------------------------- recv

  datatype BlockOutcome = BlockFailed | BlockStep(b: Block, rest: bytes)

  function Finish(b: Block): Block { b.(state := Done) }

  /** The result buffer of a finished block. */
  function Made(b: Block): Option<Buf>
    requires b.kind != NoReply && b.kind != MultiBulkReply ==> b.items != []
  {
    MadeBuffer(b.kind, b.List(), b.recvSize)
  }

  /** The reply type of a complete first line. */
  function BlockOpen(b: Block, line: bytes): (r: Option<Block>)
    requires b.Valid() && b.kind == NoReply && !b.state.Done?
    ensures r.Some? ==> r.value.Valid() && HasValue(r.value)
    ensures r.Some? && !r.value.state.Done? ==> r.value.kind == BulkReply || r.value.kind == MultiBulkReply
  {
    var c := b.(kind := ReplyType(line), temp := []);
    match c.kind
    case NoReply => Some(Finish(c.(recvSize := SIZE_OF_TYPE)))
    case StatusReply => Some(Finish(c.(items := [Text(line[1..])], recvSize := SIZE_OF_TYPE + |line| - 1)))
    case ErrorReply =>
      if |line| < 4 then None
      else Some(Finish(c.(items := [Text(line[4..])], recvSize := SIZE_OF_TYPE + |line| - 4)))
    case IntReply => Some(Finish(c.(items := [Text(line[1..])], recvSize := SIZE_OF_TYPE + SIZE_OF_INT)))
    case BulkReply =>
      (match LineNumber(line, MAX_BULK)
       case None => None
       case Some(n) =>
         if n == -1 then
           Some(Finish(c.(bufSize := 0, items := [Null], recvSize := SIZE_OF_TYPE + |NONEXISTENT_KEY|)))
         else Some(c.(bufSize := n + 2, recvSize := SIZE_OF_TYPE, state := Body)))
    case MultiBulkReply =>
      (match LineNumber(line, INT_MAX)
       case None => None
       case Some(n) =>
         if n == -1 then Some(Finish(c.(count := 0, recvSize := SIZE_OF_TYPE + SIZE_OF_INT)))
         else Some(c.(count := n, recvSize := SIZE_OF_TYPE + SIZE_OF_INT, state := Body)))
  }

  /** A finished reply of one value has that value. */
  predicate HasValue(b: Block)
  {
    b.state.Done? && b.kind != NoReply && b.kind != MultiBulkReply ==> b.items != []
  }

  function BlockBulk(b: Block, v: bytes): (r: BlockOutcome)
    requires b.Valid() && b.kind == BulkReply && !b.state.Done?
    ensures r.BlockStep? && r.b.Valid() && HasValue(r.b)
    ensures if r.b.state.Done? then |r.rest| < |v| else r.rest == []
  {
    var need := b.bufSize - |b.temp|;
    if |v| < need then BlockStep(b.(temp := b.temp + v), [])
    else
      var t := (b.temp + v[..need])[..b.bufSize - 2];
      BlockStep(Finish(b.(temp := [], items := b.items + [Text(t)], recvSize := b.recvSize + |t|)), v[need..])
  }

  datatype BlockTurn = LineCut(b: Block) | HeaderBad | PayloadCut(b: Block) | Element(b: Block, rest: bytes)

  /** The value behind a header that announced `n` bytes, or a null. */
  function BlockValue(b: Block, n: int, w: bytes): (t: BlockTurn)
    requires b.Valid() && b.kind == MultiBulkReply && !b.state.Done? && -1 <= n
    ensures t.PayloadCut? || t.Element?
    ensures t.b.Valid() && t.b.kind == MultiBulkReply && !t.b.state.Done?
    ensures t.Element? ==> |t.rest| <= |w|
  {
    if n == -1 then
      Element(b.(items := b.items + [Null],
                 recvSize := b.recvSize + |NONEXISTENT_KEY| + SIZE_OF_INT), w)
    else if |w| < n + 2 then PayloadCut(b.(bufSize := n + 2, temp := w))
    else
      Element(b.(bufSize := n + 2, items := b.items + [Text(w[..n])],
                 recvSize := b.recvSize + SIZE_OF_INT + n), w[n + 2..])
  }

  /** One turn of the array loop. */
  function BlockElement(b: Block, v: bytes): (t: BlockTurn)
    requires b.Valid() && b.kind == MultiBulkReply && !b.state.Done?
    ensures t.LineCut? || t.PayloadCut? || t.Element? ==> t.b.Valid() && t.b.kind == MultiBulkReply && !t.b.state.Done?
    ensures t.Element? ==> |t.rest| < |v|
  {
    match ReadLine(b.temp, v)
    case None => LineCut(b.(temp := b.temp + v))  // a partial line is taken too
    case Some((line, w)) =>
      match LineNumber(line, MAX_BULK)
      case None => HeaderBad
      case Some(n) => BlockValue(b.(state := Body, bufSize := 0, temp := []), n, w)
  }

  function BlockElements(b: Block, v: bytes): (r: BlockOutcome)
    requires b.Valid() && b.kind == MultiBulkReply && !b.state.Done?
    ensures r.BlockStep? ==> r.b.Valid() && r.b.kind == MultiBulkReply
    ensures r.BlockStep? ==> if r.b.state.Done? then |r.rest| < |v| else r.rest == []
    decreases |v|
  {
    match BlockElement(b, v)
    case LineCut(c) => BlockStep(c, [])
    case HeaderBad => BlockFailed
    case PayloadCut(c) => BlockStep(c, [])
    case Element(c, w) => if |c.items| == c.count then BlockStep(Finish(c), w) else BlockElements(c, w)
  }

  function BlockBody(b: Block, v: bytes): (r: BlockOutcome)
    requires b.Valid() && !b.state.Done? && (b.kind == BulkReply || b.kind == MultiBulkReply)
    ensures r.BlockStep? ==> r.b.Valid() && HasValue(r.b)
    ensures r.BlockStep? ==> if r.b.state.Done? then |r.rest| < |v| else r.rest == []
  {
    if b.kind == BulkReply then BlockBulk(b, v) else BlockElements(b, v)
  }

  /** What a call reads from the unread bytes `v`. */
  function BlockRead(b: Block, v: bytes): (r: BlockOutcome)
    requires b.Valid() && !b.state.Done?
    ensures r.BlockStep? ==> r.b.Valid() && HasValue(r.b)
    ensures r.BlockStep? ==> if r.b.state.Done? then |r.rest| < |v| else r.rest == []
  {
    if b.kind != NoReply then BlockBody(b, v)
    else
      match ReadLine(b.temp, v)
      case None => BlockStep(b.(temp := b.temp + v), [])
      case Some((line, w)) =>
        match BlockOpen(b, line)
        case None => BlockFailed
        case Some(c) => if c.state.Done? then BlockStep(c, w) else BlockBody(c, w)
  }

  /** One call of `recv`: a reply it finishes is re-encoded at once, which fails for a bad integer. */
  function BlockRecv(b: Block, v: bytes): (r: BlockOutcome)
    requires b.Valid() && !b.state.Done?
    ensures r.BlockStep? ==> r.b.Valid() && HasValue(r.b) && (r.b.state.Done? ==> Made(r.b).Some?)
    ensures r.BlockStep? ==> if r.b.state.Done? then |r.rest| < |v| else r.rest == []
  {
    var r := BlockRead(b, v);
    if r.BlockStep? && r.b.state.Done? && Made(r.b).None? then BlockFailed else r
  }

  // ---------------------------------------------------------------- size accounting

  /** The lengths of all strings, and `each` bytes besides for every one. */
  function Total(list: seq<bytes>, each: nat): nat
  {
    if list == [] then 0 else |list[0]| + each + Total(list[1..], each)
  }

  lemma {:induction false} TotalSnoc(list: seq<bytes>, x: bytes, each: nat)
    ensures Total(list + [x], each) == Total(list, each) + |x| + each
  {
    if list == [] {
      assert [x][1..] == [];
    } else {
      assert (list + [x])[1..] == list[1..] + [x];
      TotalSnoc(list[1..], x, each);
    }
  }

  /** The size of a re-encoded reply. */
  function SizeOf(kind: Kind, list: seq<bytes>): nat
  {
    match kind
    case NoReply => SIZE_OF_TYPE
    case IntReply => SIZE_OF_TYPE + SIZE_OF_INT
    case MultiBulkReply => SIZE_OF_TYPE + SIZE_OF_INT + Total(list, SIZE_OF_INT)
    case _ => SIZE_OF_TYPE + Total(list, 0)
  }

  /** `recvSize` is right for what has been read so far. */
  predicate Sized(b: Block)
  {
    && b.Valid()
    && (b.kind != NoReply || b.state.Done? ==> b.recvSize == SizeOf(b.kind, b.List()))
    && (b.kind == BulkReply && !b.state.Done? ==> b.items == [])
    && (b.kind != NoReply && b.kind != MultiBulkReply && b.state.Done? ==> |b.items| == 1)
    && (b.kind == MultiBulkReply ==>
          b.count <= INT_MAX && forall x :: x in b.items ==> x.Text? ==> |x.text| <= MAX_BULK)
    && (b.kind == MultiBulkReply && b.state.Done? ==> |b.items| == b.count)
  }

  lemma ListOfOne(b: Block, x: Item)
    requires b.items == [x]
    ensures var t := if x.Null? then NONEXISTENT_KEY else x.text;
      b.List() == [t] && Total(b.List(), 0) == |t|
  {
  }

  /** A block about to finish with one value. */
  lemma OneSized(c: Block, x: Item)
    requires c.kind != NoReply && c.kind != MultiBulkReply && c.items == [x]
    requires c.recvSize == if c.kind == IntReply then SIZE_OF_TYPE + SIZE_OF_INT
                           else SIZE_OF_TYPE + if x.Null? then |NONEXISTENT_KEY| else |x.text|
    ensures Sized(Finish(c))
  {
    ListOfOne(c, x);
  }

  lemma OpenSized(b: Block, line: bytes)
    requires b.Valid() && b.kind == NoReply && !b.state.Done?
    ensures var r := BlockOpen(b, line); r.Some? ==> Sized(r.value)
  {
    var c := b.(kind := ReplyType(line), temp := []);
    match c.kind
    case StatusReply =>
      OneSized(c.(items := [Text(line[1..])], recvSize := SIZE_OF_TYPE + |line| - 1), Text(line[1..]));
    case ErrorReply =>
      if 4 <= |line| {
        OneSized(c.(items := [Text(line[4..])], recvSize := SIZE_OF_TYPE + |line| - 4), Text(line[4..]));
      }
    case IntReply =>
      OneSized(c.(items := [Text(line[1..])], recvSize := SIZE_OF_TYPE + SIZE_OF_INT), Text(line[1..]));
    case BulkReply =>
      OneSized(c.(bufSize := 0, items := [Null], recvSize := SIZE_OF_TYPE + |NONEXISTENT_KEY|), Null);
    case _ =>
  }

  lemma ElementAdds(b: Block, c: Block, x: Item)
    requires Sized(b) && b.kind == MultiBulkReply && !b.state.Done?
    requires x.Text? ==> |x.text| <= MAX_BULK
    requires c == b.(state := Body, temp := c.temp, bufSize := c.bufSize,
                     items := b.items + [x], recvSize := c.recvSize)
    requires c.recvSize == b.recvSize + SIZE_OF_INT + if x.Null? then |NONEXISTENT_KEY| else |x.text|
    ensures Sized(c)
  {
    RenderSnoc(NONEXISTENT_KEY, b.items, x);
    TotalSnoc(b.List(), if x.Null? then NONEXISTENT_KEY else x.text, SIZE_OF_INT);
  }

  lemma ElementSized(b: Block, v: bytes)
    requires Sized(b) && b.kind == MultiBulkReply && !b.state.Done?
    ensures var t := BlockElement(b, v); t.LineCut? || t.PayloadCut? || t.Element? ==> Sized(t.b)
  {
    var t := BlockElement(b, v);
    if t.Element? {
      var (line, w) := ReadLine(b.temp, v).value;
      var n := LineNumber(line, MAX_BULK).value;
      ElementAdds(b, t.b, if n == -1 then Null else Text(w[..n]));
    }
  }

  lemma {:induction false} ElementsSized(b: Block, v: bytes)
    requires Sized(b) && b.kind == MultiBulkReply && !b.state.Done?
    ensures var r := BlockElements(b, v); r.BlockStep? ==> Sized(r.b)
    decreases |v|
  {
    ElementSized(b, v);
    match BlockElement(b, v)
    case Element(c, w) =>
      if |c.items| != c.count {
        ElementsSized(c, w);
      }
    case _ =>
  }

  lemma BodySized(b: Block, v: bytes)
    requires Sized(b) && !b.state.Done? && (b.kind == BulkReply || b.kind == MultiBulkReply)
    ensures var r := BlockBody(b, v); r.BlockStep? ==> Sized(r.b)
  {
    if b.kind == MultiBulkReply {
      ElementsSized(b, v);
    } else {
      var r := BlockBulk(b, v);
      if r.BlockStep? && r.b.state.Done? {
        ListOfOne(r.b, r.b.items[0]);
      }
    }
  }

  /** However a reply is resumed, nulls included, `recvSize` stays the size of what has been read. */
  lemma ReadSized(b: Block, v: bytes)
    requires Sized(b) && !b.state.Done?
    ensures var r := BlockRead(b, v); r.BlockStep? ==> Sized(r.b)
  {
    if b.kind != NoReply {
      BodySized(b, v);
    } else if ReadLine(b.temp, v).Some? {
      var (line, w) := ReadLine(b.temp, v).value;
      OpenSized(b, line);
      var r := BlockOpen(b, line);
      if r.Some? && !r.value.state.Done? {
        BodySized(r.value, w);
      }
    }
  }

  // ---------------------------------------------------------------- the bytes of the result

  function SerializeItems(list: seq<bytes>): bytes
  {
    if list == [] then [] else (LeInt(|list[0]|) + list[0]) + SerializeItems(list[1..])
  }

  function Serialize(kind: Kind, list: seq<bytes>): bytes
    requires kind != NoReply && kind != MultiBulkReply ==> list != []
  {
    Le32(KindCode(kind)) +
    match kind
    case NoReply => []
    case IntReply => LeInt(match LexicalInt(list[0]) case Some(v) => v case None => 0)
    case MultiBulkReply => LeInt(|list|) + SerializeItems(list)
    case _ => list[0]
  }

  /** A buffer that was never reallocated and holds `content`. */
  function Packed(content: bytes, cap: nat): Buf { Buf(content, 0, cap, false, 0, 0) }

  lemma PackedTail(content: bytes, cap: nat, d: bytes)
    requires |content| + |d| <= cap
    ensures Packed(content, cap).TailData(d) == Packed(content + d, cap)
  {
  }

  lemma {:induction false} TailItemsPacked(content: bytes, cap: nat, list: seq<bytes>)
    requires |content| + Total(list, SIZE_OF_INT) <= cap
    ensures TailItems(Packed(content, cap), list) == Packed(content + SerializeItems(list), cap)
    ensures |SerializeItems(list)| == Total(list, SIZE_OF_INT)
    decreases |list|
  {
    if list == [] {
      assert content + [] == content;
    } else {
      var x := list[0];
      PackedTail(content, cap, LeInt(|x|));
      PackedTail(content + LeInt(|x|), cap, x);
      Regroup(content, LeInt(|x|), x);
      TailItemsPacked(content + (LeInt(|x|) + x), cap, list[1..]);
      Regroup(content, LeInt(|x|) + x, SerializeItems(list[1..]));
    }
  }

  /**
   Exact size: made with the size of its contents, the result buffer is filled to the last byte, never
   reallocated, and holds the serialized reply.
   */
  lemma ExactSize(kind: Kind, list: seq<bytes>)
    requires kind != NoReply && kind != MultiBulkReply ==> |list| == 1
    requires MadeBuffer(kind, list, SizeOf(kind, list)).Some?
    ensures MadeBuffer(kind, list, SizeOf(kind, list)).value == Packed(Serialize(kind, list), SizeOf(kind, list))
    ensures |Serialize(kind, list)| == SizeOf(kind, list)
  {
    var size, code := SizeOf(kind, list), Le32(KindCode(kind));
    PackedTail([], size, code);
    assert [] + code == code;
    match kind
    case NoReply => assert code + [] == code;
    case IntReply => PackedTail(code, size, LeInt(LexicalInt(list[0]).value));
    case MultiBulkReply =>
      PackedTail(code, size, LeInt(|list|));
      TailItemsPacked(code + LeInt(|list|), size, list);
      Regroup(code, LeInt(|list|), SerializeItems(list));
    case _ =>
      assert [] + [list[0]] == list;
      TotalSnoc([], list[0], 0);
      PackedTail(code, size, list[0]);
  }

  /** A finished block hands over the serialized reply in a full buffer that never grew. */
  lemma FinishedBuffer(b: Block)
    requires Sized(b) && b.state.Done? && Made(b).Some?
    ensures Made(b) == Some(Packed(Serialize(b.kind, b.List()), b.recvSize))
    ensures |Serialize(b.kind, b.List())| == b.recvSize
  {
    ExactSize(b.kind, b.List());
  }

  // ---------------------------------------------------------------- reading the result back

  datatype Decoded = Decoded(kind: Kind, texts: seq<bytes>, number: int)

  function KindOfCode(n: nat): Option<Kind>
  {
    match n
    case 0 => Some(NoReply)
    case 1 => Some(StatusReply)
    case 2 => Some(ErrorReply)
    case 3 => Some(IntReply)
    case 4 => Some(BulkReply)
    case 5 => Some(MultiBulkReply)
    case _ => None
  }

  function DecodeItems(u: bytes, count: nat): Option<(seq<bytes>, bytes)>
    decreases count
  {
    if count == 0 then Some(([], u))
    else if |u| < SIZE_OF_INT then None
    else
      var len := FromLeInt(u[..SIZE_OF_INT]);
      var v := u[SIZE_OF_INT..];
      if len < 0 || |v| < len then None
      else
        match DecodeItems(v[len..], count - 1)
        case None => None
        case Some((list, rest)) => Some(([v[..len]] + list, rest))
  }

  /** What a receiver makes of the result buffer: the type, then what the type calls for. */
  function Decode(u: bytes): Option<Decoded>
  {
    if |u| < SIZE_OF_TYPE then None
    else
      var v := u[SIZE_OF_TYPE..];
      match KindOfCode(FromLe32(u[..SIZE_OF_TYPE]))
      case None => None
      case Some(NoReply) => Some(Decoded(NoReply, [], 0))
      case Some(IntReply) =>
        if |v| < SIZE_OF_INT then None else Some(Decoded(IntReply, [], FromLeInt(v[..SIZE_OF_INT])))
      case Some(MultiBulkReply) =>
        if |v| < SIZE_OF_INT || FromLeInt(v[..SIZE_OF_INT]) < 0 then None
        else
          (match DecodeItems(v[SIZE_OF_INT..], FromLeInt(v[..SIZE_OF_INT]))
           case None => None
           case Some((list, _)) => Some(Decoded(MultiBulkReply, list, 0)))
      case Some(kind) => Some(Decoded(kind, [v], 0))
  }

  predicate Short(list: seq<bytes>) { forall k :: 0 <= k < |list| ==> |list[k]| <= INT_MAX }

  lemma DecodeOne(x: bytes, later: bytes, count: nat)
    requires |x| <= INT_MAX
    ensures DecodeItems((LeInt(|x|) + x) + later, count + 1) ==
      match DecodeItems(later, count)
      case None => None
      case Some((list, rest)) => Some(([x] + list, rest))
  {
    var e := LeInt(|x|);
    LeIntRoundTrip(|x|);
    Regroup(e, x, later);
    CutRight(e, x + later, 0);
    CutLeft(e, x + later, SIZE_OF_INT);
    CutRight(x, later, 0);
    CutLeft(x, later, |x|);
    assert x[..|x|] == x && e[..SIZE_OF_INT] == e;
  }

  lemma {:induction false} ItemsRoundTrip(list: seq<bytes>)
    requires Short(list)
    ensures DecodeItems(SerializeItems(list), |list|) == Some((list, []))
    decreases |list|
  {
    if list != [] {
      ItemsRoundTrip(list[1..]);
      DecodeOne(list[0], SerializeItems(list[1..]), |list| - 1);
      assert [list[0]] + list[1..] == list;
    }
  }

  lemma ListRoundTrip(list: seq<bytes>)
    requires Short(list) && |list| <= INT_MAX
    ensures var v := LeInt(|list|) + SerializeItems(list);
      FromLeInt(v[..SIZE_OF_INT]) == |list| && DecodeItems(v[SIZE_OF_INT..], |list|) == Some((list, []))
  {
    LeIntRoundTrip(|list|);
    CutRight(LeInt(|list|), SerializeItems(list), 0);
    assert LeInt(|list|) + SerializeItems(list)[..0] == LeInt(|list|);
    ItemsRoundTrip(list);
  }

  lemma ArrayShort(b: Block)
    requires Sized(b) && b.kind == MultiBulkReply
    ensures Short(b.List())
  {
  }

  lemma DecodeHead(kind: Kind, v: bytes)
    ensures var u := Le32(KindCode(kind)) + v;
      u[..SIZE_OF_TYPE] == Le32(KindCode(kind)) && u[SIZE_OF_TYPE..] == v
      && KindOfCode(FromLe32(u[..SIZE_OF_TYPE])) == Some(kind)
  {
  }

  /** What a client should see of a finished block. */
  function Shown(b: Block): Decoded
    requires Sized(b) && b.state.Done? && Made(b).Some?
  {
    if b.kind == IntReply then Decoded(IntReply, [], LexicalInt(b.List()[0]).value) else Decoded(b.kind, b.List(), 0)
  }

  /**
   Re-encoding loses nothing: the result buffer of a finished block reads back as its type and its
   values, the number for an integer reply, the strings as the client sees them otherwise.
   */
  lemma ResultRoundTrip(b: Block)
    requires Sized(b) && b.state.Done? && Made(b).Some?
    ensures Decode(Made(b).value.content) == Some(Shown(b))
  {
    FinishedBuffer(b);
    SerializedReadsBack(b);
  }

  lemma SerializedReadsBack(b: Block)
    requires Sized(b) && b.state.Done? && Made(b).Some?
    ensures Decode(Serialize(b.kind, b.List())) == Some(Shown(b))
  {
    var list := b.List();
    var v := Serialize(b.kind, list)[SIZE_OF_TYPE..];
    CutRight(Le32(KindCode(b.kind)), v, 0);
    assert Serialize(b.kind, list) == Le32(KindCode(b.kind)) + v;
    DecodeHead(b.kind, v);
    match b.kind
    case NoReply =>
    case IntReply =>
      LeIntRoundTrip(LexicalInt(list[0]).value);
      assert v[..SIZE_OF_INT] == v;
    case MultiBulkReply =>
      ArrayShort(b);
      ListRoundTrip(list);
    case _ => assert list == [list[0]];
  }
}
