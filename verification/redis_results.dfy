/** The result buffers of `RedisBlock`, byte by byte, and from the wire to the client. */
module RedisResults {
  import opened Bytes
  import opened Decimal
  import opened BufferSpec
  import opened RespSpec
  import opened RespGrammar
  import opened RespReplies
  import opened RespBytes
  import opened RedisBlockSpec
  import opened RedisBisimulation

  /** The `unsigned int` at the front, low byte first. */
  predicate Word(u: bytes, n: int)
  {
    4 <= |u| && u[0] as int + 256 * u[1] as int + 65536 * u[2] as int + 16777216 * u[3] as int == n
  }

  /** Every string behind its length. */
  predicate Laid(u: bytes, list: seq<bytes>)
    decreases |list|
  {
    if list == [] then u == []
    else
      var n := |list[0]|;
      4 + n <= |u| && Word(u, n) && u[4..4 + n] == list[0] && Laid(u[4 + n..], list[1..])
  }

  /** The enumeration the type word is taken from. */
  function TypeWord(kind: Kind): bytes
  {
    match kind
    case NoReply => [0, 0, 0, 0]
    case StatusReply => [1, 0, 0, 0]
    case ErrorReply => [2, 0, 0, 0]
    case IntReply => [3, 0, 0, 0]
    case BulkReply => [4, 0, 0, 0]
    case MultiBulkReply => [5, 0, 0, 0]
  }

  lemma TypeWordWritten(kind: Kind)
    ensures Le32(KindCode(kind)) == TypeWord(kind)
  {
  }

  lemma WordRead(b: bytes)
    requires |b| == 4
    ensures Word(b, FromLe32(b))
  {
  }

  lemma NumberWritten(v: int)
    ensures Word(LeInt(v), v % 0x1_0000_0000)
  {
    Le32Fits(v % TWO_32);
    WordRead(LeInt(v));
  }

  lemma LengthWritten(n: nat)
    requires n <= INT_MAX
    ensures Word(LeInt(n), n)
  {
    NumberWritten(n);
    SmallModulo(n);
  }

  lemma SmallModulo(n: nat)
    requires n <= INT_MAX
    ensures n % 0x1_0000_0000 == n
  {
  }

  lemma WordInFront(e: bytes, n: int, later: bytes)
    requires Word(e, n)
    ensures Word(e + later, n)
  {
  }

  lemma LaidInFront(e: bytes, x: bytes, later: bytes, list: seq<bytes>)
    requires |e| == 4 && Word(e, |x|) && Laid(later, list)
    ensures Laid((e + x) + later, [x] + list)
  {
    var u := (e + x) + later;
    Regroup(e, x, later);
    WordInFront(e, |x|, x + later);
    CutRight(e + x, later, 0);
    assert u[4..4 + |x|] == x;
    assert ([x] + list)[1..] == list;
  }

  lemma {:induction false} ItemsLaid(list: seq<bytes>)
    requires Short(list)
    ensures Laid(SerializeItems(list), list)
    decreases |list|
  {
    if list != [] {
      ItemsLaid(list[1..]);
      LengthWritten(|list[0]|);
      LaidInFront(LeInt(|list[0]|), list[0], SerializeItems(list[1..]), list[1..]);
      assert [list[0]] + list[1..] == list;
    }
  }

  /** The bytes of a result, as far as its type goes. */
  predicate Shows(u: bytes, kind: Kind, list: seq<bytes>)
  {
    && TypeWord(kind) <= u
    && match kind
       case NoReply => |u| == 4
       case IntReply => |u| == 8 && |list| == 1 && LexicalInt(list[0]).Some?
         && Word(u[4..], LexicalInt(list[0]).value % 0x1_0000_0000)
       case MultiBulkReply => 8 <= |u| && Word(u[4..], |list|) && Laid(u[8..], list)
       case _ => |list| == 1 && u[4..] == list[0]
  }

  /**
   The result buffer of every finished block: the type word, then nothing for an unknown reply, the text of a
   status, an error or a bulk string, the number of an integer in two's complement, and for an array the number
   of its strings and every string behind its length.
   */
  lemma ResultBytes(b: Block)
    requires Sized(b) && b.state.Done? && Made(b).Some?
    ensures Shows(Made(b).value.content, b.kind, b.List())
  {
    FinishedBuffer(b);
    TypeWordWritten(b.kind);
    var list, t := b.List(), TypeWord(b.kind);
    match b.kind
    case NoReply =>
    case IntReply =>
      NumberWritten(LexicalInt(list[0]).value);
      TextShown(t, LeInt(LexicalInt(list[0]).value));
    case MultiBulkReply =>
      ArrayShort(b);
      ItemsLaid(list);
      LengthWritten(|list|);
      ArrayShown(t, LeInt(|list|), SerializeItems(list), list);
    case _ => TextShown(t, list[0]);
  }

  lemma TextShown(t: bytes, text: bytes)
    requires |t| == 4
    ensures t <= t + text && (t + text)[4..] == text
  {
  }

  lemma ArrayShown(t: bytes, e: bytes, later: bytes, list: seq<bytes>)
    requires |t| == |e| == 4 && Word(e, |list|) && Laid(later, list)
    ensures var u := t + (e + later); t <= u && 8 <= |u| && Word(u[4..], |list|) && Laid(u[8..], list)
  {
    TextShown(t, e + later);
    WordInFront(e, |list|, later);
    Regroup(t, e, later);
    CutRight(t + e, later, 0);
  }

  // ---------------------------------------------------------------- from the wire to the client

  /** `u`, whatever follows it, is a reply in itself, and `result` is what the client is handed. */
  predicate Delivers(u: bytes, rest: bytes, result: bytes)
  {
    var e := BlockRecv(FRESH_BLOCK, u + rest);
    e.BlockStep? && e.b.state.Done? && e.rest == rest && Made(e.b).Some? && Made(e.b).value.content == result
  }

  lemma ReplyDelivers(r: Reply, rest: bytes)
    requires WellFormed(r) && (r.Integer? ==> IsInt(r.n))
    ensures Reported(r).Some?
    ensures var list := Render(NONEXISTENT_KEY, Reported(r).value);
      && (KindOf(r) != MultiBulkReply ==> list != [])
      && Delivers(Encode(r), rest, Serialize(KindOf(r), list))
  {
    BlockReadsReply(r, rest);
    ReadSized(FRESH_BLOCK, Encode(r) + rest);
    FinishedBuffer(BlockRecv(FRESH_BLOCK, Encode(r) + rest).b);
  }

  lemma StatusResult(s: bytes, rest: bytes)
    requires LineText(s)
    ensures Delivers(Line(PLUS_SIGN, s), rest, [1, 0, 0, 0] + s)
  {
    ReplyDelivers(Status(s), rest);
    TypeWordWritten(StatusReply);
  }

  lemma ErrorResult(s: bytes, rest: bytes)
    requires LineText(s) && 3 <= |s|
    ensures Delivers(Line(MINUS_SIGN, s), rest, [2, 0, 0, 0] + s[3..])
  {
    ReplyDelivers(Error(s), rest);
    TypeWordWritten(ErrorReply);
  }

  /** "+OK CRLF" */
  lemma StatusDelivered(rest: bytes)
    ensures Delivers([43, 79, 75, 13, 10], rest, [1, 0, 0, 0, 79, 75])
  {
    StatusResult([79, 75], rest);
    assert Line(PLUS_SIGN, [79, 75]) == [43, 79, 75, 13, 10];
    assert [1, 0, 0, 0] + [79, 75] == [1, 0, 0, 0, 79, 75];
  }

  /** "-ERR no CRLF" */
  lemma ErrorDelivered(rest: bytes)
    ensures Delivers([45, 69, 82, 82, 32, 110, 111, 13, 10], rest, [2, 0, 0, 0, 32, 110, 111])
  {
    var s := [69, 82, 82, 32, 110, 111];
    ErrorResult(s, rest);
    assert Line(MINUS_SIGN, s) == [45, 69, 82, 82, 32, 110, 111, 13, 10];
    assert s[3..] == [32, 110, 111] && [2, 0, 0, 0] + [32, 110, 111] == [2, 0, 0, 0, 32, 110, 111];
  }

  lemma IntegerResult(v: int, w: bytes, rest: bytes)
    requires IsInt(v) && w == LeInt(v)
    ensures Delivers(Encode(Integer(v)), rest, [3, 0, 0, 0] + w)
  {
    ReplyDelivers(Integer(v), rest);
    LexicalPrint(v);
    TypeWordWritten(IntReply);
  }

  /** ":5 CRLF" */
  lemma IntegerDelivered(rest: bytes)
    ensures Delivers([58, 53, 13, 10], rest, [3, 0, 0, 0, 5, 0, 0, 0])
  {
    IntegerResult(5, [5, 0, 0, 0], rest);
    assert Encode(Integer(5)) == [58, 53, 13, 10];
    assert [3, 0, 0, 0] + [5, 0, 0, 0] == [3, 0, 0, 0, 5, 0, 0, 0];
  }

  /** ":-5 CRLF", in two's complement */
  lemma NegativeDelivered(rest: bytes)
    ensures Delivers([58, 45, 53, 13, 10], rest, [3, 0, 0, 0, 251, 255, 255, 255])
  {
    IntegerResult(-5, [251, 255, 255, 255], rest);
    NegativeEncoding();
    assert [3, 0, 0, 0] + [251, 255, 255, 255] == [3, 0, 0, 0, 251, 255, 255, 255];
  }

  lemma NegativeEncoding()
    ensures Encode(Integer(-5)) == [58, 45, 53, 13, 10]
  {
    assert PrintInt(-5) == [45, 53];
  }

  lemma BulkResult(item: Item, rest: bytes)
    requires FitsInt(item)
    ensures Delivers(EncodeItem(item), rest, [4, 0, 0, 0] + if item.Null? then NONEXISTENT_KEY else item.text)
  {
    ReplyDelivers(Bulk(item), rest);
    TypeWordWritten(BulkReply);
  }

  /** "$-1 CRLF": a null is delivered as the text "**nonexistent-key**". */
  lemma NullDelivered(rest: bytes)
    ensures Delivers([36, 45, 49, 13, 10], rest, [4, 0, 0, 0] + Ascii("**nonexistent-key**"))
  {
    NullEncodings();
    BulkResult(Null, rest);
    SentinelText();
  }

  lemma SentinelText()
    ensures NONEXISTENT_KEY == Ascii("**nonexistent-key**")
  {
  }

  lemma TwoResult(a: bytes, b: bytes, rest: bytes)
    requires |a| == 1 && |b| == 2
    ensures Delivers(([42, 50, 13, 10] + ([36, 49, 13, 10] + (a + [13, 10]))) + ([36, 50, 13, 10] + (b + [13, 10])),
                     rest, [5, 0, 0, 0] + ([2, 0, 0, 0] + (([1, 0, 0, 0] + a) + ([2, 0, 0, 0] + b))))
  {
    TwoStrings(a, b);
    SmallHeaders();
    ReplyDelivers(Array([Bulk(Text(a)), Bulk(Text(b))]), rest);
    TypeWordWritten(MultiBulkReply);
    TwoSerialized(a, b);
    assert Render(NONEXISTENT_KEY, [Text(a), Text(b)]) == [a, b];
  }

  lemma SmallHeaders()
    ensures HeaderLine(STAR, 2) == [42, 50, 13, 10]
    ensures HeaderLine(DOLLAR, 1) == [36, 49, 13, 10] && HeaderLine(DOLLAR, 2) == [36, 50, 13, 10]
    ensures LeInt(1) == [1, 0, 0, 0] && LeInt(2) == [2, 0, 0, 0]
  {
  }

  lemma TwoSerialized(a: bytes, b: bytes)
    ensures SerializeItems([a, b]) == (LeInt(|a|) + a) + (LeInt(|b|) + b)
  {
    assert [a, b][1..] == [b] && [b][1..] == [];
    assert SerializeItems([b]) == (LeInt(|b|) + b) + SerializeItems([]);
  }

  /** "*2 CRLF $1 CRLF A CRLF $2 CRLF BC CRLF" */
  lemma ArrayDelivered(rest: bytes)
    ensures Delivers([42, 50, 13, 10,  36, 49, 13, 10, 65, 13, 10,  36, 50, 13, 10, 66, 67, 13, 10], rest,
                     [5, 0, 0, 0,  2, 0, 0, 0,  1, 0, 0, 0, 65,  2, 0, 0, 0, 66, 67])
  {
    TwoResult([65], [66, 67], rest);
    ArrayLiterals([65], [66, 67]);
  }

  lemma ArrayLiterals(a: bytes, b: bytes)
    requires a == [65] && b == [66, 67]
    ensures ([42, 50, 13, 10] + ([36, 49, 13, 10] + (a + [13, 10]))) + ([36, 50, 13, 10] + (b + [13, 10]))
         == [42, 50, 13, 10,  36, 49, 13, 10, 65, 13, 10,  36, 50, 13, 10, 66, 67, 13, 10]
    ensures [5, 0, 0, 0] + ([2, 0, 0, 0] + (([1, 0, 0, 0] + a) + ([2, 0, 0, 0] + b)))
         == [5, 0, 0, 0,  2, 0, 0, 0,  1, 0, 0, 0, 65,  2, 0, 0, 0, 66, 67]
  {
  }
}
