/** How the parser reads whole replies of every type, and parts of them. */
module RespReplies {
  import opened Bytes
  import opened Decimal
  import opened RespSpec
  import opened RespFragments
  import opened RespGrammar
  import opened RespElements

  // ---------------------------------------------------------------- complete replies

  /** The parser when it has read the header of an array of `n`. */
  function ArrayOf(n: nat): Parser { START.(kind := MultiBulkReply, count := n) }

  lemma CountLine(n: int)
    requires -1 <= n
    ensures Open(START, [STAR] + PrintInt(n)) ==
      if n > INT_MAX then None else if n == -1 then Some(ArrayOf(0).(done := true)) else Some(ArrayOf(n))
  {
    HeaderRoundTrip(STAR, n, []);
  }

  lemma ArrayHeader(n: int, v: bytes)
    requires -1 <= n
    ensures var u := HeaderLine(STAR, n) + v;
      if n > INT_MAX then Parse(START, u) == Failed
      else if n == -1 then Parse(START, u) == Step(ArrayOf(0).(done := true), v) && !StopsMid(START, u)
      else Parse(START, u) == ReadElements(ArrayOf(n), v) && StopsMid(START, u) == StopsInElement(ArrayOf(n), v)
  {
    CountLine(n);
    HeaderRoundTrip(STAR, n, v);
  }

  lemma StatusLine(s: bytes, rest: bytes)
    requires LF !in s
    ensures var line := TrimLine([PLUS_SIGN] + s);
      line != [] && line[0] == PLUS_SIGN && Parse(START, Line(PLUS_SIGN, s) + rest) ==
        Step(START.(kind := StatusReply, items := [Text(line[1..])], done := true), rest)
  {
    LineRoundTrip(PLUS_SIGN, s, rest);
    TrimBehind(PLUS_SIGN, s);
    assert [] + [Text(TrimLine([PLUS_SIGN] + s)[1..])] == [Text(TrimLine([PLUS_SIGN] + s)[1..])];
  }

  lemma ErrorLine(s: bytes, rest: bytes)
    requires LF !in s
    ensures var line := TrimLine([MINUS_SIGN] + s);
      line != [] && line[0] == MINUS_SIGN && Parse(START, Line(MINUS_SIGN, s) + rest) ==
        if |line| < 4 then Failed
        else Step(START.(kind := ErrorReply, items := [Text(line[4..])], done := true), rest)
  {
    LineRoundTrip(MINUS_SIGN, s, rest);
    TrimBehind(MINUS_SIGN, s);
  }

  /** A trimmed line is the whole line, or shorter. */
  lemma TrimmedText(c: byte, s: bytes)
    requires c != CR && c != LF && LF !in s
    ensures var line := TrimLine([c] + s);
      if LineText(s) then line == [c] + s && line[1..] == s else |line| <= |s|
  {
    TrimIsPrefix([c] + s);
    assert ([c] + s)[1..] == s;
  }

  lemma StatusFinished(s: bytes, rest: bytes)
    ensures Finishes(Parse(START, Line(PLUS_SIGN, s) + rest), Status(s), rest) <==> LineText(s)
  {
    if LF in s {
      LineSplits(PLUS_SIGN, s, rest);
    } else {
      StatusLine(s, rest);
      TrimmedText(PLUS_SIGN, s);
    }
  }

  lemma ErrorTail(s: bytes, line: bytes, whole: bool)
    requires if whole then line == [MINUS_SIGN] + s else |line| <= |s|
    requires 4 <= |line|
    ensures 3 <= |s| && (line[4..] == s[3..] <==> whole)
  {
    if whole {
      CutRight([MINUS_SIGN], s, 3);
    } else {
      assert |line[4..]| < |s[3..]|;
    }
  }

  lemma ErrorFinished(s: bytes, rest: bytes)
    ensures Finishes(Parse(START, Line(MINUS_SIGN, s) + rest), Error(s), rest) <==> LineText(s) && 3 <= |s|
  {
    if LF in s {
      LineSplits(MINUS_SIGN, s, rest);
    } else {
      var line := TrimLine([MINUS_SIGN] + s);
      ErrorLine(s, rest);
      TrimmedText(MINUS_SIGN, s);
      if 4 <= |line| {
        ErrorTail(s, line, LineText(s));
      }
    }
  }

  /** The parser when it has read the header of a bulk string of `n` bytes. */
  function BulkOf(n: nat): Parser { START.(kind := BulkReply, maxLen := n + 2) }

  lemma BulkHeader(n: int, v: bytes)
    requires -1 <= n
    ensures Parse(START, HeaderLine(DOLLAR, n) + v) ==
      if n > MAX_BULK then Failed
      else if n == -1 then Step(START.(kind := BulkReply, items := [Null], done := true), v)
      else ReadBulk(BulkOf(n), v)
  {
    HeaderRoundTrip(DOLLAR, n, v);
  }

  lemma BulkPayload(t: bytes, rest: bytes)
    ensures ReadBulk(BulkOf(|t|), (t + CRLF) + rest) ==
      Step(BulkOf(|t|).(items := [Text(t)], done := true), rest)
  {
    var w := t + CRLF;
    CutRight(w, rest, 0);
    CutLeft(t, CRLF, |t|);
    assert [] + (w + rest[..0]) == w && [] + [Text(t)] == [Text(t)];
    assert t[..|t|] == t;
  }

  lemma BulkItemReply(item: Item, rest: bytes)
    ensures Finishes(Parse(START, EncodeItem(item) + rest), Bulk(item), rest) <==> FitsInt(item)
  {
    match item
    case Null => BulkHeader(-1, rest);
    case Text(t) =>
      Regroup(HeaderLine(DOLLAR, |t|), t + CRLF, rest);
      BulkHeader(|t|, (t + CRLF) + rest);
      BulkPayload(t, rest);
  }

  lemma BehindCount(n: nat, body: bytes, rest: bytes)
    ensures Parse(START, (HeaderLine(STAR, n) + body) + rest) ==
      if n > INT_MAX then Failed else ReadElements(ArrayOf(n), body + rest)
  {
    Regroup(HeaderLine(STAR, n), body, rest);
    ArrayHeader(n, body + rest);
  }

  lemma ArrayRead(es: seq<Reply>, rest: bytes)
    ensures Parse(START, Encode(Array(es)) + rest) ==
      if |es| > INT_MAX then Failed else ReadElements(ArrayOf(|es|), EncodeAll(es) + rest)
  {
    var body := EncodeAll(es);
    assert Encode(Array(es)) == HeaderLine(STAR, |es|) + body;
    BehindCount(|es|, body, rest);
  }

  lemma ArrayReply(es: seq<Reply>, rest: bytes)
    ensures Finishes(Parse(START, Encode(Array(es)) + rest), Array(es), rest) <==> WellFormed(Array(es))
  {
    ArrayRead(es, rest);
    if es == [] {
      EmptyArrayUnfinished(ArrayOf(0), EncodeAll(es) + rest);
    } else if |es| <= INT_MAX {
      assert es[0..] == es;
      if AllListed(es) {
        AllListedHaveEntries(es);
      }
      if Entries(es).Some? {
        ElementsRead(ArrayOf(|es|), es, Entries(es).value, rest);
      }
    }
  }

  /** An array announced as empty is never finished, whatever follows. */
  lemma {:induction false} EmptyArrayUnfinished(p: Parser, u: bytes)
    requires p.Valid() && p.kind == MultiBulkReply && !p.done && p.count == 0
    ensures var o := ReadElements(p, u); o.Step? ==> !o.p.done && o.p.count == 0
    decreases |u|
  {
    match ReadElement(p, u)
    case Whole(q, v) => EmptyArrayUnfinished(q, v);
    case _ =>
  }

  lemma IntegerFinished(n: int, rest: bytes)
    ensures Finishes(Parse(START, HeaderLine(COLON, n) + rest), Integer(n), rest)
  {
    HeaderRoundTrip(COLON, n, rest);
    assert ([COLON] + PrintInt(n))[1..] == PrintInt(n);
    assert [] + [Text(PrintInt(n))] == [Text(PrintInt(n))];
  }

  lemma NullArrayFinished(rest: bytes)
    ensures Finishes(Parse(START, HeaderLine(STAR, -1) + rest), NullArray, rest)
  {
    ArrayHeader(-1, rest);
  }

  /**
   Any reply, whatever follows it, is finished with exactly the following bytes left over, if and only if
   it is well formed: one-line texts hold no LF and end in no CR, error texts have three bytes to lose,
   lengths and counts fit `int`, and an array is not empty and holds bulk strings and nulls alone.
   */
  lemma ReplyFinished(r: Reply, rest: bytes)
    ensures Finishes(Parse(START, Encode(r) + rest), r, rest) <==> WellFormed(r)
  {
    match r
    case Status(s) => StatusFinished(s, rest);
    case Error(s) => ErrorFinished(s, rest);
    case Integer(n) => IntegerFinished(n, rest);
    case Bulk(item) => BulkItemReply(item, rest);
    case Array(es) => ArrayReply(es, rest);
    case NullArray => NullArrayFinished(rest);
  }

  /** No error is reported by its message, nor by its whole text. */
  lemma ErrorText(s: bytes)
    requires 3 <= |s|
    ensures Reported(Error(s)) != ItemsOf(Error(s)) && Reported(Error(s)) != Some([Text(s)])
    ensures ERR_WORD <= s ==> Reported(Error(s)) == Some([Text([ERR_WORD[3]] + Message(s))])
  {
    assert ERR_WORD <= s ==> s[3..] == [ERR_WORD[3]] + s[4..];
    assert |s[3..]| != |Message(s)|;
  }

  /**
   Round trip: any reply, whatever follows it, is read back as itself with exactly the following bytes left
   over, if and only if it is well formed and no error.
   */
  lemma ReplyRoundTrip(r: Reply, rest: bytes)
    ensures ReadsAs(Parse(START, Encode(r) + rest), r, rest) <==> WellFormed(r) && !r.Error?
  {
    ReplyFinished(r, rest);
    if r.Error? {
      ErrorReported(r.text, rest);
    }
  }

  /** Whatever an error line is read as, it is not its message. */
  lemma ErrorReported(s: bytes, rest: bytes)
    ensures !ReadsAs(Parse(START, Encode(Error(s)) + rest), Error(s), rest)
  {
    if LF in s {
      LineSplits(MINUS_SIGN, s, rest);
    } else {
      ErrorLine(s, rest);
      var line := TrimLine([MINUS_SIGN] + s);
      if 4 <= |line| {
        TrimIsPrefix([MINUS_SIGN] + s);
        ErrorTrimmed(s, line);
      }
    }
  }

  lemma ErrorTrimmed(s: bytes, line: bytes)
    requires line <= [MINUS_SIGN] + s && 4 <= |line| && (|line| <= |s| ==> s[|s| - 1] == CR && line[|line| - 1] != CR)
    ensures line[4..] != Message(s)
  {
    if ERR_WORD <= s && |line| == |s| {
      assert s[3] == ERR_WORD[3] != CR;
      assert s[4..][|s| - 5] == s[|s| - 1];
    }
  }

  /** The line "-ERR no" says "no", and is reported as " no". */
  lemma ErrorKeepsSpace(rest: bytes)
    ensures ItemsOf(Error([69, 82, 82, 32, 110, 111])) == Some([Text([110, 111])])
    ensures var line := [45, 69, 82, 82, 32, 110, 111] + CRLF;
      Ends(Parse(START, line + rest), ErrorReply, [Text([32, 110, 111])], rest)
  {
    var s := [69, 82, 82, 32, 110, 111];
    assert Line(MINUS_SIGN, s) == [45, 69, 82, 82, 32, 110, 111] + CRLF;
    ReplyFinished(Error(s), rest);
    assert s[3..] == [32, 110, 111] && s[4..] == [110, 111];
  }

  /** A line that opens no known reply finishes at once, as a reply without type or values. */
  lemma UnknownReply(x: bytes, rest: bytes)
    requires LF !in x && ReplyType(TrimLine(x)) == NoReply
    ensures Parse(START, (x + CRLF) + rest) == Step(START.(done := true), rest)
  {
    LineEnds(x, rest);
  }

  // ---------------------------------------------------------------- elements of other types

  /** An array of the one integer `n` takes the next `n + 2` bytes of the stream for its value. */
  lemma IntegerElement(n: nat, v: bytes)
    requires n <= MAX_BULK
    ensures Parse(START, Encode(Array([Integer(n)])) + v) ==
      if |v| < n + 2 then Step(ArrayOf(1).(temp := v, maxLen := n + 2), [])
      else Step(ArrayOf(1).(maxLen := n + 2, items := [Text(v[..n])], done := true), v[n + 2..])
  {
    OneElement(Integer(n), v);
    HeaderTurn(ArrayOf(1), COLON, n, v);
    assert |v| >= n + 2 ==> [] + [Text(v[..n])] == [Text(v[..n])];
  }

  /** The integer -1 is listed as a null. */
  lemma MinusOneElement(v: bytes)
    ensures Parse(START, Encode(Array([Integer(-1)])) + v) == Step(ArrayOf(1).(items := [Null], done := true), v)
  {
    OneElement(Integer(-1), v);
    HeaderTurn(ArrayOf(1), COLON, -1, v);
  }

  lemma OneElement(e: Reply, v: bytes)
    ensures Parse(START, Encode(Array([e])) + v) == ReadElements(ArrayOf(1), Encode(e) + v)
  {
    ArrayRead([e], v);
    assert [e][1..] == [] && Encode(e) + [] == Encode(e);
    assert EncodeAll([e]) == Encode(e) + EncodeAll([e][1..]);
  }

  /** An array within an array is taken for a string: its count is the length, what it holds is the payload. */
  lemma NestedElement(p: Parser, es: seq<Reply>, rest: bytes)
    requires p.Valid() && p.kind == MultiBulkReply && !p.done && p.temp == []
    ensures ReadElement(p, Encode(Array(es)) + rest) ==
      if |es| <= MAX_BULK then ReadValue(p.(maxLen := 0), |es|, EncodeAll(es) + rest) else BadHeader
  {
    ArrayBytes(es);
    CountTurn(p, |es|, EncodeAll(es), Encode(Array(es)), rest);
  }

  lemma ArrayBytes(es: seq<Reply>)
    ensures Encode(Array(es)) == HeaderLine(STAR, |es|) + EncodeAll(es)
  {
  }

  lemma CountTurn(p: Parser, n: nat, body: bytes, e: bytes, rest: bytes)
    requires p.Valid() && p.kind == MultiBulkReply && !p.done && p.temp == []
    requires e == HeaderLine(STAR, n) + body
    ensures ReadElement(p, e + rest) ==
      if n <= MAX_BULK then ReadValue(p.(maxLen := 0), n, body + rest) else BadHeader
  {
    Regroup(HeaderLine(STAR, n), body, rest);
    HeaderTurn(p, STAR, n, body + rest);
  }

  /**
   The array of the integer 5 is not finished by its own bytes; when two replies "OK" follow, the first of
   them and the beginning of the second become its value.
   */
  lemma NumberExample()
    ensures var (t, more) := ([42, 49, 13, 10, 58, 53, 13, 10], [43, 79, 75, 13, 10, 43, 79, 75, 13, 10]);
      && t == Encode(Array([Integer(5)])) && more == EncodeAll([Status([79, 75]), Status([79, 75])])
      && Parse(START, t).Step? && !Parse(START, t).p.done
      && Ends(Parse(START, t + more), MultiBulkReply, [Text([43, 79, 75, 13, 10])], [75, 13, 10])
  {
    var more: bytes := [43, 79, 75, 13, 10, 43, 79, 75, 13, 10];
    NumberExampleBytes();
    IntegerElement(5, []);
    assert Encode(Array([Integer(5)])) + [] == Encode(Array([Integer(5)]));
    IntegerElement(5, more);
    assert more[..5] == [43, 79, 75, 13, 10] && more[7..] == [75, 13, 10];
  }

  lemma NumberExampleBytes()
    ensures Encode(Array([Integer(5)])) == [42, 49, 13, 10, 58, 53, 13, 10]
    ensures EncodeAll([Status([79, 75]), Status([79, 75])]) == [43, 79, 75, 13, 10, 43, 79, 75, 13, 10]
  {
    assert HeaderLine(STAR, 1) == [42, 49, 13, 10] && HeaderLine(COLON, 5) == [58, 53, 13, 10];
    assert EncodeAll([Integer(5)]) == HeaderLine(COLON, 5) + EncodeAll([]);
    var ok := Status([79, 75]);
    assert Encode(ok) == [43, 79, 75, 13, 10];
    assert [ok, ok][1..] == [ok] && [ok][1..] == [];
    assert EncodeAll([ok]) == Encode(ok) + EncodeAll([]);
  }

  /** An array of the array of the string "A" is read as an array of the string "$", and bytes of it are left. */
  lemma NestedExample(rest: bytes)
    ensures Ends(Parse(START, Encode(Array([Array([Bulk(Text([65]))])])) + rest),
                 MultiBulkReply, [Text([DOLLAR])], [10, 65, 13, 10] + rest)
  {
    var inner := [Bulk(Text([65]))];
    OneElement(Array(inner), rest);
    NestedElement(ArrayOf(1), inner, rest);
    NestedExampleBytes(rest);
    OneByteValue([36, 49, 13], [10, 65, 13, 10] + rest);
    WholeArray(Encode(Array(inner)) + rest, Text([DOLLAR]), [10, 65, 13, 10] + rest);
  }

  lemma WholeArray(u: bytes, x: Item, v: bytes)
    requires ReadElement(ArrayOf(1), u) == Whole(ArrayOf(1).(maxLen := 3, items := [x]), v)
    ensures Ends(ReadElements(ArrayOf(1), u), MultiBulkReply, [x], v)
  {
  }

  lemma OneByteValue(w: bytes, v: bytes)
    requires |w| == 3
    ensures ReadValue(ArrayOf(1), 1, w + v) == Whole(ArrayOf(1).(maxLen := 3, items := [Text([w[0]])]), v)
  {
    assert (w + v)[..1] == [w[0]];
    CutRight(w, v, 0);
    assert [] + [Text([w[0]])] == [Text([w[0]])];
  }

  lemma NestedExampleBytes(rest: bytes)
    ensures EncodeAll([Bulk(Text([65]))]) + rest == [36, 49, 13] + ([10, 65, 13, 10] + rest)
  {
    assert HeaderLine(DOLLAR, 1) == [36, 49, 13, 10];
    assert [65] + CRLF == [65, 13, 10];
    assert EncodeAll([Bulk(Text([65]))]) == EncodeItem(Text([65])) + EncodeAll([]);
  }

  // ---------------------------------------------------------------- partial replies

  /** No proper prefix of a well-formed reply is taken for a reply, or for an error. */
  lemma SelfDelimiting(r: Reply, t: bytes)
    requires WellFormed(r) && t < Encode(r)
    ensures Parse(START, t).Step? && !Parse(START, t).p.done
  {
    var more := Encode(r)[|t|..];
    assert t + more == Encode(r) == Encode(r) + [];
    ReplyFinished(r, []);
    ParseMore(START, t, more);
  }

  /** Encodings of well-formed replies are prefix-free: one begins another only if the replies are the same. */
  lemma PrefixFree(a: Reply, b: Reply)
    requires WellFormed(a) && WellFormed(b) && Encode(a) <= Encode(b)
    ensures a == b
  {
    ReadBack(a);
    ReadBack(b);
    if Encode(a) != Encode(b) {
      SelfDelimiting(b, Encode(a));
    } else {
      Injective(a, b);
    }
  }

  lemma ReadBack(r: Reply)
    requires WellFormed(r)
    ensures Finishes(Parse(START, Encode(r)), r, [])
  {
    ReplyFinished(r, []);
    assert Encode(r) + [] == Encode(r);
  }

  lemma Injective(a: Reply, b: Reply)
    requires Encode(a) == Encode(b) && KindOf(a) == KindOf(b) && Reported(a) == Reported(b)
    requires WellFormed(a) && WellFormed(b)
    ensures a == b
  {
    if a.Error? {
      LineInjective(MINUS_SIGN, a.text, b.text);
    } else if a.Integer? {
      PrintInjective(a.n, b.n);
    } else if a.Array? {
      AllListedHaveEntries(a.elements);
      AllListedHaveEntries(b.elements);
      CutRight(HeaderLine(STAR, |a.elements|), EncodeAll(a.elements), 0);
      CutRight(HeaderLine(STAR, |b.elements|), EncodeAll(b.elements), 0);
      ElementsInjective(a.elements, b.elements);
    }
  }

  lemma {:induction false} ElementsInjective(a: seq<Reply>, b: seq<Reply>)
    requires AllListed(a) && AllListed(b) && EncodeAll(a) == EncodeAll(b)
    requires |a| == |b| && forall k :: 0 <= k < |a| ==> Entry(a[k]) == Entry(b[k])
    ensures a == b
    decreases |a|
  {
    if a != [] {
      FirstByteOfNull(a[0], EncodeAll(a[1..]));
      FirstByteOfNull(b[0], EncodeAll(b[1..]));
      CutRight(Encode(a[0]), EncodeAll(a[1..]), 0);
      CutRight(Encode(b[0]), EncodeAll(b[1..]), 0);
      ElementsInjective(a[1..], b[1..]);
      assert a == [a[0]] + a[1..] && b == [b[0]] + b[1..];
    }
  }

  lemma FirstByteOfNull(e: Reply, later: bytes)
    requires Listed(e)
    ensures (Encode(e) + later)[0] == if e.NullArray? then STAR else DOLLAR
  {
  }

  lemma LineInjective(c: byte, s: bytes, t: bytes)
    requires Line(c, s) == Line(c, t)
    ensures s == t
  {
    assert Line(c, s)[1..|s| + 1] == s && Line(c, t)[1..|t| + 1] == t;
  }

  lemma PrintInjective(m: int, n: int)
    requires PrintInt(m) == PrintInt(n)
    ensures m == n
  {
    var a, b := if m < 0 then -m else m, if n < 0 then -n else n;
    DigitsPrint(a);
    DigitsPrint(b);
    assert PrintInt(m)[0] == MINUS <==> m < 0;
    assert PrintInt(n)[0] == MINUS <==> n < 0;
    assert m < 0 ==> Print(a) == PrintInt(m)[1..] == PrintInt(n)[1..] == Print(b);
  }

  /** Once `*0` has been read, no schedule of further chunks finishes the reply. */
  lemma {:induction false} EmptyArrayNeverDone(r: Outcome, chunks: seq<bytes>)
    requires r.Step? ==> r.p.Valid() && r.p.kind == MultiBulkReply && !r.p.done && r.p.count == 0
    ensures var o := ParseAll(r, chunks); o.Step? ==> !o.p.done
    decreases |chunks|
  {
    if chunks != [] && r.Step? {
      EmptyArrayUnfinished(r.p, r.rest + chunks[0]);
    }
    if chunks != [] {
      EmptyArrayNeverDone(Resume(r, chunks[0]), chunks[1..]);
    }
  }
}
