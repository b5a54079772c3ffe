/** The protocol byte by byte: what the parser reads, stated without the constants and printers of the model. */
module RespBytes {
  import opened Bytes
  import opened Decimal
  import opened RespSpec
  import opened RespGrammar
  import opened RespReplies

  /** The first byte of a line decides its type: '+', '-', ':', '$', '*', and nothing else. */
  lemma TypeBytes(line: bytes)
    ensures ReplyType(line) == StatusReply <==> [43] <= line
    ensures ReplyType(line) == ErrorReply <==> [45] <= line
    ensures ReplyType(line) == IntReply <==> [58] <= line
    ensures ReplyType(line) == BulkReply <==> [36] <= line
    ensures ReplyType(line) == MultiBulkReply <==> [42] <= line
  {
  }

  /** A line loses all the CR and LF bytes at its end, and no other byte. */
  lemma {:induction false} TrimExactly(s: bytes, t: bytes)
    ensures TrimLine(s) == t <==>
      && t <= s
      && (forall k :: |t| <= k < |s| ==> s[k] == 13 || s[k] == 10)
      && (t != [] ==> t[|t| - 1] != 13 && t[|t| - 1] != 10)
  {
    if s != [] && (s[|s| - 1] == CR || s[|s| - 1] == LF) {
      TrimExactly(s[..|s| - 1], t);
    }
  }

  /** A number of lengths or counts: a decimal numeral, perhaps behind a sign. */
  predicate Number(s: bytes, n: int)
  {
    NumeralOf(s, n) || ([43] <= s && NumeralOf(s[1..], n)) || ([45] <= s && NumeralOf(s[1..], -n))
  }

  /** The lengths and counts that are accepted are those from -1 to 2147483645 and 2147483647. */
  lemma NumbersAccepted(c: byte, s: bytes, n: int)
    ensures LineNumber([c] + s, MAX_BULK) == Some(n) <==> Number(s, n) && -1 <= n <= 2147483645
    ensures LineNumber([c] + s, INT_MAX) == Some(n) <==> Number(s, n) && -1 <= n <= 2147483647
  {
    assert ([c] + s)[1..] == s;
    LexicalExactly(s, n);
  }

  lemma NumberIsLineFree(s: bytes, n: int)
    requires Number(s, n)
    ensures LF !in s && LineText(s)
  {
    if !NumeralOf(s, n) {
      assert s == [s[0]] + s[1..];
    }
  }

  /** A number is the number of one integer only. */
  lemma OneNumber(s: bytes, m: int, n: int)
    requires Number(s, m) && Number(s, n)
    ensures m == n
  {
    if NumeralOf(s, m) || NumeralOf(s, n) {
      assert 48 <= s[0];
    }
  }

  lemma TypedLine(c: byte, s: bytes, v: bytes, n: int)
    requires c != CR && c != LF && Number(s, n)
    ensures ReadLine([], (([c] + s) + [13, 10]) + v) == Some(([c] + s, v))
    ensures LineNumber([c] + s, MAX_BULK) == if -1 <= n <= 2147483645 then Some(n) else None
    ensures LineNumber([c] + s, INT_MAX) == if -1 <= n <= 2147483647 then Some(n) else None
  {
    NumberIsLineFree(s, n);
    LineRoundTrip(c, s, v);
    NumbersAccepted(c, s, n);
    var small, large := LineNumber([c] + s, MAX_BULK), LineNumber([c] + s, INT_MAX);
    if small.Some? {
      NumbersAccepted(c, s, small.value);
      OneNumber(s, n, small.value);
    }
    if large.Some? {
      NumbersAccepted(c, s, large.value);
      OneNumber(s, n, large.value);
    }
  }

  /**
   '$', a number and CRLF announce a bulk string: -1 is a null, any other length takes that many bytes for the
   string and two more, whatever these are; above 2147483645 and below -1 the call fails.
   */
  lemma BulkBytes(s: bytes, n: int, v: bytes)
    requires Number(s, n)
    ensures var o := Parse(START, (([36] + s) + [13, 10]) + v);
      if n < -1 || n > 2147483645 then o == Failed
      else if n == -1 then Ends(o, BulkReply, [Null], v)
      else if |v| < n + 2 then o.Step? && !o.p.done && o.rest == []
      else Ends(o, BulkReply, [Text(v[..n])], v[n + 2..])
  {
    TypedLine(36, s, v, n);
    if 0 <= n <= 2147483645 && n + 2 <= |v| {
      NothingKept(v, n + 2);
      assert [] + [Text(v[..n])] == [Text(v[..n])];
    }
  }

  /** '*', a number and CRLF announce an array: -1 is a null array, any other count waits for elements. */
  lemma CountBytes(s: bytes, n: int)
    requires Number(s, n)
    ensures var o := Parse(START, (([42] + s) + [13, 10]) + []);
      if n < -1 || n > 2147483647 then o == Failed
      else if n == -1 then Ends(o, MultiBulkReply, [], [])
      else o.Step? && !o.p.done && o.p.count == n && o.rest == []
  {
    TypedLine(42, s, [], n);
  }

  /** The same for an element of an array, where any first byte will do; a length of -1 lists a null. */
  lemma ElementBytes(p: Parser, c: byte, s: bytes, n: int, v: bytes)
    requires p.Valid() && p.kind == MultiBulkReply && !p.done && p.temp == []
    requires c != 13 && c != 10 && Number(s, n)
    ensures match ReadElement(p, (([c] + s) + [13, 10]) + v)
      case NoLine => false
      case BadHeader => n < -1 || n > 2147483645
      case HalfRead(q) => 0 <= n <= 2147483645 && |v| < n + 2 && q.items == p.items
      case Whole(q, rest) =>
        if n == -1 then q.items == p.items + [Null] && rest == v
        else 0 <= n <= 2147483645 && n + 2 <= |v| && q.items == p.items + [Text(v[..n])] && rest == v[n + 2..]
  {
    TypedLine(c, s, v, n);
  }

  // ---------------------------------------------------------------- whole replies, whatever follows

  lemma NullEncodings()
    ensures Encode(Bulk(Null)) == [36, 45, 49, 13, 10] && Encode(NullArray) == [42, 45, 49, 13, 10]
  {
    assert PrintInt(-1) == [45, 49];
  }

  lemma NullBulkExample(rest: bytes)
    ensures Ends(Parse(START, [36, 45, 49, 13, 10] + rest), BulkReply, [Null], rest)
  {
    NullEncodings();
    ReplyFinished(Bulk(Null), rest);
  }

  lemma NullArrayExample(rest: bytes)
    ensures Ends(Parse(START, [42, 45, 49, 13, 10] + rest), MultiBulkReply, [], rest)
  {
    NullEncodings();
    ReplyFinished(NullArray, rest);
  }

  /** A null bulk string and a null array as elements. */
  lemma NullElementExample(rest: bytes)
    ensures Ends(Parse(START, [42, 49, 13, 10, 36, 45, 49, 13, 10] + rest), MultiBulkReply, [Null], rest)
    ensures Ends(Parse(START, [42, 49, 13, 10, 42, 45, 49, 13, 10] + rest), MultiBulkReply, [Null], rest)
  {
    NullEncodings();
    FourAndFive(36);
    FourAndFive(42);
    OneNull(Bulk(Null), [36, 45, 49, 13, 10], rest);
    OneNull(NullArray, [42, 45, 49, 13, 10], rest);
  }

  lemma FourAndFive(c: byte)
    ensures [42, 49, 13, 10] + [c, 45, 49, 13, 10] == [42, 49, 13, 10, c, 45, 49, 13, 10]
  {
  }

  lemma OneNull(e: Reply, shown: bytes, rest: bytes)
    requires Listed(e) && Entry(e) == Some(Null) && Encode(e) == shown
    ensures Ends(Parse(START, ([42, 49, 13, 10] + shown) + rest), MultiBulkReply, [Null], rest)
  {
    assert [e][1..] == [] && Encode(e) + [] == Encode(e);
    assert EncodeAll([e]) == Encode(e) + EncodeAll([]);
    ArrayBytes([e]);
    assert HeaderLine(STAR, 1) == [42, 49, 13, 10];
    assert AllListed([e]);
    AllListedHaveEntries([e]);
    var all := Entries([e]).value;
    assert Lists(all, [e]) && Entry([e][0]) == Some(all[0]);
    assert all == [Null];
    ReplyFinished(Array([e]), rest);
  }

  /** The status "OK" and the integer -5. */
  lemma LineExamples(rest: bytes)
    ensures Ends(Parse(START, [43, 79, 75, 13, 10] + rest), StatusReply, [Text([79, 75])], rest)
    ensures Ends(Parse(START, [58, 45, 53, 13, 10] + rest), IntReply, [Text([45, 53])], rest)
  {
    assert Encode(Status([79, 75])) == [43, 79, 75, 13, 10];
    ReplyFinished(Status([79, 75]), rest);
    assert PrintInt(-5) == [45, 53];
    assert Encode(Integer(-5)) == [58, 45, 53, 13, 10];
    ReplyFinished(Integer(-5), rest);
  }

  /** A length of two digits: any ten bytes behind "$10 CRLF". */
  lemma TenBytesExample(text: bytes, rest: bytes)
    requires |text| == 10
    ensures Ends(Parse(START, [36, 49, 48, 13, 10] + (text + [13, 10] + rest)), BulkReply, [Text(text)], rest)
  {
    var body := text + [13, 10];
    assert [49] + [48] == [49, 48] && [49][1..] == [];
    PositionalSnoc([49], 48);
    BulkBytes([49, 48], 10, body + rest);
    assert ([36] + [49, 48]) + [13, 10] == [36, 49, 48, 13, 10];
    CutRight(body, rest, 0);
    CutLeft(body, rest, 10);
    assert body[..10] == text;
  }

  /** An array of two strings. */
  lemma TwoStrings(a: bytes, b: bytes)
    ensures Encode(Array([Bulk(Text(a)), Bulk(Text(b))])) ==
      (HeaderLine(STAR, 2) + (HeaderLine(DOLLAR, |a|) + (a + CRLF))) + (HeaderLine(DOLLAR, |b|) + (b + CRLF))
    ensures Entries([Bulk(Text(a)), Bulk(Text(b))]) == Some([Text(a), Text(b)])
  {
    var x, y := Bulk(Text(a)), Bulk(Text(b));
    var es := [x, y];
    assert es[1..] == [y] && [y][1..] == [] && Encode(y) + [] == Encode(y);
    assert EncodeAll([y]) == Encode(y) + EncodeAll([]);
    assert EncodeAll(es) == Encode(x) + Encode(y);
    ArrayBytes(es);
    Regroup(HeaderLine(STAR, 2), Encode(x), Encode(y));
    var all := Entries(es).value;
    assert Lists(all, es) && Entry(es[0]) == Some(all[0]) && Entry(es[1]) == Some(all[1]);
    assert all == [Text(a), Text(b)];
  }

  lemma EncodeThree(a: Reply, b: Reply, c: Reply)
    ensures EncodeAll([a, b, c]) == Encode(a) + (Encode(b) + Encode(c))
  {
    assert [a, b, c][1..] == [b, c] && [b, c][1..] == [c] && [c][1..] == [];
    assert EncodeAll([c]) == Encode(c) + EncodeAll([]) == Encode(c);
    assert EncodeAll([b, c]) == Encode(b) + EncodeAll([c]);
  }

  lemma ThreeEntries(x: Item, y: Item, z: Item)
    requires FitsInt(x) && FitsInt(y) && FitsInt(z)
    ensures AllListed([Bulk(x), Bulk(y), Bulk(z)])
    ensures Entries([Bulk(x), Bulk(y), Bulk(z)]) == Some([x, y, z])
  {
    var a, b, c := Bulk(x), Bulk(y), Bulk(z);
    assert [a, b, c][1..] == [b, c] && [b, c][1..] == [c] && [c][1..] == [];
    assert AllListed([c]) && AllListed([b, c]);
    AllListedHaveEntries([a, b, c]);
    var all := Entries([a, b, c]).value;
    assert Lists(all, [a, b, c]);
    assert Entry(a) == Some(all[0]) && Entry(b) == Some(all[1]) && Entry(c) == Some(all[2]);
    assert all == [x, y, z];
  }

  /** An array of the string "A", a null and the string "BC": nulls and strings in the order they came in. */
  lemma ArrayExample(rest: bytes)
    ensures Ends(Parse(START, [42, 51, 13, 10,  36, 49, 13, 10, 65, 13, 10,  36, 45, 49, 13, 10,
                               36, 50, 13, 10, 66, 67, 13, 10] + rest),
                 MultiBulkReply, [Text([65]), Null, Text([66, 67])], rest)
  {
    ArrayExampleBytes();
    ThreeEntries(Text([65]), Null, Text([66, 67]));
    ReplyFinished(Array([Bulk(Text([65])), Bulk(Null), Bulk(Text([66, 67]))]), rest);
  }

  lemma ArrayExampleBytes()
    ensures Encode(Array([Bulk(Text([65])), Bulk(Null), Bulk(Text([66, 67]))])) ==
      [42, 51, 13, 10,  36, 49, 13, 10, 65, 13, 10,  36, 45, 49, 13, 10,  36, 50, 13, 10, 66, 67, 13, 10]
  {
    var a, b, c := Bulk(Text([65])), Bulk(Null), Bulk(Text([66, 67]));
    EncodeThree(a, b, c);
    ArrayBytes([a, b, c]);
    ElementEncodings();
    assert [36, 45, 49, 13, 10] + [36, 50, 13, 10, 66, 67, 13, 10]
      == [36, 45, 49, 13, 10, 36, 50, 13, 10, 66, 67, 13, 10];
    assert HeaderLine(STAR, 3) == [42, 51, 13, 10];
  }

  lemma ElementEncodings()
    ensures Encode(Bulk(Text([65]))) == [36, 49, 13, 10, 65, 13, 10]
    ensures Encode(Bulk(Null)) == [36, 45, 49, 13, 10]
    ensures Encode(Bulk(Text([66, 67]))) == [36, 50, 13, 10, 66, 67, 13, 10]
  {
    assert HeaderLine(DOLLAR, 1) == [36, 49, 13, 10] && [65] + CRLF == [65, 13, 10];
    assert HeaderLine(DOLLAR, 2) == [36, 50, 13, 10] && [66, 67] + CRLF == [66, 67, 13, 10];
  }
}
