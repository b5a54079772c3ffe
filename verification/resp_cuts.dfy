/** One reply in fragments: where its harmful cuts are, and that each of them really spoils it. */
module RespCuts {
  import opened Bytes
  import opened RespSpec
  import opened RespFragments
  import opened RespGrammar
  import opened RespElements
  import opened RespReplies

  // ---------------------------------------------------------------- where a cut is harmful

  /** Position `k` lies at or behind an element's header line and before the end of its payload CRLF. */
  predicate InPayload(es: seq<Reply>, k: nat)
    requires AllListed(es)
  {
    if es == [] then false
    else
      var size := |Encode(es[0])|;
      if k < size then |HeaderOf(es[0])| <= k else InPayload(es[1..], k - size)
  }

  predicate CutInside(r: Reply, k: nat)
    requires WellFormed(r)
  {
    r.Array? && |HeaderLine(STAR, |r.elements|)| <= k && InPayload(r.elements, k - |HeaderLine(STAR, |r.elements|)|)
  }

  lemma UnfinishedHeader(c: byte, n: int, t: bytes)
    requires c != LF && t < HeaderLine(c, n)
    ensures ReadLine([], t).None?
  {
  }

  lemma {:induction false} ElementCutPosition(p: Parser, es: seq<Reply>, t: bytes)
    requires p.Valid() && p.kind == MultiBulkReply && !p.done && p.temp == []
    requires |p.items| + |es| == p.count && t <= EncodeAll(es)
    requires AllListed(es)
    ensures StopsInElement(p, t) <==> InPayload(es, |t|)
    decreases |es|
  {
    if es == [] {
      assert t == [];
    } else {
      var e := es[0];
      var whole, later := Encode(e), EncodeAll(es[1..]);
      if |whole| <= |t| {
        var v := PrefixBehind(whole, later, t);
        ElementTurn(p, e, v);
        if |es| == 1 {
          assert v == [];
        } else {
          ElementCutPosition(AfterItem(p, Entry(e).value), es[1..], v);
        }
      } else {
        PrefixWithin(whole, later, t);
        PartialElement(p, e, t);
      }
    }
  }

  lemma PartialElement(p: Parser, e: Reply, t: bytes)
    requires p.Valid() && p.kind == MultiBulkReply && !p.done && p.temp == []
    requires Listed(e) && t < Encode(e)
    ensures StopsInElement(p, t) <==> |HeaderOf(e)| <= |t|
  {
    if e.NullArray? {
      UnfinishedHeader(STAR, -1, t);
    } else if e.item.Null? {
      UnfinishedHeader(DOLLAR, -1, t);
    } else {
      PartialText(p, e.item.text, t);
    }
  }

  lemma PartialText(p: Parser, s: bytes, t: bytes)
    requires p.Valid() && p.kind == MultiBulkReply && !p.done && p.temp == []
    requires |s| <= MAX_BULK && t < EncodeItem(Text(s))
    ensures StopsInElement(p, t) <==> |HeaderLine(DOLLAR, |s|)| <= |t|
  {
    var h, body := HeaderLine(DOLLAR, |s|), s + CRLF;
    if |t| < |h| {
      PrefixWithin(h, body, t);
      UnfinishedHeader(DOLLAR, |s|, t);
    } else {
      var v := PrefixBehind(h, body, t);
      HeaderTurn(p, DOLLAR, |s|, v);
    }
  }

  /**
   Where the harmful cuts of a well-formed reply are: only in arrays, and there exactly the positions
   from the end of an element's header line up to the last byte of its payload CRLF.
   */
  lemma CutPosition(r: Reply, t: bytes)
    requires WellFormed(r) && t <= Encode(r)
    ensures StopsMid(START, t) <==> CutInside(r, |t|)
  {
    if !r.Array? {
      if r.NullArray? {
        CountHeaderCut(-1, t);
      } else if t != [] {
        assert t[0] == Encode(r)[0];
        NotAnArray(t);
      }
    } else {
      var es := r.elements;
      var h := HeaderLine(STAR, |es|);
      if |t| < |h| {
        PrefixWithin(h, EncodeAll(es), t);
        CountHeaderCut(|es|, t);
      } else {
        var v := PrefixBehind(h, EncodeAll(es), t);
        ArrayHeader(|es|, v);
        ElementCutPosition(ArrayOf(|es|), es, v);
      }
    }
  }

  lemma CountHeaderCut(n: int, t: bytes)
    requires -1 <= n <= INT_MAX && t <= HeaderLine(STAR, n)
    ensures !StopsMid(START, t)
  {
    if |t| < |HeaderLine(STAR, n)| {
      UnfinishedHeader(STAR, n, t);
    } else {
      assert t == HeaderLine(STAR, n) + [];
      ArrayHeader(n, []);
    }
  }

  lemma FirstByteDecides(u: bytes, line: bytes)
    requires u != [] && u[0] != STAR && line <= u
    ensures ReplyType(line) != MultiBulkReply
  {
  }

  /** Status, error, integer and bulk replies have no harmful cut. */
  lemma NotAnArray(u: bytes)
    requires u != [] && u[0] != STAR
    ensures !StopsMid(START, u)
  {
    var r := ReadLine([], u);
    if r.Some? {
      var k := IndexOf(u, LF);
      assert [] + u[..k + 1] == u[..k + 1];
      TrimIsPrefix(u[..k + 1]);
      FirstByteDecides(u, r.value.0);
    }
  }

  lemma {:induction false} PayloadsEnd(es: seq<Reply>, k: nat)
    requires AllListed(es)
    ensures InPayload(es, k) ==> k < |EncodeAll(es)|
  {
    if es != [] && |Encode(es[0])| <= k {
      PayloadsEnd(es[1..], k - |Encode(es[0])|);
    }
  }

  lemma CutsEnd(r: Reply, k: nat)
    requires WellFormed(r)
    ensures CutInside(r, k) ==> k < |Encode(r)|
  {
    if r.Array? && |HeaderLine(STAR, |r.elements|)| <= k {
      PayloadsEnd(r.elements, k - |HeaderLine(STAR, |r.elements|)|);
    }
  }

  lemma NoStopBehind(r: Reply, v: bytes)
    requires WellFormed(r)
    ensures !StopsMid(START, Encode(r) + v)
  {
    ReplyFinished(r, v);
    if StopsMid(START, Encode(r) + v) {
      StopsUnfinished(START, Encode(r) + v);
    }
  }

  /** The same for a cut anywhere in a stream that begins with the reply. */
  lemma CutAnywhere(r: Reply, rest: bytes, t: bytes)
    requires WellFormed(r) && t <= Encode(r) + rest
    ensures StopsMid(START, t) <==> CutInside(r, |t|)
  {
    if |t| < |Encode(r)| {
      PrefixWithin(Encode(r), rest, t);
      CutPosition(r, t);
    } else {
      var v := PrefixBehind(Encode(r), rest, t);
      ReplyFinished(r, v);
      NoStopBehind(r, v);
      CutsEnd(r, |t|);
    }
  }

  // ---------------------------------------------------------------- after a harmful cut

  lemma SplitBehind(h: bytes, body: bytes, rest: bytes, t: bytes, more: bytes) returns (v: bytes)
    requires t + more == (h + body) + rest && |h| <= |t|
    ensures t == h + v && |t| == |h| + |v| && v + more == body + rest
  {
    v := t[|h|..];
    assert t == h + v by {
      CutLeft(t, more, |h|);
      CutLeft(h + body, rest, |h|);
      CutLeft(h, body, |h|);
    }
    Regroup(h, v, more);
    Regroup(h, body, rest);
    CutRight(h, v + more, 0);
    CutRight(h, body + rest, 0);
  }

  /** The header line is read, the payload is not all there. */
  lemma HalfElement(p: Parser, n: nat, w: bytes)
    requires p.Valid() && p.kind == MultiBulkReply && !p.done && p.temp == []
    requires |w| < n + 2 && n <= MAX_BULK
    ensures ReadElements(p, HeaderLine(DOLLAR, n) + w) == Step(p.(temp := w, maxLen := n + 2), [])
  {
    HeaderTurn(p, DOLLAR, n, w);
  }

  lemma HalfElementLost(p: Parser, v: bytes, more: bytes, es: seq<Reply>, all: seq<Item>, rest: bytes)
    requires p.Valid() && p.kind == MultiBulkReply && !p.done && p.temp == []
    requires Lists(all, es) && |p.items| < |es| == p.count && Listed(es[|p.items|])
    requires v + more == Missing(p, es, rest)
    requires |HeaderOf(es[|p.items|])| <= |v| < |Encode(es[|p.items|])|
    ensures Lost(ReadElements(p, v), more, es, all, rest)
  {
    var s := es[|p.items|].item.text;
    var h, later := HeaderLine(DOLLAR, |s|), EncodeAll(es[|p.items|..][1..]);
    var body := (s + CRLF) + later;
    Regroup(h, s + CRLF, later);
    var w := SplitBehind(h, body, rest, v, more);
    HalfElement(p, |s|, w);
    LateByHeader(h, body, rest, w + more);
    assert w + [] == w;
  }

  lemma LateByHeader(h: bytes, body: bytes, rest: bytes, b: bytes)
    requires h != [] && b == body + rest
    ensures Late(b, (h + body) + rest)
  {
    Regroup(h, body, rest);
    CutRight(h, b, 0);
  }

  lemma {:induction false} CutElementLost(p: Parser, v: bytes, more: bytes,
                                          es: seq<Reply>, all: seq<Item>, rest: bytes)
    requires p.Valid() && p.kind == MultiBulkReply && !p.done && p.temp == []
    requires Lists(all, es) && |p.items| < |es| == p.count && AllListed(es[|p.items|..])
    requires v + more == Missing(p, es, rest) && InPayload(es[|p.items|..], |v|)
    ensures Lost(ReadElements(p, v), more, es, all, rest)
    decreases |es| - |p.items|
  {
    var left := es[|p.items|..];
    if |Encode(left[0])| <= |v| {
      var w := NextBytes(left, v, more, rest);
      var q := NextElement(p, left[0], w);
      assert left[1..] == es[|q.items|..];
      CutElementLost(q, w, more, es, all, rest);
    } else {
      HalfElementLost(p, v, more, es, all, rest);
    }
  }

  lemma NextBytes(es: seq<Reply>, v: bytes, more: bytes, rest: bytes) returns (w: bytes)
    requires AllListed(es) && v + more == EncodeAll(es) + rest && InPayload(es, |v|) && |Encode(es[0])| <= |v|
    ensures 1 < |es| && v == Encode(es[0]) + w && w + more == EncodeAll(es[1..]) + rest && InPayload(es[1..], |w|)
  {
    w := SplitBehind(Encode(es[0]), EncodeAll(es[1..]), rest, v, more);
  }

  lemma NextElement(p: Parser, e: Reply, w: bytes) returns (q: Parser)
    requires p.Valid() && p.kind == MultiBulkReply && !p.done && p.temp == []
    requires |p.items| + 1 < p.count && Listed(e)
    ensures q.Valid() && q.kind == MultiBulkReply && !q.done && q.temp == [] && q.count == p.count
    ensures |q.items| == |p.items| + 1
    ensures ReadElements(p, Encode(e) + w) == ReadElements(q, w)
  {
    q := AfterItem(p, Entry(e).value);
    ElementsStep(p, e, w);
  }

  /** A cut inside an element leaves the parser behind. */
  lemma CutLost(r: Reply, t: bytes, more: bytes, rest: bytes)
    requires WellFormed(r) && t + more == Encode(r) + rest && CutInside(r, |t|)
    ensures Reported(r).Some? && Lost(Parse(START, t), more, r.elements, Reported(r).value, rest)
  {
    var es := r.elements;
    var v := SplitBehind(HeaderLine(STAR, |es|), EncodeAll(es), rest, t, more);
    ArrayHeader(|es|, v);
    AllListedHaveEntries(es);
    assert es[0..] == es;
    CutElementLost(ArrayOf(|es|), v, more, es, Entries(es).value, rest);
  }

  /** A harmful cut of a reply is never made good, however the rest arrives and whatever follows. */
  lemma SpoiledReply(r: Reply, t: bytes, chunks: seq<bytes>, rest: bytes)
    requires WellFormed(r) && t + Concat(chunks) == Encode(r) + rest && CutInside(r, |t|)
    ensures !Finishes(ParseAll(Parse(START, t), chunks), r, rest)
  {
    CutLost(r, t, Concat(chunks), rest);
    LostForGood(Parse(START, t), chunks, r.elements, Reported(r).value, rest);
  }

  // ---------------------------------------------------------------- one reply in fragments

  /** No cut, the stream's beginning being `at` bytes back, falls inside an element of `r`. */
  predicate CutsClear(r: Reply, at: nat, chunks: seq<bytes>)
    requires WellFormed(r)
    decreases |chunks|
  {
    |chunks| <= 1 || (!CutInside(r, at + |chunks[0]|) && CutsClear(r, at + |chunks[0]|, chunks[1..]))
  }

  lemma OneChunkMore(t: bytes, chunks: seq<bytes>)
    requires chunks != [] && !StopsMid(START, t)
    ensures t + Concat(chunks) == (t + chunks[0]) + Concat(chunks[1..])
    ensures ParseAll(Parse(START, t), chunks) == ParseAll(Parse(START, t + chunks[0]), chunks[1..])
  {
    Regroup(t, chunks[0], Concat(chunks[1..]));
    ParseMore(START, t, chunks[0]);
  }

  lemma LastChunk(t: bytes, rest: bytes, r: Reply)
    requires WellFormed(r) && t + Concat([]) == Encode(r) + rest
    ensures Finishes(ParseAll(Parse(START, t), []), r, rest)
  {
    assert t + [] == t;
    ReplyFinished(r, rest);
  }

  lemma NextCut(t: bytes, v: bytes, rest: bytes, r: Reply)
    requires WellFormed(r) && t + v == Encode(r) + rest
    ensures StopsMid(START, t) <==> CutInside(r, |t|)
  {
    assert t <= t + v;
    CutAnywhere(r, rest, t);
  }

  lemma ClearStep(r: Reply, t: bytes, chunks: seq<bytes>)
    requires WellFormed(r) && |chunks| > 1
    ensures CutsClear(r, |t|, chunks)
      <==> !CutInside(r, |t + chunks[0]|) && CutsClear(r, |t + chunks[0]|, chunks[1..])
  {
  }

  lemma {:induction false} FragmentsFrom(r: Reply, t: bytes, chunks: seq<bytes>, rest: bytes)
    requires WellFormed(r) && t + Concat(chunks) == Encode(r) + rest && chunks != [] && !StopsMid(START, t)
    ensures Finishes(ParseAll(Parse(START, t), chunks), r, rest) <==> CutsClear(r, |t|, chunks)
    decreases |chunks|
  {
    var t', later := t + chunks[0], chunks[1..];
    OneChunkMore(t, chunks);
    if later == [] {
      LastChunk(t', rest, r);
    } else {
      ClearStep(r, t, chunks);
      NextCut(t', Concat(later), rest, r);
      if CutInside(r, |t'|) {
        SpoiledReply(r, t', later, rest);
      } else {
        FragmentsFrom(r, t', later, rest);
      }
    }
  }

  /**
   A well-formed reply, followed by anything and arriving in any chunks, is read as one delivery would be
   if and only if no cut falls behind an element's header line and before the end of its payload CRLF.
   */
  lemma ReplyInFragments(r: Reply, chunks: seq<bytes>, rest: bytes)
    requires WellFormed(r) && Concat(chunks) == Encode(r) + rest
    ensures Finishes(ParseAll(Step(START, []), chunks), r, rest) <==> CutsClear(r, 0, chunks)
  {
    assert [] + Concat(chunks) == Concat(chunks);
    assert chunks != [];
    FragmentsFrom(r, [], chunks, rest);
  }

  /** One cut: the resumed parse finishes the reply if and only if the cut is not inside an array element. */
  lemma OneCut(r: Reply, t: bytes, more: bytes, rest: bytes)
    requires WellFormed(r) && t + more == Encode(r)
    ensures Finishes(Resume(Parse(START, t), more + rest), r, rest) <==> !CutInside(r, |t|)
  {
    var chunks := [t, more + rest];
    assert chunks[1..] == [more + rest] && Concat(chunks[1..]) == more + rest;
    Regroup(t, more, rest);
    assert CutsClear(r, |t|, chunks[1..]);
    ReplyInFragments(r, chunks, rest);
    assert [] + t == t;
    assert ParseAll(Step(START, []), chunks) == ParseAll(Parse(START, t), chunks[1..]);
    assert ParseAll(Parse(START, t), chunks[1..]) == Resume(Parse(START, t), more + rest);
  }

  /** The array of the one string "A", whole and cut behind the header line of its element: the second fails. */
  lemma CutExample()
    ensures var (t, more) := ([42, 49, 13, 10, 36, 49, 13, 10], [65, 13, 10]);
      && Ends(Parse(START, t + more), MultiBulkReply, [Text([65])], [])
      && Resume(Parse(START, t), more).Failed?
  {
    ExampleBytes();
    ExampleWhole();
    ExampleCut();
    ExampleRest(ArrayOf(1).(maxLen := 3));
    assert [] + [65, 13, 10] == [65, 13, 10];
  }

  lemma ExampleWhole()
    ensures Ends(Parse(START, Encode(Array([Bulk(Text([65]))]))), MultiBulkReply, [Text([65])], [])
  {
    var es := [Bulk(Text([65]))];
    assert AllListed(es[1..]) && Entries(es[1..]) == Some([]);
    assert Entries(es) == Some([Text([65])] + []);
    ReadBack(Array(es));
  }

  lemma ExampleCut()
    ensures Parse(START, HeaderLine(STAR, 1) + (HeaderLine(DOLLAR, 1) + [])) == Step(ArrayOf(1).(maxLen := 3), [])
  {
    ArrayHeader(1, HeaderLine(DOLLAR, 1) + []);
    HalfElement(ArrayOf(1), 1, []);
  }

  lemma ExampleBytes()
    ensures HeaderLine(STAR, 1) + (HeaderLine(DOLLAR, 1) + []) == [42, 49, 13, 10, 36, 49, 13, 10]
    ensures Encode(Array([Bulk(Text([65]))])) == [42, 49, 13, 10, 36, 49, 13, 10] + [65, 13, 10]
  {
    assert HeaderLine(STAR, 1) == [42, 49, 13, 10] && HeaderLine(DOLLAR, 1) == [36, 49, 13, 10];
    assert EncodeItem(Text([65])) == [36, 49, 13, 10] + [65, 13, 10];
    assert EncodeAll([Bulk(Text([65]))]) == EncodeItem(Text([65])) + EncodeAll([]);
  }

  lemma ExampleRest(q: Parser)
    requires q.Valid() && q.kind == MultiBulkReply && !q.done && q.temp == []
    ensures Parse(q, [65, 13, 10]) == Failed
  {
    LineEnds([65], []);
    assert ([65] + CRLF) + [] == [65, 13, 10];
    assert [65][1..] == [];
  }
}
