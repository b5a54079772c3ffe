/**
 The loop over the elements of an array. It takes every element for a bulk string: the type byte of a
 header line is dropped unread, and what follows is the length of a payload.
 */
module RespElements {
  import opened Bytes
  import opened Decimal
  import opened RespSpec
  import opened RespFragments
  import opened RespGrammar

  // ---------------------------------------------------------------- aligned elements

  /** Whatever the type byte, the line is read as the header of a bulk string. */
  lemma TypeByteIgnored(p: Parser, c: byte, s: bytes, v: bytes)
    requires p.Valid() && p.kind == MultiBulkReply && !p.done && p.temp == []
    requires c != CR && c != LF && LF !in s
    ensures ReadElement(p, Line(c, s) + v) == ReadElement(p, Line(DOLLAR, s) + v)
  {
    LineRoundTrip(c, s, v);
    LineRoundTrip(DOLLAR, s, v);
    TrimBehind(c, s);
    TrimBehind(DOLLAR, s);
    assert ([c] + TrimLine(s))[1..] == TrimLine(s) == ([DOLLAR] + TrimLine(s))[1..];
  }

  /** The parser when it has read one more element. */
  function AfterItem(p: Parser, item: Item): Parser
  {
    p.(maxLen := if item.Null? then 0 else |item.text| + 2, items := p.items + [item])
  }

  /** A header line and what it announces. */
  lemma HeaderTurn(p: Parser, c: byte, n: int, v: bytes)
    requires p.Valid() && p.kind == MultiBulkReply && !p.done && p.temp == []
    requires c != CR && c != LF
    ensures ReadElement(p, HeaderLine(c, n) + v) ==
      if -1 <= n <= MAX_BULK then ReadValue(p.(maxLen := 0), n, v) else BadHeader
  {
    HeaderRoundTrip(c, n, v);
  }

  /** The turn of the array loop over a bulk string or a null. */
  lemma ElementTurn(p: Parser, e: Reply, rest: bytes)
    requires p.Valid() && p.kind == MultiBulkReply && !p.done && p.temp == [] && (e.Bulk? || e.NullArray?)
    ensures ReadElement(p, Encode(e) + rest) ==
      if Listed(e) then Whole(AfterItem(p, Entry(e).value), rest) else BadHeader
  {
    match e
    case NullArray => HeaderTurn(p, STAR, -1, rest);
    case Bulk(item) => ItemTurn(p, item, rest);
  }

  lemma ItemTurn(p: Parser, item: Item, rest: bytes)
    requires p.Valid() && p.kind == MultiBulkReply && !p.done && p.temp == []
    ensures ReadElement(p, EncodeItem(item) + rest) ==
      if FitsInt(item) then Whole(AfterItem(p, item), rest) else BadHeader
  {
    match item
    case Null => HeaderTurn(p, DOLLAR, -1, rest);
    case Text(t) =>
      var v := (t + CRLF) + rest;
      Regroup(HeaderLine(DOLLAR, |t|), t + CRLF, rest);
      HeaderTurn(p, DOLLAR, |t|, v);
      CutRight(t + CRLF, rest, 0);
      assert v[..|t|] == t;
  }

  lemma ElementsStep(p: Parser, e: Reply, rest: bytes)
    requires p.Valid() && p.kind == MultiBulkReply && !p.done && p.temp == [] && Listed(e)
    ensures var q := AfterItem(p, Entry(e).value);
      ReadElements(p, Encode(e) + rest) ==
        if |q.items| == q.count then Step(q.(done := true), rest) else ReadElements(q, rest)
  {
    ElementTurn(p, e, rest);
  }

  // ---------------------------------------------------------------- too few bytes in hand

  /** A number that has lost the byte before it, and perhaps some of its own, is another number, or none. */
  lemma LateText(n: int, j: nat, max: int)
    requires -1 <= n && 1 <= j <= |PrintInt(n)| + 1
    ensures LineNumber(PrintInt(n)[j - 1..], max) != Some(n)
  {
    var x := PrintInt(n)[j - 1..];
    if x != [] {
      assert x[1..] == PrintInt(n)[j..];
      LateNumber(n, j);
    }
  }

  /** A header line that has lost its first bytes announces something else. */
  lemma LateHeader(c: byte, n: int, j: nat, max: int)
    requires -1 <= n && 1 <= j < |HeaderLine(c, n)|
    ensures LineNumber(TrimLine(HeaderLine(c, n)[j..]), max) != Some(n)
  {
    var d := PrintInt(n);
    LateLine(c, d, j);
    if j <= |d| + 1 {
      LateText(n, j, max);
      PrintIsLineFree(n);
      TrimIsPrefix(d[j - 1..]);
    }
  }

  /** What is left of a line that has lost its first bytes. */
  lemma LateLine(c: byte, s: bytes, j: nat)
    requires 1 <= j < |Line(c, s)|
    ensures TrimLine(Line(c, s)[j..]) == if j <= |s| + 1 then TrimLine(s[j - 1..]) else []
  {
    if j <= |s| + 1 {
      assert Line(c, s)[j..] == s[j - 1..] + CRLF;
      TrimLineEnd(s[j - 1..]);
    } else {
      assert Line(c, s)[j..] == [LF] && [LF][..0] == [];
    }
  }

  /** A line that begins `j` bytes into this one, and is no longer than what is left of it, is what is left of it. */
  lemma LineWithin(c: byte, s: bytes, later: bytes, j: nat, line: bytes)
    requires c != LF && LF !in s
    requires line != [] && line[|line| - 1] == LF && j + |line| <= |Line(c, s)|
    requires line <= (Line(c, s) + later)[j..]
    ensures j < |Line(c, s)| && line == Line(c, s)[j..]
  {
    var l, k := Line(c, s), j + |line|;
    assert line == l[j..k];
    assert l[k - 1] == LF;
    assert k == |l|;
  }

  /** What a whole turn has taken: a line that announces the value, and the value. */
  lemma TurnTakes(p: Parser, u: bytes, v: bytes, x: Item) returns (line: bytes, n: int)
    requires p.Valid() && p.kind == MultiBulkReply && !p.done
    requires ReadElement(p, u).Whole? && ReadElement(p, u).p.items == p.items + [x]
    ensures 3 <= |line| && line[|line| - 1] == LF && line <= (p.temp + u) + v
    ensures -1 <= n <= MAX_BULK && LineNumber(TrimLine(line), MAX_BULK) == Some(n)
    ensures if x.Null? then n == -1 else n == |x.text|
    ensures |(p.temp + u) + v| == |line| + (if n == -1 then 0 else n + 2) + |ReadElement(p, u).rest + v|
  {
    var k := IndexOf(u, LF) + 1;
    line := p.temp + u[..k];
    n := LineNumber(ReadLine(p.temp, u).value.0, MAX_BULK).value;
    assert ReadElement(p, u).p.items[|p.items|] == x;
    TrimIsPrefix(line);
    assert line <= p.temp + u <= (p.temp + u) + v;
  }

  lemma HeaderTakesMore(c: byte, n: int, body: bytes, later: bytes, j: nat, line: bytes)
    requires c != LF && -1 <= n && 1 <= j && line != [] && line[|line| - 1] == LF
    requires j <= |(HeaderLine(c, n) + body) + later| && line <= ((HeaderLine(c, n) + body) + later)[j..]
    requires LineNumber(TrimLine(line), MAX_BULK) == Some(n)
    ensures j + |line| > |HeaderLine(c, n)|
  {
    Regroup(HeaderLine(c, n), body, later);
    if j + |line| <= |HeaderLine(c, n)| {
      PrintIsLineFree(n);
      LineWithin(c, PrintInt(n), body + later, j, line);
      LateHeader(c, n, j, MAX_BULK);
    }
  }

  lemma ErrorTakesMore(s: bytes, later: bytes, j: nat, line: bytes)
    requires ERR_WORD <= s && line != [] && line[|line| - 1] == LF
    requires j <= |Line(MINUS_SIGN, s) + later| && line <= (Line(MINUS_SIGN, s) + later)[j..]
    ensures j + |line| > 5
  {
    var u := Line(MINUS_SIGN, s) + later;
    assert u[..5] == [MINUS_SIGN] + ERR_WORD;
    assert LF !in [MINUS_SIGN] + ERR_WORD;
    assert u[j + |line| - 1] == LF;
  }

  /**
   Of an element and what is behind it, `j` bytes are gone, or none but the element is no string and no null.
   A turn that reads the element's entry all the same has taken bytes from behind it.
   */
  lemma TakesMore(e: Reply, x: Item, later: bytes, j: nat, line: bytes, n: int)
    requires Entry(e) == Some(x) && (1 <= j || !Listed(e)) && j <= |Encode(e) + later|
    requires 3 <= |line| && line[|line| - 1] == LF && line <= (Encode(e) + later)[j..]
    requires -1 <= n <= MAX_BULK && LineNumber(TrimLine(line), MAX_BULK) == Some(n)
    requires if x.Null? then n == -1 else n == |x.text|
    ensures j + |line| + (if n == -1 then 0 else n + 2) > |Encode(e)|
  {
    match e
    case Status(s) =>
    case Error(s) =>
      if ERR_WORD <= s {
        ErrorTakesMore(s, later, j, line);
      }
    case Integer(_) =>
    case Bulk(Null) =>
      assert EncodeItem(Null) == HeaderLine(DOLLAR, -1) + [];
      HeaderTakesMore(DOLLAR, -1, [], later, j, line);
    case Bulk(Text(t)) =>
      HeaderTakesMore(DOLLAR, n, t + CRLF, later, j, line);
    case NullArray =>
      assert Encode(e) == HeaderLine(STAR, -1) + [];
      HeaderTakesMore(STAR, -1, [], later, j, line);
  }

  lemma LateTurn(p: Parser, u: bytes, v: bytes, e: Reply, later: bytes, j: nat)
    requires p.Valid() && p.kind == MultiBulkReply && !p.done && Entry(e).Some? && (1 <= j || !Listed(e))
    requires j <= |Encode(e) + later| && (p.temp + u) + v == (Encode(e) + later)[j..]
    requires ReadElement(p, u).Whole? && ReadElement(p, u).p.items == p.items + [Entry(e).value]
    ensures |ReadElement(p, u).rest + v| < |later|
  {
    var line, n := TurnTakes(p, u, v, Entry(e).value);
    TakesMore(e, Entry(e).value, later, j, line, n);
  }

  /** `b` is a proper suffix of `s`. */
  predicate Late(b: bytes, s: bytes) { |b| < |s| && b == s[|s| - |b|..] }

  lemma LateSuffix(b: bytes, s: bytes, k: nat)
    requires Late(b, s) && k <= |b|
    ensures Late(b[k..], s)
  {
  }

  lemma SuffixWithin(b: bytes, a: bytes, later: bytes)
    requires Late(b, a + later) && |b| < |later|
    ensures Late(b, later)
  {
    CutRight(a, later, |later| - |b|);
  }

  /** What is still to be read of `es`, and `rest` behind it. */
  function Missing(p: Parser, es: seq<Reply>, rest: bytes): bytes
    requires |p.items| <= |es|
  {
    EncodeAll(es[|p.items|..]) + rest
  }

  /** The values read so far are wrong, or of the bytes to read the next one from the first are gone. */
  predicate Behind(p: Parser, hand: bytes, es: seq<Reply>, all: seq<Item>, rest: bytes)
    requires Lists(all, es)
  {
    && p.Valid() && p.kind == MultiBulkReply && !p.done && p.count == |all|
    && (p.items <= all ==> |p.items| < |all| && Late(hand, Missing(p, es, rest)))
  }

  /** Whatever becomes of `o`: if it has these values in the end, bytes of `rest` are gone. */
  predicate Lost(o: Outcome, more: bytes, es: seq<Reply>, all: seq<Item>, rest: bytes)
    requires Lists(all, es)
  {
    o.Step? ==>
      if o.p.done then o.p.Valid() && (o.p.items == all ==> Late(o.rest + more, rest))
      else Behind(o.p, (o.p.temp + o.rest) + more, es, all, rest)
  }

  /** The same of one turn of the array loop. */
  predicate TurnLost(t: Turn, more: bytes, es: seq<Reply>, all: seq<Item>, rest: bytes)
    requires Lists(all, es)
  {
    match t
    case HalfRead(q) => Behind(q, q.temp + more, es, all, rest)
    case Whole(q, w) =>
      if |q.items| == q.count then q.items == all ==> Late(w + more, rest) else Behind(q, w + more, es, all, rest)
    case _ => true
  }

  /** What a turn leaves is the end of what it found. */
  lemma TurnLeaves(p: Parser, u: bytes, v: bytes) returns (k: nat)
    requires p.Valid() && p.kind == MultiBulkReply && !p.done
    ensures match ReadElement(p, u)
      case HalfRead(q) => k <= |(p.temp + u) + v| && q.temp + v == ((p.temp + u) + v)[k..]
      case Whole(_, w) => k <= |(p.temp + u) + v| && w + v == ((p.temp + u) + v)[k..]
      case _ => true
  {
    match ReadElement(p, u)
    case HalfRead(q) => k := EndOf(p.temp, u, q.temp, v);
    case Whole(_, w) => k := EndOf(p.temp, u, w, v);
    case _ => k := 0;
  }

  lemma EndOf(temp: bytes, u: bytes, w: bytes, v: bytes) returns (k: nat)
    requires |w| <= |u| && w == u[|u| - |w|..]
    ensures k <= |(temp + u) + v| && w + v == ((temp + u) + v)[k..]
  {
    CutRight(temp, u, |u| - |w|);
    k := |temp| + |u| - |w|;
    CutLeft(temp + u, v, k);
  }

  lemma OneMoreValue(a: seq<Item>, b: seq<Item>, all: seq<Item>)
    requires |b| == |a| + 1 && a <= b <= all
    ensures a <= all && b == a + [all[|a|]] && all[|a|..][0] == all[|a|] && all[|a|..][1..] == all[|b|..]
  {
    assert b == all[..|b|];
  }

  /** Once behind, a run of elements stays behind. */
  lemma BehindTurn(p: Parser, u: bytes, v: bytes, es: seq<Reply>, all: seq<Item>, rest: bytes)
    requires Lists(all, es) && Behind(p, (p.temp + u) + v, es, all, rest)
    ensures TurnLost(ReadElement(p, u), v, es, all, rest)
  {
    match ReadElement(p, u)
    case HalfRead(q) =>
      if p.items <= all {
        var k := TurnLeaves(p, u, v);
        LateSuffix((p.temp + u) + v, Missing(p, es, rest), k);
      }
    case Whole(q, w) =>
      if q.items <= all {
        OneMoreValue(p.items, q.items, all);
        LateElement(p, u, v, es[|p.items|..], rest);
        assert es[|p.items|..][1..] == es[|q.items|..];
      }
    case _ =>
  }

  lemma LateElement(p: Parser, u: bytes, v: bytes, es: seq<Reply>, rest: bytes)
    requires p.Valid() && p.kind == MultiBulkReply && !p.done && es != [] && Entry(es[0]).Some?
    requires Late((p.temp + u) + v, EncodeAll(es) + rest)
    requires ReadElement(p, u).Whole? && ReadElement(p, u).p.items == p.items + [Entry(es[0]).value]
    ensures Late(ReadElement(p, u).rest + v, EncodeAll(es[1..]) + rest)
  {
    var hand, e, later := (p.temp + u) + v, Encode(es[0]), EncodeAll(es[1..]) + rest;
    Regroup(e, EncodeAll(es[1..]), rest);
    LateTurn(p, u, v, es[0], later, |e + later| - |hand|);
    var k := TurnLeaves(p, u, v);
    LateSuffix(hand, e + later, k);
    SuffixWithin(hand[k..], e, later);
  }

  lemma {:induction false} BehindRun(p: Parser, u: bytes, v: bytes, es: seq<Reply>, all: seq<Item>, rest: bytes)
    requires Lists(all, es) && Behind(p, (p.temp + u) + v, es, all, rest)
    ensures Lost(ReadElements(p, u), v, es, all, rest)
    decreases |u|
  {
    BehindTurn(p, u, v, es, all, rest);
    match ReadElement(p, u)
    case HalfRead(q) =>
      assert q.temp + [] == q.temp;
    case Whole(q, w) =>
      if |q.items| != q.count {
        assert q.temp + w == w;
        BehindRun(q, w, v, es, all, rest);
      }
    case _ =>
  }

  // ---------------------------------------------------------------- whole arrays

  /** An element that is no string and no null: the run does not have its entry and all later ones in the end. */
  lemma BadElement(p: Parser, es: seq<Reply>, all: seq<Item>, rest: bytes)
    requires p.Valid() && p.kind == MultiBulkReply && !p.done && p.temp == []
    requires Lists(all, es) && |p.items| < |es| == p.count && p.items <= all && !Listed(es[|p.items|])
    ensures var o := ReadElements(p, Missing(p, es, rest));
      o.Step? && o.p.done && o.p.items == all ==> Late(o.rest, rest)
  {
    match ReadElement(p, Missing(p, es, rest))
    case Whole(q, w) =>
      if q.items <= all {
        OneMoreValue(p.items, q.items, all);
        BadTurn(p, es[|p.items|..], rest);
        assert es[|p.items|..][1..] == es[|q.items|..];
      }
      if |q.items| != q.count {
        RunOn(q, w, es, all, rest);
      }
    case _ =>
  }

  lemma RunOn(q: Parser, w: bytes, es: seq<Reply>, all: seq<Item>, rest: bytes)
    requires q.temp == [] && Lists(all, es) && Behind(q, w, es, all, rest)
    ensures var o := ReadElements(q, w); o.Step? && o.p.done && o.p.items == all ==> Late(o.rest, rest)
  {
    assert (q.temp + w) + [] == w;
    BehindRun(q, w, [], es, all, rest);
    var o := ReadElements(q, w);
    assert o.Step? ==> o.rest + [] == o.rest;
  }

  lemma BadTurn(p: Parser, es: seq<Reply>, rest: bytes)
    requires p.Valid() && p.kind == MultiBulkReply && !p.done && p.temp == []
    requires es != [] && Entry(es[0]).Some? && !Listed(es[0])
    requires var t := ReadElement(p, EncodeAll(es) + rest); t.Whole? && t.p.items == p.items + [Entry(es[0]).value]
    ensures Late(ReadElement(p, EncodeAll(es) + rest).rest, EncodeAll(es[1..]) + rest)
  {
    var u, e, later := EncodeAll(es) + rest, Encode(es[0]), EncodeAll(es[1..]) + rest;
    Regroup(e, EncodeAll(es[1..]), rest);
    assert (p.temp + u) + [] == u == u[0..];
    var w := ReadElement(p, u).rest;
    assert w + [] == w;
    LateTurn(p, u, [], es[0], later, 0);
    var k := TurnLeaves(p, u, []);
    SuffixOf(w, u, k, e, later);
  }

  lemma SuffixOf(w: bytes, u: bytes, k: nat, a: bytes, later: bytes)
    requires k <= |u| && w == u[k..] && u == a + later && |w| < |later|
    ensures Late(w, later)
  {
    CutRight(a, later, |later| - |w|);
  }

  /**
   A run over the elements of an array has exactly their entries, and exactly `rest` left, if and only if each
   of them is a bulk string that fits or a null.
   */
  lemma {:induction false} ElementsRead(p: Parser, es: seq<Reply>, all: seq<Item>, rest: bytes)
    requires p.Valid() && p.kind == MultiBulkReply && !p.done && p.temp == []
    requires Lists(all, es) && |p.items| < |es| == p.count && p.items <= all
    ensures var o := ReadElements(p, Missing(p, es, rest));
      o.Step? && o.p.done && o.p.items == all && o.rest == rest <==> AllListed(es[|p.items|..])
    decreases |es| - |p.items|
  {
    var i := |p.items|;
    var left := es[i..];
    if Listed(es[i]) {
      var q := AfterItem(p, all[i]);
      assert left[1..] == es[i + 1..] && q.items == all[..i + 1];
      Regroup(Encode(es[i]), EncodeAll(left[1..]), rest);
      ElementsStep(p, es[i], EncodeAll(left[1..]) + rest);
      if i + 1 == |es| {
        assert left[1..] == [] && [] + rest == rest;
      } else {
        ElementsRead(q, es, all, rest);
      }
    } else {
      BadElement(p, es, all, rest);
    }
  }

  // ---------------------------------------------------------------- over schedules

  lemma LostMore(o: Outcome, x: bytes, v: bytes, es: seq<Reply>, all: seq<Item>, rest: bytes)
    requires Lists(all, es) && Lost(o, x + v, es, all, rest)
    requires o.Step? ==> o.p.Valid()
    ensures Lost(Resume(o, x), v, es, all, rest)
  {
    if o.Step? {
      Regroup(o.rest, x, v);
      if !o.p.done {
        Regroup(o.p.temp + o.rest, x, v);
        Regroup(o.p.temp, o.rest, x);
        if o.rest + x != [] {
          BehindRun(o.p, o.rest + x, v, es, all, rest);
        }
      }
    }
  }

  lemma {:induction false} LostForGood(o: Outcome, chunks: seq<bytes>, es: seq<Reply>, all: seq<Item>, rest: bytes)
    requires Lists(all, es) && Lost(o, Concat(chunks), es, all, rest)
    requires o.Step? ==> o.p.Valid()
    ensures !Ends(ParseAll(o, chunks), MultiBulkReply, all, rest)
    decreases |chunks|
  {
    if chunks != [] {
      LostMore(o, chunks[0], Concat(chunks[1..]), es, all, rest);
      LostForGood(Resume(o, chunks[0]), chunks[1..], es, all, rest);
    } else if o.Step? {
      assert o.rest + [] == o.rest;
    }
  }
}
