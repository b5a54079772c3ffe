/** The replies of the protocol, their encoding, and how a line of them is read. */
module RespGrammar {
  import opened Bytes
  import opened Decimal
  import opened RespSpec

  /** An array holds replies of every type. */
  datatype Reply =
    | Status(text: bytes)
    | Error(text: bytes)
    | Integer(n: int)
    | Bulk(item: Item)
    | Array(elements: seq<Reply>)
    | NullArray

  function Line(c: byte, s: bytes): bytes { ([c] + s) + CRLF }

  function HeaderLine(c: byte, n: int): bytes { Line(c, PrintInt(n)) }

  function EncodeItem(item: Item): bytes
  {
    match item
    case Null => HeaderLine(DOLLAR, -1)
    case Text(t) => HeaderLine(DOLLAR, |t|) + (t + CRLF)
  }

  function Encode(r: Reply): bytes
    decreases r
  {
    match r
    case Status(s) => Line(PLUS_SIGN, s)
    case Error(s) => Line(MINUS_SIGN, s)
    case Integer(n) => HeaderLine(COLON, n)
    case Bulk(item) => EncodeItem(item)
    case Array(es) => HeaderLine(STAR, |es|) + EncodeAll(es)
    case NullArray => HeaderLine(STAR, -1)
  }

  /** The elements of an array, or the replies of a stream. */
  function EncodeAll(rs: seq<Reply>): bytes
    decreases rs
  {
    if rs == [] then [] else Encode(rs[0]) + EncodeAll(rs[1..])
  }

  function KindOf(r: Reply): Kind
  {
    match r
    case Status(_) => StatusReply
    case Error(_) => ErrorReply
    case Integer(_) => IntReply
    case Bulk(_) => BulkReply
    case _ => MultiBulkReply
  }

  /** "ERR ", which together with the type byte is the prefix an error line is meant to lose. */
  const ERR_WORD: bytes := [69, 82, 82, 32]

  /** The message of an error text. */
  function Message(s: bytes): bytes { if ERR_WORD <= s then s[4..] else s }

  /** What a reply says as one entry of the result list; an array within an array has no place in it. */
  function Entry(r: Reply): Option<Item>
  {
    match r
    case Status(s) => Some(Text(s))
    case Error(s) => Some(Text(Message(s)))
    case Integer(n) => Some(Text(PrintInt(n)))
    case Bulk(item) => Some(item)
    case Array(_) => None
    case NullArray => Some(Null)
  }

  /** These are the entries of `es`, in order. */
  predicate Lists(all: seq<Item>, es: seq<Reply>)
  {
    |all| == |es| && forall k :: 0 <= k < |es| ==> Entry(es[k]) == Some(all[k])
  }

  function Entries(es: seq<Reply>): (all: Option<seq<Item>>)
    ensures all.Some? ==> Lists(all.value, es)
    ensures all.None? ==> exists k :: 0 <= k < |es| && es[k].Array?
  {
    if es == [] then Some([])
    else
      match (Entry(es[0]), Entries(es[1..]))
      case (Some(x), Some(xs)) => Some([x] + xs)
      case _ => None
  }

  /** What a reply says; `None` when no list can show it. */
  function ItemsOf(r: Reply): Option<seq<Item>>
  {
    match r
    case Array(es) => Entries(es)
    case NullArray => Some([])
    case _ => Some([Entry(r).value])
  }

  /** What the parser reports of it: an error text without its first three bytes, everything else as it is. */
  function Reported(r: Reply): Option<seq<Item>>
  {
    if r.Error? then Some([Text(if |r.text| < 3 then [] else r.text[3..])]) else ItemsOf(r)
  }

  /** Text that survives on a line of its own. */
  predicate LineText(s: bytes) { LF !in s && (s == [] || s[|s| - 1] != CR) }

  predicate FitsInt(item: Item) { item.Text? ==> |item.text| <= MAX_BULK }

  /** The elements the parser has in mind: bulk strings that fit, and nulls of either kind. */
  predicate Listed(e: Reply) { e.NullArray? || (e.Bulk? && FitsInt(e.item)) }

  predicate AllListed(es: seq<Reply>)
  {
    es == [] || (Listed(es[0]) && AllListed(es[1..]))
  }

  predicate WellFormed(r: Reply)
  {
    match r
    case Status(s) => LineText(s)
    case Error(s) => LineText(s) && 3 <= |s|
    case Integer(_) => true
    case Bulk(item) => FitsInt(item)
    case Array(es) => 1 <= |es| <= INT_MAX && AllListed(es)
    case NullArray => true
  }

  /** The call finished a reply of this type with these values, and `rest` is left over. */
  predicate Ends(o: Outcome, kind: Kind, items: seq<Item>, rest: bytes)
  {
    o.Step? && o.p.done && o.p.kind == kind && o.p.items == items && o.rest == rest
  }

  /** The call delivered what `r` says. */
  predicate ReadsAs(o: Outcome, r: Reply, rest: bytes)
  {
    ItemsOf(r).Some? && Ends(o, KindOf(r), ItemsOf(r).value, rest)
  }

  /** The call finished `r`, errors shortened. */
  predicate Finishes(o: Outcome, r: Reply, rest: bytes)
  {
    Reported(r).Some? && Ends(o, KindOf(r), Reported(r).value, rest)
  }

  /** A finished parser reports `r`. */
  predicate Report(p: Parser, r: Reply) { p.done && p.kind == KindOf(r) && Some(p.items) == Reported(r) }

  lemma {:induction false} AllListedHaveEntries(es: seq<Reply>)
    requires AllListed(es)
    ensures Entries(es).Some?
  {
    if es != [] {
      AllListedHaveEntries(es[1..]);
    }
  }

  lemma {:induction false} ListedAt(es: seq<Reply>, k: nat)
    requires AllListed(es) && k < |es|
    ensures Listed(es[k])
  {
    if k != 0 {
      ListedAt(es[1..], k - 1);
    }
  }

  /** The header line of an element. */
  function HeaderOf(e: Reply): bytes
    requires Listed(e)
  {
    match e
    case Bulk(item) => HeaderLine(DOLLAR, if item.Null? then -1 else |item.text|)
    case NullArray => HeaderLine(STAR, -1)
  }

  /** The first line of a reply. */
  function FirstLine(r: Reply): bytes
    requires WellFormed(r)
  {
    match r
    case Bulk(_) => HeaderOf(r)
    case Array(es) => HeaderLine(STAR, |es|)
    case _ => Encode(r)
  }

  lemma FirstLineIsLine(r: Reply) returns (c: byte, s: bytes)
    requires WellFormed(r)
    ensures c != LF && LF !in s && FirstLine(r) == Line(c, s)
    ensures FirstLine(r) <= Encode(r)
    ensures !r.Bulk? && !r.Array? ==> FirstLine(r) == Encode(r)
  {
    match r
    case Status(t) => c, s := PLUS_SIGN, t;
    case Error(t) => c, s := MINUS_SIGN, t;
    case Integer(n) => c, s := COLON, PrintInt(n);
    case Bulk(item) => c, s := DOLLAR, PrintInt(if item.Null? then -1 else |item.text|);
    case Array(es) => c, s := STAR, PrintInt(|es|);
    case NullArray => c, s := STAR, PrintInt(-1);
  }

  // ---------------------------------------------------------------- lines

  lemma {:induction false} TrimIsPrefix(s: bytes)
    ensures TrimLine(s) <= s
    ensures var t := TrimLine(s); t != [] ==> t[|t| - 1] != CR && t[|t| - 1] != LF
    ensures TrimLine(s) == s <==> s == [] || (s[|s| - 1] != CR && s[|s| - 1] != LF)
  {
    if s != [] && (s[|s| - 1] == CR || s[|s| - 1] == LF) {
      TrimIsPrefix(s[..|s| - 1]);
    }
  }

  lemma TrimLineEnd(x: bytes)
    ensures TrimLine(x + CRLF) == TrimLine(x)
  {
    var y := x + [CR];
    assert x + CRLF == y + [LF];
    assert (y + [LF])[..|y|] == y && y[..|x|] == x;
    assert TrimLine(y) == TrimLine(x);
  }

  lemma LineEnds(x: bytes, rest: bytes)
    requires LF !in x
    ensures ReadLine([], (x + CRLF) + rest) == Some((TrimLine(x), rest))
  {
    var y, u := x + CRLF, (x + CRLF) + rest;
    CutRight(y, rest, 0);
    assert y[..|x| + 1] == x + [CR] && u[..|x| + 1] == y[..|x| + 1];
    IndexOfUnique(u, LF, |x| + 1);
    assert [] + (y + rest[..0]) == y;
    TrimLineEnd(x);
  }

  lemma LineSplits(c: byte, s: bytes, rest: bytes)
    requires c != CR && c != LF && LF in s
    ensures var r := ReadLine([], Line(c, s) + rest); r.Some? ==> |r.value.1| > |rest|
  {
    var u, k := Line(c, s) + rest, 1 + IndexOf(s, LF);
    assert u[..k] == [c] + s[..k - 1];
    IndexOfUnique(u, LF, k);
  }

  /** A line reads back, with nothing lost and nothing extra taken, exactly when its text fits on a line. */
  lemma LineRoundTrip(c: byte, s: bytes, rest: bytes)
    requires c != CR && c != LF
    ensures ReadLine([], Line(c, s) + rest) == Some(([c] + s, rest)) <==> LineText(s)
    ensures LF !in s ==> ReadLine([], Line(c, s) + rest) == Some((TrimLine([c] + s), rest))
  {
    if LF in s {
      LineSplits(c, s, rest);
    } else {
      LineEnds([c] + s, rest);
      TrimIsPrefix([c] + s);
    }
  }

  lemma HeaderRoundTrip(c: byte, n: int, rest: bytes)
    requires c != CR && c != LF
    ensures ReadLine([], HeaderLine(c, n) + rest) == Some(([c] + PrintInt(n), rest))
    ensures forall max: int :: max <= INT_MAX ==>
      LineNumber([c] + PrintInt(n), max) == if -1 <= n <= max then Some(n) else None
  {
    PrintIsLineFree(n);
    LineRoundTrip(c, PrintInt(n), rest);
    assert ([c] + PrintInt(n))[1..] == PrintInt(n);
    LexicalPrint(n);
  }

  /** Behind a type byte, trimming does what it does alone. */
  lemma {:induction false} TrimBehind(c: byte, s: bytes)
    requires c != CR && c != LF
    ensures TrimLine([c] + s) == [c] + TrimLine(s)
    decreases |s|
  {
    if s == [] {
      assert [c] + s == [c];
    } else {
      assert ([c] + s)[..|s|] == [c] + s[..|s| - 1];
      TrimBehind(c, s[..|s| - 1]);
    }
  }
}
