/** `RedisCommand`: prints a command as an array of bulk strings. */
module RedisCommands {
  import opened Bytes
  import opened Decimal
  import opened RespSpec
  import opened RespGrammar
  import opened RespReplies
  import opened RespBytes

  /** `RedisCommand::makeCommand`. */
  method MakeCommand(cmd: bytes, args: seq<bytes>) returns (out: bytes)
    ensures out == Encode(Array(Texts([cmd] + args)))
  {
    out := [STAR] + PrintInt(|args| + 1) + CRLF;
    out := out + ([DOLLAR] + PrintInt(|cmd|) + CRLF);
    out := out + (cmd + CRLF);
    ghost var head, all := HeaderLine(STAR, |args| + 1), [cmd] + args;
    OneMoreArgument(head, all, 0);
    assert head + EncodeAll(Texts(all[..0])) == head;
    for k := 0 to |args|
      invariant out == head + EncodeAll(Texts(all[..k + 1]))
    {
      out := out + ([DOLLAR] + PrintInt(|args[k]|) + CRLF);
      out := out + (args[k] + CRLF);
      OneMoreArgument(head, all, k + 1);
    }
    assert all[..|args| + 1] == all;
  }

  lemma OneMoreArgument(head: bytes, all: seq<bytes>, k: nat)
    requires k < |all|
    ensures ((head + EncodeAll(Texts(all[..k]))) + ([DOLLAR] + PrintInt(|all[k]|) + CRLF)) + (all[k] + CRLF)
      == head + EncodeAll(Texts(all[..k + 1]))
  {
    var before, x := all[..k], all[k];
    assert all[..k + 1] == before + [x];
    TextsSnoc(before, x);
    EncodeAllSnoc(Texts(before), Bulk(Text(x)));
    Regroup(head + EncodeAll(Texts(before)), HeaderLine(DOLLAR, |x|), x + CRLF);
    Regroup(head, EncodeAll(Texts(before)), EncodeItem(Text(x)));
  }

  /** Bulk strings with these texts. */
  function Texts(list: seq<bytes>): (es: seq<Reply>)
    ensures |es| == |list|
  {
    if list == [] then [] else [Bulk(Text(list[0]))] + Texts(list[1..])
  }

  lemma {:induction false} TextsSnoc(list: seq<bytes>, x: bytes)
    ensures Texts(list + [x]) == Texts(list) + [Bulk(Text(x))]
  {
    if list == [] {
      assert [] + [x] == [x] && [x][1..] == [];
    } else {
      assert (list + [x])[1..] == list[1..] + [x];
      TextsSnoc(list[1..], x);
    }
  }

  lemma {:induction false} EncodeAllSnoc(rs: seq<Reply>, r: Reply)
    ensures EncodeAll(rs + [r]) == EncodeAll(rs) + Encode(r)
  {
    if rs == [] {
      assert [] + [r] == [r] && [r][1..] == [];
      assert Encode(r) + [] == Encode(r);
    } else {
      assert (rs + [r])[1..] == rs[1..] + [r];
      EncodeAllSnoc(rs[1..], r);
      Regroup(Encode(rs[0]), EncodeAll(rs[1..]), Encode(r));
    }
  }

  /**
   Printing and parsing: whatever the bytes of the command and its arguments, and whatever follows, one
   delivery of the printed command finishes as an array of exactly these strings and leaves the rest,
   if and only if count and lengths fit what the parser accepts.
   */
  lemma CommandRoundTrip(cmd: bytes, args: seq<bytes>, rest: bytes)
    ensures ReadsAs(Parse(START, Encode(Array(Texts([cmd] + args))) + rest), Array(Texts([cmd] + args)), rest)
      <==> |args| < INT_MAX && forall k :: 0 <= k <= |args| ==> |([cmd] + args)[k]| <= MAX_BULK
  {
    ReplyRoundTrip(Array(Texts([cmd] + args)), rest);
    TextsFit([cmd] + args);
  }

  lemma {:induction false} TextsFit(list: seq<bytes>)
    ensures AllListed(Texts(list)) <==> forall k :: 0 <= k < |list| ==> |list[k]| <= MAX_BULK
  {
    if list != [] {
      TextsFit(list[1..]);
      assert list == [list[0]] + list[1..];
      if forall k :: 0 <= k < |list| ==> |list[k]| <= MAX_BULK {
        forall k | 0 <= k < |list[1..]| ensures |list[1..][k]| <= MAX_BULK {
          assert list[1..][k] == list[k + 1];
        }
      }
    }
  }

  // ---------------------------------------------------------------- byte by byte

  /** A command of three bytes with one argument of ten, whatever they are, and its way back. */
  lemma CommandExample(cmd: bytes, arg: bytes, rest: bytes)
    requires |cmd| == 3 && |arg| == 10
    ensures var u := ([42, 50, 13, 10] + ([36, 51, 13, 10] + (cmd + [13, 10])))
                       + ([36, 49, 48, 13, 10] + (arg + [13, 10]));
      && Encode(Array(Texts([cmd] + [arg]))) == u
      && Ends(Parse(START, u + rest), MultiBulkReply, [Text(cmd), Text(arg)], rest)
  {
    CommandBytes(cmd, arg);
    CommandRoundTrip(cmd, [arg], rest);
    TwoTexts(cmd, arg);
    TwoStrings(cmd, arg);
  }

  lemma TwoTexts(a: bytes, b: bytes)
    ensures Texts([a] + [b]) == [Bulk(Text(a)), Bulk(Text(b))]
  {
    assert ([a] + [b])[1..] == [b] && [b][1..] == [];
    assert Texts([b]) == [Bulk(Text(b))] + Texts([]);
  }

  lemma CommandBytes(cmd: bytes, arg: bytes)
    requires |cmd| == 3 && |arg| == 10
    ensures Encode(Array(Texts([cmd] + [arg]))) ==
      ([42, 50, 13, 10] + ([36, 51, 13, 10] + (cmd + [13, 10]))) + ([36, 49, 48, 13, 10] + (arg + [13, 10]))
  {
    TwoTexts(cmd, arg);
    TwoStrings(cmd, arg);
    CountsPrinted();
  }

  lemma CountsPrinted()
    ensures HeaderLine(STAR, 2) == [42, 50, 13, 10] && HeaderLine(DOLLAR, 3) == [36, 51, 13, 10]
    ensures HeaderLine(DOLLAR, 10) == [36, 49, 48, 13, 10]
  {
    assert Print(10) == Print(1) + [48];
  }

  /** The command "GET 0123456789": every byte that is sent. */
  lemma GetExample(rest: bytes)
    ensures var u := [42, 50, 13, 10,  36, 51, 13, 10, 71, 69, 84, 13, 10,
                      36, 49, 48, 13, 10, 48, 49, 50, 51, 52, 53, 54, 55, 56, 57, 13, 10];
      && Encode(Array(Texts([[71, 69, 84]] + [[48, 49, 50, 51, 52, 53, 54, 55, 56, 57]]))) == u
      && Ends(Parse(START, u + rest), MultiBulkReply,
              [Text([71, 69, 84]), Text([48, 49, 50, 51, 52, 53, 54, 55, 56, 57])], rest)
  {
    GetBytes([71, 69, 84], [48, 49, 50, 51, 52, 53, 54, 55, 56, 57]);
    CommandExample([71, 69, 84], [48, 49, 50, 51, 52, 53, 54, 55, 56, 57], rest);
  }

  lemma GetBytes(cmd: bytes, arg: bytes)
    requires cmd == [71, 69, 84] && arg == [48, 49, 50, 51, 52, 53, 54, 55, 56, 57]
    ensures ([42, 50, 13, 10] + ([36, 51, 13, 10] + (cmd + [13, 10]))) + ([36, 49, 48, 13, 10] + (arg + [13, 10]))
         == [42, 50, 13, 10,  36, 51, 13, 10, 71, 69, 84, 13, 10,
             36, 49, 48, 13, 10, 48, 49, 50, 51, 52, 53, 54, 55, 56, 57, 13, 10]
  {
  }
}
