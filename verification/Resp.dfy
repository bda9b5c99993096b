/** The RESP client codec: command encoder, incremental reply parser, and the buffered reader. */
module Resp {
  import opened Bytes
  import opened Decimal
  import opened Utf8

  const CR: byte := 13
  const LF: byte := 10
  const STAR: byte := 42   // '*'
  const CASH: byte := 36   // '$'
  const COLON: byte := 58  // ':'
  const CRLF: Bytes := [CR, LF]

  // Encoding.

  function EncodeArg(arg: Bytes): Bytes {
    [CASH] + Dec(|arg|) + CRLF + arg + CRLF
  }

  function EncodeArgs(args: seq<Bytes>): Bytes {
    if args == [] then [] else EncodeArg(args[0]) + EncodeArgs(args[1..])
  }

  function Encode(args: seq<Bytes>): Bytes {
    [STAR] + Dec(|args|) + CRLF + EncodeArgs(args)
  }

  /** Append one command frame to a buffer. */
  method EncodeCommand(buf: Bytes, args: seq<Bytes>) returns (out: Bytes)
    ensures out == buf + Encode(args)
  {
    hide EncodeArg;
    out := buf + ([STAR] + Dec(|args|) + CRLF);
    ghost var head := out;
    for i := 0 to |args|
      invariant out + EncodeArgs(args[i..]) == head + EncodeArgs(args)
    {
      assert args[i..][1..] == args[i + 1..];
      assert out + EncodeArgs(args[i..]) == (out + EncodeArg(args[i])) + EncodeArgs(args[i + 1..]);
      out := out + EncodeArg(args[i]);
    }
    assert out + [] == out;
    assert head + EncodeArgs(args) == buf + Encode(args);
  }

  // Parsing.

  datatype Reply = Status | Error(text: Bytes) | Bulk(bytes: Bytes) | Array(items: seq<Reply>)

  datatype Reason = BulkLength | ArrayLength | TypeByte(b: byte) | EmptyLine

  datatype Parsed = Complete(reply: Reply, used: nat) | Incomplete | Bad(reason: Reason)

  datatype ParsedItems = Items(items: seq<Reply>, used: nat) | Short | Broken(reason: Reason)

  function FindCrlf(buf: Bytes, i: nat): (r: Option<nat>)
    requires i <= |buf|
    ensures r.Some? ==> i <= r.value && r.value + 2 <= |buf|
    decreases |buf| - i
  {
    if i + 2 > |buf| then None
    else if buf[i] == CR && buf[i + 1] == LF then Some(i)
    else FindCrlf(buf, i + 1)
  }

  /** One reply at the front of the buffer; a line that is empty up to its CRLF is malformed. */
  function ParseReply(buf: Bytes): (r: Parsed)
    ensures r.Complete? ==> 3 <= r.used <= |buf|
    decreases |buf|, 0
  {
    if buf == [] then Incomplete
    else
      var line := FindCrlf(buf, 0);
      if line.None? then Incomplete
      else if line.value == 0 then Bad(EmptyLine)
      else
        var header := line.value;
        var body := buf[1..header];
        if buf[0] == PLUS || buf[0] == COLON then Complete(Status, header + 2)
        else if buf[0] == MINUS then Complete(Error(Lossy(body)), header + 2)
        else if buf[0] == CASH then
          var len := ParseI64(body);
          if len.None? then Bad(BulkLength)
          else if len.value < 0 then Complete(Status, header + 2)
          else if |buf| < header + 2 + len.value + 2 then Incomplete
          else Complete(Bulk(buf[header + 2..header + 2 + len.value]), header + 2 + len.value + 2)
        else if buf[0] == STAR then
          var count := ParseI64(body);
          if count.None? then Bad(ArrayLength)
          else if count.value < 0 then Complete(Status, header + 2)
          else
            match ParseItems(buf[header + 2..], count.value)
            case Items(items, used) => Complete(Array(items), header + 2 + used)
            case Short => Incomplete
            case Broken(reason) => Bad(reason)
        else Bad(TypeByte(buf[0]))
  }

  /** `n` replies in a row. */
  function ParseItems(buf: Bytes, n: nat): (r: ParsedItems)
    ensures r.Items? ==> r.used <= |buf| && |r.items| == n
    decreases |buf|, n + 1
  {
    if n == 0 then Items([], 0)
    else
      match ParseReply(buf)
      case Incomplete => Short
      case Bad(reason) => Broken(reason)
      case Complete(item, used) =>
        match ParseItems(buf[used..], n - 1)
        case Items(rest, more) => Items([item] + rest, used + more)
        case other => other
  }

  /** The array case as the parser runs it: items and offset grow in a loop. */
  method ParseArray(buf: Bytes, offset0: nat, n: nat) returns (r: ParsedItems)
    requires offset0 <= |buf|
    ensures r == ParseItems(buf[offset0..], n)
  {
    hide ParseReply, ParseItems, Prepend;
    var items: seq<Reply>, offset := [], offset0;
    PrependNone([], 0, ParseItems(buf[offset0..], n), buf);
    for i := 0 to n
      invariant offset0 <= offset <= |buf|
      invariant ParseItems(buf[offset0..], n) == Prepend(items, offset - offset0, ParseItems(buf[offset..], n - i))
    {
      var step := ParseReply(buf[offset..]);
      PrependStep(items, offset - offset0, buf[offset..], n - i);
      match step {
        case Incomplete => return Short;
        case Bad(reason) => return Broken(reason);
        case Complete(item, used) =>
          assert buf[offset..][used..] == buf[offset + used..];
          items, offset := items + [item], offset + used;
      }
    }
    PrependNone(items, offset - offset0, Short, buf[offset..]);
    r := Items(items, offset - offset0);
  }

  /** Items already read in front of the ones still to come. */
  function Prepend(items: seq<Reply>, used: nat, rest: ParsedItems): ParsedItems {
    match rest
    case Items(more, n) => Items(items + more, used + n)
    case other => other
  }

  lemma PrependNone(items: seq<Reply>, used: nat, all: ParsedItems, buf: Bytes)
    ensures Prepend([], 0, all) == all
    ensures Prepend(items, used, ParseItems(buf, 0)) == Items(items, used)
  {
    assert all.Items? ==> [] + all.items == all.items;
    assert items + [] == items;
  }

  lemma PrependStep(items: seq<Reply>, used: nat, buf: Bytes, n: nat)
    requires n > 0
    ensures Prepend(items, used, ParseItems(buf, n)) ==
            match ParseReply(buf)
            case Incomplete => Short
            case Bad(reason) => Broken(reason)
            case Complete(item, more) => Prepend(items + [item], used + more, ParseItems(buf[more..], n - 1))
  {
    hide ParseReply;
    var first := ParseReply(buf);
    if first.Complete? {
      var rest := ParseItems(buf[first.used..], n - 1);
      if rest.Items? {
        assert items + ([first.reply] + rest.items) == items + [first.reply] + rest.items;
      }
    }
  }

  // An answer, once given, does not change when more bytes arrive.

  lemma {:induction false} CrlfStable(buf: Bytes, more: Bytes, i: nat)
    requires i <= |buf| && FindCrlf(buf, i).Some?
    ensures FindCrlf(buf + more, i) == FindCrlf(buf, i)
    decreases |buf| - i
  {
    if !(buf[i] == CR && buf[i + 1] == LF) {
      CrlfStable(buf, more, i + 1);
    }
  }

  lemma {:induction false} ReplyStable(buf: Bytes, more: Bytes)
    ensures !ParseReply(buf).Incomplete? ==> ParseReply(buf + more) == ParseReply(buf)
    decreases |buf|, 0
  {
    hide Lossy, ParseI64;
    if buf != [] && FindCrlf(buf, 0).Some? {
      var header := FindCrlf(buf, 0).value;
      CrlfStable(buf, more, 0);
      var all := buf + more;
      assert all[0] == buf[0];
      if header > 0 {
        var body := buf[1..header];
        assert all[1..header] == body;
        if buf[0] == CASH {
          var len := ParseI64(body);
          if len.Some? && len.value >= 0 && |buf| >= header + 2 + len.value + 2 {
            assert all[header + 2..header + 2 + len.value] == buf[header + 2..header + 2 + len.value];
          }
        } else if buf[0] == STAR {
          var count := ParseI64(body);
          if count.Some? && count.value >= 0 {
            assert all[header + 2..] == buf[header + 2..] + more;
            ItemsStable(buf[header + 2..], count.value, more);
          }
        }
      }
    }
  }

  lemma {:induction false} ItemsStable(buf: Bytes, n: nat, more: Bytes)
    ensures !ParseItems(buf, n).Short? ==> ParseItems(buf + more, n) == ParseItems(buf, n)
    decreases |buf|, n + 1
  {
    hide ParseReply;
    if n > 0 {
      ReplyStable(buf, more);
      var first := ParseReply(buf);
      if first.Complete? {
        assert (buf + more)[first.used..] == buf[first.used..] + more;
        ItemsStable(buf[first.used..], n - 1, more);
      }
    }
  }

  // Commands read back.

  function Bulks(args: seq<Bytes>): seq<Reply> {
    if args == [] then [] else [Bulk(args[0])] + Bulks(args[1..])
  }

  /** Lengths a 64-bit machine can hold. */
  predicate Holdable(args: seq<Bytes>) {
    |args| <= I64_MAX && forall i :: 0 <= i < |args| ==> |args[i]| <= I64_MAX
  }

  lemma {:induction false} CrlfAfter(buf: Bytes, i: nat, at: nat)
    requires i <= at && at + 2 <= |buf| && buf[at] == CR && buf[at + 1] == LF
    requires forall j :: i <= j < at ==> buf[j] != CR
    ensures FindCrlf(buf, i) == Some(at)
    decreases at - i
  {
    if i < at {
      CrlfAfter(buf, i + 1, at);
    }
  }

  /** A header line of a type byte and a number. */
  lemma HeaderReads(t: byte, n: nat, rest: Bytes)
    requires t != CR && n <= I64_MAX
    ensures var buf := [t] + Dec(n) + CRLF + rest;
            && FindCrlf(buf, 0) == Some(|Dec(n)| + 1)
            && buf[1..|Dec(n)| + 1] == Dec(n) && buf[|Dec(n)| + 3..] == rest
            && ParseI64(Dec(n)) == Some(n)
  {
    hide Dec;
    var buf := [t] + Dec(n) + CRLF + rest;
    ParseOfDecInt(n);
    forall j | 0 <= j < |Dec(n)| + 1 ensures buf[j] != CR {
      assert j > 0 ==> IsDigit(Dec(n)[j - 1]) && buf[j] == Dec(n)[j - 1];
    }
    CrlfAfter(buf, 0, |Dec(n)| + 1);
  }

  lemma ArgReads(arg: Bytes, rest: Bytes)
    requires |arg| <= I64_MAX
    ensures ParseReply(EncodeArg(arg) + rest) == Complete(Bulk(arg), |EncodeArg(arg)|)
    ensures (EncodeArg(arg) + rest)[|EncodeArg(arg)|..] == rest
  {
    hide Dec, FindCrlf, ParseI64, Lossy;
    var tail := arg + CRLF + rest;
    var buf := EncodeArg(arg) + rest;
    assert buf == [CASH] + Dec(|arg|) + CRLF + tail;
    HeaderReads(CASH, |arg|, tail);
    var start := |Dec(|arg|)| + 3;
    assert buf[start..][..|arg|] == arg;
    assert buf[start..start + |arg|] == buf[start..][..|arg|];
  }

  lemma {:induction false} ArgsRead(args: seq<Bytes>, rest: Bytes)
    requires Holdable(args)
    ensures ParseItems(EncodeArgs(args) + rest, |args|) == Items(Bulks(args), |EncodeArgs(args)|)
    decreases |args|
  {
    hide ParseReply, EncodeArg;
    if args != [] {
      var tail := EncodeArgs(args[1..]) + rest;
      assert EncodeArgs(args) + rest == EncodeArg(args[0]) + tail;
      ArgReads(args[0], tail);
      ArgsRead(args[1..], rest);
    }
  }

  /** An encoded command parses to exactly its arguments and its own length, whatever follows it. */
  lemma CommandRoundTrip(args: seq<Bytes>, rest: Bytes)
    requires Holdable(args)
    ensures ParseReply(Encode(args) + rest) == Complete(Array(Bulks(args)), |Encode(args)|)
  {
    hide Dec, FindCrlf, ParseI64, Lossy, ParseItems, EncodeArgs;
    var tail := EncodeArgs(args) + rest;
    var buf := Encode(args) + rest;
    assert buf == [STAR] + Dec(|args|) + CRLF + tail;
    HeaderReads(STAR, |args|, tail);
    ArgsRead(args, rest);
  }

  /** Every strict prefix of an encoded command is incomplete. */
  lemma PrefixIsIncomplete(args: seq<Bytes>, n: nat)
    requires Holdable(args) && n < |Encode(args)|
    ensures ParseReply(Encode(args)[..n]) == Incomplete
  {
    hide Encode, ParseReply;
    var whole := Encode(args);
    var front := whole[..n];
    assert front + whole[n..] == whole && whole + [] == whole;
    ReplyStable(front, whole[n..]);
    CommandRoundTrip(args, []);
  }

  // Every reply the server writes.

  datatype Frame =
    | StatusLine(text: Bytes) | ErrorLine(text: Bytes) | Integer(n: int)
    | NullBulk | BulkFrame(bytes: Bytes) | ArrayFrame(items: seq<Frame>)

  function Emit(f: Frame): Bytes
    decreases f
  {
    match f
    case StatusLine(text) => [PLUS] + text + CRLF
    case ErrorLine(text) => [MINUS] + text + CRLF
    case Integer(n) => [COLON] + DecInt(n) + CRLF
    case NullBulk => [CASH, MINUS, ZERO + 1] + CRLF
    case BulkFrame(bytes) => EncodeArg(bytes)
    case ArrayFrame(items) => [STAR] + Dec(|items|) + CRLF + EmitAll(items)
  }

  function EmitAll(fs: seq<Frame>): Bytes
    decreases fs
  {
    if fs == [] then [] else Emit(fs[0]) + EmitAll(fs[1..])
  }

  /** What the client keeps of a frame. */
  function Kept(f: Frame): Reply
    decreases f
  {
    match f
    case ErrorLine(text) => Error(text)
    case BulkFrame(bytes) => Bulk(bytes)
    case ArrayFrame(items) => Array(KeptAll(items))
    case _ => Status
  }

  function KeptAll(fs: seq<Frame>): seq<Reply>
    decreases fs
  {
    if fs == [] then [] else [Kept(fs[0])] + KeptAll(fs[1..])
  }

  /** No CRLF inside a line. */
  predicate OneLine(text: Bytes) {
    forall i :: 0 <= i && i + 1 < |text| ==> !(text[i] == CR && text[i + 1] == LF)
  }

  /** Lines hold no CRLF, error texts are UTF-8, lengths fit. */
  predicate Sendable(f: Frame)
    decreases f
  {
    match f
    case StatusLine(text) => OneLine(text)
    case ErrorLine(text) => OneLine(text) && Valid(text)
    case BulkFrame(bytes) => |bytes| <= I64_MAX
    case ArrayFrame(items) => |items| <= I64_MAX && AllSendable(items)
    case _ => true
  }

  predicate AllSendable(fs: seq<Frame>)
    decreases fs
  {
    fs == [] || (Sendable(fs[0]) && AllSendable(fs[1..]))
  }

  /** A line is found whole exactly when it holds no CRLF. */
  lemma LineReads(t: byte, text: Bytes, rest: Bytes)
    requires t != CR
    ensures FindCrlf([t] + text + CRLF + rest, 0) == Some(|text| + 1) <==> OneLine(text)
    ensures ([t] + text + CRLF + rest)[1..|text| + 1] == text
  {
    var buf := [t] + text + CRLF + rest;
    assert buf[1..|text| + 1] == text;
    if OneLine(text) {
      FirstCrlf(buf, 0, |text| + 1);
    } else {
      var i :| 0 <= i && i + 1 < |text| && text[i] == CR && text[i + 1] == LF;
      assert buf[i + 1] == CR && buf[i + 2] == LF;
      CrlfNoLater(buf, 0, i + 1);
    }
  }

  lemma {:induction false} FirstCrlf(buf: Bytes, i: nat, at: nat)
    requires i <= at && at + 2 <= |buf| && buf[at] == CR && buf[at + 1] == LF
    requires forall j :: i <= j < at ==> !(buf[j] == CR && buf[j + 1] == LF)
    ensures FindCrlf(buf, i) == Some(at)
    decreases at - i
  {
    if i < at {
      FirstCrlf(buf, i + 1, at);
    }
  }

  lemma {:induction false} CrlfNoLater(buf: Bytes, i: nat, at: nat)
    requires i <= at && at + 2 <= |buf| && buf[at] == CR && buf[at + 1] == LF
    ensures FindCrlf(buf, i).Some? && FindCrlf(buf, i).value <= at
    decreases at - i
  {
    if i < at && !(buf[i] == CR && buf[i + 1] == LF) {
      CrlfNoLater(buf, i + 1, at);
    }
  }

  /** The client reads every sendable frame, nested arrays included, as exactly itself. */
  lemma {:induction false} FrameReads(f: Frame, rest: Bytes)
    requires Sendable(f)
    ensures ParseReply(Emit(f) + rest) == Complete(Kept(f), |Emit(f)|)
    decreases f
  {
    match f
    case StatusLine(text) =>
      LineFrame(PLUS, text, rest);
    case ErrorLine(text) =>
      LineFrame(MINUS, text, rest);
      LossyIffValid(text);
    case Integer(n) =>
      NumberIsOneLine(n);
      LineFrame(COLON, DecInt(n), rest);
    case NullBulk =>
      NullReads(rest);
    case BulkFrame(bytes) =>
      ArgReads(bytes, rest);
    case ArrayFrame(items) =>
      FramesRead(items, rest);
      ArrayFrameReads(items, rest);
  }

  lemma LineFrame(t: byte, text: Bytes, rest: Bytes)
    requires OneLine(text) && (t == PLUS || t == MINUS || t == COLON)
    ensures ParseReply(([t] + text + CRLF) + rest) ==
            Complete(if t == MINUS then Error(Lossy(text)) else Status, |text| + 3)
  {
    hide FindCrlf, Lossy, OneLine;
    assert ([t] + text + CRLF) + rest == [t] + text + CRLF + rest;
    LineReads(t, text, rest);
  }

  lemma NumberIsOneLine(n: int)
    ensures OneLine(DecInt(n))
  {
    hide Dec;
    var text := Dec(if n < 0 then -n else n);
    forall i | 0 <= i < |DecInt(n)| ensures DecInt(n)[i] != CR {
      var j := if n < 0 then i - 1 else i;
      assert j >= 0 ==> DecInt(n)[i] == text[j] && IsDigit(text[j]);
    }
  }

  lemma NullReads(rest: Bytes)
    ensures ParseReply(Emit(NullBulk) + rest) == Complete(Status, 5)
  {
    hide Lossy;
    var body := [MINUS, ZERO + 1];
    assert Emit(NullBulk) + rest == [CASH] + body + CRLF + rest;
    LineReads(CASH, body, rest);
    assert DecInt(-1) == body;
    ParseOfDecInt(-1);
  }

  lemma ArrayFrameReads(items: seq<Frame>, rest: Bytes)
    requires |items| <= I64_MAX
    requires ParseItems(EmitAll(items) + rest, |items|) == Items(KeptAll(items), |EmitAll(items)|)
    ensures ParseReply(Emit(ArrayFrame(items)) + rest) == Complete(Array(KeptAll(items)), |Emit(ArrayFrame(items))|)
  {
    hide Dec, FindCrlf, ParseI64, Lossy, ParseItems, EmitAll, KeptAll;
    var tail := EmitAll(items) + rest;
    assert Emit(ArrayFrame(items)) + rest == [STAR] + Dec(|items|) + CRLF + tail;
    HeaderReads(STAR, |items|, tail);
  }

  lemma {:induction false} FramesRead(fs: seq<Frame>, rest: Bytes)
    requires AllSendable(fs)
    ensures ParseItems(EmitAll(fs) + rest, |fs|) == Items(KeptAll(fs), |EmitAll(fs)|)
    decreases fs
  {
    hide ParseReply, Emit;
    if fs != [] {
      var tail := EmitAll(fs[1..]) + rest;
      assert EmitAll(fs) + rest == Emit(fs[0]) + tail;
      FrameReads(fs[0], tail);
      FramesRead(fs[1..], rest);
      assert (Emit(fs[0]) + tail)[|Emit(fs[0])|..] == tail;
    }
  }

  // The buffered reader.

  datatype Outcome = Got(reply: Reply, leftover: Bytes) | Malformed(reason: Reason) | Closed

  /** What reading one reply off a whole stream gives. */
  function OneReply(stream: Bytes): Outcome {
    match ParseReply(stream)
    case Complete(reply, used) => Got(reply, stream[used..])
    case Bad(reason) => Malformed(reason)
    case Incomplete => Closed
  }

  function Flatten(chunks: seq<Bytes>): Bytes {
    if chunks == [] then [] else chunks[0] + Flatten(chunks[1..])
  }

  /**
   * One reply from a buffer and the chunks a connection still delivers, an empty chunk being its
   * end. The outcome and the unread rest depend only on the bytes, not on how they were cut.
   */
  method ReadReply(buf0: Bytes, chunks: seq<Bytes>) returns (outcome: Outcome, buf: Bytes, rest: seq<Bytes>)
    requires forall i :: 0 <= i < |chunks| ==> chunks[i] != []
    ensures match OneReply(buf0 + Flatten(chunks))
            case Got(reply, leftover) => outcome == Got(reply, buf) && buf + Flatten(rest) == leftover
            case other => outcome == other && buf + Flatten(rest) == buf0 + Flatten(chunks)
    ensures forall i :: 0 <= i < |rest| ==> rest[i] != []
  {
    hide ParseReply;
    buf, rest := buf0, chunks;
    while true
      invariant buf + Flatten(rest) == buf0 + Flatten(chunks)
      invariant forall i :: 0 <= i < |rest| ==> rest[i] != []
      decreases |rest|
    {
      var parsed := ParseReply(buf);
      ReplyStable(buf, Flatten(rest));
      match parsed {
        case Complete(reply, used) =>
          assert (buf + Flatten(rest))[used..] == buf[used..] + Flatten(rest);
          buf := buf[used..];
          return Got(reply, buf), buf, rest;
        case Bad(reason) =>
          return Malformed(reason), buf, rest;
        case Incomplete =>
      }
      if rest == [] {
        assert buf + Flatten(rest) == buf;
        return Closed, buf, rest;
      }
      assert buf + Flatten(rest) == (buf + rest[0]) + Flatten(rest[1..]);
      buf, rest := buf + rest[0], rest[1..];
    }
  }

  /** The replies at the front of a stream, up to `n`, and what is left. */
  function Replies(stream: Bytes, n: nat): (seq<Reply>, Bytes) {
    if n == 0 || !OneReply(stream).Got? then ([], stream)
    else
      var Got(reply, leftover) := OneReply(stream);
      var (more, rest) := Replies(leftover, n - 1);
      ([reply] + more, rest)
  }

  /** Reading on and on: any chunking of the same bytes yields the same replies and the same rest. */
  method ReadReplies(buf0: Bytes, chunks: seq<Bytes>, n: nat) returns (replies: seq<Reply>, buf: Bytes, rest: seq<Bytes>)
    requires forall i :: 0 <= i < |chunks| ==> chunks[i] != []
    ensures replies == Replies(buf0 + Flatten(chunks), n).0
    ensures buf + Flatten(rest) == Replies(buf0 + Flatten(chunks), n).1
  {
    hide ParseReply, OneReply, Flatten;
    buf, rest, replies := buf0, chunks, [];
    assert [] + Replies(buf + Flatten(rest), n).0 == Replies(buf + Flatten(rest), n).0;
    for i := 0 to n
      invariant |replies| == i
      invariant forall j :: 0 <= j < |rest| ==> rest[j] != []
      invariant Replies(buf0 + Flatten(chunks), n) == Onward(replies, Replies(buf + Flatten(rest), n - i))
    {
      OnwardStep(replies, buf + Flatten(rest), n - i);
      var outcome;
      outcome, buf, rest := ReadReply(buf, rest);
      if !outcome.Got? {
        return;
      }
      replies := replies + [outcome.reply];
    }
    assert Replies(buf + Flatten(rest), 0) == ([], buf + Flatten(rest));
    assert replies + [] == replies;
  }

  function Onward(replies: seq<Reply>, more: (seq<Reply>, Bytes)): (seq<Reply>, Bytes) {
    (replies + more.0, more.1)
  }

  lemma OnwardStep(replies: seq<Reply>, stream: Bytes, n: nat)
    requires n > 0
    ensures Onward(replies, Replies(stream, n)) ==
            match OneReply(stream)
            case Got(reply, leftover) => Onward(replies + [reply], Replies(leftover, n - 1))
            case other => (replies, stream)
  {
    hide OneReply;
    if OneReply(stream).Got? {
      var Got(reply, leftover) := OneReply(stream);
      var more := Replies(leftover, n - 1).0;
      assert replies + ([reply] + more) == replies + [reply] + more;
    } else {
      assert replies + [] == replies;
    }
  }

  /** Bytes on the wire: the command GET k ... */
  lemma CommandExample()
    ensures Encode([[71, 69, 84], [107]]) ==
            [42, 50, 13, 10, 36, 51, 13, 10, 71, 69, 84, 13, 10, 36, 49, 13, 10, 107, 13, 10]
  {
    var get: Bytes, k: Bytes := [71, 69, 84], [107];
    var args := [get, k];
    assert args[1..] == [k] && [k][1..] == [];
    assert EncodeArg(get) == [36, 51, 13, 10, 71, 69, 84, 13, 10];
    assert EncodeArg(k) == [36, 49, 13, 10, 107, 13, 10];
    hide EncodeArg;
    assert EncodeArgs([k]) == EncodeArg(k) + [];
    assert EncodeArgs(args) == EncodeArg(get) + EncodeArgs([k]);
  }

  /** ... and one frame of each kind. */
  lemma FrameExample()
    ensures Emit(StatusLine([79, 75])) == [43, 79, 75, 13, 10]
    ensures Emit(ErrorLine([69])) == [45, 69, 13, 10]
    ensures Emit(Integer(-3)) == [58, 45, 51, 13, 10]
    ensures Emit(NullBulk) == [36, 45, 49, 13, 10]
    ensures Emit(ArrayFrame([BulkFrame([120])])) == [42, 49, 13, 10, 36, 49, 13, 10, 120, 13, 10]
  {
    var one := [BulkFrame([120])];
    assert one[1..] == [];
    assert EmitAll(one) == Emit(one[0]) + [];
  }

  /** A line that announces no reply is refused by its type byte or its length; a negative length is a null. */
  lemma RefusedMeaning(t: byte, text: Bytes, rest: Bytes)
    requires t != 13 && OneLine(text)
    ensures var r := ParseReply([t] + text + CRLF + rest);
            && (t != 43 && t != 45 && t != 58 && t != 36 && t != 42 ==> r == Bad(TypeByte(t)))
            && (t == 36 && ParseI64(text).None? ==> r == Bad(BulkLength))
            && (t == 42 && ParseI64(text).None? ==> r == Bad(ArrayLength))
            && ((t == 36 || t == 42) && ParseI64(text).Some? && ParseI64(text).value < 0 ==>
                  r == Complete(Status, |text| + 3))
  {
    hide FindCrlf, Lossy, OneLine, ParseI64, ParseItems;
    LineReads(t, text, rest);
  }

  /** Without a line break there is no answer yet. */
  lemma UnbrokenIsIncomplete(buf: Bytes)
    requires forall i :: 0 <= i < |buf| - 1 ==> !(buf[i] == 13 && buf[i + 1] == 10)
    ensures ParseReply(buf) == Incomplete
  {
    if buf != [] {
      NoCrlf(buf, 0);
    }
  }

  lemma {:induction false} NoCrlf(buf: Bytes, i: nat)
    requires i <= |buf| && forall j :: i <= j < |buf| - 1 ==> !(buf[j] == 13 && buf[j + 1] == 10)
    ensures FindCrlf(buf, i).None?
    decreases |buf| - i
  {
    if i + 2 <= |buf| {
      NoCrlf(buf, i + 1);
    }
  }
}
