/** JSON path arguments: the parser, the canonical printer, and their round trip. */
module JsonPath {
  import opened Bytes
  import opened Decimal
  import opened Utf8

  const DOT: byte := 46       // '.'
  const DOLLAR: byte := 36    // '$'
  const OPEN: byte := 91      // '['
  const CLOSE: byte := 93     // ']'
  const QUOTE: byte := 39     // '\''

  datatype Seg = Field(name: Bytes) | Index(at: int)

  /** A byte that ends a dotted name. */
  predicate Special(c: byte) {
    c == DOT || c == OPEN || c == CLOSE
  }

  /** Where a dotted name that starts at `i` ends. */
  function NameEnd(s: Bytes, i: nat): (r: nat)
    requires i <= |s|
    ensures i <= r <= |s|
    ensures forall j :: i <= j < r ==> !Special(s[j])
    ensures r < |s| ==> Special(s[r])
    decreases |s| - i
  {
    if i == |s| || Special(s[i]) then i else NameEnd(s, i + 1)
  }

  /** One segment at the front of `s`, and what follows it. */
  function ParseSeg(s: Bytes): (r: Option<(Seg, Bytes)>)
    requires s != []
    ensures r.Some? ==> |r.value.1| < |s|
  {
    if s[0] == DOT then
      var end := NameEnd(s, 1);
      if end == 1 then None else Some((Field(s[1..end]), s[end..]))
    else if s[0] != OPEN || |s| == 1 then None
    else if s[1] == QUOTE then
      var end := IndexFrom(s, QUOTE, 2);
      if end.None? || end.value + 1 >= |s| || s[end.value + 1] != CLOSE then None
      else Some((Field(s[2..end.value]), s[end.value + 2..]))
    else
      var end := IndexFrom(s, CLOSE, 1);
      if end.None? then None
      else
        var at := ParseI64(s[1..end.value]);
        if at.None? then None else Some((Index(at.value), s[end.value + 1..]))
  }

  function ParseSegs(s: Bytes): Option<seq<Seg>>
    decreases |s|
  {
    if s == [] then Some([])
    else
      var first := ParseSeg(s);
      if first.None? then None
      else
        var rest := ParseSegs(first.value.1);
        if rest.None? then None else Some([first.value.0] + rest.value)
  }

  function Path(arg: Bytes): Option<seq<Seg>> {
    if arg == [] then None
    else if arg == [DOT] || arg == [DOLLAR] then Some([])
    else ParseSegs(if arg[0] == DOLLAR then arg[1..] else arg)
  }

  method ParsePath(arg: Bytes) returns (r: Option<seq<Seg>>)
    ensures r == Path(arg)
  {
    hide ParseSeg;
    if arg == [] {
      return None;
    }
    if arg == [DOT] || arg == [DOLLAR] {
      return Some([]);
    }
    var rest := if arg[0] == DOLLAR then arg[1..] else arg;
    var segs: seq<Seg> := [];
    JoinedEnds(segs, ParseSegs(rest));
    while rest != []
      invariant Path(arg) == Joined(segs, ParseSegs(rest))
      decreases |rest|
    {
      var step := ParseSeg(rest);
      JoinedStep(segs, rest);
      if step.None? {
        return None;
      }
      segs, rest := segs + [step.value.0], step.value.1;
    }
    JoinedEnds(segs, ParseSegs(rest));
    r := Some(segs);
  }

  /** Segments read so far, followed by the ones still to be read. */
  function Joined(segs: seq<Seg>, more: Option<seq<Seg>>): Option<seq<Seg>> {
    if more.None? then None else Some(segs + more.value)
  }

  lemma JoinedStep(segs: seq<Seg>, rest: Bytes)
    requires rest != []
    ensures var step := ParseSeg(rest);
            Joined(segs, ParseSegs(rest)) ==
            if step.None? then None else Joined(segs + [step.value.0], ParseSegs(step.value.1))
  {
    hide ParseSeg;
    var step := ParseSeg(rest);
    if step.Some? && ParseSegs(step.value.1).Some? {
      var more := ParseSegs(step.value.1).value;
      assert segs + ([step.value.0] + more) == segs + [step.value.0] + more;
    }
  }

  lemma JoinedEnds(segs: seq<Seg>, more: Option<seq<Seg>>)
    ensures Joined([], more) == more
    ensures Joined(segs, Some([])) == Some(segs)
  {
    assert segs + [] == segs;
    assert more.Some? ==> [] + more.value == more.value;
  }

  // The grammar.

  /** `text` is one way to write `seg`. */
  ghost predicate Writes(seg: Seg, text: Bytes) {
    match seg
    case Field(name) =>
      || (Simple(name) && text == [DOT] + name)
      || (QUOTE !in name && text == [OPEN, QUOTE] + name + [QUOTE, CLOSE])
    case Index(at) =>
      exists digits :: DigitText(digits, at) && text == [OPEN] + digits + [CLOSE]
  }

  ghost predicate DigitText(digits: Bytes, at: int) {
    CLOSE !in digits && digits != [] && digits[0] != QUOTE && ParseI64(digits) == Some(at)
  }

  /** `s` is the segments written one after the other. */
  ghost predicate Derives(s: Bytes, segs: seq<Seg>)
    decreases |segs|
  {
    if segs == [] then s == []
    else exists n :: 0 < n <= |s| && Writes(segs[0], s[..n]) && Derives(s[n..], segs[1..])
  }

  lemma SegIsWritten(s: Bytes)
    requires s != [] && ParseSeg(s).Some?
    ensures var (seg, rest) := ParseSeg(s).value;
            var n := |s| - |rest|;
            0 < n <= |s| && s[n..] == rest && Writes(seg, s[..n])
  {
    hide ParseI64;
    if s[0] == DOT {
      var end := NameEnd(s, 1);
      assert s[..end] == [DOT] + s[1..end];
      SegIsProducible(s);
    } else if s[1] == QUOTE {
      var end := IndexFrom(s, QUOTE, 2).value;
      assert s[..end + 2] == [OPEN, QUOTE] + s[2..end] + [QUOTE, CLOSE];
    } else {
      var end := IndexFrom(s, CLOSE, 1).value;
      var digits := s[1..end];
      assert s[..end + 1] == [OPEN] + digits + [CLOSE];
      NoDigitsNoNumber(digits);
      assert DigitText(digits, ParseI64(digits).value);
    }
  }

  lemma NoDigitsNoNumber(digits: Bytes)
    ensures digits == [] ==> ParseI64(digits) == None
  {
  }

  lemma WrittenReads(seg: Seg, text: Bytes, rest: Bytes)
    requires Writes(seg, text) && Boundary(rest)
    ensures ParseSeg(text + rest) == Some((seg, rest)) && Boundary(text + rest)
  {
    hide ParseSeg, ParseI64;
    match seg
    case Field(name) =>
      if Simple(name) && text == [DOT] + name {
        DottedReads(name, rest);
      } else {
        QuotedReads(name, rest);
      }
    case Index(at) =>
      var digits :| DigitText(digits, at) && text == [OPEN] + digits + [CLOSE];
      DigitsRead(digits, at, rest);
  }

  lemma {:induction false} DerivesBoundary(s: Bytes, segs: seq<Seg>)
    requires Derives(s, segs)
    ensures Boundary(s)
  {
    if segs != [] {
      var n :| 0 < n <= |s| && Writes(segs[0], s[..n]) && Derives(s[n..], segs[1..]);
      assert s[..n][0] == s[0];
    }
  }

  /** The parser accepts exactly the grammar, and each text in one way. */
  lemma {:induction false} ParsesIffDerives(s: Bytes, segs: seq<Seg>)
    ensures ParseSegs(s) == Some(segs) <==> Derives(s, segs)
    decreases |segs|, |s|
  {
    hide ParseSeg, Writes;
    if ParseSegs(s) == Some(segs) && s != [] {
      SegIsWritten(s);
      var (seg, rest) := ParseSeg(s).value;
      assert segs[0] == seg && segs[1..] == ParseSegs(rest).value;
      ParsesIffDerives(rest, segs[1..]);
    }
    if segs != [] && Derives(s, segs) {
      var n :| 0 < n <= |s| && Writes(segs[0], s[..n]) && Derives(s[n..], segs[1..]);
      DerivesBoundary(s[n..], segs[1..]);
      WrittenReads(segs[0], s[..n], s[n..]);
      assert s[..n] + s[n..] == s;
      ParsesIffDerives(s[n..], segs[1..]);
      assert [segs[0]] + segs[1..] == segs;
    }
  }

  // The printer.

  predicate Simple(name: Bytes) {
    name != [] && forall i :: 0 <= i < |name| ==> !Special(name[i])
  }

  function DropQuotes(s: Bytes): Bytes {
    if s == [] then [] else (if s[0] == QUOTE then [] else [s[0]]) + DropQuotes(s[1..])
  }

  function ShowSeg(seg: Seg): (r: Bytes)
    ensures r != []
  {
    match seg
    case Field(name) =>
      if Simple(name) then [DOT] + Lossy(name)
      else [OPEN, QUOTE] + DropQuotes(Lossy(name)) + [QUOTE, CLOSE]
    case Index(at) => [OPEN] + DecInt(at) + [CLOSE]
  }

  function ShowSegs(segs: seq<Seg>): Bytes {
    if segs == [] then [] else ShowSeg(segs[0]) + ShowSegs(segs[1..])
  }

  function Display(segs: seq<Seg>): Bytes {
    if segs == [] then [DOT] else ShowSegs(segs)
  }

  method PathDisplay(segs: seq<Seg>) returns (out: Bytes)
    ensures out == Display(segs)
  {
    hide ShowSeg;
    if segs == [] {
      return [DOT];
    }
    out := [];
    for i := 0 to |segs|
      invariant out + ShowSegs(segs[i..]) == ShowSegs(segs)
    {
      assert segs[i..][1..] == segs[i + 1..];
      out := out + ShowSeg(segs[i]);
    }
  }

  // What the parser can produce.

  /** Indexes fit, and a name that is not simple came from quotes, so it holds none. */
  ghost predicate Producible(seg: Seg) {
    match seg
    case Field(name) => Simple(name) || QUOTE !in name
    case Index(at) => I64_MIN <= at <= I64_MAX
  }

  lemma SegIsProducible(s: Bytes)
    requires s != [] && ParseSeg(s).Some?
    ensures Producible(ParseSeg(s).value.0)
  {
    if s[0] == DOT {
      var end := NameEnd(s, 1);
      var name := s[1..end];
      forall i | 0 <= i < |name| ensures !Special(name[i]) {
        assert name[i] == s[i + 1];
      }
    }
  }

  lemma {:induction false} SegsAreProducible(s: Bytes)
    requires ParseSegs(s).Some?
    ensures forall seg <- ParseSegs(s).value :: Producible(seg)
    decreases |s|
  {
    hide ParseSeg, Producible;
    if s != [] {
      SegIsProducible(s);
      SegsAreProducible(ParseSeg(s).value.1);
    }
  }

  /** What a printed segment reads back as. */
  function Echo(seg: Seg): Seg {
    match seg
    case Field(name) => Field(Lossy(name))
    case Index(at) => seg
  }

  lemma {:induction false} NoQuotesToDrop(s: Bytes)
    requires QUOTE !in s
    ensures DropQuotes(s) == s
  {
    if s != [] {
      NoQuotesToDrop(s[1..]);
      assert s == [s[0]] + s[1..];
    }
  }

  lemma SimpleKept(name: Bytes)
    ensures Simple(Lossy(name)) <==> Simple(name)
  {
    LossyKeepsAscii(name, DOT);
    LossyKeepsAscii(name, OPEN);
    LossyKeepsAscii(name, CLOSE);
    LossyEmpty(name);
    PlainIff(name);
    PlainIff(Lossy(name));
  }

  lemma PlainIff(s: Bytes)
    ensures Simple(s) <==> s != [] && DOT !in s && OPEN !in s && CLOSE !in s
  {
  }

  /** A text starts a new segment where the previous one may end. */
  predicate Boundary(rest: Bytes) {
    rest == [] || rest[0] == DOT || rest[0] == OPEN
  }

  lemma DottedReads(name: Bytes, rest: Bytes)
    requires Simple(name) && Boundary(rest)
    ensures ParseSeg([DOT] + name + rest) == Some((Field(name), rest))
  {
    var s := [DOT] + name + rest;
    NameEndIs(s, 1, |name| + 1);
    assert s[1..|name| + 1] == name;
    assert s[|name| + 1..] == rest;
  }

  lemma {:induction false} NameEndIs(s: Bytes, i: nat, end: nat)
    requires i <= end <= |s| && forall j :: i <= j < end ==> !Special(s[j])
    requires end < |s| ==> Special(s[end])
    ensures NameEnd(s, i) == end
    decreases end - i
  {
    if i < end {
      NameEndIs(s, i + 1, end);
    }
  }

  lemma QuotedReads(name: Bytes, rest: Bytes)
    requires QUOTE !in name
    ensures ParseSeg([OPEN, QUOTE] + name + [QUOTE, CLOSE] + rest) == Some((Field(name), rest))
  {
    var s := [OPEN, QUOTE] + name + [QUOTE, CLOSE] + rest;
    var end := |name| + 2;
    assert s[end] == QUOTE && s[end + 1] == CLOSE;
    assert s[2..end] == name;
    assert s[end + 2..] == rest;
    assert forall i :: 2 <= i < end ==> s[i] == name[i - 2];
    IndexIs(s, QUOTE, 2, end);
  }

  lemma IndexReads(at: int, rest: Bytes)
    requires I64_MIN <= at <= I64_MAX
    ensures ParseSeg([OPEN] + DecInt(at) + [CLOSE] + rest) == Some((Index(at), rest))
  {
    hide ParseSeg;
    ParseOfDecInt(at);
    DecIntBytes(at);
    DigitsRead(DecInt(at), at, rest);
  }

  lemma DigitsRead(digits: Bytes, at: int, rest: Bytes)
    requires DigitText(digits, at)
    ensures ParseSeg([OPEN] + digits + [CLOSE] + rest) == Some((Index(at), rest))
  {
    hide ParseI64;
    var s := [OPEN] + digits + [CLOSE] + rest;
    var end := |digits| + 1;
    assert s[end] == CLOSE && s[1..end] == digits && s[end + 1..] == rest;
    assert forall i :: 1 <= i < end ==> s[i] == digits[i - 1];
    assert s[1] == digits[0];
    IndexIs(s, CLOSE, 1, end);
  }

  lemma DecIntBytes(at: int)
    ensures forall i :: 0 <= i < |DecInt(at)| ==> DecInt(at)[i] == MINUS || IsDigit(DecInt(at)[i])
  {
    if at < 0 {
      var text := Dec(-at);
      assert forall i :: 0 < i < |DecInt(at)| ==> DecInt(at)[i] == text[i - 1];
    }
  }

  lemma ShowReads(seg: Seg, rest: Bytes)
    requires Producible(seg) && Boundary(rest)
    ensures ParseSeg(ShowSeg(seg) + rest) == Some((Echo(seg), rest))
    ensures Boundary(ShowSeg(seg) + rest)
  {
    hide ParseSeg;
    match seg
    case Field(name) =>
      SimpleKept(name);
      if Simple(name) {
        DottedReads(Lossy(name), rest);
      } else {
        LossyKeepsAscii(name, QUOTE);
        NoQuotesToDrop(Lossy(name));
        QuotedReads(Lossy(name), rest);
      }
    case Index(at) =>
      IndexReads(at, rest);
  }

  function Echoes(segs: seq<Seg>): seq<Seg> {
    if segs == [] then [] else [Echo(segs[0])] + Echoes(segs[1..])
  }

  lemma {:induction false} ShowAllReads(segs: seq<Seg>)
    requires forall seg <- segs :: Producible(seg)
    ensures Boundary(ShowSegs(segs))
    ensures ParseSegs(ShowSegs(segs)) == Some(Echoes(segs))
    decreases |segs|
  {
    hide ParseSeg, ShowSeg, Echo, Producible;
    if segs != [] {
      ShowAllReads(segs[1..]);
      ShowReads(segs[0], ShowSegs(segs[1..]));
    }
  }

  ghost predicate ValidNames(segs: seq<Seg>) {
    forall i :: 0 <= i < |segs| && segs[i].Field? ==> Valid(segs[i].name)
  }

  lemma {:induction false} EchoesSame(segs: seq<Seg>)
    ensures Echoes(segs) == segs <==> ValidNames(segs)
    decreases |segs|
  {
    if segs != [] {
      EchoesSame(segs[1..]);
      if segs[0].Field? {
        LossyIffValid(segs[0].name);
      }
      assert segs == [segs[0]] + segs[1..];
      assert Echoes(segs)[1..] == Echoes(segs[1..]);
      ValidNamesTail(segs);
    }
  }

  lemma ValidNamesTail(segs: seq<Seg>)
    requires segs != []
    ensures ValidNames(segs) <==> (segs[0].Field? ==> Valid(segs[0].name)) && ValidNames(segs[1..])
  {
    hide Valid;
    if ValidNames(segs[1..]) && (segs[0].Field? ==> Valid(segs[0].name)) {
      forall i | 0 <= i < |segs| && segs[i].Field? ensures Valid(segs[i].name) {
        if i > 0 {
          assert segs[1..][i - 1] == segs[i];
        }
      }
    }
    if ValidNames(segs) {
      forall i | 0 <= i < |segs[1..]| && segs[1..][i].Field? ensures Valid(segs[1..][i].name) {
        assert segs[1..][i] == segs[i + 1];
      }
    }
  }

  /** Parsing the canonical form gives the same segments exactly when every name is valid UTF-8. */
  lemma RoundTripIff(arg: Bytes)
    requires Path(arg).Some?
    ensures Path(Display(Path(arg).value)) == Path(arg) <==> ValidNames(Path(arg).value)
  {
    var segs := Path(arg).value;
    if segs != [] {
      SegsAreProducible(if arg[0] == DOLLAR then arg[1..] else arg);
      ShowAllReads(segs);
      EchoesSame(segs);
      DisplayShape(segs);
    }
  }

  /** A name that is no UTF-8 does not survive its canonical form. */
  lemma InvalidNameExample()
    ensures var segs := [Field([0xFF])];
            Path([DOT, 0xFF]) == Some(segs) && Path(Display(segs)) != Some(segs)
  {
    hide Display;
    var arg: Bytes := [DOT, 0xFF];
    assert NameEnd(arg, 1) == 2 && arg[1..2] == [0xFF];
    assert ParseSeg(arg) == Some((Field([0xFF]), []));
    assert ParseSegs([]) == Some([]);
    assert [Field([0xFF])] + [] == [Field([0xFF])];
    RoundTripIff(arg);
    assert !Valid([0xFF]);
    assert Field([0xFF]) in [Field([0xFF])];
  }

  /** The canonical form of a non-root path is neither empty nor a root, and has no dollar sign in front. */
  lemma DisplayShape(segs: seq<Seg>)
    requires segs != [] && forall seg <- segs :: Producible(seg)
    ensures var text := Display(segs);
            |text| >= 2 && text[0] != DOLLAR
  {
    if segs[0].Field? {
      LossyEmpty(segs[0].name);
    }
  }

  /** Every accepted UTF-8 argument round-trips. */
  lemma Utf8RoundTrips(arg: Bytes)
    requires Path(arg).Some? && Valid(arg)
    ensures Path(Display(Path(arg).value)) == Path(arg)
  {
    hide Valid, ParseSegs, Display;
    if arg != [DOT] && arg != [DOLLAR] {
      var s := if arg[0] == DOLLAR then arg[1..] else arg;
      if arg[0] == DOLLAR {
        assert arg == [] + [DOLLAR] + arg[1..];
        ValidCut([], DOLLAR, arg[1..]);
      }
      SegNamesValid(s);
    }
    RoundTripIff(arg);
  }

  lemma {:induction false} SegNamesValid(s: Bytes)
    requires Valid(s) && ParseSegs(s).Some?
    ensures ValidNames(ParseSegs(s).value)
    decreases |s|
  {
    hide ParseSeg, Valid;
    if s != [] {
      OneNameValid(s);
      var rest := ParseSeg(s).value.1;
      SegNamesValid(rest);
      var segs := ParseSegs(s).value;
      assert segs[1..] == ParseSegs(rest).value;
      ValidNamesTail(segs);
    }
  }

  lemma OneNameValid(s: Bytes)
    requires s != [] && Valid(s) && ParseSeg(s).Some?
    ensures var (seg, rest) := ParseSeg(s).value;
            (seg.Field? ==> Valid(seg.name)) && Valid(rest)
  {
    hide Valid, Reach;
    if s[0] == DOT {
      var end := NameEnd(s, 1);
      assert s == [] + [DOT] + s[1..];
      ValidCut([], DOT, s[1..]);
      if end < |s| {
        CutAt(s, end, 1);
        assert s[end..] == [] + [s[end]] + s[end + 1..];
        ValidTail(s, end);
      } else {
        assert s[1..end] == s[1..];
        EmptyValid();
      }
    } else if s[1] == QUOTE {
      var end := IndexFrom(s, QUOTE, 2).value;
      assert s == [OPEN] + [QUOTE] + s[2..];
      ValidCut([OPEN], QUOTE, s[2..]);
      CutAt(s, end, 2);
      ValidTail(s, end + 2);
    } else {
      var end := IndexFrom(s, CLOSE, 1).value;
      ValidTail(s, end + 1);
    }
  }

  lemma EmptyValid()
    ensures Valid([])
  {
  }

  /** The part from `i` up to an ASCII byte at `end` is valid when the text from `i` is. */
  lemma CutAt(s: Bytes, end: nat, i: nat)
    requires i <= end < |s| && Valid(s[i..]) && s[end] < 0x80
    ensures Valid(s[i..end])
  {
    assert s[i..] == s[i..end] + [s[end]] + s[end + 1..];
    ValidCut(s[i..end], s[end], s[end + 1..]);
  }

  /** A suffix that starts at, or right after, an ASCII byte is valid. */
  lemma ValidTail(s: Bytes, k: nat)
    requires Valid(s) && k <= |s|
    requires (k < |s| && s[k] < 0x80) || (k > 0 && s[k - 1] < 0x80)
    ensures Valid(s[k..])
  {
    hide Reach, Valid, Whole;
    if k > 0 && s[k - 1] < 0x80 {
      assert s == s[..k - 1] + [s[k - 1]] + s[k..];
      ValidCut(s[..k - 1], s[k - 1], s[k..]);
    } else {
      assert s == s[..k] + [s[k]] + s[k + 1..];
      ValidCut(s[..k], s[k], s[k + 1..]);
      assert s[k..][1..] == s[k + 1..];
      AsciiFront(s[k..]);
    }
  }

  lemma AsciiFront(s: Bytes)
    requires s != [] && s[0] < 0x80 && Valid(s[1..])
    ensures Valid(s)
  {
  }

  lemma OneMore(s: Bytes, seg: Seg, rest: Bytes, segs: seq<Seg>, all: seq<Seg>)
    requires s != [] && ParseSeg(s) == Some((seg, rest)) && ParseSegs(rest) == Some(segs) && all == [seg] + segs
    ensures ParseSegs(s) == Some(all)
  {
    hide ParseSeg;
  }

  const INDEX_TEXT: Bytes := [91, 45, 49, 93]                  // [-1]
  const QUOTED_TEXT: Bytes := [91, 39, 98, 32, 99, 39, 93]     // ['b c']
  const DOTTED_TEXT: Bytes := [46, 97]                         // .a

  lemma IndexText()
    ensures ParseSeg(INDEX_TEXT) == Some((Index(-1), []))
  {
    IndexIs(INDEX_TEXT, CLOSE, 1, 3);
    assert INDEX_TEXT[1..3] == [45, 49] == DecInt(-1);
    ParseOfDecInt(-1);
  }

  lemma QuotedText(rest: Bytes)
    ensures ParseSeg(QUOTED_TEXT + rest) == Some((Field([98, 32, 99]), rest))
  {
    var s := QUOTED_TEXT + rest;
    assert s[2] == 98 && s[3] == 32 && s[4] == 99 && s[5] == QUOTE;
    IndexIs(s, QUOTE, 2, 5);
    assert s[2..5] == [98, 32, 99] && s[7..] == rest;
  }

  lemma DottedText(rest: Bytes)
    requires rest != [] && rest[0] == OPEN
    ensures ParseSeg(DOTTED_TEXT + rest) == Some((Field([97]), rest))
  {
    var s := DOTTED_TEXT + rest;
    assert NameEnd(s, 1) == 2;
    assert s[1..2] == [97] && s[2..] == rest;
  }

  /** The path $.a['b c'][-1] as text. */
  lemma PathExample()
    ensures Path([36] + DOTTED_TEXT + QUOTED_TEXT + INDEX_TEXT) == Some([Field([97]), Field([98, 32, 99]), Index(-1)])
  {
    hide ParseSeg, ParseSegs;
    IndexText();
    var quoted := QUOTED_TEXT + INDEX_TEXT;
    QuotedText(INDEX_TEXT);
    DottedText(quoted);
    assert ParseSegs([]) == Some([]) by { NoSegs(); }
    var a, b, i := Field([97]), Field([98, 32, 99]), Index(-1);
    OneMore(INDEX_TEXT, i, [], [], [i]);
    OneMore(quoted, b, INDEX_TEXT, [i], [b, i]);
    OneMore(DOTTED_TEXT + quoted, a, quoted, [b, i], [a, b, i]);
    var arg := [36] + DOTTED_TEXT + QUOTED_TEXT + INDEX_TEXT;
    assert arg[1..] == DOTTED_TEXT + quoted;
  }

  lemma NoSegs()
    ensures ParseSegs([]) == Some([])
  {
  }
}
