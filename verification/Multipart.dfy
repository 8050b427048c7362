/** The streaming multipart parser (cgi-io).  It is proved to follow a byte-at-a-time machine, so that the
    parts it reports do not depend on how the input is cut; the machine is then related to the delimiter
    and to whole messages (section 5.1.1 of RFC 2046). */
module Multipart {
  import opened Bytes

  const HYPHEN: Byte := 45
  const COLON: Byte := 58

  /** What is reported: a part begins, its headers are complete, a byte of its data, it ends, the body ends. */
  datatype Item = Begin | Headers | Data(b: Byte) | Finish | BodyEnd

  /** Where the machine stands; InData(h): h bytes of the delimiter are matched and not yet reported. */
  datatype State =
    | Start | StartBoundary(index: nat) | FieldStart | Field | HeadersAlmostDone | ValueStart | Value | ValueAlmostDone
    | DataStart | InData(h: nat) | AlmostEnd | DataEnd | FinalHyphen | Ended | Failed

  datatype Outcome = Outcome(state: State, items: seq<Item>) {
    function After(before: seq<Item>): Outcome { this.(items := before + items) }
  }

  function Delimiter(bd: Octets): Octets { CRLF + bd }

  function Reported(s: Octets): seq<Item> { seq(|s|, i requires 0 <= i < |s| => Data(s[i])) }

  predicate IsLetter(c: Byte) { 65 <= c <= 90 || 97 <= c <= 122 }

  function FieldStep(c: Byte): State {
    if c == CR then HeadersAlmostDone else if c == HYPHEN then Field else if c == COLON then ValueStart
    else if IsLetter(c) then Field else Failed
  }

  function DataStep(bd: Octets, h: nat, c: Byte): Outcome {
    var d := Delimiter(bd);
    if h < |d| && c == d[h] then (if h + 1 == |d| then Outcome(AlmostEnd, [Finish]) else Outcome(InData(h + 1), []))
    else if h <= |d| then (if c == CR then Outcome(InData(1), []) else Outcome(InData(0), [Data(c)])).After(Reported(d[..h]))
    else Outcome(Failed, [])
  }

  function StartStep(bd: Octets, k: nat, c: Byte): Outcome {
    if k < |bd| then Outcome(if c == bd[k] then StartBoundary(k + 1) else Failed, [])
    else if k == |bd| then Outcome(if c == CR then StartBoundary(k + 1) else Failed, [])
    else if c == LF then Outcome(FieldStart, [Begin]) else Outcome(Failed, [])
  }

  function Step(bd: Octets, s: State, c: Byte): Outcome {
    match s
    case Start => StartStep(bd, 0, c)
    case StartBoundary(k) => StartStep(bd, k, c)
    case FieldStart => Outcome(FieldStep(c), [])
    case Field => Outcome(FieldStep(c), [])
    case HeadersAlmostDone => Outcome(if c == LF then DataStart else Failed, [])
    case ValueStart => Outcome(if c == SP then ValueStart else if c == CR then ValueAlmostDone else Value, [])
    case Value => Outcome(if c == CR then ValueAlmostDone else Value, [])
    case ValueAlmostDone => Outcome(if c == LF then FieldStart else Failed, [])
    case DataStart => DataStep(bd, 0, c).After([Headers])
    case InData(h) => DataStep(bd, h, c)
    case AlmostEnd => Outcome(if c == HYPHEN then FinalHyphen else if c == CR then DataEnd else Failed, [])
    case FinalHyphen => if c == HYPHEN then Outcome(Ended, [BodyEnd]) else Outcome(Failed, [])
    case DataEnd => if c == LF then Outcome(FieldStart, [Begin]) else Outcome(Failed, [])
    case Ended => Outcome(Ended, [])
    case Failed => Outcome(Failed, [])
  }

  function Run(bd: Octets, s: State, m: Octets): Outcome
    decreases |m|
  {
    if m == [] then Outcome(s, []) else
      var o := Step(bd, s, m[0]);
      Run(bd, o.state, m[1..]).After(o.items)
  }

  /** Cutting the input makes no difference. */
  lemma {:induction false} RunSplit(bd: Octets, s: State, a: Octets, b: Octets)
    ensures Run(bd, s, a + b) == Run(bd, Run(bd, s, a).state, b).After(Run(bd, s, a).items)
    decreases |a|
  {
    hide Step, Outcome.After;
    if a == [] {
      assert a + b == b;
      AfterTwice(Run(bd, s, b), [], []);
    } else {
      var o := Step(bd, s, a[0]);
      assert (a + b)[0] == a[0] && (a + b)[1..] == a[1..] + b;
      RunSplit(bd, o.state, a[1..], b);
      var r := Run(bd, o.state, a[1..]);
      AfterTwice(Run(bd, r.state, b), r.items, o.items);
      AfterTwice(r, [], o.items);
    }
  }

  lemma AfterTwice(o: Outcome, a: seq<Item>, b: seq<Item>)
    ensures o.After([]) == o && o.After(a).After(b) == o.After(b + a)
    ensures o.After(b).state == o.state && o.After(b).items == b + o.items
  {
    assert [] + o.items == o.items && b + (a + o.items) == (b + a) + o.items;
  }

  // ---------------------------------------------------------------- the delimiter

  ghost predicate GoodBoundary(bd: Octets) { bd != [] && CR !in bd && NUL !in bd }

  /** The delimiter does not occur in x. */
  ghost predicate Free(bd: Octets, x: Octets) { forall k: nat :: k <= |x| ==> !EndsWith(x[..k], Delimiter(bd)) }

  /** How much of the delimiter the end of x matches: h bytes, and no other number but 0. */
  ghost predicate Matched(bd: Octets, x: Octets, h: nat) {
    var d := Delimiter(bd);
    h < |d| && forall k :: 1 <= k < |d| ==> (EndsWith(x, d[..k]) <==> k == h)
  }

  lemma EndsWithMore(x: Octets, c: Byte, d: Octets, k: nat)
    requires 1 <= k <= |d|
    ensures EndsWith(x + [c], d[..k]) <==> EndsWith(x, d[..k - 1]) && c == d[k - 1]
  {
    var y := x + [c];
    if k <= |y| {
      assert y[|y| - k..] == x[|x| - (k - 1)..] + [c];
      assert d[..k] == d[..k - 1] + [d[k - 1]];
    }
  }

  /** The machine holds back exactly what may be the beginning of a delimiter, and has reported the rest. */
  lemma {:induction false} DataRun(bd: Octets, x: Octets) returns (h: nat)
    requires GoodBoundary(bd) && Free(bd, x)
    ensures Matched(bd, x, h) && h <= |x| && Run(bd, InData(0), x) == Outcome(InData(h), Reported(x[..|x| - h]))
    decreases |x|
  {
    hide Matched, EndsWith, DataStep, Delimiter;
    if x == [] {
      h := 0;
      NothingMatched(bd);
    } else {
      var n := |x| - 1;
      var init, c := x[..n], x[n];
      assert x == init + [c];
      forall k: nat | k <= n ensures !EndsWith(init[..k], Delimiter(bd)) { assert init[..k] == x[..k]; }
      var g := DataRun(bd, init);
      RunSplit(bd, InData(0), init, [c]);
      assert x[..|x|] == x;
      h := DataMore(bd, init, c, g);
      RunOne(bd, InData(g), c);
    }
  }

  lemma NothingMatched(bd: Octets)
    ensures Matched(bd, [], 0)
  {
  }

  lemma RunOne(bd: Octets, s: State, c: Byte)
    ensures Run(bd, s, [c]) == Step(bd, s, c)
  {
    assert [c][1..] == [] && [c][0] == c;
    var o := Step(bd, s, c);
    assert o.items + [] == o.items;
  }

  /** The delimiter's first byte does not come again in it. */
  lemma OneCr(bd: Octets, k: nat)
    requires GoodBoundary(bd) && k < |Delimiter(bd)|
    ensures Delimiter(bd)[k] == CR <==> k == 0
  {
    if k >= 2 { assert Delimiter(bd)[k] == bd[k - 2]; }
  }

  lemma DataMore(bd: Octets, x: Octets, c: Byte, g: nat) returns (h: nat)
    requires GoodBoundary(bd) && Matched(bd, x, g) && g <= |x| && !EndsWith(x + [c], Delimiter(bd))
    ensures var o := DataStep(bd, g, c);
      h <= |x| + 1 && Matched(bd, x + [c], h) && o.state == InData(h)
      && Reported(x[..|x| - g]) + o.items == Reported((x + [c])[..|x| + 1 - h])
  {
    hide EndsWith;
    var d, y := Delimiter(bd), x + [c];
    OneCr(bd, g);
    forall k | 1 <= k <= |d| ensures EndsWith(y, d[..k]) <==> c == d[k - 1] && (k == 1 || k == g + 1) {
      EndsWithMore(x, c, d, k);
      EndsWithNone(x, d);
      OneCr(bd, k - 1);
    }
    assert d[..|d|] == d;
    h := if c == d[g] then g + 1 else if c == CR then 1 else 0;
    HeldBytes(x, d, g);
    if c == d[g] {
      assert y[..|y| - h] == x[..|x| - g];
    } else {
      assert x[..|x| - g] + d[..g] == x;
      assert y[..|y| - 1] == x && y[..|y|] == y;
      ReportedConcat(x[..|x| - g], d[..g]);
      ReportedConcat(x, [c]);
      assert Reported([c]) == [Data(c)];
    }
  }

  lemma EndsWithNone(x: Octets, d: Octets)
    ensures EndsWith(x, d[..0])
  {
  }

  lemma HeldBytes(x: Octets, d: Octets, g: nat)
    requires g <= |x| && g < |d| && (g > 0 ==> EndsWith(x, d[..g]))
    ensures x[..|x| - g] + d[..g] == x
  {
  }

  lemma ReportedConcat(a: Octets, b: Octets)
    ensures Reported(a + b) == Reported(a) + Reported(b)
  {
  }

  /** Only a delimiter put behind a text without one completes it. */
  lemma FirstDelimiter(bd: Octets, x: Octets)
    requires GoodBoundary(bd) && Free(bd, x)
    ensures var d := Delimiter(bd); Free(bd, x + d[..|d| - 1])
  {
    var d := Delimiter(bd);
    var y := x + d[..|d| - 1];
    forall k: nat | k <= |y| ensures !EndsWith(y[..k], d) {
      if k <= |x| {
        assert y[..k] == x[..k];
      } else if |d| <= k {
        var j := |x| - (k - |d|);
        assert y[..k][k - |d|..][j] == y[|x|] == d[0];
        OneCr(bd, j);
      }
    }
  }

  /** The data of a part is what stands before the first delimiter. */
  lemma PartData(bd: Octets, x: Octets, rest: Octets)
    requires GoodBoundary(bd) && Free(bd, x)
    ensures Run(bd, DataStart, x + Delimiter(bd) + rest) == Run(bd, AlmostEnd, rest).After([Headers] + Reported(x) + [Finish])
  {
    hide Step, Outcome.After, Matched, EndsWith;
    var d := Delimiter(bd);
    var k := |d| - 1;
    var y, z := x + d[..k], d[k];
    FirstDelimiter(bd, x);
    var h := DataRun(bd, y);
    FullMatch(bd, x, h);
    assert y[..|y| - k] == x && y + [z] == x + d;
    RunSplit(bd, InData(0), y, [z]);
    RunOne(bd, InData(k), z);
    LastByte(bd);
    RunSplit(bd, InData(0), x + d, rest);
    var all := x + d + rest;
    RunDataStart(bd, all);
    AfterTwice(Run(bd, AlmostEnd, rest), Reported(x) + [Finish], [Headers]);
    AfterTwice(Outcome(AlmostEnd, [Finish]), [], Reported(x));
    assert [Headers] + (Reported(x) + [Finish]) == [Headers] + Reported(x) + [Finish];
  }

  lemma FullMatch(bd: Octets, x: Octets, h: nat)
    requires GoodBoundary(bd) && Matched(bd, x + Delimiter(bd)[..|Delimiter(bd)| - 1], h)
    ensures h == |Delimiter(bd)| - 1
  {
    var k := |Delimiter(bd)| - 1;
    var y := x + Delimiter(bd)[..k];
    assert y[|y| - k..] == Delimiter(bd)[..k];
    assert EndsWith(y, Delimiter(bd)[..k]);
  }

  lemma LastByte(bd: Octets)
    requires bd != []
    ensures var d := Delimiter(bd); Step(bd, InData(|d| - 1), d[|d| - 1]) == Outcome(AlmostEnd, [Finish])
  {
  }

  lemma RunDataStart(bd: Octets, m: Octets)
    requires m != []
    ensures Run(bd, DataStart, m) == Run(bd, InData(0), m).After([Headers])
  {
    var o := Step(bd, InData(0), m[0]);
    assert Step(bd, DataStart, m[0]) == o.After([Headers]);
    AfterTwice(Run(bd, o.state, m[1..]), o.items, [Headers]);
  }

  // ---------------------------------------------------------------- whole messages

  datatype Header = Header(name: Octets, value: Octets)

  /** Headers, then a line that ends them: it is blank, or holds a name without a colon, which is ignored. */
  datatype Part = Part(headers: seq<Header>, stub: Octets, data: Octets)

  /** The bytes of a header's name. */
  ghost predicate GoodName(name: Octets) { forall c :: c in name ==> Among(c, UPPER_CASE + LOWER_CASE + "-") }

  ghost predicate GoodHeaders(hs: seq<Header>) { forall h :: h in hs ==> GoodName(h.name) && CR !in h.value }

  ghost predicate GoodPart(bd: Octets, p: Part) { GoodHeaders(p.headers) && GoodName(p.stub) && Free(bd, p.data) }

  /** A name goes on with exactly the letters in both cases and the hyphen. */
  lemma NameBytes(c: Byte)
    ensures FieldStep(c) == Field <==> Among(c, UPPER_CASE + LOWER_CASE + "-")
    ensures [HYPHEN, COLON] == Ascii("-:")
  {
    UpperCase(c);
    LowerCase(c);
    OneCharacter(c);
    hide Among;
    AmongBoth(c, UPPER_CASE, LOWER_CASE);
    AmongBoth(c, UPPER_CASE + LOWER_CASE, "-");
  }

  lemma OneCharacter(c: Byte)
    ensures Among(c, "-") <==> c == 45
  {
    assert "-"[0] as int == 45;
  }

  function HeadersText(hs: seq<Header>, stub: Octets): Octets {
    if hs == [] then stub + CRLF else hs[0].name + ([COLON] + (hs[0].value + (CRLF + HeadersText(hs[1..], stub))))
  }

  /** The parts, each ended by the delimiter, and the two hyphens that close the body; then anything. */
  function PartsText(bd: Octets, ps: seq<Part>, epilogue: Octets): Octets
    requires ps != []
  {
    HeadersText(ps[0].headers, ps[0].stub) + (ps[0].data + Delimiter(bd) +
      (if |ps| == 1 then [HYPHEN, HYPHEN] + epilogue else CRLF + PartsText(bd, ps[1..], epilogue)))
  }

  function Message(bd: Octets, ps: seq<Part>, epilogue: Octets): Octets
    requires ps != []
  {
    bd + (CRLF + PartsText(bd, ps, epilogue))
  }

  function PartsItems(ps: seq<Part>): seq<Item>
    requires ps != []
  {
    [Begin] + ([Headers] + Reported(ps[0].data) + [Finish] + (if |ps| == 1 then [BodyEnd] else PartsItems(ps[1..])))
  }

  lemma {:induction false} NameRun(bd: Octets, s: State, name: Octets, rest: Octets)
    requires (s == FieldStart || s == Field) && GoodName(name)
    ensures Run(bd, s, name + ([COLON] + rest)) == Run(bd, ValueStart, rest)
    ensures Run(bd, s, name + (CRLF + rest)) == Run(bd, DataStart, rest)
    decreases |name|
  {
    var m, n := name + ([COLON] + rest), name + (CRLF + rest);
    if name == [] {
      assert m == [COLON] + rest && m[1..] == rest && n == [CR, LF] + rest;
      AfterTwice(Run(bd, ValueStart, rest), [], []);
      TwoSteps(bd, s, CR, LF, rest);
      AfterTwice(Run(bd, DataStart, rest), [], []);
    } else {
      hide Among;
      assert m[0] == name[0] && name[0] in name && m[1..] == name[1..] + ([COLON] + rest);
      assert n[0] == name[0] && n[1..] == name[1..] + (CRLF + rest);
      NameBytes(name[0]);
      NameRun(bd, Field, name[1..], rest);
      AfterTwice(Run(bd, Field, m[1..]), [], []);
      AfterTwice(Run(bd, Field, n[1..]), [], []);
    }
  }

  lemma {:induction false} ValueRun(bd: Octets, s: State, value: Octets, rest: Octets)
    requires (s == ValueStart || s == Value) && CR !in value
    ensures Run(bd, s, value + (CRLF + rest)) == Run(bd, FieldStart, rest)
    decreases |value|
  {
    var m := value + (CRLF + rest);
    if value == [] {
      assert m[0] == CR && m[1] == LF && m[1..][0] == LF && m[1..][1..] == rest;
      AfterTwice(Run(bd, FieldStart, rest), [], []);
      AfterTwice(Run(bd, ValueAlmostDone, m[1..]), [], []);
    } else {
      assert m[0] == value[0] && m[1..] == value[1..] + (CRLF + rest);
      ValueRun(bd, Value, value[1..], rest);
      ValueRun(bd, ValueStart, value[1..], rest);
      AfterTwice(Run(bd, FieldStart, rest), [], []);
    }
  }

  lemma {:induction false} HeadersRun(bd: Octets, hs: seq<Header>, stub: Octets, rest: Octets)
    requires GoodHeaders(hs) && GoodName(stub)
    ensures Run(bd, FieldStart, HeadersText(hs, stub) + rest) == Run(bd, DataStart, rest)
  {
    hide Run, Step, IsLetter, GoodName;
    var m := HeadersText(hs, stub) + rest;
    if hs == [] {
      NameRun(bd, FieldStart, stub, rest);
      assert m == stub + (CRLF + rest);
    } else {
      var h, more := hs[0], HeadersText(hs[1..], stub) + rest;
      assert h in hs;
      NameRun(bd, FieldStart, h.name, h.value + (CRLF + more));
      ValueRun(bd, ValueStart, h.value, more);
      assert m == h.name + ([COLON] + (h.value + (CRLF + more)));
      HeadersRun(bd, hs[1..], stub, rest);
    }
  }

  lemma TwoSteps(bd: Octets, s: State, c: Byte, d: Byte, rest: Octets)
    ensures var o := Step(bd, s, c); var p := Step(bd, o.state, d);
      Run(bd, s, [c, d] + rest) == Run(bd, p.state, rest).After(p.items).After(o.items)
  {
    var m := [c, d] + rest;
    assert m[0] == c && m[1..] == [d] + rest && m[1..][0] == d && m[1..][1..] == rest;
  }

  lemma {:induction false} EndedRun(bd: Octets, m: Octets)
    ensures Run(bd, Ended, m) == Outcome(Ended, [])
  {
    if m != [] { EndedRun(bd, m[1..]); }
  }

  lemma {:induction false} PartsRun(bd: Octets, ps: seq<Part>, epilogue: Octets)
    requires GoodBoundary(bd) && ps != [] && forall p :: p in ps ==> GoodPart(bd, p)
    ensures Run(bd, FieldStart, PartsText(bd, ps, epilogue)).After([Begin]) == Outcome(Ended, PartsItems(ps))
    decreases |ps|
  {
    hide Run, Step, HeadersText, Free, Delimiter, GoodHeaders, GoodName;
    var p := ps[0];
    assert p in ps;
    var tail := if |ps| == 1 then [HYPHEN, HYPHEN] + epilogue else CRLF + PartsText(bd, ps[1..], epilogue);
    HeadersRun(bd, p.headers, p.stub, p.data + Delimiter(bd) + tail);
    PartData(bd, p.data, tail);
    AfterDelimiter(bd, if |ps| == 1 then epilogue else PartsText(bd, ps[1..], epilogue));
    if |ps| > 1 { PartsRun(bd, ps[1..], epilogue); }
  }

  lemma AfterDelimiter(bd: Octets, rest: Octets)
    ensures Run(bd, AlmostEnd, [HYPHEN, HYPHEN] + rest) == Outcome(Ended, [BodyEnd])
    ensures Run(bd, AlmostEnd, CRLF + rest) == Run(bd, FieldStart, rest).After([Begin])
  {
    hide Run;
    TwoSteps(bd, AlmostEnd, HYPHEN, HYPHEN, rest);
    TwoSteps(bd, AlmostEnd, CR, LF, rest);
    EndedRun(bd, rest);
    AfterTwice(Run(bd, FieldStart, rest).After([Begin]), [], []);
  }

  lemma {:induction false} FirstBoundary(bd: Octets, k: nat, rest: Octets)
    requires k <= |bd|
    ensures Run(bd, StartBoundary(k), bd[k..] + (CRLF + rest)) == Run(bd, FieldStart, rest).After([Begin])
    decreases |bd| - k
  {
    var m := bd[k..] + (CRLF + rest);
    if k == |bd| {
      assert m == [CR, LF] + rest;
      TwoSteps(bd, StartBoundary(k), CR, LF, rest);
      AfterTwice(Run(bd, FieldStart, rest).After([Begin]), [], []);
    } else {
      assert m[0] == bd[k] && m[1..] == bd[k + 1..] + (CRLF + rest);
      FirstBoundary(bd, k + 1, rest);
      AfterTwice(Run(bd, StartBoundary(k + 1), m[1..]), [], []);
    }
  }

  /** A message is reported part by part, with exactly the data of each. */
  lemma MessageRun(bd: Octets, ps: seq<Part>, epilogue: Octets)
    requires GoodBoundary(bd) && ps != [] && forall p :: p in ps ==> GoodPart(bd, p)
    ensures Run(bd, Start, Message(bd, ps, epilogue)) == Outcome(Ended, PartsItems(ps))
  {
    hide PartsText, PartsItems, Free;
    var rest := PartsText(bd, ps, epilogue);
    FirstBoundary(bd, 0, rest);
    assert bd[0..] == bd;
    PartsRun(bd, ps, epilogue);
    assert Step(bd, Start, Message(bd, ps, epilogue)[0]) == Step(bd, StartBoundary(0), Message(bd, ps, epilogue)[0]);
  }

  // ---------------------------------------------------------------- the parser

  datatype Mode =
    | SStart | SStartBoundary | SFieldStart | SField | SHeadersAlmostDone | SValueStart | SValue | SValueAlmostDone
    | SPartDataStart | SPartData | SAlmostBoundary | SBoundary | SAlmostEnd | SPartDataEnd | SFinalHyphen | SEnd

  class Parser {
    const boundary: Octets
    var state: Mode
    var index: nat
    const lookbehind: array<Byte>
    /** What the callbacks, which all return 0, have been told. */
    var events: seq<Item>

    /** multipart_parser_init */
    constructor (boundary: Octets)
      requires boundary != []
      ensures Valid() && Abs() == Start && events == [] && this.boundary == boundary && fresh(lookbehind)
    {
      this.boundary := boundary;
      state, index, events := SStart, 0, [];
      lookbehind := new Byte[|boundary| + 8](_ => NUL);
    }

    function Abs(): State
      reads this`state, this`index
    {
      match state
      case SStart => Start
      case SStartBoundary => StartBoundary(index)
      case SFieldStart => FieldStart
      case SField => Field
      case SHeadersAlmostDone => HeadersAlmostDone
      case SValueStart => ValueStart
      case SValue => Value
      case SValueAlmostDone => ValueAlmostDone
      case SPartDataStart => DataStart
      case SPartData => InData(0)
      case SAlmostBoundary => InData(1)
      case SBoundary => InData(2 + index)
      case SAlmostEnd => AlmostEnd
      case SPartDataEnd => DataEnd
      case SFinalHyphen => FinalHyphen
      case SEnd => Ended
    }

    /** The bytes held back are in the look-behind buffer. */
    ghost predicate Valid()
      reads this`state, this`index, lookbehind
    {
      && boundary != [] && lookbehind.Length == |boundary| + 8
      && (state == SStartBoundary ==> index <= |boundary| + 1)
      && (state == SAlmostBoundary ==> lookbehind[0] == CR)
      && (state == SBoundary ==> index < |boundary| && lookbehind[..2 + index] == Delimiter(boundary)[..2 + index])
    }

    predicate InPart() reads this`state { state == SPartDataStart || state == SPartData || state == SAlmostBoundary || state == SBoundary }

    /** One byte outside a part's data; false stops the parser. */
    method Plain(c: Byte) returns (ok: bool)
      requires Valid() && !InPart()
      modifies this`state, this`index, this`events
      ensures state != SPartData
      ensures Valid() && var o := Step(boundary, old(Abs()), c);
        ok == !o.state.Failed? && (ok ==> Abs() == o.state && events == old(events) + o.items) && (!ok ==> events == old(events))
    {
      if state == SStart {
        index := 0;
        state := SStartBoundary;
      }
      match state {
        case SStartBoundary =>
          if index == |boundary| {
            if c != CR { return false; }
            index := index + 1;
          } else if index == |boundary| + 1 {
            if c != LF { return false; }
            index := 0;
            events := events + [Begin];
            state := SFieldStart;
          } else {
            if c != boundary[index] { return false; }
            index := index + 1;
          }
        case SFieldStart => ok := FieldByte(c); return;
        case SField => ok := FieldByte(c); return;
        case SHeadersAlmostDone =>
          if c != LF { return false; }
          state := SPartDataStart;
        case SValueStart =>
          if c != SP { state := if c == CR then SValueAlmostDone else SValue; }
        case SValue =>
          if c == CR { state := SValueAlmostDone; }
        case SValueAlmostDone =>
          if c != LF { return false; }
          state := SFieldStart;
        case SAlmostEnd =>
          if c == HYPHEN { state := SFinalHyphen; }
          else if c == CR { state := SPartDataEnd; }
          else { return false; }
        case SFinalHyphen =>
          if c != HYPHEN { return false; }
          events := events + [BodyEnd];
          state := SEnd;
        case SPartDataEnd =>
          if c != LF { return false; }
          state := SFieldStart;
          events := events + [Begin];
        case SEnd =>
      }
      ok := true;
    }

    method FieldByte(c: Byte) returns (ok: bool)
      requires Valid() && (state == SFieldStart || state == SField)
      modifies this`state
      ensures state != SPartData
      ensures Valid() && var t := FieldStep(c); ok == !t.Failed? && (ok ==> Abs() == t)
    {
      state := SField;
      if c == CR {
        state := SHeadersAlmostDone;
      } else if c == HYPHEN {
      } else if c == COLON {
        state := SValueStart;
      } else if !IsLetter(c) {
        return false;
      }
      ok := true;
    }

    /** The data that is read but not reported before byte i. */
    ghost function Pending(buf: Octets, mark: nat, i: nat): seq<Item>
      reads this`state
    {
      if state == SPartData && mark <= i < |buf| then Reported(buf[mark..i]) else []
    }

    /** The parser's state at byte i together with the bytes from i on leads to goal. */
    ghost predicate Towards(buf: Octets, mark: nat, i: nat, goal: Outcome)
      reads this, lookbehind
    {
      && Valid() && i <= |buf| && (state == SPartData && i < |buf| ==> mark <= i)
      && Run(boundary, Abs(), buf[i..]).After(events + Pending(buf, mark, i)) == goal
    }

    /** Data outside any match; it is reported at a CR and at the end of the buffer. */
    method DataByte(buf: Octets, i: nat, mark0: nat, ghost goal: Outcome) returns (mark: nat)
      requires i < |buf| && (state == SPartDataStart || state == SPartData) && Towards(buf, mark0, i, goal)
      modifies this, lookbehind
      ensures Towards(buf, mark, i + 1, goal)
    {
      hide Run, Outcome.After;
      var c, isLast := buf[i], i == |buf| - 1;
      mark := mark0;
      ghost var rest := Run(boundary, InData(0), buf[i..]);
      if state == SPartDataStart {
        RunDataStart(boundary, buf[i..]);
        AfterTwice(rest, [Headers], events + []);
        assert events + [] == events;
        events := events + [Headers];
        mark := i;
        state := SPartData;
        assert buf[i..i] == [] && events + Reported([]) == events;
      }
      ghost var before := events;
      assert rest.After(before + Reported(buf[mark..i])) == goal;
      OutsideMatch(boundary, buf, i, mark, before);
      if c == CR {
        events := events + Reported(buf[mark..i]);
        mark := i;
        state := SAlmostBoundary;
        lookbehind[0] := CR;
        assert events + [] == events;
      } else if isLast {
        events := events + Reported(buf[mark..i + 1]);
        assert events + [] == events;
      }
    }

    /** A byte behind a CR; if it is no LF it is taken again as data. */
    method AlmostBoundaryByte(buf: Octets, i0: nat, mark0: nat, ghost goal: Outcome) returns (i: int, mark: nat)
      requires i0 < |buf| && state == SAlmostBoundary && Towards(buf, mark0, i0, goal)
      modifies this, lookbehind
      ensures (i == i0 - 1 && state == SPartData) || (i == i0 && state != SPartData)
      ensures Towards(buf, mark, i + 1, goal)
    {
      hide Run, Outcome.After;
      i, mark := i0, mark0;
      assert events + [] == events;
      MatchGoesOn(boundary, buf, i0, 1, events);
      if buf[i0] == LF {
        state := SBoundary;
        lookbehind[1] := LF;
        index := 0;
        assert lookbehind[..2] == CRLF && Delimiter(boundary)[..2] == CRLF;
      } else {
        events := events + Reported([lookbehind[0]]);
        state := SPartData;
        mark := i0;
        i := i - 1;
        assert events + Reported(buf[i0..i0]) == events;
      }
    }

    /** A byte behind CRLF and a part of the boundary; if it breaks off the match it is taken again as data. */
    method BoundaryByte(buf: Octets, i0: nat, mark0: nat, ghost goal: Outcome) returns (i: int, mark: nat)
      requires i0 < |buf| && state == SBoundary && Towards(buf, mark0, i0, goal)
      modifies this, lookbehind
      ensures (i == i0 - 1 && state == SPartData) || (i == i0 && state != SPartData)
      ensures Towards(buf, mark, i + 1, goal)
    {
      hide Run, Outcome.After;
      var c := buf[i0];
      i, mark := i0, mark0;
      assert events + [] == events;
      MatchGoesOn(boundary, buf, i0, 2 + index, events);
      assert Delimiter(boundary)[2 + index] == boundary[index];
      if boundary[index] != c {
        events := events + Reported(lookbehind[..2 + index]);
        state := SPartData;
        mark := i0;
        i := i - 1;
        assert events + Reported(buf[i0..i0]) == events;
      } else {
        lookbehind[2 + index] := c;
        assert lookbehind[..2 + (index + 1)] == Delimiter(boundary)[..2 + (index + 1)];
        index := index + 1;
        if index == |boundary| {
          events := events + [Finish];
          state := SAlmostEnd;
          assert events + [] == events;
        }
      }
    }

    /** One iteration outside a part's data. */
    method PlainByte(buf: Octets, i: nat, mark: nat, ghost goal: Outcome) returns (ok: bool)
      requires i < |buf| && !InPart() && Towards(buf, mark, i, goal)
      modifies this
      ensures Valid() && (ok ==> Towards(buf, mark, i + 1, goal))
      ensures !ok ==> goal.state == Failed && events == goal.items
    {
      hide Run, Outcome.After, Step;
      ghost var s, before := Abs(), events;
      assert !s.DataStart? && !s.InData?;
      RunHead(boundary, s, buf, i);
      assert events + [] == events;
      assert goal == Run(boundary, s, buf[i..]).After(before);
      ok := Plain(buf[i]);
      ghost var o := Step(boundary, s, buf[i]);
      AfterTwice(Run(boundary, o.state, buf[i + 1..]), o.items, before);
      if !ok {
        FailedStep(boundary, s, buf[i]);
        FailedRun(boundary, buf[i + 1..]);
        assert o.items == [];
        AfterTwice(Outcome(Failed, []), [], before);
        assert Run(boundary, s, buf[i..]) == Outcome(Failed, []);
        Stopped(goal, Outcome(Failed, []), before);
      } else {
        assert events + [] == events;
      }
    }

    /** multipart_parser_execute: the number of bytes taken.  What is reported and the state reached are the
        machine's; fewer than all bytes are taken exactly when the machine fails. */
    method Execute(buf: Octets) returns (n: nat)
      requires Valid()
      modifies this, lookbehind
      ensures Valid()
      ensures var o := Run(boundary, old(Abs()), buf);
        && events == old(events) + o.items
        && (n == |buf| ==> Abs() == o.state) && (n < |buf| <==> o.state == Failed) && n <= |buf|
    {
      hide Run, Outcome.After, Step, Towards;
      var i, mark := 0, 0;
      ghost var goal := Run(boundary, Abs(), buf).After(events);
      Starts(buf);
      while i < |buf|
        invariant 0 <= i <= |buf| && Towards(buf, mark, i, goal)
        decreases |buf| - i, if state == SAlmostBoundary || state == SBoundary then 1 else 0
      {
        if state == SPartDataStart || state == SPartData {
          mark := DataByte(buf, i, mark, goal);
        } else if state == SAlmostBoundary {
          i, mark := AlmostBoundaryByte(buf, i, mark, goal);
        } else if state == SBoundary {
          i, mark := BoundaryByte(buf, i, mark, goal);
        } else {
          var ok := PlainByte(buf, i, mark, goal);
          if !ok {
            Stopped(goal, Run(boundary, old(Abs()), buf), old(events));
            return i;
          }
        }
        i := i + 1;
      }
      Ends(buf, mark, goal, Run(boundary, old(Abs()), buf), old(events));
      n := |buf|;
    }

    lemma Starts(buf: Octets)
      requires Valid()
      ensures Towards(buf, 0, 0, Run(boundary, Abs(), buf).After(events))
    {
      assert buf[0..] == buf && buf[0..0] == [] && events + Reported([]) == events && events + [] == events;
    }

    lemma Ends(buf: Octets, mark: nat, goal: Outcome, o: Outcome, before: seq<Item>)
      requires Towards(buf, mark, |buf|, goal) && goal == o.After(before)
      ensures Valid() && Abs() == o.state != Failed && events == before + o.items
    {
      assert buf[|buf|..] == [] && Abs() != Failed;
      Finished(boundary, Abs(), events, goal, o, before);
    }
  }

  lemma RunHead(bd: Octets, s: State, buf: Octets, i: nat)
    requires i < |buf|
    ensures var o := Step(bd, s, buf[i]); Run(bd, s, buf[i..]) == Run(bd, o.state, buf[i + 1..]).After(o.items)
  {
    assert buf[i..][0] == buf[i] && buf[i..][1..] == buf[i + 1..];
  }

  /** One byte of data outside a match. */
  lemma OutsideMatch(bd: Octets, buf: Octets, i: nat, mark: nat, before: seq<Item>)
    requires bd != [] && mark <= i < |buf|
    ensures var r := Run(bd, InData(0), buf[i..]).After(before + Reported(buf[mark..i]));
      && (buf[i] == CR ==> r == Run(bd, InData(1), buf[i + 1..]).After(before + Reported(buf[mark..i])))
      && (buf[i] != CR ==> r == Run(bd, InData(0), buf[i + 1..]).After(before + Reported(buf[mark..i + 1])))
  {
    hide Run, Outcome.After;
    RunHead(bd, InData(0), buf, i);
    OutsideStep(bd, buf[i]);
    var done := before + Reported(buf[mark..i]);
    if buf[i] == CR {
      AfterTwice(Run(bd, InData(1), buf[i + 1..]), [], done);
    } else {
      AfterTwice(Run(bd, InData(0), buf[i + 1..]), [Data(buf[i])], done);
      assert buf[mark..i + 1] == buf[mark..i] + [buf[i]];
      assert done + [Data(buf[i])] == before + Reported(buf[mark..i + 1]);
    }
  }

  lemma OutsideStep(bd: Octets, c: Byte)
    requires bd != []
    ensures Step(bd, InData(0), c) == if c == CR then Outcome(InData(1), []) else Outcome(InData(0), [Data(c)])
  {
    assert Reported([]) == [] && Delimiter(bd)[..0] == [];
  }

  /** One byte within a match of h bytes: the match goes on or is broken off. */
  lemma MatchGoesOn(bd: Octets, buf: Octets, i: nat, h: nat, before: seq<Item>)
    requires bd != [] && i < |buf| && 0 < h < |Delimiter(bd)|
    ensures var d := Delimiter(bd); var r := Run(bd, InData(h), buf[i..]).After(before);
      && (buf[i] != d[h] ==> r == Run(bd, InData(0), buf[i..]).After(before + Reported(d[..h])))
      && (buf[i] == d[h] && h + 1 < |d| ==> r == Run(bd, InData(h + 1), buf[i + 1..]).After(before))
      && (buf[i] == d[h] && h + 1 == |d| ==> r == Run(bd, AlmostEnd, buf[i + 1..]).After(before + [Finish]))
    ensures Delimiter(bd)[1] == LF && Reported([CR]) == Reported(Delimiter(bd)[..1])
  {
    hide Run, Outcome.After, Step, DataStep;
    var d := Delimiter(bd);
    assert d[..1] == [CR];
    RunHead(bd, InData(h), buf, i);
    RunHead(bd, InData(0), buf, i);
    MatchStep(bd, buf[i], h);
    var o, p := Step(bd, InData(h), buf[i]), Step(bd, InData(0), buf[i]);
    if buf[i] != d[h] {
      AfterTwice(Run(bd, o.state, buf[i + 1..]), o.items, before);
      AfterTwice(Run(bd, p.state, buf[i + 1..]), p.items, before + Reported(d[..h]));
      assert before + (Reported(d[..h]) + p.items) == (before + Reported(d[..h])) + p.items;
    } else {
      AfterTwice(Run(bd, o.state, buf[i + 1..]), o.items, before);
      assert before + [] == before;
    }
  }

  lemma MatchStep(bd: Octets, c: Byte, h: nat)
    requires bd != [] && 0 < h < |Delimiter(bd)|
    ensures var d := Delimiter(bd); var o, p := Step(bd, InData(h), c), Step(bd, InData(0), c);
      if c != d[h] then o.state == p.state && o.items == Reported(d[..h]) + p.items
      else o == if h + 1 == |d| then Outcome(AlmostEnd, [Finish]) else Outcome(InData(h + 1), [])
  {
    OutsideStep(bd, c);
  }

  lemma FailedStep(bd: Octets, s: State, c: Byte)
    ensures Step(bd, s, c).state == Failed ==> Step(bd, s, c).items == [] || s.DataStart? || s.InData?
  {
  }

  lemma {:induction false} FailedRun(bd: Octets, m: Octets)
    ensures Run(bd, Failed, m) == Outcome(Failed, [])
  {
    if m != [] { FailedRun(bd, m[1..]); }
  }

  lemma Stopped(goal: Outcome, o: Outcome, before: seq<Item>)
    requires goal == o.After(before)
    ensures goal.state == o.state && goal.items == before + o.items && (o.items == [] ==> goal.items == before)
  {
  }

  lemma Finished(bd: Octets, s: State, events: seq<Item>, goal: Outcome, o: Outcome, before: seq<Item>)
    requires Run(bd, s, []).After(events + []) == goal == o.After(before) && s != Failed
    ensures s == o.state && events == before + o.items
  {
    assert events + [] == events;
  }

  /** A prefix of an input on which the machine does not fail does not fail either. */
  lemma NotFailed(bd: Octets, s: State, a: Octets, b: Octets)
    requires Run(bd, s, a + b).state != Failed
    ensures Run(bd, s, a).state != Failed
  {
    RunSplit(bd, s, a, b);
    FailedRun(bd, b);
  }

  /** A message cut anywhere into blocks is taken whole, and its parts are reported with exactly their data. */
  method Parse(bd: Octets, blocks: seq<Octets>, ghost ps: seq<Part>, ghost epilogue: Octets) returns (p: Parser, taken: nat)
    requires GoodBoundary(bd) && ps != [] && (forall q :: q in ps ==> GoodPart(bd, q)) && Flat(blocks) == Message(bd, ps, epilogue)
    ensures p.Abs() == Ended && p.events == PartsItems(ps) && taken == |Message(bd, ps, epilogue)|
  {
    MessageRun(bd, ps, epilogue);
    hide Run, GoodPart, Message, PartsItems;
    p := new Parser(bd);
    taken := 0;
    ghost var a: Octets := [];
    RunNothing(bd);
    for i := 0 to |blocks|
      invariant fresh(p) && fresh(p.lookbehind) && p.Valid() && p.boundary == bd && a == Flat(blocks[..i]) && taken == |a|
      invariant Run(bd, Start, a) == Outcome(p.Abs(), p.events)
    {
      FlatPrefix(blocks, i + 1);
      assert blocks[..i + 1][..i] == blocks[..i];
      ghost var b := a + blocks[i];
      ghost var all := Flat(blocks);
      assert b == Flat(blocks[..i + 1]) && all == b + all[|b|..];
      NotFailed(bd, Start, b, all[|b|..]);
      RunSplit(bd, Start, a, blocks[i]);
      var n := p.Execute(blocks[i]);
      taken := taken + n;
      a := b;
    }
    assert blocks[..|blocks|] == blocks;
  }

  lemma RunNothing(bd: Octets)
    ensures Run(bd, Start, []) == Outcome(Start, []) && Flat([]) == []
  {
  }
}
