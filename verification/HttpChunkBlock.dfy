/** The decoder for chunked bodies from backends (http_chunk_decode_append_data) as a function of its state
    and the next block, for every block.  It works with memchr and strstr on whole blocks; as long as the
    input keeps to the format and its limits it is proved to follow the byte machine. */
module HttpChunkBlock {
  import opened Bytes
  import opened HttpChunk

  // ---------------------------------------------------------------- the decoder

  /** What is kept between two blocks: te counts the outstanding bytes of a chunk and its CRLF (gw_chunked), h
      is the buffered part of a size line, or the last chunk's line and the trailers so far. */
  datatype Decoder = Decoder(te: nat, h: Octets, done: bool)

  /** One block is refused or taken, with the bytes passed on by then; cut says that trailers over the
      limit were cut off. */
  datatype Outcome = Refused(out: Octets) | Took(d: Decoder, out: Octets, cut: bool) {
    function After(part: Octets): Outcome {
      match this
      case Refused(o) => Refused(part + o)
      case Took(d, o, c) => Took(d, part + o, c)
    }
  }

  /** The block is used up. */
  function Wait(te: nat, h: Octets, out: Octets): Outcome { Took(Decoder(te, h, false), out, false) }

  /** A complete size line: the text to parse, what follows it there, how many bytes of rest still belong to
      the line, and the unread block. */
  datatype Found = Found(text: Octets, after: Octets, hsz: nat, rest: Octets)

  datatype Search = Long | Part(h: Octets) | Hit(h: Octets, l: Found)

  /** How many bytes of mem belong to a line that goes on in it. */
  function LinePart(mem: Octets): (n: nat)
    ensures n <= |mem|
  {
    var k := Find(mem, LF);
    if k < |mem| then k + 1 else |mem|
  }

  /** What may still join a buffered line, in unsigned arithmetic of 32 bits. */
  function Room(h: Octets): nat { (MAX_LINE - |h|) % 0x1_0000_0000 }

  /** Looks for the end of the size line in the block, or in the buffer h and then in the block. */
  function FindLine(h: Octets, mem: Octets): Search {
    var k, n := Find(CString(h), LF), LinePart(mem);
    if h == [] then
      if LF in mem then Hit([], Found(mem, mem[n..], n, mem))
      else if |mem| >= MAX_LINE then Long else Part(mem)
    else if k < |CString(h)| then Hit(h, Found(h, h[k + 1..], k + 1, mem))
    else if Room(h) < n then Long
    else if LF !in mem then Part(h + mem)
    else Hit(h + mem[..n], Found(h + mem[..n], mem[n..], 0, mem[n..]))
  }

  /** The blank line seems to come right behind the last chunk's line. */
  predicate Common(l: Found) { |l.rest| - l.hsz >= 2 && CRLF <= l.after }

  predicate Over(h: Octets, rest: Octets, maxField: nat) { Max(maxField - |h|, 0) < |rest| }

  /** The trailers hold a blank line that a C string function finds. */
  predicate Ended(t: Octets) { FindBlank(CString(t)) < |CString(t)| }

  /** Something other than a zero byte follows it. */
  predicate GoesOn(t: Octets) { Ended(t) && At(t, FindBlank(CString(t)) + 4) != NUL }

  /** Bytes behind the end of the message. */
  predicate Excess(h: Octets, l: Found, maxField: nat) {
    if Common(l) then |l.rest| - l.hsz > 2 else !Over(h, l.rest, maxField) && GoesOn(h + l.rest)
  }

  /** Trailers over the limit end after their last line. */
  function Cut(t: Octets): Octets {
    var k := FindLast(CString(t), LF);
    if k == |CString(t)| then [ZERO] + CRLF + CRLF
    else t[..k + 1] + (if k > 0 && t[k - 1] == CR then [] else CRLF) + CRLF
  }

  /** The size is zero: h and l.rest are what there is of the trailers. */
  function EndSection(h: Octets, l: Found, maxField: nat): Outcome {
    if Excess(h, l, maxField) then Refused([])
    else if Common(l) then Took(Decoder(0, [], true), [], false)
    else Section(h, l.rest, maxField)
  }

  function Section(h: Octets, rest: Octets, maxField: nat): Outcome {
    var limit := Max(maxField - |h|, 0);
    if limit < |rest| then Took(Decoder(0, Cut(h + rest[..limit]), true), [], true)
    else Took(Decoder(0, h + rest, Ended(h + rest)), [], false)
  }

  /** One pass of the loop: it is the last one, or leaves rest behind with nothing buffered. */
  datatype Pass = Stops(x: Outcome) | Goes(te: nat, out: Octets, rest: Octets)

  function LinePass(h: Octets, mem: Octets, maxField: nat): (p: Pass)
    requires SafeBuffer(h)
    ensures p.Goes? ==> |p.rest| < |mem|
  {
    Sizes(h, mem);
    match FindLine(h, mem)
    case Long => Stops(Refused([]))
    case Part(h') => Stops(Wait(0, h', []))
    case Hit(h', l) =>
      match SizeOf(l.text)
      case None => Stops(Refused([]))
      case Some(v) => if v == 0 then Stops(EndSection(h', l, maxField)) else Goes(v + 2, [], l.rest[l.hsz..])
  }

  function DataPass(te: nat, mem: Octets): (p: Pass)
    requires te >= 2
    ensures p.Goes? ==> |p.rest| < |mem|
  {
    var n := Min(te - 2, |mem|);
    var rest := mem[n..];
    if te - n > 2 || rest == [] then Stops(Wait(te - n, [], mem[..n]))
    else if rest == [CR] then Stops(Wait(1, [], mem[..n]))
    else if CRLF <= rest then Goes(0, mem[..n], rest[2..])
    else Stops(Refused(mem[..n]))
  }

  function Next(te: nat, h: Octets, mem: Octets, maxField: nat): (p: Pass)
    requires mem != [] && SafeBuffer(h)
    ensures p.Goes? ==> |p.rest| < |mem|
  {
    if te == 0 then LinePass(h, mem, maxField)
    else if te >= 2 then DataPass(te, mem)
    else if mem[0] == LF then Goes(0, [], mem[1..])
    else Stops(Refused([]))
  }

  /** One block. */
  function Decode(te: nat, h: Octets, mem: Octets, maxField: nat): Outcome
    requires SafeBuffer(h)
    decreases |mem|
  {
    if mem == [] then Wait(te, h, [])
    else
      match Next(te, h, mem, maxField)
      case Stops(x) => x
      case Goes(te', out, rest) => Decode(te', [], rest, maxField).After(out)
  }

  /** What happens when the common end is found, and when it is not. */
  lemma EndIs(h: Octets, l: Found, maxField: nat)
    ensures var n := |l.rest| - l.hsz;
      EndSection(h, l, maxField) ==
        if Common(l) then (if n > 2 then Refused([]) else Took(Decoder(0, [], true), [], false))
        else if !Over(h, l.rest, maxField) && GoesOn(h + l.rest) then Refused([])
        else Section(h, l.rest, maxField)
  {
    hide GoesOn, Common, Section;
  }

  lemma AfterNothing(x: Outcome)
    ensures x.After([]) == x
  {
  }

  lemma CrlfAhead(s: Octets)
    ensures CRLF <= s <==> |s| >= 2 && s[0] == CR && s[1] == LF
  {
  }

  // ---------------------------------------------------------------- what every block keeps

  /** A buffered complete line is always that of the last chunk. */
  ghost predicate SafeBuffer(b: Octets) { LF in CString(b) ==> SizeOf(b) == Some(0) }

  lemma LineInPart(b: Octets)
    requires LF in b
    ensures LF in b[..LinePart(b)] && LinePart(b) > 0
  {
    FindAbsent(b, LF);
    assert b[..LinePart(b)][Find(b, LF)] == LF;
  }

  /** A line found in the buffer is the last chunk's, and any other one is complete in the block. */
  lemma Sizes(h: Octets, mem: Octets)
    requires SafeBuffer(h)
    ensures var r := FindLine(h, mem);
      r.Hit? ==> LF in r.l.text && r.l.text <= r.h + r.l.rest && |r.l.rest| <= |mem| && (h == [] ==> r.h == [])
    ensures var r := FindLine(h, mem); r.Hit? && SizeOf(r.l.text) != Some(0) ==> r.l.hsz <= |r.l.rest| && |r.l.rest[r.l.hsz..]| < |mem|
  {
    hide Find, LinePart, Room, SizeOf;
    FindAbsent(CString(h), LF);
    assert [] + mem == mem;
    if LF in mem { LineInPart(mem); }
  }

  lemma SafeEmpty()
    ensures SafeBuffer([])
  {
  }

  lemma StartsWithDigit(text: Octets)
    requires SizeOf(text).Some?
    ensures text != [] && HexValue(text[0]).Some? && text[0] != LF
  {
  }

  lemma TextGoesOn(text: Octets, b: Octets)
    requires LF in text && text <= b && SizeOf(text) == Some(0)
    ensures SafeBuffer(b)
  {
    SizeOfLine(text, b[|text|..]);
    assert text + b[|text|..] == b;
  }

  /** A buffer without a line stays without one when bytes without LF are appended. */
  lemma StillHidden(h: Octets, mem: Octets)
    requires LF !in CString(h) && LF !in mem
    ensures LF !in CString(h + mem)
  {
    FindAbsent(h, NUL);
    if NUL in h {
      FindIs(h + mem, NUL, Find(h, NUL));
      assert CString(h + mem) == CString(h);
    } else {
      assert CString(h) == h;
    }
  }

  ghost predicate Sound(d: Decoder) { !d.done ==> d.te <= OFF_MAX && SafeBuffer(d.h) && (d.te > 0 ==> d.h == []) }

  lemma PartSound(h: Octets, mem: Octets)
    ensures var r := FindLine(h, mem); r.Part? ==> SafeBuffer(r.h)
  {
    FindAbsent(CString(h), LF);
    assert [] + mem == mem && CString([]) == [];
    if LF !in CString(h) && LF !in mem { StillHidden(h, mem); }
  }

  lemma EndSound(h: Octets, l: Found, maxField: nat)
    requires LF in l.text && l.text <= h + l.rest && SizeOf(l.text) == Some(0)
    ensures var x := EndSection(h, l, maxField); x.Took? ==> Sound(x.d) && (x.cut ==> x.d.done)
  {
    hide Excess, Common, Ended, Cut, SafeBuffer;
    TextGoesOn(l.text, h + l.rest);
  }

  lemma NextSound(te: nat, h: Octets, mem: Octets, maxField: nat)
    requires mem != [] && Sound(Decoder(te, h, false))
    ensures var p := Next(te, h, mem, maxField); if p.Stops? then p.x.Took? ==> Sound(p.x.d) && (p.x.cut ==> p.x.d.done) else p.te <= OFF_MAX
  {
    hide FindLine, SizeOf, EndSection, SafeBuffer, CString;
    SafeEmpty();
    Sizes(h, mem);
    PartSound(h, mem);
    var r := FindLine(h, mem);
    if r.Hit? && SizeOf(r.l.text) == Some(0) { EndSound(r.h, r.l, maxField); }
  }

  /** The decoder keeps its counter within 64 bits and buffers no complete line but the last chunk's. */
  lemma {:induction false} DecodeSound(te: nat, h: Octets, mem: Octets, maxField: nat)
    requires Sound(Decoder(te, h, false))
    ensures var x := Decode(te, h, mem, maxField); x.Took? ==> Sound(x.d)
    decreases |mem|
  {
    hide Next, FindLine, SizeOf;
    if mem != [] {
      NextSound(te, h, mem, maxField);
      var p := Next(te, h, mem, maxField);
      if p.Goes? { DecodeSound(p.te, [], p.rest, maxField); }
    }
  }

  // ---------------------------------------------------------------- within the limits: the byte machine

  /** The decoder's state represents machine state s. */
  ghost predicate Stands(s: State, d: Decoder, maxField: nat) {
    match s
    case Line(h) => d == Decoder(0, h, false) && LF !in h && NUL !in h && |h| < MAX_LINE
    case Data(n) => d == Decoder(n + 2, [], false)
    case ExpectLf => d == Decoder(1, [], false)
    case Trailer(h) => d == Decoder(0, h, false) && TrailerOk(h) && |h| <= maxField
    case Done(h) => d.te == 0 && d.done && (d.h == h || (d.h == [] && NoTrailers(h)))
    case Bad => false
    case Beyond => true
  }

  /** The machine has read line and is at state mid, with tail still to come. */
  datatype Progress = Progress(mid: State, line: Octets, tail: Octets) {
    ghost predicate Follows(s: State, mem: Octets, maxField: nat) {
      && Run(s, mem, maxField) == Run(mid, tail, maxField)
      && Emit(s, mem, maxField) == Emit(mid, tail, maxField)
      && (mid == EndLine(line, maxField) || mid == Trailer(line)) && (mid.Trailer? ==> TrailerOk(line) && |line| <= maxField)
      && LF in line
    }

    ghost predicate At(f: Found, b: Octets) {
      && b + f.rest == line + tail && SizeOf(f.text) == SizeOf(line)
      && ((f.hsz <= |f.rest| && f.rest[f.hsz..] == tail && f.after == tail && Find(line, LF) + 1 == |line|)
          || (mid.Trailer? && !(CRLF <= f.after)))
    }
  }

  lemma FollowsLine(h: Octets, m: Octets, tail: Octets, maxField: nat)
    requires m != [] && LF !in m[..|m| - 1] && m[|m| - 1] == LF && |h| < MAX_LINE && LF !in h && NUL !in h
    requires Run(Line(h), m + tail, maxField) != Beyond
    ensures Progress(EndLine(h + m, maxField), h + m, tail).Follows(Line(h), m + tail, maxField)
  {
    RunSplit(Line(h), m, tail, maxField);
    LineEndRun(h, m, maxField);
    if Run(Line(h), m, maxField) == Beyond { Absorbing(Beyond, tail, maxField); }
    var line := h + m;
    if EndLine(line, maxField).Trailer? {
      assert line[..|line| - 1] == h + m[..|m| - 1];
      OneLine(line);
    }
  }

  /** A complete line m at the start of the block, with nothing buffered. */
  lemma LineInBlock(m: Octets, t: Octets, maxField: nat)
    requires m != [] && LF !in m[..|m| - 1] && m[|m| - 1] == LF
    ensures var f, p := Found(m + t, t, |m|, m + t), Progress(EndLine(m, maxField), m, t);
            && p.At(f, [])
            && (Run(Line([]), m + t, maxField) != Beyond ==> p.Follows(Line([]), m + t, maxField))
  {
    hide Run, Emit, EndLine, SizeOf, NoBlank, TrailerOk;
    var none: Octets := [];
    assert none + (m + t) == m + t && none + m == m;
    FindIs(m, LF, |m| - 1);
    SizeOfLine(m, t);
    if Run(Line([]), m + t, maxField) != Beyond { FollowsLine([], m, t, maxField); }
  }

  /** Buffered trailers: the block continues them. */
  lemma TrailersGoOn(b: Octets, mem: Octets, f: Found, p: Progress, maxField: nat)
    requires TrailerOk(b) && |b| <= maxField && p == Progress(Trailer(b), b, mem)
    requires var k := Find(CString(b), LF); k < |CString(b)| && f == Found(b, b[k + 1..], k + 1, mem)
    ensures p.Follows(Trailer(b), mem, maxField) && p.At(f, b)
  {
    var k := Find(b, LF);
    FindAbsent(b, NUL);
    assert CString(b) == b;
    if CRLF <= f.after { BlankAcross(b, k + 1); }
  }

  /** The part of the block that completes a buffered line. */
  lemma LineAcross(h: Octets, mem: Octets, k: nat, f: Found, p: Progress, maxField: nat)
    requires k == Find(mem, LF) < |mem| && LF !in h && NUL !in h && |h| < MAX_LINE
    requires f == Found(h + mem[..k + 1], mem[k + 1..], 0, mem[k + 1..])
    requires p == Progress(EndLine(h + mem[..k + 1], maxField), h + mem[..k + 1], mem[k + 1..])
    ensures p.At(f, f.text)
    ensures Run(Line(h), mem, maxField) != Beyond ==> p.Follows(Line(h), mem, maxField)
  {
    var m := mem[..k + 1];
    assert m + p.tail == mem && m[..k] == mem[..k];
    assert p.line[..|h| + k] == h + mem[..k];
    FindIs(p.line, LF, |h| + k);
    if Run(Line(h), mem, maxField) != Beyond { FollowsLine(h, m, p.tail, maxField); }
  }

  /** Where the machine stands after a size line. */
  lemma MidIs(p: Progress, maxField: nat)
    requires Run(p.mid, p.tail, maxField) != Beyond
    requires p.mid == EndLine(p.line, maxField) || (p.mid == Trailer(p.line) && TrailerOk(p.line))
    ensures SizeOf(p.line) == None ==> p.mid == Bad
    ensures SizeOf(p.line) == Some(0) ==> p.mid == Trailer(p.line)
    ensures forall v :: SizeOf(p.line) == Some(v) && v > 0 ==> p.mid == Data(v)
    ensures Run(Bad, p.tail, maxField) == Bad
  {
    Absorbing(Bad, p.tail, maxField);
    Absorbing(Beyond, p.tail, maxField);
  }

  lemma LineFound(h: Octets)
    requires TrailerOk(h)
    ensures h != [] && Find(CString(h), LF) < |CString(h)|
  {
    FindAbsent(h, NUL);
    assert CString(h) == h;
  }

  /** A buffered line over 1024 bytes is outside the format. */
  lemma TooLong(h: Octets, mem: Octets, hsz: nat, maxField: nat)
    requires LF !in h && NUL !in h && |h| < MAX_LINE && |h| + hsz > MAX_LINE
    requires hsz == (if LF in mem then Find(mem, LF) + 1 else |mem|)
    ensures Run(Line(h), mem, maxField) == Beyond
  {
    FindAbsent(mem, LF);
    var m, t := mem[..hsz], mem[hsz..];
    assert m + t == mem;
    RunSplit(Line(h), m, t, maxField);
    if LF in mem {
      assert m[..hsz - 1] == mem[..hsz - 1];
      LineEndRun(h, m, maxField);
    } else {
      LineRun(h, m, maxField);
    }
    Absorbing(Beyond, t, maxField);
  }

  /** What the search finds is where the machine ends the line. */
  lemma LineFollows(s: State, h: Octets, mem: Octets, maxField: nat) returns (p: Progress)
    requires mem != [] && SafeBuffer(h) && Stands(s, Decoder(0, h, false), maxField)
    requires (s.Line? || s.Trailer?) && Run(s, mem, maxField) != Beyond
    ensures var r := FindLine(h, mem);
      && !r.Long?
      && (r.Part? ==> Stands(Run(s, mem, maxField), Decoder(0, r.h, false), maxField) && Emit(s, mem, maxField) == [])
      && (r.Hit? ==> p.Follows(s, mem, maxField) && p.At(r.l, r.h))
  {
    hide Run, Emit, EndLine, SizeOf, NoBlank, SafeBuffer, TrailerOk, Progress.At, Progress.Follows;
    p := Progress(s, h, mem);
    var r := FindLine(h, mem);
    if s.Trailer? {
      LineFound(h);
      TrailersGoOn(h, mem, r.l, p, maxField);
    } else {
      p := OpenLine(h, mem, maxField);
    }
  }

  lemma NoLineYet(h: Octets)
    requires LF !in h && NUL !in h
    ensures CString(h) == h && Find(CString(h), LF) == |CString(h)|
  {
    FindAbsent(h, NUL);
    FindAbsent(h, LF);
  }

  /** The search when no line is buffered. */
  lemma FindOpen(h: Octets, mem: Octets)
    requires LF !in h && NUL !in h && |h| < MAX_LINE
    ensures var n := LinePart(mem);
      && (|h| + n > MAX_LINE && h != [] ==> FindLine(h, mem) == Long)
      && (|h| + n <= MAX_LINE && h != [] ==>
            FindLine(h, mem) == if LF in mem then Hit(h + mem[..n], Found(h + mem[..n], mem[n..], 0, mem[n..])) else Part(h + mem))
  {
    hide LinePart, CString;
    NoLineYet(h);
  }

  /** The machine stands in a size line that does not end in the block. */
  lemma OpenPart(h: Octets, mem: Octets, maxField: nat)
    requires mem != [] && LF !in h && NUL !in h && |h| < MAX_LINE && LF !in mem && Run(Line(h), mem, maxField) != Beyond
    ensures FindLine(h, mem) == Part(h + mem) && Emit(Line(h), mem, maxField) == []
    ensures Stands(Run(Line(h), mem, maxField), Decoder(0, h + mem, false), maxField)
  {
    hide Run, Emit, FindLine;
    LineRun(h, mem, maxField);
    FindAbsent(mem, LF);
    FindOpen(h, mem);
    if h == [] {
      assert [] + mem == mem;
      FindNone(mem);
    }
  }

  lemma FindNone(mem: Octets)
    requires LF !in mem && |mem| < MAX_LINE
    ensures FindLine([], mem) == Part(mem)
  {
  }

  lemma OpenLine(h: Octets, mem: Octets, maxField: nat) returns (p: Progress)
    requires mem != [] && LF !in h && NUL !in h && |h| < MAX_LINE && Run(Line(h), mem, maxField) != Beyond
    ensures var r := FindLine(h, mem);
      && !r.Long?
      && (r.Part? ==> Stands(Run(Line(h), mem, maxField), Decoder(0, r.h, false), maxField) && Emit(Line(h), mem, maxField) == [])
      && (r.Hit? ==> p.Follows(Line(h), mem, maxField) && p.At(r.l, r.h))
  {
    hide Run, Emit, EndLine, SizeOf, NoBlank, TrailerOk, CString, Progress.At, Progress.Follows;
    if LF !in mem {
      OpenPart(h, mem, maxField);
      p := Progress(Line(h), h, mem);
    } else {
      p := OpenHit(h, mem, maxField);
    }
  }

  lemma OpenHit(h: Octets, mem: Octets, maxField: nat) returns (p: Progress)
    requires LF in mem && LF !in h && NUL !in h && |h| < MAX_LINE && Run(Line(h), mem, maxField) != Beyond
    ensures var r := FindLine(h, mem); r.Hit? && p.Follows(Line(h), mem, maxField) && p.At(r.l, r.h)
  {
    hide Run, Emit, EndLine, SizeOf, NoBlank, TrailerOk, CString, Progress.At, Progress.Follows, FindLine, LinePart;
    var n := LinePart(mem);
    p := Progress(EndLine(h + mem[..n], maxField), h + mem[..n], mem[n..]);
    if h == [] { OpenInBlock(mem, p, maxField); } else { OpenAcross(h, mem, p, maxField); }
  }

  lemma FindInBlock(mem: Octets)
    requires LF in mem
    ensures var n := LinePart(mem);
      && FindLine([], mem) == Hit([], Found(mem, mem[n..], n, mem))
      && n > 0 && mem[n - 1] == LF && LF !in mem[..n - 1] && mem[..n][..n - 1] == mem[..n - 1] && mem[..n] + mem[n..] == mem
  {
    hide Find, CString, Room;
    FindAbsent(mem, LF);
  }

  lemma OpenInBlock(mem: Octets, p: Progress, maxField: nat)
    requires LF in mem && Run(Line([]), mem, maxField) != Beyond
    requires var n := LinePart(mem); p == Progress(EndLine([] + mem[..n], maxField), [] + mem[..n], mem[n..])
    ensures var r := FindLine([], mem); r.Hit? && p.Follows(Line([]), mem, maxField) && p.At(r.l, r.h)
  {
    hide Run, Emit, EndLine, SizeOf, NoBlank, TrailerOk, Progress.At, Progress.Follows, LinePart, FindLine;
    FindInBlock(mem);
    var m := mem[..LinePart(mem)];
    assert [] + m == m;
    LineInBlock(m, mem[|m|..], maxField);
  }

  lemma OpenAcross(h: Octets, mem: Octets, p: Progress, maxField: nat)
    requires LF in mem && h != [] && LF !in h && NUL !in h && |h| < MAX_LINE && Run(Line(h), mem, maxField) != Beyond
    requires var n := LinePart(mem); p == Progress(EndLine(h + mem[..n], maxField), h + mem[..n], mem[n..])
    ensures var r := FindLine(h, mem); r.Hit? && p.Follows(Line(h), mem, maxField) && p.At(r.l, r.h)
  {
    hide Run, Emit, EndLine, SizeOf, NoBlank, TrailerOk, CString, Progress.At, Progress.Follows, FindLine;
    FindAbsent(mem, LF);
    var n := LinePart(mem);
    if |h| + n > MAX_LINE { TooLong(h, mem, n, maxField); }
    FindOpen(h, mem);
    LineAcross(h, mem, n - 1, Found(h + mem[..n], mem[n..], 0, mem[n..]), p, maxField);
  }

  /** The trailers: the machine stands behind a part of them that ends with a line, or with what is buffered. */
  lemma EndFollows(h: Octets, l: Found, p: Progress, maxField: nat)
    requires p.mid == Trailer(p.line) && TrailerOk(p.line) && |p.line| <= maxField && p.At(l, h)
    requires Run(p.mid, p.tail, maxField) != Beyond
    ensures var x := EndSection(h, l, maxField);
      x.Took? && !x.cut && x.out == Emit(p.mid, p.tail, maxField) && Stands(Run(p.mid, p.tail, maxField), x.d, maxField)
  {
    hide Run, Emit, SizeOf, FindBlank, NoBlank, TrailerOk, NoTrailers, Find, CString;
    var r := Run(p.mid, p.tail, maxField);
    TrailerRun(p.line, p.tail, maxField) by { TrailerStaysOk(p.line, p.tail); }
    if Common(l) {
      CommonEnd(p.line, p.tail, maxField);
    } else {
      SectionFollows(h, l.rest, p, maxField);
    }
  }

  lemma SectionFollows(h: Octets, rest: Octets, p: Progress, maxField: nat)
    requires TrailerOk(p.line) && |p.line| <= maxField && h + rest == p.line + p.tail
    requires Run(Trailer(p.line), p.tail, maxField) != Beyond
    ensures !Over(h, rest, maxField) && !GoesOn(h + rest)
    ensures Stands(Run(Trailer(p.line), p.tail, maxField), Decoder(0, h + rest, Ended(h + rest)), maxField)
  {
    hide Run, SizeOf, Emit, TrailerOk, NoTrailers, FindBlank, Find, CString;
    TrailerStaysOk(p.line, p.tail);
    TrailerRun(p.line, p.tail, maxField);
    assert p.tail == [] ==> p.line + p.tail == p.line;
  }

  /** The machine's verdict and output on a block agree with the decoder's. */
  ghost predicate Agrees(r: State, out: Octets, x: Outcome, maxField: nat) {
    x.out == out && if x.Refused? then r == Bad else !x.cut && Stands(r, x.d, maxField)
  }

  /** Where the machine stands when nothing is buffered. */
  function Resumed(te: nat): State { if te < 2 then Line([]) else Data(te - 2) }

  ghost predicate PassAgrees(s: State, mem: Octets, p: Pass, maxField: nat) {
    match p
    case Stops(x) => Agrees(Run(s, mem, maxField), Emit(s, mem, maxField), x, maxField)
    case Goes(te, out, rest) =>
      && te != 1 && Run(s, mem, maxField) == Run(Resumed(te), rest, maxField)
      && Emit(s, mem, maxField) == out + Emit(Resumed(te), rest, maxField)
  }

  lemma LinePassFollows(s: State, h: Octets, mem: Octets, maxField: nat)
    requires mem != [] && SafeBuffer(h) && Stands(s, Decoder(0, h, false), maxField)
    requires (s.Line? || s.Trailer?) && Run(s, mem, maxField) != Beyond
    ensures PassAgrees(s, mem, LinePass(h, mem, maxField), maxField)
  {
    hide Run, Emit, EndLine, SizeOf, FindLine, EndSection, SafeBuffer, TrailerOk, NoTrailers, NoBlank;
    var p := LineFollows(s, h, mem, maxField);
    var r := FindLine(h, mem);
    if r.Hit? { HitFollows(s, r.h, r.l, p, mem, maxField); }
  }

  /** A complete line has been found. */
  lemma HitFollows(s: State, h: Octets, l: Found, p: Progress, mem: Octets, maxField: nat)
    requires p.Follows(s, mem, maxField) && p.At(l, h) && Run(s, mem, maxField) != Beyond
    ensures match SizeOf(l.text) {
      case None => PassAgrees(s, mem, Stops(Refused([])), maxField)
      case Some(v) =>
        if v == 0 then PassAgrees(s, mem, Stops(EndSection(h, l, maxField)), maxField)
        else l.hsz <= |l.rest| && PassAgrees(s, mem, Goes(v + 2, [], l.rest[l.hsz..]), maxField)
    }
  {
    hide Run, Emit, EndLine, SizeOf, EndSection, TrailerOk, NoTrailers, NoBlank;
    MidIs(p, maxField);
    Absorbing(Bad, p.tail, maxField);
    if SizeOf(l.text) == Some(0) { EndFollows(h, l, p, maxField); }
  }

  lemma DataPassFollows(n: nat, mem: Octets, maxField: nat)
    requires mem != []
    ensures PassAgrees(Data(n), mem, DataPass(n + 2, mem), maxField)
  {
    hide Run, Emit;
    var k := Min(n, |mem|);
    var data, rest := mem[..k], mem[k..];
    assert data + rest == mem;
    DataThen(n, data, rest, maxField);
    if rest == [] {
      RunNothing(Data(n - k), rest, maxField);
    } else {
      EndOfData(rest, maxField);
    }
  }

  lemma NextFollows(s: State, te: nat, h: Octets, mem: Octets, maxField: nat)
    requires mem != [] && SafeBuffer(h) && Stands(s, Decoder(te, h, false), maxField) && Run(s, mem, maxField) != Beyond
    ensures PassAgrees(s, mem, Next(te, h, mem, maxField), maxField)
  {
    hide Run, Emit, LinePass, DataPass, SafeBuffer, TrailerOk, NoTrailers, NoBlank;
    match s
    case Line(_) => LinePassFollows(s, h, mem, maxField);
    case Trailer(_) => LinePassFollows(s, h, mem, maxField);
    case Data(n) => DataPassFollows(n, mem, maxField);
    case ExpectLf =>
      AfterData(mem, maxField);
      if mem[0] != LF { EmitRefused(mem, maxField); }
    case Done(_) => assert false;
    case Bad => assert false;
    case Beyond => Absorbing(Beyond, mem, maxField);
  }

  lemma EmitRefused(mem: Octets, maxField: nat)
    requires mem != [] && mem[0] != LF
    ensures Emit(ExpectLf, mem, maxField) == []
  {
    Absorbing(Bad, mem[1..], maxField);
  }

  /** As long as the input keeps to the limits, the decoder follows the machine: a block is refused exactly
      when the machine calls it malformed, and otherwise exactly the machine's output has been passed on and
      its state reached. */
  lemma {:induction false} Follows(s: State, te: nat, h: Octets, mem: Octets, maxField: nat)
    requires SafeBuffer(h) && Stands(s, Decoder(te, h, false), maxField) && Run(s, mem, maxField) != Beyond
    ensures Agrees(Run(s, mem, maxField), Emit(s, mem, maxField), Decode(te, h, mem, maxField), maxField)
    decreases |mem|
  {
    hide Run, Emit, Next, SafeBuffer, TrailerOk, NoTrailers, NoBlank;
    RunNothing(s, mem, maxField);
    if mem != [] {
      NextFollows(s, te, h, mem, maxField);
      var p := Next(te, h, mem, maxField);
      if p.Goes? {
        SafeEmpty();
        ResumedStands(p.te, maxField);
        Follows(Resumed(p.te), p.te, [], p.rest, maxField);
      }
    }
  }

  lemma ResumedStands(te: nat, maxField: nat)
    requires te != 1
    ensures Stands(Resumed(te), Decoder(te, [], false), maxField)
  {
  }
}
