/** Chunked request bodies (connections.c): the decoder works on whatever has arrived in the read
    queue and leaves what it cannot use yet.  Its meaning is a function of the bytes alone, whatever
    the cuts between chunks and between calls. */
module RequestBody {
  import opened Bytes
  import opened HttpChunk
  import opened HttpChunkFormat

  /** max_request_size in bytes (0: none) and max_request_field_size. */
  datatype Limits = Limits(maxSize: nat, maxField: nat)

  /** How a call ends.  Waiting: te is kept for the next call, 0 at a size line, 2 + n with n bytes of
      data missing.  Overlong: trailers at or over the field limit end the body and the connection, and
      what has arrived of them is dropped. */
  datatype End = Waiting(te: nat) | Finished | Overlong | Refused(status: int)

  /** The decoded data, what stays in the read queue, and how the call ends. */
  datatype Outcome = Outcome(body: Octets, rest: Octets, end: End) {
    function After(data: Octets): Outcome { this.(body := data + body) }
    function Before(later: Octets): Outcome { this.(rest := rest + later) }
  }

  const HEADER_MAX := 1024

  datatype SizeLine = Incomplete | BadLine | Size(value: nat, length: nat)

  lemma SizeLineLong(line: Octets)
    ensures SizeOf(line).Some? ==> |line| >= 2
  {
    ReadHexBounds(line, 0, 0);
  }

  /** What the unread bytes announce, the size line ending at a newline that strchr can see. */
  function LineAt(m: Octets): (r: SizeLine)
    ensures r.Size? ==> 2 <= r.length <= |m| && r.length < HEADER_MAX && r.value + 2 <= OFF_MAX
  {
    var k := Find(CString(m), LF);
    if k < |CString(m)| then
      var size := SizeOf(m[..k + 1]);
      SizeLineLong(m[..k + 1]);
      if size == None || k + 1 >= HEADER_MAX then BadLine else Size(size.value, k + 1)
    else if |m| >= HEADER_MAX then BadLine
    else Incomplete
  }

  /** Where the blank line after the trailers ends, searched from the size line's CRLF. */
  function EndAt(m: Octets, length: nat): (r: Option<nat>)
    requires 2 <= length <= |m|
    ensures r.Some? ==> 0 < r.value <= |m|
  {
    var s := CString(m[length - 2..]);
    var k := FindBlank(s);
    if k < |s| then Some(length - 2 + k + 4) else None
  }

  predicate TooBig(size: nat, got: int, lim: Limits) {
    lim.maxSize != 0 && (lim.maxSize < size || lim.maxSize - size < got)
  }

  /** The last chunk's size line, of the given length, has been seen. */
  function Trailers(m: Octets, length: nat, lim: Limits): Outcome
    requires 2 <= length <= |m|
  {
    match EndAt(m, length)
    case Some(n) => Outcome([], m[n..], Finished)
    case None => if |m| < lim.maxField then Outcome([], m, Waiting(0)) else Outcome([], [], Overlong)
  }

  /** The meaning of a call: te as kept from the last one, the unread bytes m, got bytes of body so far. */
  function Decode(te: nat, m: Octets, got: int, lim: Limits): Outcome
    decreases |m|, if te > 2 then 1 else 0
  {
    if te == 0 then
      match LineAt(m)
      case Incomplete => Outcome([], m, Waiting(0))
      case BadLine => Outcome([], m, Refused(400))
      case Size(value, length) =>
        if value == 0 then Trailers(m, length, lim)
        else if TooBig(value, got, lim) then Outcome([], m[length..], Refused(413))
        else Decode(value + 2, m[length..], got, lim)
    else if te > 2 then
      if |m| < te - 2 then Outcome(m, [], Waiting(te - |m|))
      else Decode(2, m[te - 2..], got + (te - 2), lim).After(m[..te - 2])
    else if |m| < 2 then Outcome([], m, Waiting(te))
    else if m[..2] == CRLF then Decode(0, m[2..], got, lim)
    else Outcome([], m, Refused(400))
  }

  // ---------------------------------------------------------------- arrivals do not matter

  lemma CStringGrows(a: Octets, b: Octets)
    ensures CString(a + b) == if NUL in a then CString(a) else a + CString(b)
    ensures NUL !in a ==> CString(a) == a
  {
    FindGrows(a, b, NUL);
  }

  lemma FindGrows(a: Octets, b: Octets, c: Byte)
    ensures c in a ==> Find(a + b, c) == Find(a, c) < |a|
    ensures c !in a ==> Find(a + b, c) == |a| + Find(b, c) && Find(a, c) == |a|
  {
    FindAbsent(a, c);
    var k := Find(a, c);
    if c in a {
      assert (a + b)[..k] == a[..k];
      FindIs(a + b, c, k);
    } else {
      var j := Find(b, c);
      assert (a + b)[..|a| + j] == a + b[..j];
      FindAbsent(b, c);
      if j < |b| { FindIs(a + b, c, |a| + j); } else { assert b[..j] == b && (a + b)[..|a + b|] == a + b; FindAbsent(a + b, c); }
    }
  }

  /** A size line that has been read, or refused, stays so when more arrives. */
  lemma LineGrows(m: Octets, more: Octets)
    ensures !LineAt(m).Incomplete? ==> LineAt(m + more) == LineAt(m)
  {
    CStringGrows(m, more);
    var s, k := CString(m), Find(CString(m), LF);
    FindAbsent(s, LF);
    if k < |s| {
      FindGrows(s, CString(more), LF);
      assert (m + more)[..k + 1] == m[..k + 1];
    } else if |m| >= HEADER_MAX {
      FindGrows(s, CString(more), LF);
    }
  }

  lemma {:induction false} FindBlankGrows(s: Octets, t: Octets)
    requires FindBlank(s) < |s|
    ensures FindBlank(s + t) == FindBlank(s)
  {
    BlankGrows(s, t, 0);
    if !BlankAt(s, 0) {
      assert (s + t)[1..] == s[1..] + t;
      FindBlankGrows(s[1..], t);
    }
  }

  lemma EndGrows(m: Octets, length: nat, more: Octets)
    requires 2 <= length <= |m| && EndAt(m, length).Some?
    ensures EndAt(m + more, length) == EndAt(m, length)
  {
    hide CString, FindBlank;
    var at := length - 2;
    CStringGrows(m[at..], more);
    assert (m + more)[at..] == m[at..] + more;
    FindBlankGrows(CString(m[at..]), CString(more));
  }

  lemma TrailersGrow(m: Octets, length: nat, more: Octets, got: int, lim: Limits)
    requires LineAt(m) == LineAt(m + more) == Size(0, length)
    ensures Continues(Trailers(m, length, lim), Trailers(m + more, length, lim), more, got, lim)
  {
    hide EndAt;
    ResumedNow(m, more, got, lim);
    if EndAt(m, length).Some? {
      EndGrows(m, length, more);
      var n := EndAt(m, length).value;
      assert (m + more)[n..] == m[n..] + more;
    }
  }

  /** What there is once more has arrived and, unless the body is over, a further call was made. */
  function Resumed(o: Outcome, more: Octets, got: int, lim: Limits): Outcome {
    match o.end
    case Waiting(te) => Decode(te, o.rest + more, got + |o.body|, lim).After(o.body)
    case _ => o.Before(more)
  }

  /** How a call on all the bytes compares with a first call on some of them.  After overlong trailers the
      first call has dropped what it saw, while the other one may still find their end. */
  ghost predicate Continues(o: Outcome, all: Outcome, more: Octets, got: int, lim: Limits) {
    if o.end.Overlong? then o.rest == [] && all.body == o.body && (all.end.Finished? || (all.end.Overlong? && all.rest == []))
    else all == Resumed(o, more, got, lim)
  }

  lemma {:induction false} Continue(te: nat, m: Octets, more: Octets, got: int, lim: Limits)
    ensures Continues(Decode(te, m, got, lim), Decode(te, m + more, got, lim), more, got, lim)
    decreases |m|, if te > 2 then 1 else 0
  {
    hide *;
    ResumedNow(m, more, got, lim);
    if te == 0 {
      var line := LineAt(m);
      if line.Size? { Continue(line.value + 2, m[line.length..], more, got, lim); }
      ResumeLine(m, more, got, lim);
    } else if te > 2 {
      if |m| >= te - 2 {
        Continue(2, m[te - 2..], more, got + (te - 2), lim);
        ResumeChunk(te, m, more, got, lim);
      } else {
        ResumeData(te, m, more, got, lim);
      }
    } else {
      if |m| >= 2 { Continue(0, m[2..], more, got, lim); }
      ResumeCrlf(te, m, more, got, lim);
    }
  }

  /** One call on all the bytes gives the body of two calls, the second on what the first one left with
      what arrived in between, and does exactly what they do if and only if the first one did not end on
      overlong trailers or nothing came behind them. */
  lemma Resume(te: nat, m: Octets, more: Octets, got: int, lim: Limits)
    ensures var first, all := Decode(te, m, got, lim), Decode(te, m + more, got, lim);
      && all.body == Resumed(first, more, got, lim).body
      && (all == Resumed(first, more, got, lim) <==> !first.end.Overlong? || more == [])
  {
    hide Decode;
    Continue(te, m, more, got, lim);
    assert more == [] ==> m + more == m;
    assert [] + more == more;
  }

  const OVERLONG: Octets := [48, CR, LF, 97, 98]

  /** "0", CRLF and "ab", with a field limit of five bytes: the body ends on overlong trailers.  Had the
      blank line been there at once, it would have ended regularly. */
  lemma OverlongInput(got: int)
    ensures var lim := Limits(0, 5); var first := Decode(0, OVERLONG, got, lim);
      && first == Outcome([], [], Overlong)
      && Decode(0, OVERLONG + BLANK_LINE, got, lim) == Outcome([], [], Finished)
      && Decode(0, OVERLONG + BLANK_LINE, got, lim) != Resumed(first, BLANK_LINE, got, lim)
  {
    var m, all := OVERLONG, OVERLONG + BLANK_LINE;
    assert LineAt(m) == Size(0, 3) by {
      PlainCString(m);
      FindIs(m, LF, 2);
      var line := m[..3];
      assert line == [48, CR, LF] && line[1..] == [CR, LF];
      assert ReadHex(line[1..], 0, 1) == HexRun(0, 1);
      assert ReadHex(line, 0, 0) == HexRun(0, 1);
    }
    LineGrows(m, BLANK_LINE);
    hide LineAt;
    BlankAtEnd([CR, LF, 97, 98]);
    assert m[1..] == [CR, LF, 97, 98] && all[1..] == [CR, LF, 97, 98] + BLANK_LINE && all[9..] == [];
  }

  lemma BlankAtEnd(s: Octets)
    requires s == [CR, LF, 97, 98]
    ensures CString(s) == s && FindBlank(s) == 4
    ensures CString(s + BLANK_LINE) == s + BLANK_LINE && FindBlank(s + BLANK_LINE) == 4
  {
    var all := s + BLANK_LINE;
    PlainCString(s);
    PlainCString(all);
    assert all == [CR, LF, 97, 98, CR, LF, CR, LF];
    assert all[4..8] == BLANK_LINE && BlankAt(all, 4);
    assert s[0..4][2] == all[0..4][2] == all[1..5][1] == all[2..6][0] == 97 && all[3..7][0] == 98;
  }

  lemma ResumeLine(m: Octets, more: Octets, got: int, lim: Limits)
    requires var line := LineAt(m); line.Size? ==>
      var n, rest := line.value + 2, m[line.length..];
      Continues(Decode(n, rest, got, lim), Decode(n, rest + more, got, lim), more, got, lim)
    ensures Continues(Decode(0, m, got, lim), Decode(0, m + more, got, lim), more, got, lim)
  {
    hide Decode, LineAt, EndAt, Trailers, Resumed;
    LineGrows(m, more);
    ResumedNow(m, more, got, lim);
    DecodeLine(m, got, lim);
    DecodeLine(m + more, got, lim);
    var line := LineAt(m);
    if line.Size? {
      assert (m + more)[line.length..] == m[line.length..] + more;
      if line.value == 0 { TrailersGrow(m, line.length, more, got, lim); }
    }
  }

  lemma DecodeLine(m: Octets, got: int, lim: Limits)
    ensures var line, o := LineAt(m), Decode(0, m, got, lim);
      && (line.Incomplete? ==> o == Outcome([], m, Waiting(0))) && (line.BadLine? ==> o == Outcome([], m, Refused(400)))
      && (line.Size? && line.value == 0 ==> o == Trailers(m, line.length, lim))
      && (line.Size? && line.value > 0 ==>
            o == if TooBig(line.value, got, lim) then Outcome([], m[line.length..], Refused(413))
                 else Decode(line.value + 2, m[line.length..], got, lim))
  {
    hide LineAt, Trailers;
  }

  lemma ResumeChunk(te: nat, m: Octets, more: Octets, got: int, lim: Limits)
    requires te > 2 && |m| >= te - 2
    requires var rest, n := m[te - 2..], got + (te - 2);
      Continues(Decode(2, rest, n, lim), Decode(2, rest + more, n, lim), more, n, lim)
    ensures Continues(Decode(te, m, got, lim), Decode(te, m + more, got, lim), more, got, lim)
  {
    hide LineAt, Resumed, Outcome.After;
    assert (m + more)[..te - 2] == m[..te - 2] && (m + more)[te - 2..] == m[te - 2..] + more;
    var o, all := Decode(2, m[te - 2..], got + (te - 2), lim), Decode(2, m[te - 2..] + more, got + (te - 2), lim);
    ContinuesAfter(o, all, m[..te - 2], more, got, lim);
  }

  lemma ContinuesAfter(o: Outcome, all: Outcome, data: Octets, more: Octets, got: int, lim: Limits)
    requires Continues(o, all, more, got + |data|, lim)
    ensures Continues(o.After(data), all.After(data), more, got, lim)
  {
    hide Resumed;
    ResumedAfter(o, data, more, got, lim);
  }

  lemma ResumeCrlf(te: nat, m: Octets, more: Octets, got: int, lim: Limits)
    requires te == 1 || te == 2
    requires |m| >= 2 ==> Continues(Decode(0, m[2..], got, lim), Decode(0, m[2..] + more, got, lim), more, got, lim)
    ensures Continues(Decode(te, m, got, lim), Decode(te, m + more, got, lim), more, got, lim)
  {
    hide LineAt, Resumed;
    ResumedNow(m, more, got, lim);
    if |m| >= 2 {
      assert (m + more)[..2] == m[..2] && (m + more)[2..] == m[2..] + more;
    }
  }

  /** Outcomes that leave everything unread. */
  lemma ResumedNow(m: Octets, more: Octets, got: int, lim: Limits)
    ensures forall te :: Resumed(Outcome([], m, Waiting(te)), more, got, lim) == Decode(te, m + more, got, lim)
    ensures forall m', code :: Resumed(Outcome([], m', Refused(code)), more, got, lim) == Outcome([], m' + more, Refused(code))
    ensures forall m' :: Resumed(Outcome([], m', Finished), more, got, lim) == Outcome([], m' + more, Finished)
  {
    hide Decode;
    forall te ensures Resumed(Outcome([], m, Waiting(te)), more, got, lim) == Decode(te, m + more, got, lim) {
      AfterTwice(Decode(te, m + more, got, lim), [], []);
    }
  }

  lemma ResumedAfter(o: Outcome, data: Octets, more: Octets, got: int, lim: Limits)
    ensures Resumed(o.After(data), more, got, lim) == Resumed(o, more, got + |data|, lim).After(data)
  {
    hide Decode;
    if o.end.Waiting? {
      AfterTwice(Decode(o.end.te, o.rest + more, got + |data| + |o.body|, lim), o.body, data);
    }
  }

  lemma AfterTwice(o: Outcome, a: Octets, b: Octets)
    ensures o.After([]) == o && o.After(a).After(b) == o.After(b + a)
  {
    assert [] + o.body == o.body && b + (a + o.body) == (b + a) + o.body;
  }

  lemma ResumedLater(data: Octets, te: nat, more: Octets, got: int, lim: Limits)
    ensures Resumed(Outcome(data, [], Waiting(te)), more, got, lim) == Decode(te, more, got + |data|, lim).After(data)
  {
    hide Decode;
    assert [] + more == more;
  }

  lemma ResumeData(te: nat, m: Octets, more: Octets, got: int, lim: Limits)
    requires te > 2 && |m| < te - 2
    ensures Continues(Decode(te, m, got, lim), Decode(te, m + more, got, lim), more, got, lim)
  {
    hide LineAt, Resumed;
    ResumedLater(m, te - |m|, more, got, lim);
    var left := te - |m|;
    if |m + more| >= te - 2 {
      assert (m + more)[..te - 2] == m + more[..left - 2] && (m + more)[te - 2..] == more[left - 2..];
    }
  }

  // ---------------------------------------------------------------- the size limit

  /** Data still missing in a call's outcome. */
  function Missing(e: End): nat { if e.Waiting? && e.te > 2 then e.te - 2 else 0 }

  lemma TrailersPlain(m: Octets, length: nat, lim: Limits)
    requires 2 <= length <= |m|
    ensures var o := Trailers(m, length, lim); o.body == [] && Missing(o.end) == 0 && o.end != Waiting(1) && !o.end.Refused?
  {
  }

  /** With a limit, the body and what is announced of its current chunk never exceed it. */
  lemma {:induction false} LimitKept(te: nat, m: Octets, got: int, lim: Limits)
    requires lim.maxSize != 0 && got + Missing(Waiting(te)) <= lim.maxSize
    ensures var o := Decode(te, m, got, lim); got + |o.body| + Missing(o.end) <= lim.maxSize
    decreases |m|, if te > 2 then 1 else 0
  {
    hide LineAt, Trailers;
    if te == 0 {
      match LineAt(m) {
        case Size(value, length) =>
          TrailersPlain(m, length, lim);
          if value > 0 && !TooBig(value, got, lim) { LimitKept(value + 2, m[length..], got, lim); }
        case _ =>
      }
    } else if te > 2 {
      if |m| >= te - 2 { LimitKept(2, m[te - 2..], got + (te - 2), lim); }
    } else if |m| >= 2 && m[..2] == CRLF {
      LimitKept(0, m[2..], got, lim);
    }
  }

  lemma {:induction false} NeverOne(te: nat, m: Octets, got: int, lim: Limits)
    requires te != 1
    ensures Decode(te, m, got, lim).end != Waiting(1)
    decreases |m|, if te > 2 then 1 else 0
  {
    hide LineAt, Trailers;
    if te == 0 {
      match LineAt(m) {
        case Size(value, length) =>
          TrailersPlain(m, length, lim);
          if value > 0 && !TooBig(value, got, lim) { NeverOne(value + 2, m[length..], got, lim); }
        case _ =>
      }
    } else if te > 2 {
      if |m| >= te - 2 { NeverOne(2, m[te - 2..], got + (te - 2), lim); }
    } else if |m| >= 2 && m[..2] == CRLF {
      NeverOne(0, m[2..], got, lim);
    }
  }

  // ---------------------------------------------------------------- agreement with the response decoder

  /** The state of the byte machine (HttpChunk) at a point where te is kept and nothing is unread. */
  function StateOf(te: nat): State
    requires te != 1
  {
    if te == 0 then Line([]) else Data(te - 2)
  }

  /** The outcome that a state of the byte machine stands for.  Behind chunk data the decoder waits for
      two bytes, even when the first one is already wrong. */
  ghost predicate Matches(o: Outcome, s: State, lim: Limits) {
    match s
    case Line(h) => o.end == Waiting(0) && o.rest == h
    case Data(n) => o.end == Waiting(n + 2) && o.rest == []
    case ExpectLf => o.end == Waiting(2) && o.rest == [CR]
    case Trailer(h) => (o.end == Waiting(0) && o.rest == h) || (o.end == Overlong && o.rest == [] && |h| >= lim.maxField)
    case Done(_) => o.end == Finished && o.rest == []
    case Bad => o.end == Waiting(2) && |o.rest| == 1 && o.rest[0] != CR
    case Beyond => true
  }

  lemma PlainCString(m: Octets)
    ensures NUL !in m ==> CString(m) == m
    ensures NUL in m ==> |CString(m)| < |m| && m[|CString(m)|] == NUL
  {
    FindAbsent(m, NUL);
  }

  /** What a readable size line looks like. */
  lemma PlainLine(m: Octets)
    requires LineAt(m).Size?
    ensures var n := LineAt(m).length; var line := m[..n];
      SizeOf(line) == Some(LineAt(m).value) && NUL !in line && LF !in line[..n - 1] && line[n - 1] == LF
  {
    hide SizeOf;
    var c, k := CString(m), Find(CString(m), LF);
    assert m[..k + 1] == c[..k + 1] && m[..k + 1][..k] == c[..k];
    assert NUL !in c[..k + 1];
  }

  /** Size lines read alike, but for a line of exactly 1024 bytes. */
  lemma SizeAgrees(m: Octets, maxField: nat)
    requires LineAt(m).Size?
    ensures var n := LineAt(m).length; var t := EndLine(m[..n], maxField);
      Run(Line([]), m, maxField) == Run(t, m[n..], maxField) && Emit(Line([]), m, maxField) == Emit(t, m[n..], maxField)
  {
    hide LineAt, SizeOf, Run, Emit, EndLine;
    var n := LineAt(m).length;
    var line, rest := m[..n], m[n..];
    PlainLine(m);
    LineEndRun([], line, maxField);
    RunSplit(Line([]), line, rest, maxField);
    assert m == line + rest && [] + line == line;
    assert [] + Emit(EndLine(line, maxField), rest, maxField) == Emit(EndLine(line, maxField), rest, maxField);
  }

  lemma IncompleteAgrees(m: Octets, lim: Limits)
    requires LineAt(m).Incomplete?
    ensures var s := Run(Line([]), m, lim.maxField);
      s.Beyond? || AgreesWith(Outcome([], m, Waiting(0)), s, Emit(Line([]), m, lim.maxField), lim)
  {
    hide SizeOf, Run, Emit, Step, LongestLine;
    FindAbsent(CString(m), LF);
    NoLineRun(m, lim.maxField);
  }

  /** Text without a complete line. */
  lemma NoLineRun(m: Octets, maxField: nat)
    requires LF !in CString(m)
    ensures var s := Run(Line([]), m, maxField); s == Beyond || (s == Line(m) && |m| < MAX_LINE && Emit(Line([]), m, maxField) == [])
  {
    hide SizeOf, Run, Emit, Step;
    var c, z := CString(m), m[|CString(m)|..];
    PlainCString(m);
    LineRun([], c, maxField);
    assert c == m[..|c|];
    assert [] + c == c && m == c + z;
    if NUL in m {
      RunSplit(Line([]), c, z, maxField);
      ZeroByte(Run(Line([]), c, maxField), z, maxField);
    } else {
      assert m == c;
    }
  }

  lemma ZeroByte(s: State, z: Octets, maxField: nat)
    requires (s.Line? || s.Beyond?) && z != [] && z[0] == NUL
    ensures Run(s, z, maxField) == Beyond
  {
    Absorbing(Beyond, z[1..], maxField);
  }

  /** The blank line is found where the machine finds it. */
  lemma TrailersAgree(m: Octets, length: nat, lim: Limits)
    requires LineAt(m) == Size(0, length)
    ensures var t := EndLine(m[..length], lim.maxField);
      AgreesWith(Trailers(m, length, lim), Run(t, m[length..], lim.maxField), Emit(t, m[length..], lim.maxField), lim)
  {
    hide Run, Emit, LineAt, SizeOf, EndAt, FindBlank, TrailerOk, NoBlank, EndsWith;
    var line, rest := m[..length], m[length..];
    PlainLine(m);
    assert line + rest == m;
    if EndsWith(line, CRLF) && |line| <= lim.maxField {
      OneLine(line);
      TrailerStaysOk(line, rest);
      TrailerRun(line, rest, lim.maxField);
      PlainSum(line, rest);
      if NUL !in m { BlankFrom(m, length); }
      NoBlankFound(m);
    } else {
      Absorbing(Beyond, rest, lim.maxField);
    }
  }

  lemma NoBlankFound(m: Octets)
    ensures NoBlank(m) ==> FindBlank(m) == |m|
  {
  }

  lemma PlainSum(a: Octets, b: Octets)
    ensures NUL in a + b <==> NUL in a || NUL in b
  {
  }

  /** The first blank line is not before the offset at, if no line ends before at + 1. */
  lemma {:induction false} BlankShift(m: Octets, at: nat)
    requires at < |m| && LF !in m[..at + 1]
    ensures FindBlank(m) == at + FindBlank(m[at..])
  {
    hide FindBlank;
    if at > 0 {
      var rest := m[1..];
      assert rest[..at] == m[..at + 1][1..] && rest[at - 1..] == m[at..];
      BlankShift(rest, at - 1);
      assert m[..at + 1][1] == m[1];
      NoBlankHere(m);
    } else {
      assert m[0..] == m;
    }
  }

  lemma NoBlankHere(m: Octets)
    requires |m| > 1 && m[1] != LF
    ensures FindBlank(m) == 1 + FindBlank(m[1..])
  {
    if |m| >= 4 { assert m[0..4][1] == m[1]; }
  }

  /** Searching from the CRLF of the first line finds the first blank line. */
  lemma BlankFrom(m: Octets, length: nat)
    requires 2 <= length <= |m| && NUL !in m && LF !in m[..length - 1]
    ensures var k := FindBlank(m); EndAt(m, length) == if k < |m| then Some(k + 4) else None
  {
    hide *;
    var s := m[length - 2..];
    BlankShift(m, length - 2);
    assert NUL in s ==> NUL in m;
    EndPlain(m, length);
  }

  lemma EndPlain(m: Octets, length: nat)
    requires 2 <= length <= |m| && NUL !in m[length - 2..]
    ensures var k := FindBlank(m[length - 2..]); EndAt(m, length) == if length - 2 + k < |m| then Some(length - 2 + k + 4) else None
  {
    PlainCString(m[length - 2..]);
    hide FindBlank, CString;
  }

  /** A size line of 1024 bytes, which the response decoder still takes. */
  predicate LongestLine(rest: Octets) { Find(rest, LF) + 1 == HEADER_MAX }

  /** What a refused size line is to the machine. */
  lemma BadAgrees(m: Octets, lim: Limits)
    requires LineAt(m).BadLine?
    ensures var s := Run(Line([]), m, lim.maxField);
      s.Beyond? || AgreesWith(Outcome([], m, Refused(400)), s, Emit(Line([]), m, lim.maxField), lim)
  {
    hide Run, Emit, Step, SizeOf;
    var c := CString(m);
    var k := Find(c, LF);
    FindAbsent(c, LF);
    if k < |c| { BadLineRun(m, k, lim.maxField); } else { NoLineRun(m, lim.maxField); }
  }

  lemma BadLineRun(m: Octets, k: nat, maxField: nat)
    requires k == Find(CString(m), LF) < |CString(m)| && (SizeOf(m[..k + 1]) == None || k + 1 >= HEADER_MAX)
    ensures var s := Run(Line([]), m, maxField); s.Beyond? || LongestLine(m) || (s.Bad? && Emit(Line([]), m, maxField) == [])
  {
    hide Run, Emit, Step, SizeOf;
    var c, line, rest := CString(m), m[..k + 1], m[k + 1..];
    assert m == line + rest && line[..k] == c[..k] && line == c[..k + 1] && [] + line == line;
    FindIs(m, LF, k);
    LineEndRun([], line, maxField);
    RunSplit(Line([]), line, rest, maxField);
    Absorbing(Bad, rest, maxField);
    Absorbing(Beyond, rest, maxField);
  }

  /** How the request decoder's outcome o compares with the machine's state s and its output sent. */
  ghost predicate AgreesWith(o: Outcome, s: State, sent: Octets, lim: Limits) {
    match o.end
    case Refused(status) => status == 413 || (status == 400 && (LongestLine(o.rest) || (s.Bad? && o.body == sent)))
    case _ => Matches(o, s, lim) && o.body == sent
  }

  /** Where the byte machine stays within the format, the request decoder gives the machine's output and
      waits, finishes or refuses as the machine's state says; only a size over the limit, and a size line of
      exactly 1024 bytes, are refused by it alone. */
  lemma {:induction false} Agree(te: nat, m: Octets, got: int, lim: Limits)
    requires te != 1
    ensures var s := Run(StateOf(te), m, lim.maxField);
      !s.Beyond? ==> AgreesWith(Decode(te, m, got, lim), s, Emit(StateOf(te), m, lim.maxField), lim)
    decreases |m|, if te > 2 then 1 else 0
  {
    hide Run, Emit, LineAt, Trailers, AgreesWith, Matches, Outcome.After;
    var f := lim.maxField;
    if te == 0 {
      match LineAt(m) {
        case Incomplete => IncompleteAgrees(m, lim);
        case BadLine => BadAgrees(m, lim);
        case Size(value, length) =>
          PlainLine(m);
          SizeAgrees(m, f);
          if value == 0 {
            TrailersAgree(m, length, lim);
          } else if TooBig(value, got, lim) {
            TooBigAgrees(m[length..], Run(Line([]), m, f), Emit(Line([]), m, f), lim);
          } else {
            Agree(value + 2, m[length..], got, lim);
          }
      }
    } else if te > 2 {
      var n := if |m| < te - 2 then |m| else te - 2;
      assert m == m[..n] + m[n..];
      DataThen(te - 2, m[..n], m[n..], f);
      if n == te - 2 {
        Agree(2, m[n..], got + n, lim);
        AgreesAfter(Decode(2, m[n..], got + n, lim), Run(Data(0), m[n..], f), Emit(Data(0), m[n..], f), m[..n], lim);
      } else {
        PartAgrees(te, m, lim);
      }
    } else {
      CrlfAgrees(m, lim);
      if |m| >= 2 && m[..2] == CRLF { Agree(0, m[2..], got, lim); }
    }
  }

  lemma AgreesAfter(o: Outcome, s: State, sent: Octets, data: Octets, lim: Limits)
    ensures AgreesWith(o, s, sent, lim) ==> AgreesWith(o.After(data), s, data + sent, lim)
  {
    hide LongestLine;
  }

  lemma TooBigAgrees(rest: Octets, s: State, sent: Octets, lim: Limits)
    ensures AgreesWith(Outcome([], rest, Refused(413)), s, sent, lim)
  {
  }

  /** A part of a chunk's data. */
  lemma PartAgrees(te: nat, m: Octets, lim: Limits)
    requires te > 2 && |m| < te - 2
    ensures AgreesWith(Outcome(m, [], Waiting(te - |m|)), Run(Data(te - 2), m, lim.maxField), Emit(Data(te - 2), m, lim.maxField), lim)
  {
    hide Run, Emit, LongestLine;
    DataRun(te - 2, m, lim.maxField);
  }

  /** The two bytes behind the data, or one of them, or none. */
  lemma CrlfAgrees(m: Octets, lim: Limits)
    ensures var s, sent := Run(Data(0), m, lim.maxField), Emit(Data(0), m, lim.maxField);
      if |m| < 2 then AgreesWith(Outcome([], m, Waiting(2)), s, sent, lim)
      else if m[..2] == CRLF then s == Run(Line([]), m[2..], lim.maxField) && sent == Emit(Line([]), m[2..], lim.maxField)
      else AgreesWith(Outcome([], m, Refused(400)), s, sent, lim)
  {
    hide Run, Emit, LongestLine;
    if m == [] { RunNothing(Data(0), m, lim.maxField); } else {
      EndOfData(m, lim.maxField);
      assert |m| == 1 ==> m == [m[0]];
    }
  }

  /** The bytes that have been taken are m without rest; they end with the size line of a chunk that would
      take the body over the limit. */
  ghost predicate Exceeds(te: nat, m: Octets, rest: Octets, body: Octets, got: int, lim: Limits)
    requires te != 1
  {
    exists a: Octets, n: nat :: m == a + rest && n > 0 && TooBig(n, got + |body|, lim) && Announces(te, a, n, body, lim.maxField)
  }

  ghost predicate Announces(te: nat, a: Octets, n: nat, body: Octets, maxField: nat)
    requires te != 1
  {
    Run(StateOf(te), a, maxField) == Data(n) && Emit(StateOf(te), a, maxField) == body
  }

  /** Behind the bytes a, which put data out, the machine stands where te' is kept. */
  ghost predicate Passes(te: nat, a: Octets, te': nat, data: Octets, maxField: nat)
    requires te != 1 && te' != 1
  {
    forall b: Octets :: PassesTo(te, a, te', data, b, maxField)
  }

  ghost predicate PassesTo(te: nat, a: Octets, te': nat, data: Octets, b: Octets, maxField: nat)
    requires te != 1 && te' != 1
  {
    && Run(StateOf(te), a + b, maxField) == Run(StateOf(te'), b, maxField)
    && Emit(StateOf(te), a + b, maxField) == data + Emit(StateOf(te'), b, maxField)
  }

  lemma ExceedsThen(te: nat, a: Octets, more: Octets, te': nat, m: Octets, rest: Octets, data: Octets, body: Octets, got: int, lim: Limits)
    requires te != 1 && te' != 1 && Exceeds(te', more, rest, body, got + |data|, lim) && m == a + more
    requires Passes(te, a, te', data, lim.maxField)
    ensures Exceeds(te, m, rest, data + body, got, lim)
  {
    hide Run, Emit;
    var b: Octets, n: nat :| more == b + rest && n > 0 && TooBig(n, got + |data| + |body|, lim) && Announces(te', b, n, body, lim.maxField);
    assert m == (a + b) + rest && PassesTo(te, a, te', data, b, lim.maxField);
    assert Announces(te, a + b, n, data + body, lim.maxField);
  }

  /** A request is refused as malformed, or as too large where its next chunk would exceed the limit. */
  lemma {:induction false} Oversize(te: nat, m: Octets, got: int, lim: Limits)
    requires te != 1
    ensures var o := Decode(te, m, got, lim);
      o.end.Refused? ==> o.end.status == 400 || (o.end.status == 413 && Exceeds(te, m, o.rest, o.body, got, lim))
    decreases |m|, if te > 2 then 1 else 0
  {
    hide Run, Emit, LineAt, EndAt, Trailers, Step, SizeOf, Exceeds, Passes;
    var f, o := lim.maxField, Decode(te, m, got, lim);
    if te == 0 {
      match LineAt(m) {
        case Size(value, length) =>
          TrailersPlain(m, length, lim);
          if value > 0 {
            var line, more := m[..length], m[length..];
            assert m == line + more;
            LinePasses(line, value, m, f);
            if TooBig(value, got, lim) {
              ExceedsNow(line, value, more, got, lim);
            } else {
              Oversize(value + 2, more, got, lim);
              if o.end == Refused(413) {
                ExceedsThen(0, line, more, value + 2, m, o.rest, [], o.body, got, lim);
                assert [] + o.body == o.body;
              }
            }
          }
        case _ =>
      }
    } else if te > 2 {
      if |m| >= te - 2 {
        var data, more := m[..te - 2], m[te - 2..];
        Oversize(2, more, got + |data|, lim);
        if o.end == Refused(413) {
          assert m == data + more;
          DataPasses(data, f);
          ExceedsThen(te, data, more, 2, m, o.rest, data, Decode(2, more, got + |data|, lim).body, got, lim);
        }
      }
    } else if |m| >= 2 && m[..2] == CRLF {
      Oversize(0, m[2..], got, lim);
      if o.end == Refused(413) {
        assert m == CRLF + m[2..];
        CrlfPasses(f);
        ExceedsThen(te, CRLF, m[2..], 0, m, o.rest, [], o.body, got, lim);
        assert [] + o.body == o.body;
      }
    }
  }

  lemma DataPasses(data: Octets, maxField: nat)
    requires data != []
    ensures Passes(|data| + 2, data, 2, data, maxField)
  {
    hide Run, Emit;
    var te := |data| + 2;
    forall b: Octets ensures PassesTo(te, data, 2, data, b, maxField) { DataThen(|data|, data, b, maxField); }
  }

  lemma CrlfPasses(maxField: nat)
    ensures Passes(2, CRLF, 0, [], maxField)
  {
    hide Run, Emit;
    forall b: Octets ensures PassesTo(2, CRLF, 0, [], b, maxField) {
      EndOfData(CRLF + b, maxField);
      assert (CRLF + b)[2..] == b;
    }
  }

  lemma LinePasses(line: Octets, value: nat, m: Octets, maxField: nat)
    requires LineAt(m) == Size(value, |line|) && value > 0 && line == m[..|line|]
    ensures Passes(0, line, value + 2, [], maxField)
  {
    hide LineAt, SizeOf, Run, Emit;
    PlainLine(m);
    LineEndRun([], line, maxField);
    assert [] + line == line;
    var te := value + 2;
    forall b: Octets ensures PassesTo(0, line, te, [], b, maxField) { RunSplit(Line([]), line, b, maxField); }
  }

  lemma ExceedsNow(line: Octets, value: nat, more: Octets, got: int, lim: Limits)
    requires value > 0 && TooBig(value, got, lim)
    requires Passes(0, line, value + 2, [], lim.maxField)
    ensures Exceeds(0, line + more, more, [], got, lim)
  {
    assert line + [] == line && PassesTo(0, line, value + 2, [], [], lim.maxField);
    assert Announces(0, line, value, [], lim.maxField);
  }

  // ---------------------------------------------------------------- well-formed bodies

  /** A message of the format with shorter size lines and a body within the size limit. */
  ghost predicate Fits(b: Body, lim: Limits) {
    && WellFormed(b, lim.maxField)
    && (forall c :: c in b.chunks ==> |c.size.Line()| < HEADER_MAX) && |b.last.Line()| < HEADER_MAX
    && (lim.maxSize != 0 ==> |ChunksData(b.chunks)| <= lim.maxSize)
  }

  lemma LineOfFormat(t: SizeText, rest: Octets)
    requires t.WellFormed() && |t.Line()| < HEADER_MAX
    ensures LineAt(t.Line() + rest) == Size(HexNumber(0, t.digits), |t.Line()|)
  {
    var l := t.Line();
    LineShape(t);
    SizeLineValue(t);
    hide SizeOf, SizeText.Line, SizeText.WellFormed, HexNumber;
    PlainCString(l);
    FindIs(l, LF, |l| - 1);
    assert l[..|l|] == l;
    LineGrows(l, rest);
  }

  lemma DecodeSize(l: Octets, m: Octets, n: nat, got: int, lim: Limits)
    requires LineAt(l + m) == Size(n, |l|) && n > 0 && !TooBig(n, got, lim)
    ensures Decode(0, l + m, got, lim) == Decode(n + 2, m, got, lim)
  {
    hide LineAt, Trailers;
    assert (l + m)[|l|..] == m;
  }

  lemma DecodeData(data: Octets, m: Octets, got: int, lim: Limits)
    requires data != []
    ensures Decode(|data| + 2, data + m, got, lim) == Decode(2, m, got + |data|, lim).After(data)
  {
    hide LineAt, Trailers;
    assert (data + m)[|data|..] == m && (data + m)[..|data|] == data;
  }

  lemma DecodeCrlf(m: Octets, got: int, lim: Limits)
    ensures Decode(2, CRLF + m, got, lim) == Decode(0, m, got, lim)
  {
    hide LineAt, Trailers;
    assert (CRLF + m)[..2] == CRLF && (CRLF + m)[2..] == m;
  }

  lemma ChunkDecodes(c: Chunk, tail: Octets, got: int, lim: Limits)
    requires WellFormedChunk(c) && |c.size.Line()| < HEADER_MAX && !TooBig(|c.data|, got, lim)
    ensures Decode(0, c.size.Line() + c.data + CRLF + tail, got, lim) == Decode(0, tail, got + |c.data|, lim).After(c.data)
  {
    hide Decode, LineAt, SizeText.Line, SizeText.WellFormed, HexNumber;
    var l, m := c.size.Line(), c.data + (CRLF + tail);
    assert l + c.data + CRLF + tail == l + m;
    LineOfFormat(c.size, m);
    DecodeSize(l, m, |c.data|, got, lim);
    DecodeData(c.data, CRLF + tail, got, lim);
    DecodeCrlf(tail, got + |c.data|, lim);
  }

  lemma {:induction false} ChunksDecode(cs: seq<Chunk>, tail: Octets, got: int, lim: Limits)
    requires forall c :: c in cs ==> WellFormedChunk(c) && |c.size.Line()| < HEADER_MAX
    requires got >= 0 && (lim.maxSize != 0 ==> got + |ChunksData(cs)| <= lim.maxSize)
    ensures Decode(0, ChunksText(cs) + tail, got, lim) == Decode(0, tail, got + |ChunksData(cs)|, lim).After(ChunksData(cs))
  {
    hide Decode, LineAt, WellFormedChunk, SizeText.Line, Outcome.After;
    if cs == [] {
      assert ChunksText(cs) + tail == tail;
      AfterTwice(Decode(0, tail, got, lim), [], []);
    } else {
      var c, rest := cs[0], ChunksText(cs[1..]) + tail;
      assert ChunksData(cs) == c.data + ChunksData(cs[1..]);
      assert ChunksText(cs) + tail == c.size.Line() + c.data + CRLF + rest;
      ChunkDecodes(c, rest, got, lim);
      ChunksDecode(cs[1..], tail, got + |c.data|, lim);
      AfterTwice(Decode(0, tail, got + |ChunksData(cs)|, lim), ChunksData(cs[1..]), c.data);
    }
  }

  lemma BodyAccepted(b: Body, lim: Limits)
    requires Fits(b, lim)
    ensures !Decode(0, Text(b), 0, lim).end.Refused?
  {
    hide LineAt, EndAt, SizeText.Line, SizeText.WellFormed, HexNumber, ChunksText, ChunksData;
    ChunksDecode(b.chunks, EndText(b), 0, lim);
    var tail := TrailersText(b.trailers) + CRLF;
    assert EndText(b) == b.last.Line() + tail;
    LineOfFormat(b.last, tail);
  }

  /** A whole body that fits is decoded to its chunks' data; what follows it stays in the read queue. */
  lemma WholeBody(b: Body, extra: Octets, lim: Limits)
    requires Fits(b, lim)
    ensures Decode(0, Text(b) + extra, 0, lim) == Outcome(ChunksData(b.chunks), extra, Finished)
  {
    hide Decode, Text, ChunksData, WellFormed, Fits, Run, Emit, AgreesWith, NoTrailers;
    BodyAccepted(b, lim);
    FitsFormat(b, lim);
    WellFormedDecodes(b, lim.maxField);
    Agree(0, Text(b), 0, lim);
    DoneAgrees(Decode(0, Text(b), 0, lim), Run(Line([]), Text(b), lim.maxField), Emit(Line([]), Text(b), lim.maxField), lim);
    Resume(0, Text(b), extra, 0, lim);
    assert [] + extra == extra;
  }

  lemma FitsFormat(b: Body, lim: Limits)
    requires Fits(b, lim)
    ensures WellFormed(b, lim.maxField)
  {
  }

  lemma DoneAgrees(o: Outcome, s: State, sent: Octets, lim: Limits)
    requires AgreesWith(o, s, sent, lim) && s.Done? && !o.end.Refused?
    ensures o == Outcome(sent, [], Finished)
  {
  }

  /** Until the last byte of the body has come, the decoder waits, having passed on what was decodable. */
  lemma PartOfBody(b: Body, n: nat, lim: Limits)
    requires Fits(b, lim) && n < |Text(b)|
    ensures var o := Decode(0, Text(b)[..n], 0, lim);
      o.end.Waiting? && o.body == Emit(Line([]), Text(b)[..n], lim.maxField) && o.body <= ChunksData(b.chunks)
  {
    hide Decode, Run, Emit, WellFormed, Text, ChunksData;
    var f, m, more := lim.maxField, Text(b)[..n], Text(b)[n..];
    assert m + more == Text(b) && Text(b) + [] == Text(b);
    WholeBody(b, [], lim);
    Resume(0, m, more, 0, lim);
    Agree(0, m, 0, lim);
    NotYet(b, f, m);
    WellFormedDecodes(b, f);
    RunSplit(Line([]), m, more, f);
    var s := Run(Line([]), m, f);
    if s.Trailer? && |s.h| >= f { TooMuch(s, more, f); }
  }

  lemma TooMuch(s: State, more: Octets, maxField: nat)
    requires s.Trailer? && |s.h| >= maxField && more != []
    ensures Run(s, more, maxField) == Beyond
  {
    Absorbing(Beyond, more[1..], maxField);
  }
}
