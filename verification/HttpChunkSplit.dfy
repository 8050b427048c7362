/** When two calls of the chunked decoder do what one call on the same bytes does.  Within the limits always;
    beyond them it can depend on the split, in the cases that Sensitive lists. */
module HttpChunkSplit {
  import opened Bytes
  import opened HttpChunk
  import opened HttpChunkBlock

  // ---------------------------------------------------------------- two calls

  /** A second block after a first one. */
  function Then(x: Outcome, b: Octets, maxField: nat): Outcome
    requires x.Took? ==> Sound(x.d)
  {
    if x.Refused? then x
    else if x.d.done then Refused(x.out)
    else
      assert x.d == Decoder(x.d.te, x.d.h, false);
      Decode(x.d.te, x.d.h, b, maxField).After(x.out)
  }

  function Twice(te: nat, h: Octets, a: Octets, b: Octets, maxField: nat): Outcome
    requires Sound(Decoder(te, h, false))
  {
    DecodeSound(te, h, a, maxField);
    Then(Decode(te, h, a, maxField), b, maxField)
  }

  /** A finished section without trailers; the decoder may leave it out. */
  ghost predicate Plain(h: Octets) { h == [] || NoTrailers(h) }

  /** The same verdict, bytes, state and end, up to a section without trailers. */
  ghost predicate Same(x: Outcome, y: Outcome) {
    || x == y
    || (x.Took? && y.Took? && x.d.done && y.d.done && x.d.te == y.d.te && x.out == y.out && x.cut == y.cut
        && Plain(x.d.h) && Plain(y.d.h))
  }

  // ---------------------------------------------------------------- where the split matters

  /** Nothing was buffered, and the first block ends inside a size line.  A whole line is taken in one block
      whatever its length, but not in parts over 1024 bytes; and the line itself may be over the limit for
      trailers. */
  ghost predicate LineSensitive(a: Octets, b: Octets, maxField: nat) {
    if LF !in b then |a + b| == MAX_LINE
    else
      var line, rest := a + b[..LinePart(b)], b[LinePart(b)..];
      if |line| > MAX_LINE then
        SizeOf(line).Some? && !(SizeOf(line) == Some(0) && Excess([], Found(a + b, rest, |line|, a + b), maxField))
      else
        SizeOf(line) == Some(0) && !(CRLF <= rest) && maxField < |line| && (rest == [] || !NoTrailers(Cut(line)))
  }

  /** The bytes h + rest are read as n bytes behind the last chunk's line that begin with CR LF, or as trailers. */
  ghost predicate Clash(n: nat, h: Octets, rest: Octets, maxField: nat) {
    Over(h, rest, maxField) || if n == 2 then !NoTrailers(h + rest) else !GoesOn(h + rest)
  }

  /** The last chunk's line l is complete with the first block, m is the same with both.  Bytes behind the end
      are seen only in the block that ends the message; and a blank line is found in another way by a second
      call, which looks for the line again. */
  ghost predicate EndSensitive(h: Octets, l: Found, m: Found, b: Octets, maxField: nat) {
    var g := h + l.rest;
    if Excess(h, l, maxField) || Common(l) || Over(h, l.rest, maxField) || Ended(g) then !Excess(h, m, maxField)
    else if LF in CString(g) then
      var k := Find(CString(g), LF) + 1;
      var again := Found(g, g[k..], k, b);
      if Common(m) && Common(again) then |b| - k == 2
      else if Common(m) then Clash(|m.rest| - m.hsz, h, m.rest, maxField)
      else Common(again) && Clash(|b| - k, h, m.rest, maxField)
    else ZeroSensitive(h, l, m, b, maxField)
  }

  /** A zero byte in the line hides its end, so that the second block is taken for more of it. */
  ghost predicate ZeroSensitive(h: Octets, l: Found, m: Found, b: Octets, maxField: nat) {
    var g, n := h + l.rest, |m.rest| - m.hsz;
    if Room(g) < LinePart(b) then Common(m) ==> n == 2
    else if LF !in b then Over(h, m.rest, maxField)
    else
      var g', rest := g + b[..LinePart(b)], b[LinePart(b)..];
      if Common(m) then !(n > 2 && CRLF <= rest && |rest| > 2)
      else CRLF <= rest || Over(h, m.rest, maxField) != Over(g', rest, maxField)
  }

  /** l with b behind the block. */
  function More(h: Octets, l: Found, b: Octets): Found {
    if h == [] then Found(l.text + b, l.after + b, l.hsz, l.rest + b)
    else if LF in CString(h) then Found(l.text, l.after, l.hsz, l.rest + b)
    else Found(l.text, l.after + b, l.hsz, l.rest + b)
  }

  /** Two blocks a and b can be taken in another way than a + b. */
  ghost predicate Sensitive(te: nat, h: Octets, a: Octets, b: Octets, maxField: nat)
    requires SafeBuffer(h)
    decreases |a|
  {
    if a == [] then false
    else
      match Next(te, h, a, maxField)
      case Goes(te', _, rest) => Sensitive(te', [], rest, b, maxField)
      case Stops(x) =>
        if b == [] then x.Took? && x.d.done
        else
          te == 0 && match FindLine(h, a)
                     case Hit(g, l) => SizeOf(l.text) == Some(0) && EndSensitive(g, l, More(h, l, b), b, maxField)
                     case _ => h == [] && LineSensitive(a, b, maxField)
  }

  // ---------------------------------------------------------------- proof pieces

  lemma AfterThen(x: Outcome, out: Octets, b: Octets, maxField: nat)
    requires x.Took? ==> Sound(x.d)
    ensures Then(x.After(out), b, maxField) == Then(x, b, maxField).After(out)
  {
    hide Decode;
    if x.Took? && !x.d.done {
      var y := Decode(x.d.te, x.d.h, b, maxField);
      assert (out + x.out) + y.out == out + (x.out + y.out);
    }
  }

  lemma AfterInjective(a: Octets, b: Octets, c: Octets)
    ensures a + b == a + c <==> b == c
  {
    assert b == (a + b)[|a|..] && c == (a + c)[|a|..];
  }

  lemma AfterSame(x: Outcome, y: Outcome, out: Octets)
    ensures Same(x.After(out), y.After(out)) <==> Same(x, y)
  {
    hide Plain;
    AfterInjective(out, x.out, y.out);
  }

  lemma PartIs(a: Octets)
    requires LF in a
    ensures LinePart(a) == Find(a, LF) + 1 <= |a|
  {
    FindAbsent(a, LF);
  }

  lemma FindFirst(a: Octets, b: Octets)
    requires LF in a
    ensures Find(a + b, LF) == Find(a, LF)
  {
    hide Find;
    FindAbsent(a, LF);
    var k := Find(a, LF);
    assert (a + b)[..k] == a[..k];
    FindIs(a + b, LF, k);
  }

  lemma FindSecond(a: Octets, b: Octets)
    requires LF !in a && LF in b
    ensures Find(a + b, LF) == |a| + Find(b, LF)
  {
    hide Find;
    FindAbsent(b, LF);
    var k := Find(b, LF);
    assert (a + b)[..|a| + k] == a + b[..k];
    FindIs(a + b, LF, |a| + k);
  }

  lemma PartMore(a: Octets, b: Octets)
    ensures LF in a ==> LF in a + b && LinePart(a + b) == LinePart(a)
    ensures LF !in a ==> (LF in a + b <==> LF in b) && LinePart(a + b) == |a| + LinePart(b)
  {
    hide Find;
    if LF in a {
      PartIs(a);
      PartIs(a + b);
      FindFirst(a, b);
    } else if LF in b {
      PartIs(b);
      PartIs(a + b);
      FindSecond(a, b);
    } else {
      FindAbsent(b, LF);
      FindAbsent(a + b, LF);
    }
  }

  lemma SliceMore(a: Octets, b: Octets, n: nat)
    requires n <= |a|
    ensures (a + b)[..n] == a[..n] && (a + b)[n..] == a[n..] + b
  {
  }

  /** A line that is complete in the first block is found with both. */
  lemma FindMore(h: Octets, a: Octets, b: Octets)
    ensures var r := FindLine(h, a);
      r.Hit? ==> FindLine(h, a + b) == Hit(r.h, More(h, r.l, b))
  {
    hide Find, CString, LinePart, Room;
    PartMore(a, b);
    FindAbsent(CString(h), LF);
    if FindLine(h, a).Hit? && (h == [] || LF !in CString(h)) { SliceMore(a, b, LinePart(a)); }
  }

  lemma SizeMore(h: Octets, l: Found, b: Octets)
    requires LF in l.text
    ensures SizeOf(More(h, l, b).text) == SizeOf(l.text)
  {
    SizeOfLine(l.text, b);
  }

  lemma LinePassMore(h: Octets, a: Octets, b: Octets, maxField: nat)
    requires SafeBuffer(h)
    ensures var p := LinePass(h, a, maxField);
      p.Goes? ==> LinePass(h, a + b, maxField) == Goes(p.te, p.out, p.rest + b)
  {
    hide FindLine, SizeOf, SafeBuffer, EndSection;
    var r := FindLine(h, a);
    Sizes(h, a);
    if r.Hit? && SizeOf(r.l.text) != Some(0) {
      FindMore(h, a, b);
      SizeMore(h, r.l, b);
      assert (r.l.rest + b)[r.l.hsz..] == r.l.rest[r.l.hsz..] + b;
    }
  }

  lemma DataPassMore(te: nat, a: Octets, b: Octets)
    requires te >= 2
    ensures var p := DataPass(te, a); p.Goes? ==> DataPass(te, a + b) == Goes(p.te, p.out, p.rest + b)
  {
    var n := Min(te - 2, |a|);
    assert (a + b)[n..] == a[n..] + b && (a + b)[..n] == a[..n];
    if DataPass(te, a).Goes? {
      assert (a[n..] + b)[2..] == a[n..][2..] + b;
      assert (a[n..] + b)[..2] == a[n..][..2];
    }
  }

  /** A pass that leaves bytes behind does the same when more follow. */
  lemma NextMore(te: nat, h: Octets, a: Octets, b: Octets, maxField: nat)
    requires a != [] && SafeBuffer(h)
    ensures var p := Next(te, h, a, maxField);
      p.Goes? ==> Next(te, h, a + b, maxField) == Goes(p.te, p.out, p.rest + b)
  {
    hide LinePass, DataPass, SafeBuffer;
    LinePassMore(h, a, b, maxField);
    if te >= 2 { DataPassMore(te, a, b); }
    assert (a + b)[1..] == a[1..] + b;
  }

  // ---------------------------------------------------------------- the first block ends in chunk data

  lemma DataJoin(te: nat, a: Octets, b: Octets)
    requires |a| + 2 <= te && b != []
    ensures match DataPass(te - |a|, b) {
      case Stops(x) => DataPass(te, a + b) == Stops(x.After(a))
      case Goes(te', out, rest) => DataPass(te, a + b) == Goes(te', a + out, rest)
    }
  {
    var n := Min(te - |a| - 2, |b|);
    assert (a + b)[|a| + n..] == b[n..] && (a + b)[..|a| + n] == a + b[..n];
  }

  lemma DataStops(te: nat, h: Octets, a: Octets, b: Octets, maxField: nat)
    requires te >= 2 && a != [] && b != [] && Sound(Decoder(te, h, false)) && DataPass(te, a).Stops?
    ensures Decode(te, h, a + b, maxField) == Twice(te, h, a, b, maxField)
  {
    hide LinePass, SafeBuffer;
    DecodeSound(te, h, a, maxField);
    SafeEmpty();
    var n := Min(te - 2, |a|);
    var part, rest := a[..n], a[n..];
    if rest == [] {
      assert part == a;
      DataJoined(te, a, b, maxField);
    } else {
      assert (a + b)[n..] == rest + b && (a + b)[..n] == part;
      CrlfAhead(rest + b);
      CrlfAhead(rest);
      if rest == [CR] {
        assert (rest + b)[2..] == b[1..];
        LoneCr(te, part, a, b, maxField);
      } else {
        assert !(CRLF <= rest + b);
      }
    }
  }

  lemma DataJoined(te: nat, a: Octets, b: Octets, maxField: nat)
    requires |a| + 2 <= te && a != [] && b != [] && SafeBuffer([])
    ensures Decode(te, [], a + b, maxField) == Decode(te - |a|, [], b, maxField).After(a)
  {
    hide LinePass, SafeBuffer, DataPass;
    DataJoin(te, a, b);
    var p := DataPass(te - |a|, b);
    if p.Goes? {
      var x := Decode(p.te, [], p.rest, maxField);
      assert (a + p.out) + x.out == a + (p.out + x.out);
    }
  }

  lemma LoneCr(te: nat, part: Octets, a: Octets, b: Octets, maxField: nat)
    requires a != [] && b != [] && SafeBuffer([]) && te >= 2
    requires DataPass(te, a + b) == if b[0] == LF then Goes(0, part, b[1..]) else Stops(Refused(part))
    ensures Decode(te, [], a + b, maxField) == Decode(1, [], b, maxField).After(part)
  {
    hide LinePass, SafeBuffer, DataPass;
  }

  // ---------------------------------------------------------------- the first block ends in a size line

  lemma RoomLess(h: Octets, a: Octets)
    requires |a| <= Room(h)
    ensures Room(h + a) == Room(h) - |a|
  {
  }

  /** The line is put together from the buffer and both blocks. */
  lemma FindJoin(h: Octets, a: Octets, b: Octets)
    requires h != [] && a != [] && b != [] && !FindLine(h, a).Hit?
    ensures var r := FindLine(h, a);
      FindLine(h, a + b) == if r.Long? then Long else FindLine(r.h, b)
  {
    hide Find, CString, LinePart, Room;
    PartMore(a, b);
    FindAbsent(CString(h), LF);
    FindAbsent(CString(h + a), LF);
    if FindLine(h, a).Part? {
      FindPart(h, a);
      StillHidden(h, a);
      RoomLess(h, a);
      JoinSlices(h, a, b, LinePart(b));
    }
  }

  lemma FindPart(h: Octets, a: Octets)
    requires h != [] && FindLine(h, a).Part?
    ensures FindLine(h, a).h == h + a && LF !in a && LF !in CString(h) && |a| <= Room(h)
  {
    hide Room;
    FindAbsent(CString(h), LF);
    FindAbsent(a, LF);
  }

  lemma JoinSlices(h: Octets, a: Octets, b: Octets, n: nat)
    requires n <= |b|
    ensures h + (a + b) == (h + a) + b
    ensures h + (a + b)[..|a| + n] == (h + a) + b[..n] && (a + b)[|a| + n..] == b[n..]
  {
    assert (a + b)[..|a| + n] == a + b[..n];
  }

  /** Passes that find the same line are the same. */
  lemma SameLine(h: Octets, a: Octets, h': Octets, a': Octets, maxField: nat)
    requires a != [] && a' != [] && SafeBuffer(h) && SafeBuffer(h') && FindLine(h, a) == FindLine(h', a')
    ensures Decode(0, h, a, maxField) == Decode(0, h', a', maxField)
  {
    hide FindLine, SizeOf, EndSection, SafeBuffer;
    Sizes(h, a);
    Sizes(h', a');
  }

  /** A block that is taken for more of a buffered line. */
  lemma LineStops(h: Octets, a: Octets, b: Octets, maxField: nat)
    requires h != [] && a != [] && b != [] && Sound(Decoder(0, h, false)) && !FindLine(h, a).Hit?
    ensures Decode(0, h, a + b, maxField) == Twice(0, h, a, b, maxField)
  {
    hide FindLine, SizeOf, EndSection, SafeBuffer;
    DecodeSound(0, h, a, maxField);
    FindJoin(h, a, b);
    var r := FindLine(h, a);
    if r.Part? { SameLine(h, a + b, r.h, b, maxField); }
  }

  /** One pass at a size line that ends the block. */
  lemma LineDecode(h: Octets, a: Octets, maxField: nat)
    requires a != [] && SafeBuffer(h)
    ensures var r, x := FindLine(h, a), Decode(0, h, a, maxField);
      && (r.Long? ==> x == Refused([]))
      && (r.Part? ==> x == Wait(0, r.h, []))
      && (r.Hit? ==>
            && (SizeOf(r.l.text) == None ==> x == Refused([]))
            && (SizeOf(r.l.text) == Some(0) ==> x == EndSection(r.h, r.l, maxField))
            && (SizeOf(r.l.text).Some? && SizeOf(r.l.text) != Some(0) ==>
                  && r.l.hsz <= |r.l.rest| && SafeBuffer([])
                  && x == Decode(SizeOf(r.l.text).value + 2, [], r.l.rest[r.l.hsz..], maxField)))
  {
    hide FindLine, SizeOf, EndSection, SafeBuffer, DataPass;
    Sizes(h, a);
    SafeEmpty();
    var r := FindLine(h, a);
    if r.Hit? && SizeOf(r.l.text).Some? && SizeOf(r.l.text) != Some(0) {
      AfterNothing(Decode(SizeOf(r.l.text).value + 2, [], r.l.rest[r.l.hsz..], maxField));
    }
  }

  /** Chunk data is passed on before anything is refused. */
  lemma NotEmptyRefusal(te: nat, m: Octets, maxField: nat)
    requires te > 2 && SafeBuffer([])
    ensures Decode(te, [], m, maxField) != Refused([])
  {
    hide LinePass, SafeBuffer;
    if m != [] {
      var n := Min(te - 2, |m|);
      assert m[..n] != [];
    }
  }

  /** The second call, when the first block is a part of a line. */
  lemma TwiceLine(a: Octets, b: Octets, maxField: nat)
    requires LF !in a && a != [] && b != [] && Sound(Decoder(0, [], false))
    ensures |a| >= MAX_LINE ==> Twice(0, [], a, b, maxField) == Refused([])
    ensures |a| < MAX_LINE ==> SafeBuffer(a) && Twice(0, [], a, b, maxField) == Decode(0, a, b, maxField)
  {
    hide SafeBuffer, EndSection, SizeOf;
    FindAbsent(a, LF);
    LineDecode([], a, maxField);
    DecodeSound(0, [], a, maxField);
    if |a| < MAX_LINE { AfterNothing(Decode(0, a, b, maxField)); }
  }

  lemma FindRest(a: Octets, b: Octets)
    requires LF !in a && a != [] && |a| < MAX_LINE
    ensures FindLine(a, b) ==
      if |a| + LinePart(b) > MAX_LINE then Long
      else if LF !in b then Part(a + b)
      else Hit(a + b[..LinePart(b)], Found(a + b[..LinePart(b)], b[LinePart(b)..], 0, b[LinePart(b)..]))
  {
    hide LinePart;
    FindAbsent(CString(a), LF);
  }

  lemma NoLineExact(a: Octets, b: Octets, maxField: nat)
    requires LF !in a && LF !in b && a != [] && b != [] && Sound(Decoder(0, [], false))
    ensures Same(Decode(0, [], a + b, maxField), Twice(0, [], a, b, maxField)) <==> |a + b| != MAX_LINE
  {
    hide Decode, EndSection, SizeOf, SafeBuffer, Sound, Plain, Then, Twice;
    PartMore(a, b);
    FindAbsent(b, LF);
    SafeEmpty();
    LineDecode([], a + b, maxField);
    TwiceLine(a, b, maxField);
    if |a| < MAX_LINE {
      FindRest(a, b);
      LineDecode(a, b, maxField);
    }
  }

  lemma FindWhole(a: Octets, b: Octets)
    requires LF !in a && LF in b
    ensures var line, rest := a + b[..LinePart(b)], b[LinePart(b)..];
      && FindLine([], a + b) == Hit([], Found(a + b, rest, |line|, a + b)) && (a + b)[|line|..] == rest
      && SizeOf(a + b) == SizeOf(line) && LF in line
  {
    hide LinePart, SizeOf;
    PartMore(a, b);
    LineInPart(b);
    var n := LinePart(b);
    assert (a + b)[|a| + n..] == b[n..];
    SizeOfLine(a + b[..n], b[n..]);
    assert (a + b[..n]) + b[n..] == a + b;
  }

  /** The size line ends in the second block. */
  lemma WholeLineExact(a: Octets, b: Octets, maxField: nat)
    requires LF !in a && LF in b && a != [] && b != [] && Sound(Decoder(0, [], false))
    ensures Same(Decode(0, [], a + b, maxField), Twice(0, [], a, b, maxField)) <==> !LineSensitive(a, b, maxField)
  {
    hide Decode, EndSection, SizeOf, SafeBuffer, Excess, Sound, Plain, Then, Twice, LinePart, FindLine, Cut, NoTrailers;
    var line, rest := a + b[..LinePart(b)], b[LinePart(b)..];
    SafeEmpty();
    FindWhole(a, b);
    LineDecode([], a + b, maxField);
    TwiceLine(a, b, maxField);
    var v := SizeOf(line);
    if v.Some? && v != Some(0) { NotEmptyRefusal(v.value + 2, rest, maxField); }
    if |a| < MAX_LINE {
      FindRest(a, b);
      LineDecode(a, b, maxField);
      assert rest[0..] == rest;
    }
    if |line| <= MAX_LINE {
      assert v == Some(0) ==> (Same(EndSection([], Found(a + b, rest, |line|, a + b), maxField), EndSection(line, Found(line, rest, 0, rest), maxField))
                               <==> !LineSensitive(a, b, maxField)) by { LastLineExact(a, b, maxField); }
    } else {
      EndRefusal([], Found(a + b, rest, |line|, a + b), maxField);
    }
  }

  lemma EndRefusal(h: Octets, l: Found, maxField: nat)
    ensures var x := EndSection(h, l, maxField); (x.Refused? <==> Excess(h, l, maxField)) && x.out == []
  {
    hide Excess;
  }

  /** The last chunk's line ends in the second block. */
  lemma LastLineExact(a: Octets, b: Octets, maxField: nat)
    requires LF !in a && LF in b
    ensures var line, rest := a + b[..LinePart(b)], b[LinePart(b)..];
      Same(EndSection([], Found(a + b, rest, |line|, a + b), maxField), EndSection(line, Found(line, rest, 0, rest), maxField))
      <==> (CRLF <= rest || maxField >= |line| || (rest != [] && NoTrailers(Cut(line))))
  {
    hide GoesOn, Ended, LinePart, Cut, NoTrailers;
    var line, rest := a + b[..LinePart(b)], b[LinePart(b)..];
    assert line + rest == a + b && [] + (a + b) == a + b;
    if CRLF <= rest {
    } else if maxField >= |line| {
      SectionJoin(line, rest, maxField);
    } else {
      CutLine(a, b, maxField);
      CutNotEmpty(line);
      CutNotEmpty((a + b)[..maxField]);
      assert line + rest[..0] == line && [] + (a + b)[..maxField] == (a + b)[..maxField];
    }
  }

  /** The limit is reached at the same place. */
  lemma SectionJoin(line: Octets, rest: Octets, maxField: nat)
    requires maxField >= |line|
    ensures Section([], line + rest, maxField) == Section(line, rest, maxField)
    ensures Over([], line + rest, maxField) == Over(line, rest, maxField)
  {
    hide Cut, Ended;
    assert [] + (line + rest) == line + rest;
    if |line + rest| > maxField {
      assert [] + (line + rest)[..maxField] == line + rest[..maxField - |line|];
    }
  }

  lemma CutHidden(t: Octets)
    requires LF !in CString(t)
    ensures Cut(t) == [ZERO] + CRLF + CRLF && NoTrailers(Cut(t))
  {
    var end := [ZERO] + CRLF + CRLF;
    assert end == [ZERO, CR, LF, CR, LF];
    assert end[..2] == [ZERO, CR];
    FindIs(end, LF, 2);
    assert end[1..] == BLANK_LINE;
  }

  lemma CutNotEmpty(t: Octets)
    ensures Cut(t) != []
  {
  }

  lemma CutLine(a: Octets, b: Octets, maxField: nat)
    requires LF !in a && LF in b && maxField < |a| + LinePart(b)
    ensures Cut((a + b)[..maxField]) == [ZERO] + CRLF + CRLF && NoTrailers(Cut((a + b)[..maxField]))
  {
    PartMore(a, b);
    FindAbsent(a + b, LF);
    var k := Find(a + b, LF);
    assert (a + b)[..maxField] == (a + b)[..k][..maxField];
    CutHidden((a + b)[..maxField]);
  }

  /** Nothing was buffered, and the first block has no line end. */
  lemma LineExact(a: Octets, b: Octets, maxField: nat)
    requires LF !in a && a != [] && b != [] && Sound(Decoder(0, [], false))
    ensures Same(Decode(0, [], a + b, maxField), Twice(0, [], a, b, maxField)) <==> !LineSensitive(a, b, maxField)
  {
    hide Decode, EndSection, SizeOf, SafeBuffer, Excess, Sound, Plain, Twice, LinePart, Cut, NoTrailers;
    if LF !in b { NoLineExact(a, b, maxField); } else { WholeLineExact(a, b, maxField); }
  }

  // ---------------------------------------------------------------- the first block has the last chunk's line

  /** Everything that one call sees behind the last chunk's line, when the first call was left waiting. */
  lemma SectionMore(h: Octets, rest: Octets, b: Octets, maxField: nat)
    requires !Over(h, rest, maxField)
    ensures Section(h, rest + b, maxField) == Section(h + rest, b, maxField)
    ensures Over(h, rest + b, maxField) == Over(h + rest, b, maxField)
    ensures h + (rest + b) == (h + rest) + b
  {
    hide Cut, Ended;
    assert h + (rest + b) == (h + rest) + b;
    if Over(h, rest + b, maxField) && maxField >= |h| {
      var n := maxField - |h|;
      assert h + (rest + b)[..n] == (h + rest) + b[..n - |rest|];
    } else if Over(h, rest + b, maxField) {
      assert rest == [] && h + (rest + b)[..0] == (h + rest) + b[..0];
    }
  }

  /** The first call ended or refused; a second one refuses everything. */
  lemma EndedExact(h: Octets, l: Found, m: Found, b: Octets, maxField: nat)
    requires Excess(h, l, maxField) || Common(l) || Over(h, l.rest, maxField) || Ended(h + l.rest)
    ensures EndSection(h, l, maxField).Refused? || EndSection(h, l, maxField).d.done
    ensures (Same(EndSection(h, m, maxField), Refused([])) <==> Excess(h, m, maxField))
  {
    hide Excess, Common, Ended;
  }

  /** A common end and trailers that are the same bytes. */
  lemma ClashExact(n: nat, h: Octets, rest: Octets, maxField: nat)
    requires n >= 2 && LF in CString(h + rest)
    ensures var common := if n > 2 then Refused([]) else Took(Decoder(0, [], true), [], false);
      var t := if !Over(h, rest, maxField) && GoesOn(h + rest) then Refused([]) else Section(h, rest, maxField);
      && (Same(common, t) <==> !Clash(n, h, rest, maxField)) && (Same(t, common) <==> !Clash(n, h, rest, maxField))
  {
    hide NoTrailers, Cut, Ended, Find;
    if !Over(h, rest, maxField) { PlainEnds(h + rest); }
  }

  /** A section without trailers ends with its blank line. */
  lemma PlainEnds(t: Octets)
    requires LF in CString(t)
    ensures NoTrailers(t) ==> Ended(t) && !GoesOn(t)
    ensures t != []
  {
    if NoTrailers(t) {
      var k := Find(t, LF);
      assert t[k - 1..] == BLANK_LINE && t[k - 1..][1] == LF && t[k - 1..][2] == t[k + 1] && t[k - 1..][3] == t[k + 2];
      VisibleUpTo(t, k);
      FindAbsent(t, NUL);
      assert CString(t) == t;
      assert BlankAt(t, k - 1);
      if FindBlank(t) < k - 1 { BlankHasLf(t, FindBlank(t)); }
    }
  }

  /** The first line end that the C string functions see is the first one. */
  lemma VisibleUpTo(t: Octets, k: nat)
    requires LF in CString(t) && k == Find(t, LF)
    ensures k < Find(t, NUL) && NUL !in t[..k] && Find(CString(t), LF) == k
  {
    var z := Find(t, NUL);
    assert CString(t)[..k] == t[..k] && t[..k] == t[..z][..k];
    FindIs(CString(t), LF, k);
  }

  /** The first call is left waiting, with the last chunk's line and what has come of the trailers. */
  ghost predicate Waits(h: Octets, l: Found, maxField: nat) {
    !Excess(h, l, maxField) && !Common(l) && !Over(h, l.rest, maxField) && !Ended(h + l.rest)
  }

  /** The second call finds the line again. */
  lemma VisibleExact(h: Octets, l: Found, m: Found, b: Octets, maxField: nat)
    requires Waits(h, l, maxField) && LF in CString(h + l.rest) && m.rest == l.rest + b && m.hsz == l.hsz
    requires l.hsz < |l.rest| + Find(CString(h + l.rest), LF) + 1
    ensures var g := h + l.rest;
      var k := Find(CString(g), LF) + 1;
      Same(EndSection(h, m, maxField), EndSection(g, Found(g, g[k..], k, b), maxField)) <==> !EndSensitive(h, l, m, b, maxField)
  {
    hide Find, CString, Section, GoesOn, Ended, Excess, EndSection, Clash, Over, Plain;
    var g := h + l.rest;
    VisibleMore(g, b);
    var k := Find(CString(g), LF) + 1;
    var again := Found(g, g[k..], k, b);
    SectionMore(h, l.rest, b, maxField);
    EndIs(h, m, maxField);
    EndIs(g, again, maxField);
    if Common(m) { ClashExact(|m.rest| - m.hsz, h, m.rest, maxField); }
    if Common(again) { ClashExact(|b| - k, h, m.rest, maxField); }
  }

  lemma VisibleMore(g: Octets, b: Octets)
    requires LF in CString(g)
    ensures LF in CString(g + b) && Find(CString(g + b), LF) == Find(CString(g), LF) < |g|
  {
    var k := Find(g, LF);
    FindAbsent(CString(g), LF);
    FindAbsent(g, LF);
    VisibleUpTo(g, k);
    assert (g + b)[..k + 1] == g[..k + 1] && (g + b)[..k] == g[..k];
    FindIs(g + b, LF, k);
    var z := Find(g + b, NUL);
    assert g[..k + 1] == g[..k] + [LF];
    assert CString(g + b)[k] == LF;
    VisibleUpTo(g + b, k);
  }

  // ---------------------------------------------------------------- a zero byte before the end of the line

  lemma HiddenMore(g: Octets, s: Octets)
    requires LF in g && LF !in CString(g)
    ensures CString(g + s) == CString(g)
  {
    FindAbsent(g, NUL);
    var z := Find(g, NUL);
    assert (g + s)[..z] == g[..z];
    FindIs(g + s, NUL, z);
  }

  lemma HiddenPrefix(t: Octets, n: nat)
    requires n <= |t| && LF !in CString(t)
    ensures LF !in CString(t[..n])
  {
    var z := Find(t[..n], NUL);
    assert t[..n][..z] == t[..z];
    assert t[..z] == CString(t)[..z];
  }

  /** No blank line and no line end can be seen. */
  lemma HiddenSection(h: Octets, rest: Octets, maxField: nat)
    requires LF !in CString(h + rest)
    ensures !GoesOn(h + rest)
    ensures Section(h, rest, maxField) ==
      if Over(h, rest, maxField) then Took(Decoder(0, [ZERO] + CRLF + CRLF, true), [], true) else Wait(0, h + rest, [])
  {
    hide Find, Cut, FindBlank;
    NoBlankHidden(CString(h + rest));
    var n := Max(maxField - |h|, 0);
    if n < |rest| {
      assert (h + rest)[..|h| + n] == h + rest[..n];
      HiddenPrefix(h + rest, |h| + n);
      CutHidden(h + rest[..n]);
    }
  }

  lemma NoBlankHidden(t: Octets)
    requires LF !in t
    ensures FindBlank(t) == |t|
  {
    var k := FindBlank(t);
    if k < |t| { BlankHasLf(t, k); }
  }

  /** The second call takes the bytes up to its first line end for more of the line. */
  lemma ZeroExact(h: Octets, l: Found, m: Found, b: Octets, maxField: nat)
    requires Waits(h, l, maxField) && LF in h + l.rest && LF !in CString(h + l.rest) && b != []
    requires |l.after| == |l.rest| - l.hsz && m.rest == l.rest + b && m.after == l.after + b && m.hsz == l.hsz
    ensures var g, n := h + l.rest, LinePart(b);
      && (Room(g) < n ==> (Same(EndSection(h, m, maxField), Refused([])) <==> !ZeroSensitive(h, l, m, b, maxField)))
      && (Room(g) >= n && LF !in b ==>
            (Same(EndSection(h, m, maxField), Wait(0, g + b, [])) <==> !ZeroSensitive(h, l, m, b, maxField)))
      && (Room(g) >= n && LF in b ==>
            (Same(EndSection(h, m, maxField), EndSection(g + b[..n], Found(g + b[..n], b[n..], 0, b[n..]), maxField))
             <==> !ZeroSensitive(h, l, m, b, maxField)))
  {
    hide Find, CString, LinePart, Section, GoesOn, Ended, Excess, EndSection, Over, Plain, Room, Waits, NoTrailers;
    var g, n := h + l.rest, LinePart(b);
    assert h + m.rest == g + b;
    HiddenMore(g, b);
    HiddenSection(h, m.rest, maxField);
    EndIs(h, m, maxField);
    EndInLater(h, l, b, maxField);
    if Room(g) >= n && LF in b {
      var g', rest := g + b[..n], b[n..];
      assert g' + rest == g + b;
      HiddenSection(g', rest, maxField);
      EndIs(g', Found(g', rest, 0, rest), maxField);
    }
  }

  /** A common end that the first block did not have ends in the second one. */
  lemma EndInLater(h: Octets, l: Found, b: Octets, maxField: nat)
    requires Waits(h, l, maxField) && |l.after| == |l.rest| - l.hsz && b != []
    ensures CRLF <= l.after + b ==> LF in b && |l.after| + |b| >= 2
    ensures CRLF <= l.after + b && |l.after| + |b| == 2 ==> b[LinePart(b)..] == []
  {
    hide Excess, Over, Ended;
    CrlfAhead(l.after + b);
    CrlfAhead(l.after);
    if CRLF <= l.after + b {
      assert (l.after + b)[1] == LF;
      if |l.after| + |b| == 2 { FindAbsent(b, LF); }
    }
  }

  // ---------------------------------------------------------------- one call and two

  /** Where the line that was found ends, as seen from the bytes that are kept. */
  lemma HitShape(h: Octets, a: Octets, b: Octets)
    requires a != [] && SafeBuffer(h) && FindLine(h, a).Hit?
    ensures var r := FindLine(h, a);
      var g, m := r.h + r.l.rest, More(h, r.l, b);
      && m.rest == r.l.rest + b && m.hsz == r.l.hsz && LF in g && g != []
      && (LF !in CString(g) ==> |r.l.after| == |r.l.rest| - r.l.hsz && m.after == r.l.after + b)
      && (LF in CString(g) ==> r.l.hsz < |r.l.rest| + Find(CString(g), LF) + 1)
  {
    hide Room, LinePart, Find, CString, SizeOf;
    Sizes(h, a);
    FindAbsent(CString(h), LF);
    PartMore(a, []);
    if h == [] {
      assert [] + a == a;
      if LF in CString(a) {
        VisibleUpTo(a, Find(a, LF));
        PartIs(a);
      }
    } else if LF in CString(h) {
      VisibleMore(h, a);
    }
  }

  /** The second call finds what was buffered. */
  lemma AgainVisible(g: Octets, b: Octets, maxField: nat)
    requires SafeBuffer(g) && LF in CString(g) && b != []
    ensures var k := Find(CString(g), LF) + 1;
      Decode(0, g, b, maxField) == EndSection(g, Found(g, g[k..], k, b), maxField)
  {
    hide EndSection, SizeOf, Decode;
    LineDecode(g, b, maxField);
    FindAbsent(CString(g), LF);
  }

  lemma AgainHidden(g: Octets, text: Octets, b: Octets, maxField: nat)
    requires SafeBuffer(g) && LF !in CString(g) && LF in text && text <= g && SizeOf(text) == Some(0) && b != []
    ensures var x, n := Decode(0, g, b, maxField), LinePart(b);
      x == if Room(g) < n then Refused([])
           else if LF !in b then Wait(0, g + b, [])
           else EndSection(g + b[..n], Found(g + b[..n], b[n..], 0, b[n..]), maxField)
  {
    hide EndSection, SizeOf, Decode, Room, SafeBuffer, LinePart;
    LineDecode(g, b, maxField);
    FindAbsent(CString(g), LF);
    var n := LinePart(b);
    assert text <= g + b[..n];
    SizeOfLine(text, (g + b[..n])[|text|..]);
    assert text + (g + b[..n])[|text|..] == g + b[..n];
  }

  /** The size line of the last chunk is complete with the first block. */
  lemma EndExact(h: Octets, a: Octets, b: Octets, maxField: nat)
    requires a != [] && b != [] && Sound(Decoder(0, h, false))
    requires var r := FindLine(h, a); r.Hit? && SizeOf(r.l.text) == Some(0)
    ensures var r := FindLine(h, a);
      Same(Decode(0, h, a + b, maxField), Twice(0, h, a, b, maxField))
      <==> !EndSensitive(r.h, r.l, More(h, r.l, b), b, maxField)
  {
    hide EndSection, SizeOf, Decode, FindLine, SafeBuffer, Room, EndSensitive, ZeroSensitive, More, Same, CString;
    var r := FindLine(h, a);
    var l, m := r.l, More(h, r.l, b);
    Sizes(h, a);
    LineDecode(h, a, maxField);
    FindMore(h, a, b);
    SizeMore(h, l, b);
    LineDecode(h, a + b, maxField);
    SecondCall(h, a, b, maxField);
  }

  lemma SecondCall(h: Octets, a: Octets, b: Octets, maxField: nat)
    requires a != [] && b != [] && Sound(Decoder(0, h, false))
    requires var r := FindLine(h, a); r.Hit? && SizeOf(r.l.text) == Some(0)
    requires Decode(0, h, a, maxField) == EndSection(FindLine(h, a).h, FindLine(h, a).l, maxField)
    ensures var r := FindLine(h, a);
      Same(EndSection(r.h, More(h, r.l, b), maxField), Twice(0, h, a, b, maxField))
      <==> !EndSensitive(r.h, r.l, More(h, r.l, b), b, maxField)
  {
    hide EndSection, SizeOf, Decode, FindLine, SafeBuffer, Room, ZeroSensitive, More, Same, Excess, Common, Over, Ended, CString;
    var r := FindLine(h, a);
    var l, m := r.l, More(h, r.l, b);
    var g := r.h + l.rest;
    DecodeSound(0, h, a, maxField);
    EndRefusal(r.h, l, maxField);
    if Waits(r.h, l, maxField) {
      WaitsIs(r.h, l, maxField);
      AfterNothing(Decode(0, g, b, maxField));
      Sizes(h, a);
      HitShape(h, a, b);
      if LF in CString(g) {
        AgainVisible(g, b, maxField);
        VisibleExact(r.h, l, m, b, maxField);
      } else {
        AgainHidden(g, l.text, b, maxField);
        ZeroExact(r.h, l, m, b, maxField);
      }
    } else {
      EndedExact(r.h, l, m, b, maxField);
    }
  }

  lemma WaitsIs(h: Octets, l: Found, maxField: nat)
    requires Waits(h, l, maxField)
    ensures EndSection(h, l, maxField) == Wait(0, h + l.rest, [])
  {
    hide Excess, Common, Ended, Cut;
  }

  /** The first block ends with this pass. */
  lemma StopsExact(te: nat, h: Octets, a: Octets, b: Octets, maxField: nat)
    requires a != [] && b != [] && Sound(Decoder(te, h, false)) && Next(te, h, a, maxField).Stops?
    ensures Same(Decode(te, h, a + b, maxField), Twice(te, h, a, b, maxField)) <==> !Sensitive(te, h, a, b, maxField)
  {
    hide DataPass, FindLine, SizeOf, SafeBuffer, EndSection, Twice, EndSensitive, LineSensitive, Same;
    if te >= 2 {
      DataStops(te, h, a, b, maxField);
      SameItself(Decode(te, h, a + b, maxField));
    } else if te == 1 {
      LfStops(h, a, b, maxField);
      SameItself(Decode(te, h, a + b, maxField));
    } else if FindLine(h, a).Hit? {
      HitStops(h, a, b, maxField);
    } else if h == [] {
      NoHit(a);
      LineExact(a, b, maxField);
    } else {
      LineStops(h, a, b, maxField);
      SameItself(Decode(te, h, a + b, maxField));
    }
  }

  lemma SameItself(x: Outcome)
    ensures Same(x, x)
  {
  }

  lemma NoHit(a: Octets)
    requires !FindLine([], a).Hit?
    ensures LF !in a
  {
  }

  lemma LfStops(h: Octets, a: Octets, b: Octets, maxField: nat)
    requires a != [] && Sound(Decoder(1, h, false)) && a[0] != LF
    ensures Decode(1, h, a + b, maxField) == Twice(1, h, a, b, maxField)
  {
    hide LinePass, DataPass, SafeBuffer;
  }

  /** The line is refused, or it is the last chunk's. */
  lemma HitStops(h: Octets, a: Octets, b: Octets, maxField: nat)
    requires a != [] && b != [] && Sound(Decoder(0, h, false)) && Next(0, h, a, maxField).Stops? && FindLine(h, a).Hit?
    ensures Same(Decode(0, h, a + b, maxField), Twice(0, h, a, b, maxField)) <==> !Sensitive(0, h, a, b, maxField)
  {
    hide FindLine, SizeOf, SafeBuffer, EndSection, EndSensitive, Same, Decode, More;
    var r := FindLine(h, a);
    if SizeOf(r.l.text) == Some(0) {
      EndExact(h, a, b, maxField);
    } else {
      assert SizeOf(r.l.text) == None;
      Sizes(h, a);
      FindMore(h, a, b);
      SizeMore(h, r.l, b);
      LineDecode(h, a, maxField);
      LineDecode(h, a + b, maxField);
      SameItself(Refused([]));
    }
  }

  /** Main result.  From every state that the decoder can be in, and for all blocks a and b: taking a + b in
      one call is the same as taking a and then b, if and only if they are not split-sensitive. */
  lemma {:induction false} SplitExact(te: nat, h: Octets, a: Octets, b: Octets, maxField: nat)
    requires Sound(Decoder(te, h, false))
    ensures Same(Decode(te, h, a + b, maxField), Twice(te, h, a, b, maxField)) <==> !Sensitive(te, h, a, b, maxField)
    decreases |a|
  {
    hide Next, Same, SafeBuffer;
    var one := Decode(te, h, a + b, maxField);
    if a == [] {
      assert a + b == b;
      AfterNothing(one);
      SameItself(one);
    } else {
      var p := Next(te, h, a, maxField);
      if p.Goes? {
        PassOn(te, h, a, b, maxField);
        SafeEmpty();
        SplitExact(p.te, [], p.rest, b, maxField);
        AfterSame(Decode(p.te, [], p.rest + b, maxField), Twice(p.te, [], p.rest, b, maxField), p.out);
      } else if b == [] {
        NothingMore(te, h, a, maxField);
      } else {
        StopsExact(te, h, a, b, maxField);
      }
    }
  }

  lemma PassOn(te: nat, h: Octets, a: Octets, b: Octets, maxField: nat)
    requires a != [] && Sound(Decoder(te, h, false)) && Next(te, h, a, maxField).Goes?
    ensures var p := Next(te, h, a, maxField);
      && Sound(Decoder(p.te, [], false))
      && Decode(te, h, a + b, maxField) == Decode(p.te, [], p.rest + b, maxField).After(p.out)
      && Twice(te, h, a, b, maxField) == Twice(p.te, [], p.rest, b, maxField).After(p.out)
  {
    hide Next, SafeBuffer, Then;
    SafeEmpty();
    var p := Next(te, h, a, maxField);
    NextSound(te, h, a, maxField);
    NextMore(te, h, a, b, maxField);
    DecodeSound(p.te, [], p.rest, maxField);
    AfterThen(Decode(p.te, [], p.rest, maxField), p.out, b, maxField);
  }

  /** A second call without bytes is refused once the message has ended. */
  lemma NothingMore(te: nat, h: Octets, a: Octets, maxField: nat)
    requires a != [] && Sound(Decoder(te, h, false)) && Next(te, h, a, maxField).Stops?
    ensures Same(Decode(te, h, a + [], maxField), Twice(te, h, a, [], maxField)) <==> !Sensitive(te, h, a, [], maxField)
  {
    hide Next, SafeBuffer, Plain;
    assert a + [] == a;
    DecodeSound(te, h, a, maxField);
    var x := Decode(te, h, a, maxField);
    NextSound(te, h, a, maxField);
    if x.Took? { assert x.out + [] == x.out; }
  }

  /** Within the limits no split matters. */
  lemma WithinLimits(s: State, te: nat, h: Octets, a: Octets, b: Octets, maxField: nat)
    requires Sound(Decoder(te, h, false)) && Stands(s, Decoder(te, h, false), maxField)
    requires Run(s, a + b, maxField) != Beyond && b != []
    ensures !Sensitive(te, h, a, b, maxField)
  {
    hide Run, Emit, Decode, SafeBuffer, Plain, TrailerOk, NoTrailers, Sensitive;
    SplitExact(te, h, a, b, maxField);
    RunSplit(s, a, b, maxField);
    var mid := Run(s, a, maxField);
    if mid == Beyond { Absorbing(mid, b, maxField); }
    Follows(s, te, h, a + b, maxField);
    Follows(s, te, h, a, maxField);
    DecodeSound(te, h, a, maxField);
    var x := Decode(te, h, a, maxField);
    if x.Refused? {
      Absorbing(Bad, b, maxField);
    } else if x.d.done {
      DoneMore(mid, x.d, b, maxField);
    } else {
      Follows(mid, x.d.te, x.d.h, b, maxField);
      AgreeSame(Run(s, a + b, maxField), Decode(te, h, a + b, maxField), Twice(te, h, a, b, maxField), maxField);
    }
  }

  lemma DoneMore(s: State, d: Decoder, b: Octets, maxField: nat)
    requires Stands(s, d, maxField) && d.done && b != [] && s != Beyond
    ensures Run(s, b, maxField) == Beyond
  {
    Absorbing(Beyond, b[1..], maxField);
  }

  lemma AgreeSame(r: State, x: Outcome, y: Outcome, maxField: nat)
    requires r != Beyond && x.out == y.out && Agrees(r, x.out, x, maxField) && Agrees(r, y.out, y, maxField)
    ensures Same(x, y)
  {
    hide TrailerOk, NoTrailers;
  }
}
