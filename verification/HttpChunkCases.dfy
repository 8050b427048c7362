/** Inputs on which two calls of the chunked decoder differ from one, one of each kind. */
module HttpChunkCases {
  import opened Bytes
  import opened HttpChunk
  import opened HttpChunkBlock
  import opened HttpChunkSplit

  /** The last chunk's line, complete and with nothing behind it. */
  ghost predicate LastLine(g: Octets) { |g| >= 3 && Find(g, LF) == |g| - 1 && SizeOf(g) == Some(0) }

  lemma LineSafe(g: Octets)
    requires LastLine(g)
    ensures SafeBuffer(g)
  {
    hide SizeOf;
  }

  /** The line comes as a block of its own. */
  lemma LineAlone(g: Octets, maxField: nat)
    requires LastLine(g) && |g| <= maxField
    ensures SafeBuffer([]) && SafeBuffer(g) && Decode(0, [], g, maxField) == Wait(0, g, [])
  {
    hide SizeOf, EndSection, Ended, FindLine, Find, Decode, LinePart, FindBlank, Cut, SafeBuffer;
    SafeEmpty();
    LineDecode([], g, maxField);
    LineSafe(g);
    FindAbsent(g, LF);
    PartIs(g);
    FindInBlock(g);
    var l := Found(g, [], |g|, g);
    assert g[|g|..] == [] && [] + g == g;
    NotEnded(g);
    EndIs([], l, maxField);
  }

  /** A line is no blank line. */
  lemma NotEnded(g: Octets)
    requires g != [] && LF !in g[..|g| - 1]
    ensures !Ended(g)
  {
    var t := CString(g);
    var k := FindBlank(t);
    if k < |t| { BlankHasLf(t, k); }
  }

  /** The line and all that follows come in one block. */
  lemma LineAndMore(g: Octets, b: Octets, maxField: nat)
    requires LastLine(g)
    ensures SafeBuffer([]) && Decode(0, [], g + b, maxField) == EndSection([], Found(g + b, b, |g|, g + b), maxField)
  {
    hide SizeOf, EndSection;
    SafeEmpty();
    FindAbsent(g, LF);
    PartMore(g, b);
    SizeOfLine(g, b);
    LineDecode([], g + b, maxField);
    assert (g + b)[|g|..] == b;
  }

  /** The line is found again behind a first block that was just the line. */
  lemma LineThenMore(g: Octets, b: Octets, maxField: nat)
    requires LastLine(g) && NUL !in g && |g| <= maxField && b != []
    ensures SafeBuffer(g) && Decode(0, g, b, maxField) == EndSection(g, Found(g, [], |g|, b), maxField)
  {
    hide SizeOf, EndSection;
    LineAlone(g, maxField);
    FindAbsent(g, NUL);
    FindAbsent(g, LF);
    assert CString(g) == g && g[|g|..] == [];
    AgainVisible(g, b, maxField);
  }

  lemma LineTwice(g: Octets, b: Octets, maxField: nat)
    requires LastLine(g) && |g| <= maxField
    ensures Sound(Decoder(0, [], false)) && SafeBuffer(g)
    ensures Twice(0, [], g, b, maxField) == Decode(0, g, b, maxField)
  {
    hide Decode;
    LineAlone(g, maxField);
    AfterNothing(Decode(0, g, b, maxField));
  }

  lemma ZeroLine(g: Octets)
    requires |g| >= 3 && g[0] == ZERO && (g[1] == CR || g[1] == SEMICOLON) && g[|g| - 1] == LF && LF !in g[..|g| - 1]
    ensures LastLine(g)
  {
    FindIs(g, LF, |g| - 1);
    assert g[1..][0] == g[1];
    assert ReadHex(g[1..], 0, 1) == HexRun(0, 1);
  }

  const ZERO_LINE: Octets := [ZERO, CR, LF]

  /** Bytes behind the end: "0 CR LF CR LF 00" is refused in one block, and accepted when it is cut behind the
      size line. */
  lemma ExcessSplit()
    ensures Sound(Decoder(0, [], false))
    ensures Decode(0, [], ZERO_LINE + [CR, LF, NUL], 8192) == Refused([])
    ensures Twice(0, [], ZERO_LINE, [CR, LF, NUL], 8192) == Took(Decoder(0, ZERO_LINE + [CR, LF, NUL], true), [], false)
  {
    hide Decode, LastLine, Ended, GoesOn;
    var g, b: Octets := ZERO_LINE, [CR, LF, NUL];
    assert g + b == LAST_CHUNK + [NUL];
    ZeroLine(g);
    LineTwice(g, b, 8192);
    LineAndMore(g, b, 8192);
    LineThenMore(g, b, 8192);
    EndIs([], Found(g + b, b, |g|, g + b), 8192);
    EndIs(g, Found(g, [], |g|, b), 8192);
    ZeroBehind(g + b);
  }

  lemma ZeroBehind(t: Octets)
    requires t == LAST_CHUNK + [NUL]
    ensures Ended(t) && !GoesOn(t)
  {
    FindIs(t, NUL, 5);
    assert CString(t) == LAST_CHUNK && FindBlank(LAST_CHUNK) == 1;
  }

  /** A size line ended by LF alone: "0 ; LF CR LF" is the end of the message in one block, and not yet the end
      when it is cut behind the line. */
  lemma BareLfSplit(g: Octets)
    requires g == [ZERO, SEMICOLON, LF]
    ensures Sound(Decoder(0, [], false))
    ensures Decode(0, [], g + CRLF, 8192) == Took(Decoder(0, [], true), [], false)
    ensures Twice(0, [], g, CRLF, 8192) == Wait(0, g + CRLF, [])
  {
    hide Decode, LastLine, Ended;
    ZeroLine(g);
    LineTwice(g, CRLF, 8192);
    LineAndMore(g, CRLF, 8192);
    LineThenMore(g, CRLF, 8192);
    EndIs([], Found(g + CRLF, CRLF, |g|, g + CRLF), 8192);
    EndIs(g, Found(g, [], |g|, CRLF), 8192);
    NoBlankThere(g + CRLF);
  }

  lemma NoBlankThere(t: Octets)
    requires t == [ZERO, SEMICOLON, LF, CR, LF]
    ensures !Ended(t)
  {
    FindAbsent(t, NUL);
    assert CString(t) == t && FindBlank(t) == 5;
  }

  /** A zero byte in the line: the message has ended in one block, and the second of two blocks is taken for
      more of the line. */
  lemma ZeroByteSplit(g: Octets)
    requires g == [ZERO, SEMICOLON, NUL, CR, LF]
    ensures Sound(Decoder(0, [], false))
    ensures Decode(0, [], g + CRLF, 8192) == Took(Decoder(0, [], true), [], false)
    ensures Twice(0, [], g, CRLF, 8192) == Wait(0, g + CRLF, [])
  {
    hide Decode, LastLine;
    ZeroLine(g);
    LineTwice(g, CRLF, 8192);
    LineAndMore(g, CRLF, 8192);
    EndIs([], Found(g + CRLF, CRLF, |g|, g + CRLF), 8192);
    FindIs(g, NUL, 2);
    FindIs(CRLF, LF, 1);
    ZeroByteAgain(g, 8192);
  }

  lemma ZeroByteAgain(g: Octets, maxField: nat)
    requires LastLine(g) && |g| < 1000 && LF !in CString(g) && SafeBuffer(g)
    ensures Decode(0, g, CRLF, maxField) == Wait(0, g + CRLF, [])
  {
    hide Decode, SafeBuffer, Excess, Section, GoesOn;
    FindAbsent(g, LF);
    FindIs(CRLF, LF, 1);
    AgainHidden(g, g, CRLF, maxField);
    assert CRLF[..2] == CRLF && CRLF[2..] == [];
    EndIs(g + CRLF, Found(g + CRLF, [], 0, []), maxField);
    HiddenMore(g, CRLF);
    assert (g + CRLF) + [] == g + CRLF;
    HiddenSection(g + CRLF, [], maxField);
  }

  /** Trailers over the limit end the message. */
  lemma OverLimit(g: Octets, b: Octets, maxField: nat)
    requires LastLine(g) && !(CRLF <= b) && maxField < |g + b|
    ensures SafeBuffer([]) && Decode(0, [], g + b, maxField) == Took(Decoder(0, Cut((g + b)[..maxField]), true), [], true)
  {
    hide Decode, LastLine, Cut, GoesOn;
    LineAndMore(g, b, maxField);
    EndIs([], Found(g + b, b, |g|, g + b), maxField);
    assert [] + (g + b)[..maxField] == (g + b)[..maxField];
  }

  /** Trailers over the limit of 5 bytes end the message; more of them are ignored in the same block, and
      refused in the next one. */
  lemma TrailersSplit(b: Octets)
    requires b == [65, 58, 98, CR, LF]
    ensures Sound(Decoder(0, [], false))
    ensures Decode(0, [], ZERO_LINE + b + CRLF, 5) == Took(Decoder(0, LAST_CHUNK, true), [], true)
    ensures Twice(0, [], ZERO_LINE + b, CRLF, 5) == Refused([])
  {
    hide Decode, LastLine, Cut;
    ZeroLine(ZERO_LINE);
    CrlfAhead(b);
    CrlfAhead(b + CRLF);
    OverLimit(ZERO_LINE, b, 5);
    OverLimit(ZERO_LINE, b + CRLF, 5);
    assert ZERO_LINE + (b + CRLF) == ZERO_LINE + b + CRLF;
    var cut: Octets := [ZERO, CR, LF, 65, 58];
    assert (ZERO_LINE + b)[..5] == cut && (ZERO_LINE + b + CRLF)[..5] == cut;
    CutFive(cut);
  }

  lemma CutFive(t: Octets)
    requires t == [ZERO, CR, LF, 65, 58]
    ensures Cut(t) == LAST_CHUNK
  {
    FindAbsent(t, NUL);
    assert CString(t) == t && FindLast(t, LF) == 2;
  }

  /** A size line of 1204 bytes is taken in one block, and refused when its first 1100 bytes come first. */
  lemma LongLineSplit(line: Octets, pad: Octets)
    requires |pad| == 1200 && (forall c :: c in pad ==> c == 97) && line == [49, SEMICOLON] + pad + CRLF
    ensures Sound(Decoder(0, [], false)) && Decode(0, [], line, 8192) == Wait(3, [], [])
    ensures Twice(0, [], line[..1100], line[1100..], 8192) == Refused([])
  {
    hide Decode, SafeBuffer;
    SafeEmpty();
    var n := |line|;
    assert line[..n - 1] == [49, SEMICOLON] + pad + [CR];
    FindIs(line, LF, n - 1);
    FindAbsent(line, LF);
    assert forall k :: 0 <= k < 1100 ==> line[k] == line[..n - 1][k];
    FindAbsent(line[..1100], LF);
    assert line[1..][0] == SEMICOLON && ReadHex(line[1..], 1, 1) == HexRun(1, 1);
    LineDecode([], line, 8192);
    LineDecode([], line[..1100], 8192);
    assert line[n..] == [];
    Nothing(3);
  }

  lemma Nothing(te: nat)
    requires SafeBuffer([])
    ensures Decode(te, [], [], 8192) == Wait(te, [], [])
  {
  }

  /** A malformed size line, as "1 00 CR LF", is outside the format but refused under every cut. */
  lemma MalformedLine(a: Octets, b: Octets, maxField: nat)
    requires LF in a + b && SizeOf(a + b) == None
    ensures Sound(Decoder(0, [], false)) && Decode(0, [], a + b, maxField) == Refused([])
    ensures a != [] && b != [] ==> !Sensitive(0, [], a, b, maxField) && Twice(0, [], a, b, maxField) == Refused([])
  {
    hide Decode, SizeOf, SafeBuffer, EndSection, Twice, Sensitive, LineSensitive;
    SafeEmpty();
    LineDecode([], a + b, maxField);
    if a != [] && b != [] {
      MalformedCut(a, b, maxField);
      SplitExact(0, [], a, b, maxField);
    }
  }

  lemma MalformedCut(a: Octets, b: Octets, maxField: nat)
    requires a != [] && b != [] && LF in a + b && SizeOf(a + b) == None && SafeBuffer([])
    ensures !Sensitive(0, [], a, b, maxField)
  {
    hide SizeOf, SafeBuffer, EndSection, EndSensitive, Excess;
    PartMore(a, b);
    if LF in a {
      SizeOfLine(a, b);
      Sizes([], a);
    } else {
      FindWhole(a, b);
    }
  }
}
