/** The inputs that the byte machine takes to the end, and those that it refuses, as texts. */
module HttpChunkExact {
  import opened Bytes
  import opened HttpChunk
  import opened HttpChunkBlock
  import opened HttpChunkFormat

  // ---------------------------------------------------------------- texts

  /** A chunk as it stands in the input: its size line, of which SizeExact says what it announces, and its data. */
  datatype Piece = Piece(line: Octets, data: Octets)

  /** A line of at most 1024 bytes, without a zero byte, that ends at its first LF. */
  ghost predicate Complete(line: Octets) {
    && line != [] && line[|line| - 1] == Ascii("\n")[0] && Ascii("\n")[0] !in line[..|line| - 1]
    && 0 !in line && |line| <= 1024
  }

  ghost predicate Whole(p: Piece) { Complete(p.line) && p.data != [] && SizeOf(p.line) == Some(|p.data|) }

  /** The last chunk's line, which CRLF must end, and trailers up to the first blank line. */
  ghost predicate Section(line: Octets, trailers: Octets, maxField: nat) {
    var text := line + trailers;
    && Complete(line) && SizeOf(line) == Some(0) && EndsWith(line, Ascii("\r\n"))
    && 0 !in trailers && |text| <= maxField
    && EndsWith(text, Ascii("\r\n\r\n"))
    && forall k :: 4 <= k < |text| ==> !EndsWith(text[..k], Ascii("\r\n\r\n"))
  }

  /** What can stand neither for CRLF nor for its beginning. */
  ghost predicate NotLineEnd(s: Octets) {
    s != [] && (s[0] != Ascii("\r")[0] || (|s| > 1 && s[1] != Ascii("\n")[0]))
  }

  function PiecesText(ps: seq<Piece>): Octets {
    if ps == [] then [] else ps[0].line + ps[0].data + Ascii("\r\n") + PiecesText(ps[1..])
  }

  function PiecesData(ps: seq<Piece>): Octets {
    if ps == [] then [] else ps[0].data + PiecesData(ps[1..])
  }

  ghost predicate AllWhole(ps: seq<Piece>) { forall p :: p in ps ==> Whole(p) }

  lemma Marks()
    ensures Ascii("\r\n") == CRLF && Ascii("\r\n\r\n") == BLANK_LINE && Ascii("\r")[0] == CR && Ascii("\n")[0] == LF && NUL == 0
  {
  }

  // ---------------------------------------------------------------- runs over texts

  lemma LineTaken(line: Octets, maxField: nat)
    requires Complete(line)
    ensures Run(Line([]), line, maxField) == EndLine(line, maxField) && Emit(Line([]), line, maxField) == []
  {
    Marks();
    LineEndRun([], line, maxField);
    assert [] + line == line;
  }

  lemma PieceStarts(p: Piece, rest: Octets, maxField: nat)
    requires Whole(p)
    ensures Run(Line([]), p.line + p.data + rest, maxField) == Run(Data(0), rest, maxField)
    ensures Emit(Line([]), p.line + p.data + rest, maxField) == p.data + Emit(Data(0), rest, maxField)
  {
    assert p.line + p.data + rest == p.line + (p.data + rest);
    LineTaken(p.line, maxField);
    RunSplit(Line([]), p.line, p.data + rest, maxField);
    DataThen(|p.data|, p.data, rest, maxField);
  }

  lemma {:induction false} PiecesRun(ps: seq<Piece>, rest: Octets, maxField: nat)
    requires AllWhole(ps)
    ensures Run(Line([]), PiecesText(ps) + rest, maxField) == Run(Line([]), rest, maxField)
    ensures Emit(Line([]), PiecesText(ps) + rest, maxField) == PiecesData(ps) + Emit(Line([]), rest, maxField)
    decreases |ps|
  {
    hide Run, Emit, Whole, Ascii;
    Marks();
    if ps == [] { assert PiecesText(ps) + rest == rest; } else {
      var p, m := ps[0], PiecesText(ps[1..]) + rest;
      assert p in ps && forall q :: q in ps[1..] ==> q in ps;
      var tail := CRLF + m;
      assert PiecesText(ps) + rest == p.line + p.data + tail;
      assert tail[2..] == m && CRLF <= tail;
      PieceStarts(p, tail, maxField);
      EndOfData(tail, maxField);
      PiecesRun(ps[1..], rest, maxField);
      assert p.data + (PiecesData(ps[1..]) + Emit(Line([]), rest, maxField)) == PiecesData(ps) + Emit(Line([]), rest, maxField);
    }
  }

  lemma FirstBlank(text: Octets)
    requires |text| >= 4 && NoBlank(text[..|text| - 1])
    ensures EndsWith(text, BLANK_LINE) ==> FindBlank(text) == |text| - 4
  {
    if EndsWith(text, BLANK_LINE) {
      assert BlankAt(text, |text| - 4);
      var k := FindBlank(text);
      assert text == text[..|text| - 1] + text[|text| - 1..];
      if k < |text| - 4 { BlankGrows(text[..|text| - 1], text[|text| - 1..], k); }
    }
  }

  /** No blank line ends before the end of the text. */
  lemma NoBlankIs(text: Octets, n: nat)
    requires n <= |text|
    ensures NoBlank(text[..n]) <==> forall k :: 4 <= k <= n ==> !EndsWith(text[..k], BLANK_LINE)
  {
    forall k | 4 <= k <= n ensures EndsWith(text[..k], BLANK_LINE) <==> BlankAt(text[..n], k - 4) {
      assert text[..k][k - 4..] == text[k - 4..k] == text[..n][k - 4..k];
    }
    if !NoBlank(text[..n]) {
      var j: nat :| BlankAt(text[..n], j);
      assert EndsWith(text[..j + 4], BLANK_LINE);
    }
  }

  lemma SectionRun(line: Octets, trailers: Octets, maxField: nat)
    requires Section(line, trailers, maxField)
    ensures Run(Line([]), line + trailers, maxField) == Done(line + trailers)
    ensures Emit(Line([]), line + trailers, maxField) == []
  {
    hide Run, Emit, SizeOf, Ascii, EndsWith, NoBlank;
    Marks();
    var text := line + trailers;
    LineTaken(line, maxField);
    RunSplit(Line([]), line, trailers, maxField);
    LineNoBlank(line);
    assert trailers != [] by { if trailers == [] { assert text == line; BlankEnd(line); } }
    var n := |trailers| - 1;
    var a, z := trailers[..n], trailers[n];
    assert trailers == a + [z] && line + a == text[..|text| - 1] && line + a + [z] == text;
    NoBlankIs(text, |text| - 1);
    TrailerRunExact(line, a, maxField);
    RunSplit(Trailer(line), a, [z], maxField);
    LastByte(line + a, z, maxField);
  }

  lemma LastByte(h: Octets, z: Byte, maxField: nat)
    requires z != NUL && |h| + 1 <= maxField && EndsWith(h + [z], BLANK_LINE)
    ensures Run(Trailer(h), [z], maxField) == Done(h + [z]) && Emit(Trailer(h), [z], maxField) == []
  {
    hide EndsWith;
    assert [z][1..] == [];
    assert Run(Done(h + [z]), [], maxField) == Done(h + [z]);
  }

  lemma LineNoBlank(line: Octets)
    requires Complete(line) && SizeOf(line) == Some(0) && EndsWith(line, CRLF)
    ensures NoBlank(line) && TrailerOk(line)
  {
    hide SizeOf;
    Marks();
    OneLine(line);
  }

  lemma BlankEnd(line: Octets)
    requires EndsWith(line, BLANK_LINE)
    ensures !NoBlank(line)
  {
    assert BlankAt(line, |line| - 4);
  }

  // ---------------------------------------------------------------- the end

  /** The text of an input that the machine takes to the end. */
  lemma {:induction false} DoneText(m: Octets, maxField: nat) returns (ps: seq<Piece>, line: Octets, trailers: Octets)
    requires Run(Line([]), m, maxField).Done?
    ensures AllWhole(ps) && Section(line, trailers, maxField) && m == PiecesText(ps) + (line + trailers)
    decreases |m|
  {
    hide Run, Emit, SizeOf, Ascii, EndsWith, NoBlank, Find, FindBlank;
    Marks();
    ps, line, trailers := [], [], [];
    var l, rest := FirstLine(m, maxField);
    LineTaken(l, maxField);
    RunSplit(Line([]), l, rest, maxField);
    var s := EndLine(l, maxField);
    if s.Bad? || s.Beyond? { Absorbing(s, rest, maxField); }
    if s.Data? {
      var data, tail := DataBehind(s.left, rest, maxField);
      EndOfData(tail, maxField);
      RunOne(tail, maxField);
      ps, line, trailers := DoneText(tail[2..], maxField);
      var p := Piece(l, data);
      assert Whole(p);
      Prepend(p, ps, tail, line + trailers);
      ps := [p] + ps;
    } else {
      LineNoBlank(l);
      TrailerRun(l, rest, maxField);
      line, trailers := l, rest;
      SectionEnds(line, trailers, maxField);
      assert PiecesText(ps) + (line + trailers) == m;
    }
  }

  lemma RunOne(tail: Octets, maxField: nat)
    requires tail != [] && (Run(Data(0), tail, maxField).Done?)
    ensures |tail| >= 2 && CRLF <= tail
  {
    hide Run;
    EndOfData(tail, maxField);
  }

  lemma SectionEnds(line: Octets, trailers: Octets, maxField: nat)
    requires Complete(line) && SizeOf(line) == Some(0) && EndsWith(line, CRLF)
    requires var text := line + trailers; NUL !in trailers && |text| <= maxField && |text| >= 4 && FindBlank(text) == |text| - 4
    ensures Section(line, trailers, maxField)
  {
    hide SizeOf, Ascii, EndsWith, FindBlank;
    Marks();
    var text := line + trailers;
    var n := |text|;
    assert BlankAt(text, n - 4);
    assert text[n - 4..] == text[n - 4..n];
    BlankTail(text);
    forall k | 4 <= k < n ensures !EndsWith(text[..k], BLANK_LINE) {
      assert !BlankAt(text, k - 4);
      BlankTail(text[..k]);
      assert text[..k][k - 4..] == text[k - 4..k];
    }
  }

  lemma BlankTail(s: Octets)
    requires |s| >= 4
    ensures EndsWith(s, BLANK_LINE) <==> s[|s| - 4..] == BLANK_LINE
  {
  }

  lemma Prepend(p: Piece, ps: seq<Piece>, tail: Octets, end: Octets)
    requires CRLF <= tail && |tail| >= 2 && tail[2..] == PiecesText(ps) + end
    ensures p.line + (p.data + tail) == PiecesText([p] + ps) + end
    ensures Whole(p) && AllWhole(ps) ==> AllWhole([p] + ps)
  {
    hide Ascii, Whole;
    Marks();
    assert ([p] + ps)[1..] == ps;
    assert tail == CRLF + tail[2..];
    assert PiecesText([p] + ps) == p.line + p.data + CRLF + PiecesText(ps);
  }

  /** The first line of an input that does not stay open and keeps the limits. */
  lemma FirstLine(m: Octets, maxField: nat) returns (line: Octets, rest: Octets)
    requires var r := Run(Line([]), m, maxField); r.Done? || r.Bad?
    ensures Complete(line) && m == line + rest
  {
    Marks();
    line, rest := [], [];
    if LF !in m {
      LineRun([], m, maxField);
    } else {
      var k := Find(m, LF);
      line, rest := m[..k + 1], m[k + 1..];
      assert m == line + rest && line[..|line| - 1] == m[..k];
      FindAbsent(m[..k], LF);
      LineEndRun([], line, maxField);
      RunSplit(Line([]), line, rest, maxField);
      assert [] + line == line;
      if NUL in line || |line| > MAX_LINE { Absorbing(Beyond, rest, maxField); }
    }
  }

  /** Its data and what stands behind them. */
  lemma DataBehind(n: nat, m: Octets, maxField: nat) returns (data: Octets, tail: Octets)
    requires var r := Run(Data(n), m, maxField); r.Done? || r.Bad?
    ensures |data| == n && m == data + tail && tail != []
    ensures Run(Data(n), m, maxField) == Run(Data(0), tail, maxField)
  {
    hide Run, Emit;
    data, tail := [], [];
    if |m| <= n {
      DataRun(n, m, maxField);
    } else {
      data, tail := m[..n], m[n..];
      assert m == data + tail;
      DataThen(n, data, tail, maxField);
    }
  }

  /** Main result.  The machine is done right behind the last byte of m if and only if m is a sequence of chunks
      and a last section, and it has then passed on the chunks' data. */
  lemma DoneExact(m: Octets, maxField: nat)
    ensures Run(Line([]), m, maxField).Done? <==>
      exists ps, line, trailers :: AllWhole(ps) && Section(line, trailers, maxField) && m == PiecesText(ps) + (line + trailers)
    ensures forall ps, line, trailers {:trigger AllWhole(ps), Section(line, trailers, maxField)} ::
      AllWhole(ps) && Section(line, trailers, maxField) && m == PiecesText(ps) + (line + trailers) ==>
        Emit(Line([]), m, maxField) == PiecesData(ps)
  {
    hide Run, Emit, Section, AllWhole;
    if Run(Line([]), m, maxField).Done? {
      var ps, line, trailers := DoneText(m, maxField);
    }
    forall ps, line, trailers {:trigger AllWhole(ps), Section(line, trailers, maxField)}
      | AllWhole(ps) && Section(line, trailers, maxField) && m == PiecesText(ps) + (line + trailers)
      ensures Run(Line([]), m, maxField).Done? && Emit(Line([]), m, maxField) == PiecesData(ps)
    {
      PiecesRun(ps, line + trailers, maxField);
      SectionRun(line, trailers, maxField);
    }
  }

  // ---------------------------------------------------------------- refusal

  /** Behind whole chunks a line that announces nothing, or data behind which CRLF cannot follow. */
  ghost predicate Malformed(ps: seq<Piece>, line: Octets, data: Octets, rest: Octets) {
    && AllWhole(ps) && Complete(line)
    && match SizeOf(line) {
         case None => data == []
         case Some(n) => n == |data| && n > 0 && NotLineEnd(rest)
       }
  }

  lemma {:induction false} BadText(m: Octets, maxField: nat)
    returns (ps: seq<Piece>, line: Octets, data: Octets, rest: Octets)
    requires Run(Line([]), m, maxField).Bad?
    ensures Malformed(ps, line, data, rest) && m == PiecesText(ps) + (line + (data + rest))
    decreases |m|
  {
    hide Run, Emit, SizeOf, Ascii, EndsWith, NoBlank, Find, FindBlank;
    Marks();
    ps, line, data, rest := [], [], [], [];
    var l, tail := FirstLine(m, maxField);
    LineTaken(l, maxField);
    RunSplit(Line([]), l, tail, maxField);
    var s := EndLine(l, maxField);
    if s.Beyond? { Absorbing(s, tail, maxField); }
    if s.Data? {
      line := l;
      data, rest := DataBehind(s.left, tail, maxField);
      EndOfData(rest, maxField);
      if |rest| >= 2 && CRLF <= rest {
        var p, end := Piece(l, data), rest;
        assert Whole(p);
        ps, line, data, rest := BadText(end[2..], maxField);
        Prepend(p, ps, end, line + (data + rest));
        ps := [p] + ps;
      } else {
        assert PiecesText(ps) + (line + (data + rest)) == m;
      }
    } else if s.Bad? {
      line, rest := l, tail;
      assert PiecesText(ps) + (line + (data + rest)) == m;
    } else {
      LineNoBlank(l);
      TrailerRun(l, tail, maxField);
    }
  }

  /** Main result.  The machine refuses m if and only if, behind whole chunks, a line announces no size or the
      data of a chunk are followed by something else than CRLF. */
  lemma BadExact(m: Octets, maxField: nat)
    ensures Run(Line([]), m, maxField).Bad? <==>
      exists ps, line, data, rest :: Malformed(ps, line, data, rest) && m == PiecesText(ps) + (line + (data + rest))
  {
    hide Run, Emit, Malformed;
    if Run(Line([]), m, maxField).Bad? {
      var ps, line, data, rest := BadText(m, maxField);
    }
    forall ps, line, data, rest | Malformed(ps, line, data, rest) && m == PiecesText(ps) + (line + (data + rest))
      ensures Run(Line([]), m, maxField).Bad?
    {
      BadRun(ps, line, data, rest, maxField);
    }
  }

  lemma BadRun(ps: seq<Piece>, line: Octets, data: Octets, rest: Octets, maxField: nat)
    requires Malformed(ps, line, data, rest)
    ensures Run(Line([]), PiecesText(ps) + (line + (data + rest)), maxField).Bad?
  {
    hide Run, Emit, AllWhole, Ascii, SizeOf;
    Marks();
    PiecesRun(ps, line + (data + rest), maxField);
    if SizeOf(line) == None {
      LineTaken(line, maxField);
      RunSplit(Line([]), line, data + rest, maxField);
      Absorbing(Bad, data + rest, maxField);
    } else {
      assert line + (data + rest) == line + data + rest;
      PieceStarts(Piece(line, data), rest, maxField);
      EndOfData(rest, maxField);
    }
  }
}
