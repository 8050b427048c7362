/** Chunked transfer coding of responses (http_chunk.c): the encoder, and the decoder for bodies
    received from backends in arbitrary pieces.

    Here are the parts below the decoder: size lines, a byte-at-a-time machine for input within the limits,
    and the encoder's bytes.  The decoder itself is in HttpChunkBlock as a function of one block, and in
    HttpChunkResponse as the code's methods. */
module HttpChunk {
  import opened Bytes

  // ---------------------------------------------------------------- size lines

  /** Guard against overflow of the 64-bit te_chunked: (off_t)(1uLL<<(8*sizeof(off_t)-5))-1-2. */
  const SIZE_GUARD := 0x800_0000_0000_0000 - 3
  const OFF_MAX := 0x7FFF_FFFF_FFFF_FFFF
  const MAX_LINE := 1024

  datatype HexRun = Overflow | HexRun(value: nat, digits: nat)

  /** The leading hexadecimal digits of s, continuing a number acc that already has n digits. */
  function ReadHex(s: Octets, acc: nat, n: nat): HexRun {
    if s == [] || HexValue(s[0]) == None then HexRun(acc, n)
    else if acc > SIZE_GUARD then Overflow
    else ReadHex(s[1..], 16 * acc + HexValue(s[0]).value, n + 1)
  }

  predicate IsBlank(c: Byte) { c == SP || c == TAB }

  /** The first byte of s that is neither space nor tab. */
  function AfterBlanks(s: Octets): (c: Byte) {
    if s != [] && IsBlank(s[0]) then AfterBlanks(s[1..]) else At(s, 0)
  }

  /** What a complete size line announces: None when it is refused. */
  function SizeOf(line: Octets): (r: Option<nat>)
    ensures r.Some? ==> r.value + 2 <= OFF_MAX
  {
    ReadHexBounds(line, 0, 0);
    match ReadHex(line, 0, 0)
    case Overflow => None
    case HexRun(v, n) =>
      if n == 0 then None
      else
        var c := AfterBlanks(line[n..]);
        if c == CR || c == SEMICOLON then Some(v) else None
  }

  lemma ReadHexBounds(s: Octets, acc: nat, n: nat)
    ensures var r := ReadHex(s, acc, n);
            r.HexRun? ==> n <= r.digits <= n + |s| && (acc <= 16 * SIZE_GUARD + 15 ==> r.value <= 16 * SIZE_GUARD + 15)
  {
  }

  // ---------------------------------------------------------------- the byte machine

  /** Decoder states after some prefix of the input.
      Bad: the input was malformed and must be refused.
      Beyond: the input left the format or a limit (a line over 1024 bytes, trailers over the field
      limit, a zero byte in a line, bytes after the end); the machine promises nothing from there. */
  datatype State =
    | Line(h: Octets)
    | Data(left: nat)
    | ExpectLf
    | Trailer(h: Octets)
    | Done(h: Octets)
    | Bad
    | Beyond

  const BLANK_LINE: Octets := [CR, LF, CR, LF]

  function EndLine(line: Octets, maxField: nat): State {
    match SizeOf(line)
    case None => Bad
    case Some(v) =>
      if v > 0 then Data(v)
      else if EndsWith(line, CRLF) && |line| <= maxField then Trailer(line)
      else Beyond
  }

  function Step(s: State, c: Byte, maxField: nat): State {
    match s
    case Line(h) =>
      if c == NUL || |h| + 1 > MAX_LINE then Beyond
      else if c == LF then EndLine(h + [c], maxField)
      else if |h| + 1 == MAX_LINE then Beyond
      else Line(h + [c])
    case Data(n) => if n > 0 then Data(n - 1) else if c == CR then ExpectLf else Bad
    case ExpectLf => if c == LF then Line([]) else Bad
    case Trailer(h) =>
      if c == NUL || |h| + 1 > maxField then Beyond
      else if EndsWith(h + [c], BLANK_LINE) then Done(h + [c])
      else Trailer(h + [c])
    case Done(_) => Beyond
    case Bad => Bad
    case Beyond => Beyond
  }

  function Output(s: State, c: Byte): Octets {
    if s.Data? && s.left > 0 then [c] else []
  }

  function Run(s: State, m: Octets, maxField: nat): State
    decreases |m|
  {
    if m == [] then s else Run(Step(s, m[0], maxField), m[1..], maxField)
  }

  function Emit(s: State, m: Octets, maxField: nat): Octets
    decreases |m|
  {
    if m == [] then [] else Output(s, m[0]) + Emit(Step(s, m[0], maxField), m[1..], maxField)
  }

  lemma {:induction false} RunSplit(s: State, a: Octets, b: Octets, maxField: nat)
    ensures Run(s, a + b, maxField) == Run(Run(s, a, maxField), b, maxField)
    ensures Emit(s, a + b, maxField) == Emit(s, a, maxField) + Emit(Run(s, a, maxField), b, maxField)
    decreases |a|
  {
    if a == [] {
      assert a + b == b;
    } else {
      assert (a + b)[0] == a[0] && (a + b)[1..] == a[1..] + b;
      RunSplit(Step(s, a[0], maxField), a[1..], b, maxField);
    }
  }

  lemma {:induction false} Absorbing(s: State, m: Octets, maxField: nat)
    requires s.Bad? || s.Beyond?
    ensures Run(s, m, maxField) == s && Emit(s, m, maxField) == []
  {
    if m != [] { Absorbing(s, m[1..], maxField); }
  }

  // ---------------------------------------------------------------- the machine on blocks

  lemma {:induction false} LineRun(h: Octets, m: Octets, maxField: nat)
    requires LF !in m && |h| < MAX_LINE
    ensures Emit(Line(h), m, maxField) == []
    ensures Run(Line(h), m, maxField) ==
            if NUL in m || |h + m| >= MAX_LINE then (if m == [] then Line(h) else Beyond) else Line(h + m)
    decreases |m|
  {
    if m == [] { assert h + m == h; } else {
      var h' := h + [m[0]];
      assert h + m == h' + m[1..];
      if m[0] == NUL || |h'| == MAX_LINE { Absorbing(Beyond, m[1..], maxField); } else { LineRun(h', m[1..], maxField); }
    }
  }

  /** A complete size line. */
  lemma LineEndRun(h: Octets, m: Octets, maxField: nat)
    requires m != [] && LF !in m[..|m| - 1] && m[|m| - 1] == LF && |h| < MAX_LINE
    ensures Emit(Line(h), m, maxField) == []
    ensures Run(Line(h), m, maxField) == if NUL in m || |h + m| > MAX_LINE then Beyond else EndLine(h + m, maxField)
  {
    var a, z := m[..|m| - 1], m[|m| - 1..];
    assert a + z == m && (h + a) + z == h + m;
    LineRun(h, a, maxField);
    RunSplit(Line(h), a, z, maxField);
    assert z == [LF] && (NUL in m <==> NUL in a);
    var mid := Run(Line(h), a, maxField);
    assert z[1..] == [];
    assert Run(mid, z, maxField) == Step(mid, LF, maxField);
    assert Emit(mid, z, maxField) == Output(mid, LF);
  }

  lemma {:induction false} DataRun(n: nat, m: Octets, maxField: nat)
    requires |m| <= n
    ensures Run(Data(n), m, maxField) == Data(n - |m|) && Emit(Data(n), m, maxField) == m
    decreases |m|
  {
    if m != [] { DataRun(n - 1, m[1..], maxField); }
  }

  predicate BlankAt(s: Octets, k: nat) { k + 4 <= |s| && s[k..k + 4] == BLANK_LINE }

  /** strstr for CR LF CR LF as an offset, or |s|. */
  function FindBlank(s: Octets): (k: nat)
    ensures k == |s| || BlankAt(s, k)
    ensures forall j: nat :: j < k ==> !BlankAt(s, j)
  {
    if |s| < 4 then |s|
    else if BlankAt(s, 0) then 0
    else
      var k := FindBlank(s[1..]);
      BlankLater(s);
      k + 1
  }

  lemma BlankLater(s: Octets)
    requires s != []
    ensures forall j: nat :: 0 < j ==> (BlankAt(s, j) <==> BlankAt(s[1..], j - 1))
  {
    forall j: nat | 0 < j ensures BlankAt(s, j) <==> BlankAt(s[1..], j - 1) {
      if j + 4 <= |s| { assert s[1..][j - 1..j + 3] == s[j..j + 4]; }
    }
  }

  ghost predicate NoBlank(s: Octets) { forall k: nat :: !BlankAt(s, k) }

  lemma BlankGrows(h: Octets, m: Octets, k: nat)
    requires k + 4 <= |h|
    ensures BlankAt(h + m, k) <==> BlankAt(h, k)
  {
    assert (h + m)[k..k + 4] == h[k..k + 4];
  }

  /** Trailers stay open until the first blank line; nothing may follow it in the same block. */
  lemma {:induction false} TrailerRun(h: Octets, m: Octets, maxField: nat)
    requires NoBlank(h)
    ensures Emit(Trailer(h), m, maxField) == []
    ensures var r := Run(Trailer(h), m, maxField);
            || r == Beyond
            || (r == Trailer(h + m) && NUL !in m && NoBlank(h + m) && (m == [] || |h + m| <= maxField))
            || (r == Done(h + m) && NUL !in m && m != [] && |h + m| <= maxField && |h + m| >= 4 && FindBlank(h + m) == |h + m| - 4)
    decreases |m|
  {
    if m == [] { assert h + m == h; } else {
      var c, rest := m[0], m[1..];
      var g := h + [c];
      assert h + m == g + rest;
      forall k: nat | BlankAt(g, k) ensures k == |g| - 4 {
        if k + 4 <= |h| { BlankGrows(h, [c], k); }
      }
      if c == NUL || |g| > maxField {
        Absorbing(Beyond, rest, maxField);
      } else if EndsWith(g, BLANK_LINE) {
        assert BlankAt(g, |g| - 4);
        if rest == [] { assert g + rest == g; } else { Absorbing(Beyond, rest[1..], maxField); }
      } else {
        assert NoBlank(g);
        TrailerRun(g, rest, maxField);
      }
    }
  }

  // ---------------------------------------------------------------- size lines inside a block

  lemma {:induction false} ReadHexStops(s: Octets, t: Octets, acc: nat, n: nat)
    requires LF in s
    ensures ReadHex(s + t, acc, n) == ReadHex(s, acc, n)
    ensures var r := ReadHex(s, acc, n); r.HexRun? ==> n <= r.digits < n + |s| && LF in s[r.digits - n..]
    decreases |s|
  {
    if HexValue(s[0]).Some? && acc <= SIZE_GUARD {
      assert s == [s[0]] + s[1..];
      assert (s + t)[1..] == s[1..] + t;
      ReadHexStops(s[1..], t, 16 * acc + HexValue(s[0]).value, n + 1);
    }
  }

  lemma {:induction false} AfterBlanksStops(s: Octets, t: Octets)
    requires LF in s
    ensures AfterBlanks(s + t) == AfterBlanks(s)
    decreases |s|
  {
    if IsBlank(s[0]) {
      assert s == [s[0]] + s[1..];
      assert (s + t)[1..] == s[1..] + t;
      AfterBlanksStops(s[1..], t);
    }
  }

  /** What follows a line does not change its size. */
  lemma SizeOfLine(line: Octets, rest: Octets)
    requires LF in line
    ensures SizeOf(line + rest) == SizeOf(line)
  {
    ReadHexStops(line, rest, 0, 0);
    var r := ReadHex(line, 0, 0);
    if r.HexRun? {
      assert (line + rest)[r.digits..] == line[r.digits..] + rest;
      AfterBlanksStops(line[r.digits..], rest);
    }
  }

  /** The two loops over a size line: hexadecimal digits, then blanks. */
  method ParseSize(text: Octets) returns (size: Option<nat>)
    ensures size == SizeOf(text)
  {
    var i, te: nat := 0, 0;
    assert text[0..] == text;
    while HexValue(At(text, i)).Some?
      invariant i <= |text| && te <= 16 * SIZE_GUARD + 15
      invariant ReadHex(text, 0, 0) == ReadHex(text[i..], te, i)
      decreases |text| - i
    {
      if te > SIZE_GUARD { return None; }
      te := 16 * te + HexValue(text[i]).value;
      i := i + 1;
    }
    if i == 0 { return None; }
    ghost var n := i;
    while IsBlank(At(text, i))
      invariant n <= i <= |text|
      invariant AfterBlanks(text[n..]) == AfterBlanks(text[i..])
      decreases |text| - i
    {
      i := i + 1;
    }
    if At(text, i) != CR && At(text, i) != SEMICOLON { return None; }
    return Some(te);
  }

  // ---------------------------------------------------------------- the encoder's bytes

  const ZERO: Byte := 48

  /** "0123456789abcdef"[d] */
  function HexChar(d: nat): (c: Byte)
    requires d < 16
    ensures HexValue(c) == Some(d)
  {
    if d < 10 then 48 + d else 87 + d
  }

  lemma HexChars(d: nat)
    requires d < 16
    ensures HexChar(d) == Ascii("0123456789abcdef")[d] && [ZERO] == Ascii("0")
  {
    HexTable(d);
  }

  function HexDigits(n: nat): (s: Octets)
    ensures s != []
  {
    (if n < 16 then [] else HexDigits(n / 16)) + [HexChar(n % 16)]
  }

  /** A chunk as the encoder writes it; an empty memory writes nothing. */
  function EncodeChunk(mem: Octets): Octets {
    if mem == [] then [] else HexDigits(|mem|) + CRLF + mem + CRLF
  }

  const LAST_CHUNK: Octets := [ZERO, CR, LF, CR, LF]

  function Pow16(k: nat): nat { if k == 0 then 1 else 16 * Pow16(k - 1) }

  lemma Pow16Is64Bits()
    ensures Pow16(16) == 0x1_0000_0000_0000_0000
  {
    assert Pow16(4) == 0x1_0000;
    assert Pow16(8) == 0x1_0000_0000;
    assert Pow16(12) == 0x1_0000_0000_0000;
  }

  lemma HexDigitsStep(n: nat, tail: Octets)
    ensures HexDigits(n) + tail == (if n < 16 then [] else HexDigits(n / 16)) + ([HexChar(n % 16)] + tail)
  {
  }

  /** The chunk-size line, written backwards into a 24-byte buffer. */
  method SizeLine(n: nat) returns (line: Octets)
    requires n < 0x1_0000_0000_0000_0000
    ensures line == HexDigits(n) + CRLF
  {
    hide HexDigits;
    var buf := new Byte[24];
    buf[23], buf[22] := LF, CR;
    assert buf[22..] == CRLF;
    var i: nat, len: nat := 22, n;
    Pow16Is64Bits();
    while true
      invariant 6 < i <= 22 && len < Pow16(i - 6)
      invariant HexDigits(n) + CRLF == HexDigits(len) + buf[i..]
      decreases i
    {
      ghost var tail, was := buf[i..], len;
      i := i - 1;
      buf[i] := HexChar(len % 16);
      assert buf[i..] == [HexChar(was % 16)] + tail;
      len := len / 16;
      HexDigitsStep(was, tail);
      if len == 0 { break; }
    }
    line := buf[i..];
  }

  // ---------------------------------------------------------------- the machine behind a size line

  /** An open trailer section: the line of the last chunk, then trailers without a blank line. */
  ghost predicate TrailerOk(h: Octets) {
    && NUL !in h && NoBlank(h)
    && Find(h, LF) < |h| && EndsWith(h[..Find(h, LF) + 1], CRLF) && SizeOf(h) == Some(0)
  }

  /** A finished section that holds nothing but the last chunk's line and the blank line. */
  ghost predicate NoTrailers(h: Octets) { Find(h, LF) + 3 == |h| && EndsWith(h, BLANK_LINE) }

  /** A single line is a trailer section without trailers yet. */
  lemma OneLine(line: Octets)
    requires NUL !in line && EndsWith(line, CRLF) && LF !in line[..|line| - 1] && SizeOf(line) == Some(0)
    ensures TrailerOk(line)
  {
    var n := |line|;
    assert line[n - 1] == line[n - 2..][1] == LF;
    FindIs(line, LF, n - 1);
    assert line[..n] == line;
    forall k: nat ensures BlankAt(line, k) ==> LF in line[..n - 1] { if BlankAt(line, k) { BlankHasLf(line, k); } }
  }

  lemma BlankHasLf(s: Octets, k: nat)
    requires BlankAt(s, k)
    ensures s[k + 1] == LF && LF in s[..|s| - 1]
  {
    assert s[k..k + 4][1] == s[k + 1];
    assert s[..|s| - 1][k + 1] == LF;
  }

  lemma BlankAcross(b: Octets, k: nat)
    requires k <= |b| && EndsWith(b[..k], CRLF) && CRLF <= b[k..]
    ensures BlankAt(b, k - 2)
  {
    assert b[k - 2..k] == b[..k][k - 2..];
    assert b[k..k + 2] == b[k..][..2];
    assert b[k - 2..k + 2] == b[k - 2..k] + b[k..k + 2];
  }

  lemma DataThen(n: nat, data: Octets, rest: Octets, maxField: nat)
    requires |data| <= n
    ensures Run(Data(n), data + rest, maxField) == Run(Data(n - |data|), rest, maxField)
    ensures Emit(Data(n), data + rest, maxField) == data + Emit(Data(n - |data|), rest, maxField)
  {
    RunSplit(Data(n), data, rest, maxField);
    DataRun(n, data, maxField);
  }

  /** The CRLF behind the data, whole or in part. */
  lemma EndOfData(m: Octets, maxField: nat)
    requires m != []
    ensures |m| == 1 ==> Run(Data(0), m, maxField) == (if m[0] == CR then ExpectLf else Bad) && Emit(Data(0), m, maxField) == []
    ensures |m| >= 2 && CRLF <= m ==>
      Run(Data(0), m, maxField) == Run(Line([]), m[2..], maxField) && Emit(Data(0), m, maxField) == Emit(Line([]), m[2..], maxField)
    ensures |m| >= 2 && !(CRLF <= m) ==> Run(Data(0), m, maxField) == Bad && Emit(Data(0), m, maxField) == []
  {
    Absorbing(Bad, m[1..], maxField);
    if |m| >= 2 {
      assert m[1..][1..] == m[2..];
      Absorbing(Bad, m[2..], maxField);
    } else {
      assert m[1..] == [];
    }
  }

  lemma AfterData(m: Octets, maxField: nat)
    requires m != []
    ensures Run(ExpectLf, m, maxField) == if m[0] == LF then Run(Line([]), m[1..], maxField) else Bad
    ensures m[0] == LF ==> Emit(ExpectLf, m, maxField) == Emit(Line([]), m[1..], maxField)
  {
    Absorbing(Bad, m[1..], maxField);
  }

  lemma RunNothing(s: State, m: Octets, maxField: nat)
    ensures m == [] ==> Run(s, m, maxField) == s && Emit(s, m, maxField) == []
  {
  }

  lemma TrailerStaysOk(line: Octets, tail: Octets)
    requires TrailerOk(line)
    ensures NUL !in tail && NoBlank(line + tail) ==> TrailerOk(line + tail)
    ensures NUL !in tail ==> CString(line + tail) == line + tail
    ensures NoBlank(line)
  {
    var k := Find(line, LF);
    var all := line + tail;
    assert all[..k] == line[..k] && all[..k + 1] == line[..k + 1];
    FindIs(all, LF, k);
    FindAbsent(line, LF);
    SizeOfLine(line, tail);
    FindAbsent(all, NUL);
    assert all[..|all|] == all;
  }

  /** The blank line right after the last chunk's line. */
  lemma CommonEnd(line: Octets, tail: Octets, maxField: nat)
    requires TrailerOk(line) && Find(line, LF) + 1 == |line| && CRLF <= tail
    ensures |tail| > 2 ==> Run(Trailer(line), tail, maxField) == Beyond
    ensures |tail| == 2 && Run(Trailer(line), tail, maxField) != Beyond ==>
            Run(Trailer(line), tail, maxField) == Done(line + tail) && NoTrailers(line + tail)
  {
    hide Run, Emit, FindBlank, SizeOf, Find;
    TrailerRun(line, tail, maxField);
    var n := |line|;
    var all := line + tail;
    assert line[..n] == line && all[..n] == line && all[n..] == tail;
    BlankAcross(all, n);
    FindIs(all, LF, n - 1);
    if |tail| == 2 { assert all[n - 2..] == all[n - 2..n + 2]; }
  }
}
