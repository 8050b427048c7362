/** The message format that the chunked decoder accepts (section 4.1 of RFC 7230), the theorem that it
    decodes every such message under every split, and the round trip with the encoder. */
module HttpChunkFormat {
  import opened Bytes
  import opened HttpChunk
  import opened HttpChunkBlock
  import opened HttpChunkResponse

  // ---------------------------------------------------------------- the format

  /** chunk-size and chunk-ext of a size line, without its CRLF. */
  datatype SizeText = SizeText(digits: Octets, ext: Octets) {
    function Line(): Octets { digits + ext + CRLF }

    ghost predicate WellFormed() {
      && digits != [] && (forall c :: c in digits ==> HexValue(c).Some?)
      && (ext == [] || ext[0] == SEMICOLON) && PlainText(ext)
      && HexNumber(0, digits) <= MAX_CHUNK && |Line()| <= MAX_LINE
    }
  }

  datatype Chunk = Chunk(size: SizeText, data: Octets)

  datatype Body = Body(chunks: seq<Chunk>, last: SizeText, trailers: seq<Octets>)

  /** The largest chunk whose size passes the decoder's guard. */
  const MAX_CHUNK := 16 * SIZE_GUARD + 15

  ghost predicate PlainText(s: Octets) { CR !in s && LF !in s && NUL !in s }

  /** The number that hexadecimal digits write, continuing acc. */
  function HexNumber(acc: nat, s: Octets): nat
    requires forall c :: c in s ==> HexValue(c).Some?
    decreases |s|
  {
    if s == [] then acc else HexNumber(16 * acc + HexValue(s[0]).value, s[1..])
  }

  function ChunksText(cs: seq<Chunk>): Octets {
    if cs == [] then [] else cs[0].size.Line() + cs[0].data + CRLF + ChunksText(cs[1..])
  }

  function ChunksData(cs: seq<Chunk>): Octets {
    if cs == [] then [] else cs[0].data + ChunksData(cs[1..])
  }

  function TrailersText(ts: seq<Octets>): Octets {
    if ts == [] then [] else ts[0] + CRLF + TrailersText(ts[1..])
  }

  function EndText(b: Body): Octets { b.last.Line() + TrailersText(b.trailers) + CRLF }

  function Text(b: Body): Octets { ChunksText(b.chunks) + EndText(b) }

  ghost predicate WellFormedChunk(c: Chunk) {
    c.size.WellFormed() && c.data != [] && HexNumber(0, c.size.digits) == |c.data|
  }

  ghost predicate WellFormed(b: Body, maxField: nat) {
    && (forall c :: c in b.chunks ==> WellFormedChunk(c))
    && b.last.WellFormed() && HexNumber(0, b.last.digits) == 0
    && (forall t :: t in b.trailers ==> t != [] && PlainText(t))
    && |EndText(b)| <= maxField
  }

  // ---------------------------------------------------------------- size lines

  lemma {:induction false} HexNumberGrows(acc: nat, s: Octets)
    requires forall c :: c in s ==> HexValue(c).Some?
    ensures HexNumber(acc, s) >= acc && (s != [] ==> HexNumber(acc, s) >= 16 * acc)
    decreases |s|
  {
    if s != [] { HexNumberGrows(16 * acc + HexValue(s[0]).value, s[1..]); }
  }

  /** The decoder's digit loop reads exactly the number, unless it passes the guard. */
  lemma {:induction false} ReadDigits(s: Octets, rest: Octets, acc: nat, n: nat)
    requires forall c :: c in s ==> HexValue(c).Some?
    requires rest != [] && HexValue(rest[0]) == None
    ensures ReadHex(s + rest, acc, n) ==
            if s != [] && HexNumber(acc, s) > MAX_CHUNK then Overflow else HexRun(HexNumber(acc, s), n + |s|)
    decreases |s|
  {
    if s == [] { assert s + rest == rest; } else {
      assert (s + rest)[0] == s[0] && (s + rest)[1..] == s[1..] + rest;
      var acc' := 16 * acc + HexValue(s[0]).value;
      HexNumberGrows(acc', s[1..]);
      if acc <= SIZE_GUARD { ReadDigits(s[1..], rest, acc', n + 1); }
    }
  }

  /** A size line of the format announces exactly its number. */
  lemma SizeLineValue(t: SizeText)
    requires t.WellFormed()
    ensures SizeOf(t.Line()) == Some(HexNumber(0, t.digits))
  {
    var rest := t.ext + CRLF;
    assert t.Line() == t.digits + rest;
    ReadDigits(t.digits, rest, 0, 0);
    assert t.Line()[|t.digits|..] == rest;
    assert AfterBlanks(rest) == rest[0];
  }

  lemma LineShape(t: SizeText)
    requires t.WellFormed()
    ensures var l := t.Line(); l != [] && l[|l| - 1] == LF && LF !in l[..|l| - 1] && NUL !in l && EndsWith(l, CRLF)
  {
    var l := t.Line();
    assert l[..|l| - 1] == t.digits + t.ext + [CR];
    assert l[|l| - 2..] == CRLF;
  }

  // ---------------------------------------------------------------- the machine on the format

  lemma ChunkRun(c: Chunk, maxField: nat)
    requires WellFormedChunk(c)
    ensures Run(Line([]), c.size.Line() + c.data + CRLF, maxField) == Line([])
    ensures Emit(Line([]), c.size.Line() + c.data + CRLF, maxField) == c.data
  {
    var l := c.size.Line();
    LineShape(c.size);
    SizeLineValue(c.size);
    LineEndRun([], l, maxField);
    assert [] + l == l;
    RunSplit(Line([]), l, c.data + CRLF, maxField);
    assert l + (c.data + CRLF) == l + c.data + CRLF;
    DataThen(|c.data|, c.data, CRLF, maxField);
    EndOfData(CRLF, maxField);
    assert CRLF[2..] == [];
  }

  lemma {:induction false} ChunksRun(cs: seq<Chunk>, maxField: nat)
    requires forall c :: c in cs ==> WellFormedChunk(c)
    ensures Run(Line([]), ChunksText(cs), maxField) == Line([])
    ensures Emit(Line([]), ChunksText(cs), maxField) == ChunksData(cs)
  {
    if cs != [] {
      ChunkRun(cs[0], maxField);
      ChunksRun(cs[1..], maxField);
      RunSplit(Line([]), cs[0].size.Line() + cs[0].data + CRLF, ChunksText(cs[1..]), maxField);
    }
  }

  lemma {:induction false} TrailerRunExact(h: Octets, m: Octets, maxField: nat)
    requires NoBlank(h + m) && NUL !in m && |h + m| <= maxField
    ensures Run(Trailer(h), m, maxField) == Trailer(h + m) && Emit(Trailer(h), m, maxField) == []
    decreases |m|
  {
    if m == [] { assert h + m == h; } else {
      var g := h + [m[0]];
      assert g + m[1..] == h + m;
      if EndsWith(g, BLANK_LINE) {
        assert BlankAt(g, |g| - 4);
        BlankGrows(g, m[1..], |g| - 4);
      }
      TrailerRunExact(g, m[1..], maxField);
    }
  }

  /** A non-empty line after a line end makes no blank line. */
  lemma NoBlankLine(h: Octets, t: Octets)
    requires NoBlank(h) && t != [] && PlainText(t)
    ensures NoBlank(h + (t + CRLF))
  {
    var g := h + (t + CRLF);
    var n := |h| + |t|;
    assert forall i :: |h| <= i < n ==> g[i] == t[i - |h|];
    forall k: nat ensures !BlankAt(g, k) {
      if k + 4 <= |h| {
        BlankGrows(h, t + CRLF, k);
      } else if k + 4 <= |g| {
        assert g[k..k + 4][3] == g[k + 3] && g[k..k + 4][1] == g[k + 1];
        assert k + 3 < n || k + 1 == n - 1 || k + 3 == n;
      }
    }
  }

  lemma {:induction false} TrailersRun(h: Octets, ts: seq<Octets>, maxField: nat)
    requires NoBlank(h) && EndsWith(h, CRLF) && (forall t :: t in ts ==> t != [] && PlainText(t))
    requires |h + TrailersText(ts) + CRLF| <= maxField
    ensures Run(Trailer(h), TrailersText(ts) + CRLF, maxField) == Done(h + (TrailersText(ts) + CRLF))
    ensures Emit(Trailer(h), TrailersText(ts) + CRLF, maxField) == []
    decreases |ts|
  {
    hide Run, Emit, NoBlank;
    if ts == [] {
      assert TrailersText(ts) + CRLF == CRLF;
      LastBlank(h, maxField);
    } else {
      var m, rest := ts[0] + CRLF, TrailersText(ts[1..]) + CRLF;
      assert ts[0] in ts && TrailersText(ts) + CRLF == m + rest;
      assert (h + m) + rest == h + (m + rest);
      NoBlankLine(h, ts[0]);
      TrailerRunExact(h, m, maxField);
      EndsAgain(h + ts[0], CRLF);
      assert h + m == h + ts[0] + CRLF;
      assert forall t :: t in ts[1..] ==> t in ts;
      TrailersRun(h + m, ts[1..], maxField);
      RunSplit(Trailer(h), m, rest, maxField);
    }
  }

  lemma EndsAgain(s: Octets, t: Octets)
    ensures EndsWith(s + t, t)
  {
  }

  lemma LastBlank(h: Octets, maxField: nat)
    requires EndsWith(h, CRLF) && |h| + 2 <= maxField
    ensures Run(Trailer(h), CRLF, maxField) == Done(h + CRLF) && Emit(Trailer(h), CRLF, maxField) == []
  {
    hide Run, Emit, EndsWith;
    var g := h + [CR];
    assert g + [LF] == h + CRLF;
    BlankComes(h);
    RunTwo(Trailer(h), CR, LF, maxField);
  }

  /** The blank line is there with its LF, not with its CR. */
  lemma BlankComes(h: Octets)
    requires EndsWith(h, CRLF)
    ensures !EndsWith(h + [CR], BLANK_LINE) && EndsWith(h + CRLF, BLANK_LINE)
  {
    var front, g := h[..|h| - 2], h + [CR];
    assert h == front + CRLF;
    assert h + CRLF == front + BLANK_LINE;
    EndsAgain(front, BLANK_LINE);
    assert |g| >= 4 ==> g[|g| - 4..][3] == CR;
  }

  lemma RunTwo(s: State, c: Byte, d: Byte, maxField: nat)
    ensures var t := Step(s, c, maxField);
            Run(s, [c, d], maxField) == Step(t, d, maxField) && Emit(s, [c, d], maxField) == Output(s, c) + Output(t, d)
  {
    var t := Step(s, c, maxField);
    assert [c, d][1..] == [d] && [d][1..] == [];
    assert Run(t, [d], maxField) == Step(t, d, maxField);
    assert Emit(t, [d], maxField) == Output(t, d);
  }

  lemma LineLength(t: SizeText)
    requires t.WellFormed()
    ensures |t.Line()| <= MAX_LINE
  {
  }

  lemma LastLineRun(t: SizeText, maxField: nat)
    requires t.WellFormed() && HexNumber(0, t.digits) == 0 && |t.Line()| <= maxField
    ensures Run(Line([]), t.Line(), maxField) == Trailer(t.Line()) && Emit(Line([]), t.Line(), maxField) == []
    ensures NoBlank(t.Line()) && EndsWith(t.Line(), CRLF)
  {
    hide Run, Emit, SizeOf, NoBlank, SizeText.Line, SizeText.WellFormed, HexNumber;
    var l := t.Line();
    LineShape(t);
    SizeLineValue(t);
    assert |l| <= MAX_LINE by { LineLength(t); }
    LineEndRun([], l, maxField);
    assert [] + l == l;
    OneLine(l);
  }

  lemma EndRun(b: Body, maxField: nat)
    requires WellFormed(b, maxField)
    ensures Run(Line([]), EndText(b), maxField) == Done(EndText(b)) && Emit(Line([]), EndText(b), maxField) == []
  {
    hide Run, Emit, NoBlank, EndsWith, SizeText.Line, TrailersText, SizeText.WellFormed, HexNumber;
    var l := b.last.Line();
    var rest := TrailersText(b.trailers) + CRLF;
    assert EndText(b) == l + rest;
    assert |l + rest| <= maxField;
    LastLineRun(b.last, maxField);
    RunSplit(Line([]), l, rest, maxField);
    assert l + TrailersText(b.trailers) + CRLF == l + rest;
    TrailersRun(l, b.trailers, maxField);
  }

  /** The machine decodes every message of the format to the concatenation of its chunks' data. */
  lemma WellFormedDecodes(b: Body, maxField: nat)
    requires WellFormed(b, maxField)
    ensures Run(Line([]), Text(b), maxField) == Done(EndText(b))
    ensures Emit(Line([]), Text(b), maxField) == ChunksData(b.chunks)
  {
    ChunksRun(b.chunks, maxField);
    EndRun(b, maxField);
    RunSplit(Line([]), ChunksText(b.chunks), EndText(b), maxField);
  }

  /** While bytes of a well-formed message are missing, the machine is neither done nor in error. */
  lemma DoneOnlyAtEnd(b: Body, maxField: nat, n: nat)
    requires WellFormed(b, maxField) && n < |Text(b)|
    ensures var s := Run(Line([]), Text(b)[..n], maxField); !s.Done? && !s.Bad? && !s.Beyond?
  {
    hide Run, Emit, WellFormed, Text, EndText;
    var t := Text(b);
    var s := Run(Line([]), t[..n], maxField);
    WellFormedDecodes(b, maxField);
    assert t[..n] + t[n..] == t;
    RunSplit(Line([]), t[..n], t[n..], maxField);
    if s.Done? { BehindEnd(s, t[n..], maxField); } else if s.Bad? || s.Beyond? { Absorbing(s, t[n..], maxField); }
  }

  lemma BehindEnd(s: State, m: Octets, maxField: nat)
    requires s.Done? && m != []
    ensures Run(s, m, maxField) == Beyond
  {
    Absorbing(Beyond, m[1..], maxField);
  }

  // ---------------------------------------------------------------- every split

  /** A well-formed message, cut anywhere into blocks, is accepted and its data passed on; the decoder
      reports the end after the last block and not before. */
  method DecodeMessage(parts: seq<Octets>, status: int, maxField: nat, ghost b: Body)
    returns (r: Response, dones: seq<bool>)
    requires status != 0 && WellFormed(b, maxField) && Flat(parts) == Text(b)
    requires parts != [] && parts[|parts| - 1] != [] && forall p :: p in parts ==> |p| <= OFF_MAX
    ensures r.done == status && r.bodyFinished && r.gwChunked == 0
    ensures r.writeQueue == ChunksData(b.chunks)
    ensures |dones| == |parts| && forall i :: 0 <= i < |parts| ==> (dones[i] <==> i == |parts| - 1)
  {
    hide Run, Emit, WellFormed, Text, Stands, Sound, Decode, SafeBuffer;
    r := new Response(status, maxField, true, false);
    dones := [];
    ghost var s := Line([]);
    Fresh(r);
    for i := 0 to |parts|
      invariant fresh(r) && r.Valid() && Stands(s, r.Now(), maxField) && s == Run(Line([]), Flat(parts[..i]), maxField)
      invariant r.status == status && r.maxField == maxField && !r.sendChunked
      invariant r.writeQueue == Emit(Line([]), Flat(parts[..i]), maxField)
      invariant |dones| == i && forall k :: 0 <= k < i ==> (dones[k] <==> k == |parts| - 1)
      invariant r.bodyFinished <==> i == |parts|
    {
      ghost var so := Flat(parts[..i]);
      FlatPrefix(parts, i);
      FlatPrefix(parts, i + 1);
      assert parts[..i + 1][..i] == parts[..i];
      assert Flat(parts[..i + 1]) == so + parts[i];
      assert so == Text(b)[..|so|];
      DoneOnlyAtEnd(b, maxField, |so|);
      RunSplit(Line([]), so, parts[i], maxField);
      NotYet(b, maxField, so + parts[i]);
      OneBlock(s, r.Now(), parts[i], maxField);
      var ok := r.DecodeAppendData(parts[i]);
      s := Run(s, parts[i], maxField);
      dones := dones + [r.done != 0];
    }
    assert parts[..|parts|] == parts;
    WellFormedDecodes(b, maxField);
    AtEnd(s, r.Now(), maxField);
  }

  /** A block within the limits that does not follow the end of the message. */
  lemma OneBlock(s: State, d: Decoder, mem: Octets, maxField: nat)
    requires Sound(d) && Stands(s, d, maxField) && !s.Done? && !Run(s, mem, maxField).Beyond? && !Run(s, mem, maxField).Bad?
    ensures !d.done && SafeBuffer(d.h)
    ensures var r, x := Run(s, mem, maxField), Decode(d.te, d.h, mem, maxField);
      && x.Took? && !x.cut && x.out == Emit(s, mem, maxField) && Stands(r, x.d, maxField) && (x.d.done <==> r.Done?)
  {
    hide Run, Emit, Decode, SafeBuffer, TrailerOk, NoTrailers;
    if s.Beyond? { Absorbing(s, mem, maxField); }
    assert d == Decoder(d.te, d.h, false);
    Follows(s, d.te, d.h, mem, maxField);
  }

  lemma AtEnd(s: State, d: Decoder, maxField: nat)
    requires s.Done? && Stands(s, d, maxField)
    ensures d.done && d.te == 0
  {
  }

  lemma Fresh(r: Response)
    requires r.done == 0 && r.gwChunked == 0 && r.b == [] && r.status != 0 && r.decodeChunked
    ensures r.Valid() && Stands(Line([]), r.Now(), r.maxField)
    ensures Run(Line([]), Flat([]), r.maxField) == Line([]) && Emit(Line([]), Flat([]), r.maxField) == []
  {
    SafeEmpty();
  }

  /** On a prefix of a well-formed message the machine is done exactly when nothing is missing. */
  lemma NotYet(b: Body, maxField: nat, so: Octets)
    requires WellFormed(b, maxField) && so <= Text(b)
    ensures var s := Run(Line([]), so, maxField); !s.Bad? && !s.Beyond? && (s.Done? <==> so == Text(b))
  {
    WellFormedDecodes(b, maxField);
    if |so| < |Text(b)| {
      DoneOnlyAtEnd(b, maxField, |so|);
      assert so == Text(b)[..|so|];
    } else {
      assert so == Text(b);
    }
  }

  // ---------------------------------------------------------------- encoder and decoder

  function EncodeAll(mems: seq<Octets>): Octets {
    if mems == [] then [] else EncodeChunk(mems[0]) + EncodeAll(mems[1..])
  }

  function Join(mems: seq<Octets>): Octets {
    if mems == [] then [] else mems[0] + Join(mems[1..])
  }

  /** The chunks that the encoder makes: one for each memory that is not empty. */
  function ChunksOf(mems: seq<Octets>): seq<Chunk> {
    if mems == [] then []
    else (if mems[0] == [] then [] else [Chunk(SizeText(HexDigits(|mems[0]|), []), mems[0])]) + ChunksOf(mems[1..])
  }

  function MessageOf(mems: seq<Octets>): Body { Body(ChunksOf(mems), SizeText([ZERO], []), []) }

  lemma {:induction false} HexNumberSplit(acc: nat, a: Octets, b: Octets)
    requires forall c :: c in a + b ==> HexValue(c).Some?
    ensures (forall c :: c in a ==> HexValue(c).Some?) && (forall c :: c in b ==> HexValue(c).Some?)
    ensures HexNumber(acc, a + b) == HexNumber(HexNumber(acc, a), b)
    decreases |a|
  {
    assert forall c :: c in a ==> c in a + b;
    assert forall c :: c in b ==> c in a + b;
    if a == [] { assert a + b == b; } else {
      assert (a + b)[0] == a[0] && (a + b)[1..] == a[1..] + b;
      HexNumberSplit(16 * acc + HexValue(a[0]).value, a[1..], b);
    }
  }

  /** The size line's digits write the size, in at most as many digits as its magnitude needs. */
  lemma {:induction false} DigitsValue(n: nat, k: nat)
    requires n < Pow16(k) && k > 0
    ensures forall c :: c in HexDigits(n) ==> HexValue(c).Some?
    ensures HexNumber(0, HexDigits(n)) == n && |HexDigits(n)| <= k
    decreases n
  {
    var front, c := if n < 16 then [] else HexDigits(n / 16), HexChar(n % 16);
    assert HexDigits(n) == front + [c];
    if n >= 16 { DigitsValue(n / 16, k - 1); }
    HexNumberSplit(0, front, [c]);
    assert [c][1..] == [];
    assert HexNumber(0, front) == n / 16;
  }

  /** The decoder accepts the encoder's size line exactly up to MAX_CHUNK; larger sizes meet its guard. */
  lemma OwnSizeLine(n: nat)
    requires n < 0x1_0000_0000_0000_0000
    ensures SizeOf(HexDigits(n) + CRLF) == if n <= MAX_CHUNK then Some(n) else None
  {
    hide HexDigits, HexNumber, Pow16;
    Pow16Is64Bits();
    DigitsValue(n, 16);
    var line := HexDigits(n) + CRLF;
    ReadDigits(HexDigits(n), CRLF, 0, 0);
    assert line[|HexDigits(n)|..] == CRLF;
    assert AfterBlanks(CRLF) == CR;
  }

  lemma {:induction false} EncodedChunks(mems: seq<Octets>)
    requires forall m :: m in mems ==> |m| <= MAX_CHUNK
    ensures EncodeAll(mems) == ChunksText(ChunksOf(mems)) && ChunksData(ChunksOf(mems)) == Join(mems)
    ensures forall c :: c in ChunksOf(mems) ==> WellFormedChunk(c)
  {
    hide WellFormedChunk, HexDigits, EncodeChunk, SizeText.Line;
    if mems != [] {
      var m := mems[0];
      EncodedChunks(mems[1..]);
      EncodedChunk(m);
      if m != [] {
        assert ChunksOf(mems)[1..] == ChunksOf(mems[1..]);
      } else {
        assert ChunksOf(mems) == ChunksOf(mems[1..]);
      }
    }
  }

  lemma EncodedChunk(m: Octets)
    requires |m| <= MAX_CHUNK
    ensures var c := Chunk(SizeText(HexDigits(|m|), []), m);
      if m == [] then EncodeChunk(m) == [] else EncodeChunk(m) == c.size.Line() + c.data + CRLF && WellFormedChunk(c)
  {
    hide HexDigits, HexNumber, SizeText.WellFormed, SizeText.Line;
    OwnLine(HexDigits(|m|));
    OwnSize(|m|);
  }

  lemma OwnLine(digits: Octets)
    ensures SizeText(digits, []).Line() == digits + CRLF
  {
    assert digits + [] == digits;
  }

  lemma OwnSize(n: nat)
    requires n <= MAX_CHUNK
    ensures var t := SizeText(HexDigits(n), []); t.WellFormed() && HexNumber(0, t.digits) == n
  {
    hide HexDigits, Pow16, HexNumber, HexValue;
    Pow16Is64Bits();
    DigitsValue(n, 16);
  }

  /** What the encoder emits is a message of the format, and its data is what was appended. */
  lemma EncodedIsWellFormed(mems: seq<Octets>, maxField: nat)
    requires (forall m :: m in mems ==> |m| <= MAX_CHUNK) && maxField >= |LAST_CHUNK|
    ensures WellFormed(MessageOf(mems), maxField) && Text(MessageOf(mems)) == EncodeAll(mems) + LAST_CHUNK
    ensures ChunksData(MessageOf(mems).chunks) == Join(mems)
  {
    EncodedChunks(mems);
    var b := MessageOf(mems);
    assert [ZERO][1..] == [];
    assert EndText(b) == LAST_CHUNK;
  }

  method Encode(mems: seq<Octets>) returns (out: Octets)
    requires forall m :: m in mems ==> |m| <= MAX_CHUNK
    ensures out == EncodeAll(mems) + LAST_CHUNK
  {
    hide EncodeChunk, HexDigits;
    var r := new Response(200, 0, false, true);
    assert mems[0..] == mems;
    for i := 0 to |mems|
      invariant r.sendChunked && !r.decodeChunked && fresh(r) && EncodeAll(mems) == r.writeQueue + EncodeAll(mems[i..])
    {
      ghost var q, a, rest := r.writeQueue, EncodeChunk(mems[i]), EncodeAll(mems[i + 1..]);
      assert mems[i] in mems && mems[i..][0] == mems[i] && mems[i..][1..] == mems[i + 1..];
      r.AppendMem(mems[i]);
      assert q + (a + rest) == (q + a) + rest;
    }
    assert EncodeAll(mems[|mems|..]) == [];
    r.Close();
    out := r.writeQueue;
  }

  /** Round trip: what one response encodes, cut anywhere, another decodes to the appended bytes. */
  method Transmit(mems: seq<Octets>, parts: seq<Octets>, status: int, maxField: nat) returns (received: Octets)
    requires (forall m :: m in mems ==> |m| <= MAX_CHUNK) && maxField >= |LAST_CHUNK| && status != 0
    requires Flat(parts) == EncodeAll(mems) + LAST_CHUNK
    requires parts != [] && parts[|parts| - 1] != [] && forall p :: p in parts ==> |p| <= OFF_MAX
    ensures received == Join(mems)
  {
    var sent := Encode(mems);
    assert sent == Flat(parts);
    EncodedIsWellFormed(mems, maxField);
    var r, dones := DecodeMessage(parts, status, maxField, MessageOf(mems));
    received := r.writeQueue;
  }
}
