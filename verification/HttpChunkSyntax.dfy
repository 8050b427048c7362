/** The syntax of size lines as the decoder reads them, and the limits of the decoder in numbers. */
module HttpChunkSyntax {
  import opened Bytes
  import opened HttpChunk
  import opened HttpChunkBlock
  import opened HttpChunkFormat
  import opened HttpChunkSplit

  // ---------------------------------------------------------------- size lines

  /** Digits, then spaces and tabs, then a CR or a semicolon, then anything. */
  ghost predicate Announces(line: Octets, digits: Octets, blanks: Octets, rest: Octets) {
    && line == digits + (blanks + rest)
    && digits != [] && (forall c :: c in digits ==> HexValue(c).Some?)
    && (forall c :: c in blanks ==> c == Ascii(" ")[0] || c == Ascii("\t")[0])
    && rest != [] && (rest[0] == Ascii("\r")[0] || rest[0] == Ascii(";")[0])
  }

  /** 2^63 - 33 */
  const LARGEST := 0x7FFF_FFFF_FFFF_FFDF

  lemma Marks()
    ensures Ascii(" ") == [SP] && Ascii("\t") == [TAB] && Ascii("\r") == [CR] && Ascii(";") == [SEMICOLON]
    ensures HexValue(SP) == HexValue(TAB) == HexValue(CR) == HexValue(SEMICOLON) == None && MAX_CHUNK == LARGEST
  {
  }

  lemma {:induction false} AfterBlanksIs(blanks: Octets, rest: Octets)
    requires (forall c :: c in blanks ==> IsBlank(c)) && rest != [] && !IsBlank(rest[0])
    ensures AfterBlanks(blanks + rest) == rest[0]
    decreases |blanks|
  {
    if blanks == [] { assert blanks + rest == rest; } else {
      assert (blanks + rest)[1..] == blanks[1..] + rest;
      AfterBlanksIs(blanks[1..], rest);
    }
  }

  lemma {:induction false} BlanksOf(s: Octets) returns (blanks: Octets, rest: Octets)
    ensures s == blanks + rest && (forall c :: c in blanks ==> IsBlank(c))
    ensures AfterBlanks(s) == if rest == [] then NUL else rest[0]
    decreases |s|
  {
    blanks, rest := [], s;
    if s != [] && IsBlank(s[0]) {
      blanks, rest := BlanksOf(s[1..]);
      blanks := [s[0]] + blanks;
    }
  }

  lemma {:induction false} DigitsOf(s: Octets, acc: nat, n: nat)
    requires ReadHex(s, acc, n).HexRun?
    ensures var r := ReadHex(s, acc, n);
      && n <= r.digits <= n + |s|
      && var digits := s[..r.digits - n];
         (forall c :: c in digits ==> HexValue(c).Some?) && HexNumber(acc, digits) == r.value
    ensures ReadHex(s, acc, n).digits > n ==> ReadHex(s, acc, n).value <= MAX_CHUNK
    decreases |s|
  {
    if s != [] && HexValue(s[0]).Some? {
      var acc' := 16 * acc + HexValue(s[0]).value;
      DigitsOf(s[1..], acc', n + 1);
      var k := ReadHex(s, acc, n).digits - n;
      assert s[..k] == [s[0]] + s[1..][..k - 1];
      assert s[..k][1..] == s[1..][..k - 1];
    }
  }

  /** Main result.  A size line announces v if and only if it begins with digits that write v, with blanks and
      then a CR or a semicolon behind them, and v is at most 2^63 - 33. */
  lemma SizeExact(line: Octets, v: nat)
    ensures SizeOf(line) == Some(v) <==>
      v <= LARGEST && exists digits, blanks, rest :: Announces(line, digits, blanks, rest) && HexNumber(0, digits) == v
  {
    hide ReadHex, AfterBlanks, HexNumber, HexValue, Ascii;
    Marks();
    if SizeOf(line) == Some(v) {
      DigitsOf(line, 0, 0);
      var n := ReadHex(line, 0, 0).digits;
      var blanks, rest := BlanksOf(line[n..]);
      assert line == line[..n] + (blanks + rest);
      assert Announces(line, line[..n], blanks, rest);
    }
    forall digits, blanks, rest | Announces(line, digits, blanks, rest) && HexNumber(0, digits) == v
      ensures v <= LARGEST ==> SizeOf(line) == Some(v)
    {
      assert blanks != [] ==> (blanks + rest)[0] == blanks[0] && blanks[0] in blanks;
      ReadDigits(digits, blanks + rest, 0, 0);
      AfterBlanksIs(blanks, rest);
      assert line[|digits|..] == blanks + rest;
    }
  }

  /** The encoder writes no more digits than it needs. */
  lemma {:induction false} NoLeadingZero(n: nat)
    requires n > 0
    ensures HexDigits(n)[0] != Ascii("0")[0]
    decreases n
  {
    HexChars(n % 16);
    if n >= 16 { NoLeadingZero(n / 16); }
  }

  // ---------------------------------------------------------------- limits

  /** A line that announces a chunk is taken in one block whatever its length, and in two up to 1024 bytes. */
  lemma LineLimit(line: Octets, k: nat, v: nat, maxField: nat)
    requires 0 < k < |line| && line[|line| - 1] == LF && LF !in line[..|line| - 1] && SizeOf(line) == Some(v) && v > 0
    ensures Sound(Decoder(0, [], false)) && Decode(0, [], line, maxField) == Wait(v + 2, [], [])
    ensures Twice(0, [], line[..k], line[k..], maxField) == if |line| > 1024 then Refused([]) else Wait(v + 2, [], [])
  {
    hide Decode, SizeOf, EndSection, Twice, FindLine, LinePart, Find, CString, SafeBuffer;
    var a, b := line[..k], line[k..];
    assert a + b == line;
    assert forall i :: 0 <= i < k ==> a[i] == line[..|line| - 1][i];
    SafeEmpty();
    EndOnly(b, line, k);
    FindWhole(a, b);
    LineDecode([], line, maxField);
    TwiceLine(a, b, maxField);
    Left(v + 2, maxField);
    if k < 1024 {
      FindRest(a, b);
      LineDecode(a, b, maxField);
    }
  }

  /** The only line end of b is its last byte. */
  lemma EndOnly(b: Octets, line: Octets, k: nat)
    requires k < |line| && b == line[k..] && line[|line| - 1] == LF && LF !in line[..|line| - 1]
    ensures LF in b && LinePart(b) == |b| && b[..|b|] == b && b[|b|..] == [] && b[0..] == b
  {
    assert b[|b| - 1] == LF;
    assert forall i :: 0 <= i < |b| - 1 ==> b[i] == line[..|line| - 1][k + i];
    FindIs(b, LF, |b| - 1);
  }

  lemma Left(te: nat, maxField: nat)
    requires SafeBuffer([])
    ensures Decode(te, [], [], maxField) == Wait(te, [], [])
  {
  }

  /** Trailers are cut exactly when there are more bytes than the limit allows. */
  lemma TrailerLimit(h: Octets, l: Found, maxField: nat)
    requires !Common(l)
    ensures var x := EndSection(h, l, maxField); x.Took? && x.cut <==> l.rest != [] && |h| + |l.rest| > maxField
  {
    hide GoesOn, Ended, Cut;
  }

  /** What is left of them: the complete lines that are seen, and one blank line. */
  lemma CutLines(t: Octets)
    ensures EndsWith(Cut(t), Ascii("\r\n\r\n"))
    ensures var k := FindLast(CString(t), LF);
      Cut(t) == if k == |CString(t)| then Ascii("0\r\n\r\n")
                else t[..k + 1] + if EndsWith(t[..k + 1], Ascii("\r\n")) then Ascii("\r\n") else Ascii("\r\n\r\n")
  {
    hide FindLast, Find, Ascii, EndsWith;
    BlankText();
    var k := FindLast(CString(t), LF);
    if k < |CString(t)| {
      var lines := t[..k + 1];
      LineEnd(t, k);
      if k > 0 && t[k - 1] == CR {
        EndsBlank(lines[..k - 1], BLANK_LINE);
        assert lines == lines[..k - 1] + CRLF && lines + [] + CRLF == lines + CRLF;
        assert lines[..k - 1] + BLANK_LINE == lines + CRLF;
      } else {
        EndsBlank(lines, BLANK_LINE);
        assert lines + CRLF + CRLF == lines + BLANK_LINE;
      }
    } else {
      EndsBlank([ZERO], BLANK_LINE);
      assert [ZERO] + BLANK_LINE == [ZERO] + CRLF + CRLF;
    }
  }

  lemma BlankText()
    ensures Ascii("\r\n\r\n") == BLANK_LINE == CRLF + CRLF && Ascii("0\r\n\r\n") == [ZERO] + CRLF + CRLF && Ascii("\r\n") == CRLF
  {
  }

  lemma EndsBlank(s: Octets, t: Octets)
    ensures EndsWith(s + t, t)
  {
  }

  lemma LineEnd(t: Octets, k: nat)
    requires k < |t| && t[k] == LF
    ensures EndsWith(t[..k + 1], CRLF) <==> k > 0 && t[k - 1] == CR
  {
    if k > 0 { assert t[..k + 1][k - 1..] == [t[k - 1], t[k]]; }
  }
}
