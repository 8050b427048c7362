/** Base64 (base64.c) in the standard and the URL alphabet.  Six-bit digits stand between bytes and
    characters; shifts and disjoint ors are written as arithmetic. */
module Base64 {
  import opened Bytes

  datatype Charset = Standard | Url

  type Digit = x: int | 0 <= x < 64

  // ---------------------------------------------------------------- alphabets

  /** base64_standard_table and base64_url_table */
  function CharOf(cs: Charset, d: Digit): Byte {
    if d < 26 then 65 + d else if d < 52 then 97 + (d - 26) else if d < 62 then 48 + (d - 52)
    else if d == 62 then (if cs == Standard then 43 else 45) else (if cs == Standard then 47 else 95)
  }

  function PadOf(cs: Charset): Byte { if cs == Standard then 61 else 46 }

  datatype Reverse = Is(d: Digit) | Invalid | Skipped | Padding

  /** The reverse tables, for characters below 128. */
  function ReverseOf(cs: Charset, c: Byte): Reverse
    requires c < 128
  {
    if 65 <= c <= 90 then Is(c - 65) else if 97 <= c <= 122 then Is(c - 97 + 26) else if 48 <= c <= 57 then Is(c - 48 + 52)
    else if c == (if cs == Standard then 43 else 45) then Is(62)
    else if c == (if cs == Standard then 47 else 95) then Is(63)
    else if c == PadOf(cs) then Padding
    else if 1 <= c <= 32 then Skipped
    else Invalid
  }

  lemma ReverseChar(cs: Charset, d: Digit)
    ensures CharOf(cs, d) < 128 && CharOf(cs, d) != NUL && ReverseOf(cs, CharOf(cs, d)) == Is(d)
    ensures PadOf(cs) < 128 && PadOf(cs) != NUL && ReverseOf(cs, PadOf(cs)) == Padding
  {
  }

  lemma CharReverse(cs: Charset, c: Byte)
    requires c < 128 && ReverseOf(cs, c).Is?
    ensures CharOf(cs, ReverseOf(cs, c).d) == c
  {
  }

  /** The alphabets as they are written, with the padding last. */
  function Table(cs: Charset): string { UPPER_CASE + LOWER_CASE + DIGITS + if cs == Standard then "+/=" else "-_." }

  lemma Alphabet(cs: Charset, d: nat)
    requires d <= 64
    ensures |Table(cs)| == 65 && Table(cs)[d] as int == if d < 64 then CharOf(cs, d) else PadOf(cs)
  {
    if d < 26 { assert Table(cs)[d] == UPPER_CASE[d]; UpperAt(d); }
    else if d < 52 { assert Table(cs)[d] == LOWER_CASE[d - 26]; LowerAt(d - 26); }
    else if d < 62 { assert Table(cs)[d] == DIGITS[d - 52]; DigitAt(d - 52); }
  }

  /** Of the characters below 128 exactly those of the alphabet are digits, with their place as value; blanks and
      control characters are skipped, all others refused. */
  lemma Reversed(cs: Charset, c: Byte, d: Digit)
    requires c < 128
    ensures ReverseOf(cs, c) == Is(d) <==> Table(cs)[d] as int == c
    ensures ReverseOf(cs, c) == Padding <==> Table(cs)[64] as int == c
    ensures ReverseOf(cs, c) == Skipped <==> 0 < c <= 0x20
  {
    hide Table;
    Alphabet(cs, d);
    Alphabet(cs, 64);
    ReverseChar(cs, d);
    if ReverseOf(cs, c).Is? { CharReverse(cs, c); }
  }

  // ---------------------------------------------------------------- bytes and digits

  function D1(x: int, y: int): int { x % 4 * 16 + y / 16 }
  function D2(y: int, z: int): int { y % 16 * 4 + z / 64 }
  function B0(p: int, q: int): int { p * 4 + q / 16 }
  function B1(q: int, r: int): int { q % 16 * 16 + r / 4 }
  function B2(r: int, s: int): int { r % 4 * 64 + s }

  /** The digits of bytes: four for every three, two or three for one or two left over. */
  function Split(b: Octets): seq<Digit> {
    if b == [] then []
    else if |b| == 1 then [b[0] / 4, D1(b[0], 0)]
    else if |b| == 2 then [b[0] / 4, D1(b[0], b[1]), D2(b[1], 0)]
    else [b[0] / 4, D1(b[0], b[1]), D2(b[1], b[2]), b[2] % 64] + Split(b[3..])
  }

  function Three(p: Digit, q: Digit, r: Digit, s: Digit): (t: Octets)
    ensures |t| == 3
  {
    [B0(p, q), B1(q, r), B2(r, s)]
  }

  /** The bytes of digits, unless one digit or bits other than zero are left over. */
  function Merge(ds: seq<Digit>): Option<Octets> {
    if ds == [] then Some([])
    else if |ds| == 1 then None
    else if |ds| == 2 then (if ds[1] % 16 == 0 then Some([B0(ds[0], ds[1])]) else None)
    else if |ds| == 3 then
      (if ds[2] % 4 == 0 then Some([B0(ds[0], ds[1]), B1(ds[1], ds[2])]) else None)
    else
      match Merge(ds[4..])
      case None => None
      case Some(rest) => Some(Three(ds[0], ds[1], ds[2], ds[3]) + rest)
  }

  lemma Groups(x: Byte, y: Byte, z: Byte)
    ensures B0(x / 4, D1(x, y)) == x && B1(D1(x, y), D2(y, z)) == y && B2(D2(y, z), z % 64) == z
    ensures D1(x, 0) % 16 == 0 && B0(x / 4, D1(x, 0)) == x && D2(y, 0) % 4 == 0 && B1(D1(x, y), D2(y, 0)) == y
  {
  }

  lemma Digits(p: Digit, q: Digit, r: Digit, s: Digit)
    ensures B0(p, q) / 4 == p && D1(B0(p, q), B1(q, r)) == q && D2(B1(q, r), B2(r, s)) == r && B2(r, s) % 64 == s
    ensures q % 16 == 0 ==> D1(B0(p, q), 0) == q
    ensures r % 4 == 0 ==> D2(B1(q, r), 0) == r
  {
  }

  lemma {:induction false} MergeSplit(b: Octets)
    ensures Merge(Split(b)) == Some(b)
    decreases |b|
  {
    hide B0, B1, B2, D1, D2;
    if b != [] { Groups(b[0], if |b| > 1 then b[1] else 0, if |b| > 2 then b[2] else 0); }
    if |b| >= 3 {
      MergeSplit(b[3..]);
      SplitMore(b);
      assert Split(b)[4..] == Split(b[3..]);
      assert b == [b[0], b[1], b[2]] + b[3..];
    } else if |b| == 2 {
      assert b == [b[0], b[1]];
    } else if |b| == 1 {
      assert b == [b[0]];
    }
  }

  lemma {:induction false} SplitMerge(ds: seq<Digit>)
    ensures Merge(ds).Some? ==> Split(Merge(ds).value) == ds
    decreases |ds|
  {
    hide B0, B1, B2, D1, D2;
    if |ds| >= 2 { Digits(ds[0], ds[1], if |ds| > 2 then ds[2] else 0, if |ds| > 3 then ds[3] else 0); }
    if |ds| >= 4 {
      SplitMerge(ds[4..]);
      if Merge(ds).Some? {
        var b := Merge(ds).value;
        assert b[3..] == Merge(ds[4..]).value;
        assert ds == [ds[0], ds[1], ds[2], ds[3]] + ds[4..];
      }
    }
  }

  /** The bits of the last digit that belong to no byte. */
  function LeftOver(ds: seq<Digit>): int {
    var n := |ds|;
    if n % 4 == 2 then ds[n - 1] % 16 else if n % 4 == 3 then ds[n - 1] % 4 else 0
  }

  lemma {:induction false} MergeAccepts(ds: seq<Digit>)
    ensures Merge(ds).Some? <==> |ds| % 4 != 1 && LeftOver(ds) == 0
    decreases |ds|
  {
    if |ds| >= 4 {
      MergeAccepts(ds[4..]);
    }
  }

  // ---------------------------------------------------------------- the encoder

  function Chars(cs: Charset, ds: seq<Digit>): (s: Octets)
    ensures |s| == |ds|
  {
    seq(|ds|, i requires 0 <= i < |ds| => CharOf(cs, ds[i]))
  }

  /** The first of the vectors of section 10 of RFC 4648 with six bytes, and one byte in the other alphabet. */
  lemma Vectors()
    ensures Chars(Standard, Split(Ascii("foobar"))) == Ascii("Zm9vYmFy")
    ensures Chars(Url, Split([0xFB, 0xFF])) == Ascii("-_8")
  {
    var b := Ascii("foobar");
    assert b == [102, 111, 111, 98, 97, 114] && b[3..] == [98, 97, 114] && b[3..][3..] == [];
    assert Split(b[3..]) == [24, 38, 5, 50];
    assert Split(b) == [25, 38, 61, 47, 24, 38, 5, 50];
    assert Split([0xFB, 0xFF]) == [62, 63, 60];
  }

  /** Four characters for three bytes. */
  method EncodeTriple(cs: Charset, x: int, y: int, z: int) returns (q: Octets)
    requires 0 <= x < 256 && 0 <= y < 256 && 0 <= z < 256
    ensures 0 <= D1(x, y) < 64 && 0 <= D2(y, z) < 64
    ensures q == [CharOf(cs, x / 4), CharOf(cs, D1(x, y)), CharOf(cs, D2(y, z)), CharOf(cs, z % 64)]
  {
    var v := x * 0x1_0000 + y * 0x100 + z;
    Triple(x, y, z);
    var d3 := v % 64; v := v / 64;
    var d2 := v % 64; v := v / 64;
    var d1 := v % 64; v := v / 64;
    q := [CharOf(cs, v % 64), CharOf(cs, d1), CharOf(cs, d2), CharOf(cs, d3)];
  }

  /** Two or three characters for the bytes left over. */
  method EncodeTail(cs: Charset, b: Octets, i: nat) returns (q: Octets)
    requires i <= |b| < i + 3 && i % 3 == 0
    ensures q == Chars(cs, Split(b[i..]))
  {
    hide Split, D1, D2, CharOf;
    SplitTail(cs, b, i);
    match |b| % 3 {
      case 0 => q := [];
      case 1 =>
        var x: int := b[i];
        var v := x * 16;
        Pair(x, 0);
        q := [CharOf(cs, v / 64 % 64), CharOf(cs, v % 64)];
      case 2 =>
        var x: int, y: int := b[i], b[i + 1];
        var v := x * 1024 + y * 4;
        Pair(x, y);
        q := [CharOf(cs, v / 64 / 64 % 64), CharOf(cs, v / 64 % 64), CharOf(cs, v % 64)];
    }
  }

  /** li_to_base64_no_padding */
  method EncodeNoPadding(cs: Charset, b: Octets) returns (out: Octets)
    ensures out == Chars(cs, Split(b))
  {
    hide Split, D1, D2, CharOf, Chars;
    out := [];
    var i := 2;
    assert b[0..] == b && [] + Chars(cs, Split(b)) == Chars(cs, Split(b));
    while i < |b|
      invariant (i - 2) % 3 == 0 && 2 <= i <= |b| + 2
      invariant Chars(cs, Split(b)) == out + Chars(cs, Split(b[i - 2..]))
      decreases |b| - i
    {
      var q := EncodeTriple(cs, b[i - 2], b[i - 1], b[i]);
      SplitTriple(cs, b, i - 2);
      out := out + q;
      i := i + 3;
    }
    var tail := EncodeTail(cs, b, i - 2);
    out := out + tail;
  }

  lemma SplitTriple(cs: Charset, b: Octets, i: nat)
    requires i + 3 <= |b|
    ensures 0 <= D1(b[i], b[i + 1]) < 64 && 0 <= D2(b[i + 1], b[i + 2]) < 64
    ensures Chars(cs, Split(b[i..])) ==
      [CharOf(cs, b[i] / 4), CharOf(cs, D1(b[i], b[i + 1])), CharOf(cs, D2(b[i + 1], b[i + 2])), CharOf(cs, b[i + 2] % 64)] + Chars(cs, Split(b[i + 3..]))
  {
    var c := b[i..];
    assert c[0] == b[i] && c[1] == b[i + 1] && c[2] == b[i + 2] && c[3..] == b[i + 3..];
    SplitMore(c);
    FourChars(cs, c[0] / 4, D1(c[0], c[1]), D2(c[1], c[2]), c[2] % 64, Split(c[3..]));
  }

  lemma SplitMore(c: Octets)
    requires |c| >= 3
    ensures 0 <= D1(c[0], c[1]) < 64 && 0 <= D2(c[1], c[2]) < 64
    ensures Split(c) == [c[0] / 4, D1(c[0], c[1]), D2(c[1], c[2]), c[2] % 64] + Split(c[3..])
  {
  }

  lemma FourChars(cs: Charset, p: Digit, q: Digit, r: Digit, s: Digit, rest: seq<Digit>)
    ensures Chars(cs, [p, q, r, s] + rest) == [CharOf(cs, p), CharOf(cs, q), CharOf(cs, r), CharOf(cs, s)] + Chars(cs, rest)
  {
    hide CharOf;
  }

  lemma SplitTail(cs: Charset, b: Octets, i: nat)
    requires i <= |b| < i + 3
    ensures |b| == i ==> Chars(cs, Split(b[i..])) == []
    ensures |b| == i + 1 ==> 0 <= D1(b[i], 0) < 64 && Chars(cs, Split(b[i..])) == [CharOf(cs, b[i] / 4), CharOf(cs, D1(b[i], 0))]
    ensures |b| == i + 2 ==> 0 <= D1(b[i], b[i + 1]) < 64 && 0 <= D2(b[i + 1], 0) < 64
    ensures |b| == i + 2 ==> Chars(cs, Split(b[i..])) == [CharOf(cs, b[i] / 4), CharOf(cs, D1(b[i], b[i + 1])), CharOf(cs, D2(b[i + 1], 0))]
  {
    hide CharOf, D1, D2;
    var c := b[i..];
    if |c| == 1 {
      assert c == [b[i]];
      FewDigits(b[i], 0);
    } else if |c| == 2 {
      assert c == [b[i], b[i + 1]];
      FewDigits(b[i], b[i + 1]);
    }
  }

  lemma FewDigits(x: Byte, y: Byte)
    ensures 0 <= D1(x, y) < 64 && 0 <= D2(y, 0) < 64 && Split([x]) == [x / 4, D1(x, 0)]
    ensures Split([x, y]) == [x / 4, D1(x, y), D2(y, 0)]
  {
  }

  lemma Triple(x: Byte, y: Byte, z: Byte)
    ensures var v: int := (x as int) * 0x1_0000 + (y as int) * 0x100 + z;
      v % 64 == z % 64 && v / 64 % 64 == D2(y, z) && v / 64 / 64 % 64 == D1(x, y) && v / 64 / 64 / 64 % 64 == x / 4
  {
    var a: int, b: int, c: int := x, y, z;
    var v := a * 0x1_0000 + b * 0x100 + c;
    var v1 := a * 1024 + b * 4 + c / 64;
    var v2 := a * 16 + b / 16;
    Sixty4(v, v1, c % 64);
    assert b == 16 * (b / 16) + b % 16;
    Sixty4(v1, v2, b % 16 * 4 + c / 64);
    Sixty4(v2, a / 4, a % 4 * 16 + b / 16);
  }

  lemma Sixty4(v: int, q: int, r: int)
    requires v == 64 * q + r && 0 <= r < 64
    ensures v / 64 == q && v % 64 == r
  {
  }

  lemma Pair(x: Byte, y: Byte)
    ensures var v: int := (x as int) * 16; v % 64 == D1(x, 0) && v / 64 % 64 == x / 4
    ensures var v: int := (x as int) * 1024 + (y as int) * 4; v % 64 == D2(y, 0) && v / 64 % 64 == D1(x, y) && v / 64 / 64 % 64 == x / 4
  {
    var a: int, b: int := x, y;
    assert a * 16 == 64 * (a / 4) + D1(x, 0);
    assert a * 1024 + b * 4 == 64 * (a * 16 + b / 16) + D2(y, 0);
    assert a * 16 + b / 16 == 64 * (a / 4) + D1(x, y);
  }

  /** li_to_base64 */
  method EncodePadded(cs: Charset, b: Octets) returns (out: Octets)
    ensures exists pads: Octets :: out == Chars(cs, Split(b)) + pads && |pads| == (3 - |b| % 3) % 3 && forall p :: p in pads ==> p == PadOf(cs)
  {
    hide Chars, Split, PadOf;
    var padding := if |b| % 3 != 0 then 3 - |b| % 3 else 0;
    out := EncodeNoPadding(cs, b);
    ghost var pads: Octets := [];
    ghost var n := padding;
    while padding > 0
      invariant 0 <= padding <= n && |pads| == n - padding && out == Chars(cs, Split(b)) + pads && forall p :: p in pads ==> p == PadOf(cs)
    {
      out := out + [PadOf(cs)];
      pads := pads + [PadOf(cs)];
      padding := padding - 1;
    }
  }

  // ---------------------------------------------------------------- the decoder

  /** The digits that the decoder reads, with n digits before; None when a character is refused. */
  function Digits64(cs: Charset, s: Octets, n: nat): (r: Option<seq<Digit>>)
    decreases |s|
  {
    if s == [] || s[0] == NUL then Some([])
    else if s[0] >= 128 then None
    else
      match ReverseOf(cs, s[0])
      case Padding => if n % 4 < 2 then None else Some([])
      case Skipped => Digits64(cs, s[1..], n)
      case Invalid => None
      case Is(d) =>
        var rest := Digits64(cs, s[1..], n + 1);
        if rest.Some? then Some([d] + rest.value) else None
  }

  function DecodeOf(cs: Charset, s: Octets): Option<Octets> {
    match Digits64(cs, s, 0)
    case None => None
    case Some(ds) => Merge(ds)
  }

  lemma {:induction false} DigitsInsert(cs: Charset, a: Octets, c: Byte, b: Octets, n: nat)
    ensures 0 < c <= 0x20 ==> Digits64(cs, a + [c] + b, n) == Digits64(cs, a + b, n)
    ensures c == PadOf(cs) ==> Digits64(cs, a + [c] + b, n) == Digits64(cs, a + [c], n)
    ensures c == NUL ==> Digits64(cs, a + [c] + b, n) == Digits64(cs, a, n)
    decreases |a|
  {
    hide ReverseOf, PadOf;
    if c < 128 { Reversed(cs, c, 0); }
    ReverseChar(cs, 0);
    if a == [] {
      assert a + [c] + b == [c] + b && ([c] + b)[1..] == b && a + b == b && a + [c] == [c];
    } else {
      var m := (if a[0] < 128 && ReverseOf(cs, a[0]).Is? then n + 1 else n);
      assert (a + [c] + b)[1..] == a[1..] + [c] + b && (a + b)[1..] == a[1..] + b && (a + [c])[1..] == a[1..] + [c];
      DigitsInsert(cs, a[1..], c, b, m);
    }
  }

  /** Blanks and control characters make no difference wherever they stand; what follows padding or a zero byte
      is not read. */
  lemma DecodeReads(cs: Charset, a: Octets, c: Byte, b: Octets)
    ensures 0 < c <= 0x20 ==> DecodeOf(cs, a + [c] + b) == DecodeOf(cs, a + b)
    ensures c == PadOf(cs) ==> DecodeOf(cs, a + [c] + b) == DecodeOf(cs, a + [c])
    ensures c == NUL ==> DecodeOf(cs, a + [c] + b) == DecodeOf(cs, a)
  {
    hide Digits64, PadOf, Merge;
    DigitsInsert(cs, a, c, b, 0);
  }

  /** The bytes that digits complete, and the bits of the one that they begin. */
  function Complete(ds: seq<Digit>): Octets {
    if |ds| < 2 then []
    else if |ds| == 2 then [B0(ds[0], ds[1])]
    else if |ds| == 3 then [B0(ds[0], ds[1]), B1(ds[1], ds[2])]
    else Three(ds[0], ds[1], ds[2], ds[3]) + Complete(ds[4..])
  }

  function Begun(ds: seq<Digit>): int {
    if ds == [] then 0 else Bits(ds[|ds| - 1], |ds| % 4)
  }

  /** What the digit at place g of a group leaves for the next byte. */
  function Bits(d: int, g: nat): int { if g == 1 then d * 4 else if g == 2 then d % 16 * 16 else if g == 3 then d % 4 * 64 else 0 }

  lemma {:induction false} MoreDigits(ds: seq<Digit>, d: Digit)
    ensures var g := |ds| % 4; var t := ds + [d];
      && 0 <= Begun(ds) < 256 && Begun(t) == Bits(d, (g + 1) % 4)
      && |Complete(ds)| == 3 * (|ds| / 4) + (if g == 0 then 0 else g - 1)
      && (g == 0 ==> Complete(t) == Complete(ds))
      && (g == 1 ==> Begun(ds) + d / 16 < 256 && Complete(t) == Complete(ds) + [Begun(ds) + d / 16])
      && (g == 2 ==> Begun(ds) + d / 4 < 256 && Complete(t) == Complete(ds) + [Begun(ds) + d / 4])
      && (g == 3 ==> Begun(ds) + d < 256 && Complete(t) == Complete(ds) + [Begun(ds) + d])
    decreases |ds|
  {
    hide Complete, Begun, Bits;
    if |ds| >= 4 {
      var t := ds + [d];
      MoreDigits(ds[4..], d);
      FourDigits(ds);
      FourDigits(t);
      assert t[4..] == ds[4..] + [d] && t[..4] == ds[..4];
    } else {
      FirstGroup(ds, d);
    }
  }

  lemma FourDigits(ds: seq<Digit>)
    requires |ds| >= 4
    ensures Complete(ds) == Three(ds[..4][0], ds[..4][1], ds[..4][2], ds[..4][3]) + Complete(ds[4..])
    ensures Begun(ds) == Begun(ds[4..])
  {
    hide Three, Bits;
    assert (|ds| - 4) % 4 == |ds| % 4;
    if |ds| > 4 { assert ds[4..][|ds| - 5] == ds[|ds| - 1]; } else { NoBits(ds[3]); }
  }

  lemma NoBits(d: int)
    ensures Bits(d, 0) == 0
  {
  }

  lemma FirstGroup(ds: seq<Digit>, d: Digit)
    requires |ds| < 4
    ensures var g := |ds|; var t := ds + [d];
      && 0 <= Begun(ds) < 256 && Begun(t) == Bits(d, (g + 1) % 4)
      && |Complete(ds)| == (if g == 0 then 0 else g - 1)
      && (g == 0 ==> Complete(t) == Complete(ds))
      && (g == 1 ==> Begun(ds) + d / 16 < 256 && Complete(t) == Complete(ds) + [Begun(ds) + d / 16])
      && (g == 2 ==> Begun(ds) + d / 4 < 256 && Complete(t) == Complete(ds) + [Begun(ds) + d / 4])
      && (g == 3 ==> Begun(ds) + d < 256 && Complete(t) == Complete(ds) + [Begun(ds) + d])
  {
    if |ds| == 3 { assert (ds + [d])[4..] == []; }
  }

  lemma {:induction false} MergeComplete(ds: seq<Digit>)
    ensures Merge(ds) == if |ds| % 4 == 1 || Begun(ds) != 0 then None else Some(Complete(ds))
    decreases |ds|
  {
    hide Three, Begun, Complete, Merge;
    if |ds| >= 4 {
      MergeComplete(ds[4..]);
      MergeFour(ds);
      FourDigits(ds);
    } else {
      MergeFew(ds);
    }
  }

  lemma MergeFour(ds: seq<Digit>)
    requires |ds| >= 4
    ensures Merge(ds) ==
      if Merge(ds[4..]).Some? then Some(Three(ds[0], ds[1], ds[2], ds[3]) + Merge(ds[4..]).value) else None
    ensures ds[..4][0] == ds[0] && ds[..4][1] == ds[1] && ds[..4][2] == ds[2] && ds[..4][3] == ds[3] && |ds[4..]| % 4 == |ds| % 4
  {
    hide Three;
  }

  lemma MergeFew(ds: seq<Digit>)
    requires |ds| < 4
    ensures Merge(ds) == if |ds| % 4 == 1 || Begun(ds) != 0 then None else Some(Complete(ds))
  {
    hide B0, B1;
  }

  /** buffer_append_base64_decode: the decoded bytes, or None. */
  method Decode(cs: Charset, s: Octets) returns (r: Option<Octets>)
    ensures r == DecodeOf(cs, s)
  {
    hide Merge, Complete, Begun, Bits, Digits64, ReverseOf, PadOf, CharOf, Joined, Written;
    var result := new Byte[3 * (|s| / 4) + 3](_ => 0);
    var outPos, group := 0, 0;
    ghost var ds: seq<Digit> := [];
    NoDigits(Digits64(cs, s, 0));
    NoneWritten(result);
    assert s[0..] == s;
    var i := 0;
    while i < |s|
      invariant |ds| <= i <= |s| && group == |ds| % 4
      invariant outPos == 3 * (|ds| / 4) + (if group == 0 then 0 else group - 1)
      invariant Written(result, outPos, group, ds)
      invariant Digits64(cs, s, 0) == Joined(ds, Digits64(cs, s[i..], |ds|))
    {
      DigitsHead(cs, s, i, ds);
      var c := s[i];
      if c == NUL { break; }
      if c >= 128 { return None; }
      match ReverseOf(cs, c) {
        case Padding =>
          if group < 2 { return None; }
          break;
        case Skipped =>
        case Invalid => return None;
        case Is(d) =>
          TakeDigit(result, outPos, group, d, ds);
          if group > 0 { outPos := outPos + 1; }
          group := if group == 3 then 0 else group + 1;
          ds := ds + [d];
      }
      i := i + 1;
    }
    if i == |s| { DigitsEnd(cs, s, ds); }
    assert Digits64(cs, s, 0) == Some(ds);
    r := Left(result, outPos, group, ds);
  }

  /** The bytes of the complete groups, and the part of the next byte in its place. */
  ghost predicate Written(result: array<Byte>, outPos: nat, group: nat, ds: seq<Digit>)
    requires outPos < result.Length
    reads result
  {
    result[..outPos] == Complete(ds) && (group > 0 ==> result[outPos] == Begun(ds))
  }

  lemma NoneWritten(result: array<Byte>)
    requires result.Length > 0
    ensures Written(result, 0, 0, [])
  {
    NoDigits(None);
  }

  /** What is left over when the digits end. */
  method Left(result: array<Byte>, outPos: nat, group: nat, ghost ds: seq<Digit>) returns (r: Option<Octets>)
    requires group == |ds| % 4 && outPos < result.Length && Written(result, outPos, group, ds)
    ensures r == Merge(ds)
  {
    hide Merge, Complete, Begun;
    MergeComplete(ds);
    BegunZero(ds);
    match group {
      case 0 =>
      case 1 => return None;
      case _ =>
        if result[outPos] != 0 { return None; }
    }
    r := Some(result[..outPos]);
  }

  /** One digit's turn in the switch over its place in the group. */
  method TakeDigit(result: array<Byte>, outPos: nat, group: nat, d: Digit, ghost ds: seq<Digit>)
    requires group == |ds| % 4 && outPos == 3 * (|ds| / 4) + (if group == 0 then 0 else group - 1) && outPos + 1 < result.Length
    requires Written(result, outPos, group, ds)
    modifies result
    ensures Written(result, if group > 0 then outPos + 1 else outPos, if group == 3 then 0 else group + 1, ds + [d])
  {
    hide Complete, Begun;
    MoreDigits(ds, d);
    var e: int := d;
    match group {
      case 0 =>
        result[outPos] := e * 4;
      case 1 =>
        result[outPos] := result[outPos] + e / 16;
        result[outPos + 1] := e % 16 * 16;
      case 2 =>
        result[outPos] := result[outPos] + e / 4;
        result[outPos + 1] := e % 4 * 64;
      case 3 =>
        result[outPos] := result[outPos] + e;
    }
  }

  function Joined(ds: seq<Digit>, rest: Option<seq<Digit>>): Option<seq<Digit>> {
    if rest.Some? then Some(ds + rest.value) else None
  }

  lemma NoDigits(all: Option<seq<Digit>>)
    ensures Complete([]) == [] && Joined([], all) == all
  {
    if all.Some? { assert [] + all.value == all.value; }
  }

  lemma BegunZero(ds: seq<Digit>)
    ensures |ds| % 4 == 0 ==> Begun(ds) == 0
  {
  }

  lemma DigitsEnd(cs: Charset, s: Octets, ds: seq<Digit>)
    ensures Joined(ds, Digits64(cs, s[|s|..], |ds|)) == Some(ds)
  {
    assert ds + [] == ds;
  }

  lemma DigitsHead(cs: Charset, s: Octets, i: nat, ds: seq<Digit>)
    requires i < |s|
    ensures var c := s[i]; var here := Joined(ds, Digits64(cs, s[i..], |ds|));
      if c == NUL then here == Some(ds)
      else if c >= 128 then here == None
      else match ReverseOf(cs, c)
        case Padding => here == if |ds| % 4 < 2 then None else Some(ds)
        case Skipped => here == Joined(ds, Digits64(cs, s[i + 1..], |ds|))
        case Invalid => here == None
        case Is(d) => here == Joined(ds + [d], Digits64(cs, s[i + 1..], |ds + [d]|))
  {
    assert s[i..][0] == s[i] && s[i..][1..] == s[i + 1..];
    assert ds + [] == ds;
    if s[i] < 128 && s[i] != NUL && ReverseOf(cs, s[i]).Is? {
      var d, rest := ReverseOf(cs, s[i]).d, Digits64(cs, s[i + 1..], |ds| + 1);
      if rest.Some? { assert ds + ([d] + rest.value) == (ds + [d]) + rest.value; }
    }
  }

  // ---------------------------------------------------------------- round trips

  lemma {:induction false} DigitsOfChars(cs: Charset, ds: seq<Digit>, tail: Octets, n: nat)
    requires tail == [] || (tail[0] == PadOf(cs) && (n + |ds|) % 4 >= 2)
    ensures Digits64(cs, Chars(cs, ds) + tail, n) == Some(ds)
    decreases |ds|
  {
    hide ReverseOf, PadOf, CharOf;
    var s := Chars(cs, ds) + tail;
    if ds == [] {
      assert s == tail;
      ReverseChar(cs, 0);
    } else {
      ReverseChar(cs, ds[0]);
      DigitsOfChars(cs, ds[1..], tail, n + 1);
      assert s[0] == CharOf(cs, ds[0]) && s[1..] == Chars(cs, ds[1..]) + tail;
      assert ds == [ds[0]] + ds[1..];
    }
  }

  lemma {:induction false} SplitLength(b: Octets)
    ensures |Split(b)| % 4 == (if |b| % 3 == 0 then 0 else 1 + |b| % 3)
    decreases |b|
  {
    hide D1, D2;
    if |b| >= 3 {
      SplitLength(b[3..]);
      SplitMore(b);
      assert (|b| - 3) % 3 == |b| % 3;
    }
  }

  /** Decoding undoes encoding, without padding or with it. */
  lemma DecodeEncoded(cs: Charset, b: Octets, pads: Octets)
    requires pads == [] || (pads[0] == PadOf(cs) && |b| % 3 != 0)
    ensures DecodeOf(cs, Chars(cs, Split(b)) + pads) == Some(b)
  {
    hide Split, Merge, Digits64, Chars;
    SplitLength(b);
    DigitsOfChars(cs, Split(b), pads, 0);
    MergeSplit(b);
  }

  /** Text made of digits of the alphabet only. */
  ghost predicate AllDigits(cs: Charset, s: Octets) { forall i :: 0 <= i < |s| ==> s[i] < 128 && ReverseOf(cs, s[i]).Is? }

  function ValuesOf(cs: Charset, s: Octets): (ds: seq<Digit>)
    requires AllDigits(cs, s)
    ensures |ds| == |s|
  {
    seq(|s|, i requires 0 <= i < |s| => ReverseOf(cs, s[i]).d)
  }

  /** Text of digits decodes exactly when no single digit and no bits are left over, and is then what the
      decoded bytes are encoded to. */
  lemma EncodeDecoded(cs: Charset, s: Octets)
    requires AllDigits(cs, s)
    ensures var r := DecodeOf(cs, s);
      && (r.Some? <==> |s| % 4 != 1 && LeftOver(ValuesOf(cs, s)) == 0)
      && (r.Some? ==> Chars(cs, Split(r.value)) == s)
  {
    var ds := ValuesOf(cs, s);
    forall i | 0 <= i < |s| ensures Chars(cs, ds)[i] == s[i] { CharReverse(cs, s[i]); }
    assert Chars(cs, ds) == s && s + [] == s;
    DigitsOfChars(cs, ds, [], 0);
    MergeAccepts(ds);
    SplitMerge(ds);
  }

  /** What is sent encoded is received. */
  method RoundTrip(cs: Charset, b: Octets, padded: bool) returns (r: Option<Octets>)
    ensures r == Some(b)
  {
    var s;
    if padded {
      s := EncodePadded(cs, b);
      ghost var pads: Octets :| s == Chars(cs, Split(b)) + pads && |pads| == (3 - |b| % 3) % 3 && forall p :: p in pads ==> p == PadOf(cs);
      assert pads != [] ==> pads[0] in pads;
      DecodeEncoded(cs, b, pads);
    } else {
      s := EncodeNoPadding(cs, b);
      DecodeEncoded(cs, b, []);
      assert s + [] == s;
    }
    r := Decode(cs, s);
  }
}
