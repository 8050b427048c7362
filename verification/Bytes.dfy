/** Bytes and the C library searches that several components use. */
module Bytes {

  type Byte = x: int | 0 <= x < 256
  type Octets = seq<Byte>

  const NUL: Byte := 0
  const TAB: Byte := 9
  const LF: Byte := 10
  const CR: Byte := 13
  const SP: Byte := 32
  const SEMICOLON: Byte := 59

  const CRLF: Octets := [CR, LF]

  datatype Option<T> = None | Some(value: T)

  /** memchr as an offset: the first occurrence of c, or |s|. */
  function Find(s: Octets, c: Byte): (k: nat)
    ensures k <= |s| && c !in s[..k] && (k < |s| ==> s[k] == c)
  {
    if s == [] || s[0] == c then 0
    else
      var k := Find(s[1..], c);
      assert s[..k + 1] == [s[0]] + s[1..][..k];
      k + 1
  }

  lemma FindIs(s: Octets, c: Byte, k: nat)
    requires k < |s| && s[k] == c && c !in s[..k]
    ensures Find(s, c) == k
  {
    var f := Find(s, c);
    assert forall j :: 0 <= j < k ==> s[..k][j] == s[j];
    assert forall j :: 0 <= j < f ==> s[..f][j] == s[j];
  }

  lemma FindAbsent(s: Octets, c: Byte)
    ensures c !in s <==> Find(s, c) == |s|
  {
    assert s[..|s|] == s;
  }

  /** The value of a hexadecimal digit (hex2int, li_cton); None stands for 0xFF. */
  function HexValue(c: Byte): (v: Option<nat>)
    ensures v.Some? ==> v.value < 16
  {
    if 48 <= c <= 57 then Some(c - 48)
    else if 65 <= c <= 70 then Some(c - 55)
    else if 97 <= c <= 102 then Some(c - 87)
    else None
  }

  /** The bytes of a text in ASCII. */
  function Ascii(text: string): (s: Octets)
    ensures |s| == |text|
  {
    seq(|text|, i requires 0 <= i < |text| => text[i] as int % 128)
  }

  lemma Characters()
    ensures [TAB, LF, CR, SP, SEMICOLON] == Ascii("\t\n\r ;") && CRLF == Ascii("\r\n") && NUL == 0
  {
  }

  const UPPER_CASE := "ABCDEFGHIJKLMNOPQRSTUVWXYZ"
  const LOWER_CASE := "abcdefghijklmnopqrstuvwxyz"
  const DIGITS := "0123456789"

  /** A character of text. */
  ghost predicate Among(c: Byte, text: string) { exists i :: 0 <= i < |text| && text[i] as int == c }

  lemma AmongBoth(c: Byte, a: string, b: string)
    ensures Among(c, a + b) <==> Among(c, a) || Among(c, b)
  {
    if i :| 0 <= i < |a| && a[i] as int == c { assert (a + b)[i] == a[i]; }
    if i :| 0 <= i < |b| && b[i] as int == c { assert (a + b)[|a| + i] == b[i]; }
  }

  lemma UpperAt(k: nat)
    requires k < 26
    ensures UPPER_CASE[k] as int == 65 + k
  {
  }

  lemma LowerAt(k: nat)
    requires k < 26
    ensures LOWER_CASE[k] as int == 97 + k
  {
  }

  lemma DigitAt(k: nat)
    requires k < 10
    ensures DIGITS[k] as int == 48 + k
  {
  }

  lemma UpperCase(c: Byte)
    ensures Among(c, UPPER_CASE) <==> 65 <= c <= 90
  {
    forall i | 0 <= i < 26 ensures UPPER_CASE[i] as int == 65 + i { UpperAt(i); }
    if 65 <= c <= 90 { assert UPPER_CASE[c - 65] as int == c; }
  }

  lemma LowerCase(c: Byte)
    ensures Among(c, LOWER_CASE) <==> 97 <= c <= 122
  {
    forall i | 0 <= i < 26 ensures LOWER_CASE[i] as int == 97 + i { LowerAt(i); }
    if 97 <= c <= 122 { assert LOWER_CASE[c - 97] as int == c; }
  }

  lemma Alphanumeric(c: Byte)
    ensures Among(c, UPPER_CASE + LOWER_CASE + DIGITS) <==> 48 <= c <= 57 || 65 <= c <= 90 || 97 <= c <= 122
  {
    hide Among;
    UpperCase(c);
    LowerCase(c);
    Digits(c);
    AmongBoth(c, UPPER_CASE, LOWER_CASE);
    AmongBoth(c, UPPER_CASE + LOWER_CASE, DIGITS);
  }

  lemma Digits(c: Byte)
    ensures Among(c, DIGITS) <==> 48 <= c <= 57
  {
    if 48 <= c <= 57 { assert DIGITS[c - 48] as int == c; }
  }

  /** The digits of base 16, in both cases. */
  lemma HexTable(d: nat)
    requires d < 16
    ensures Ascii("0123456789abcdef")[d] == if d < 10 then 48 + d else 87 + d
    ensures Ascii("0123456789ABCDEF")[d] == if d < 10 then 48 + d else 55 + d
  {
    assert "0123456789abcdef"[d] as int == if d < 10 then 48 + d else 87 + d;
    assert "0123456789ABCDEF"[d] as int == if d < 10 then 48 + d else 55 + d;
  }

  /** A byte has a value exactly if it is one of them, and then its place among them. */
  lemma HexDigit(c: Byte, d: nat)
    ensures HexValue(c) == Some(d) <==> d < 16 && (c == Ascii("0123456789abcdef")[d] || c == Ascii("0123456789ABCDEF")[d])
  {
    hide Ascii;
    if d < 16 { HexTable(d); }
  }

  /** The byte at offset i of a buffer that ends with a terminating zero. */
  function At(s: Octets, i: nat): Byte
    requires i <= |s|
  {
    if i < |s| then s[i] else NUL
  }

  /** The part of a buffer that the C string functions see. */
  function CString(s: Octets): Octets { s[..Find(s, NUL)] }

  /** strrchr as an offset: the last occurrence of c, or |s|. */
  function FindLast(s: Octets, c: Byte): (k: nat)
    ensures k <= |s| && (k < |s| ==> s[k] == c && c !in s[k + 1..])
    ensures k == |s| ==> c !in s
  {
    if s == [] then 0
    else if s[|s| - 1] == c then |s| - 1
    else
      var init := s[..|s| - 1];
      var k := FindLast(init, c);
      assert s == init + [s[|s| - 1]];
      if k < |init| then assert s[k + 1..] == init[k + 1..] + [s[|s| - 1]]; k else |s|
  }

  /** Bytes that arrive in blocks. */
  function Flat(parts: seq<Octets>): Octets {
    if parts == [] then [] else Flat(parts[..|parts| - 1]) + parts[|parts| - 1]
  }

  lemma {:induction false} FlatPrefix(parts: seq<Octets>, i: nat)
    requires i <= |parts|
    ensures Flat(parts[..i]) <= Flat(parts)
    ensures i < |parts| && parts[|parts| - 1] != [] ==> |Flat(parts[..i])| < |Flat(parts)|
    decreases |parts|
  {
    if i == |parts| {
      assert parts[..i] == parts;
    } else {
      var init := parts[..|parts| - 1];
      assert init[..i] == parts[..i];
      FlatPrefix(init, i);
    }
  }

  predicate EndsWith(s: Octets, t: Octets) { |t| <= |s| && s[|s| - |t|..] == t }

  function Min(a: int, b: int): int { if a < b then a else b }
  function Max(a: int, b: int): int { if a < b then b else a }

  /** A rotation to the left. */
  function Rotl(x: bv32, n: nat): bv32
    requires n <= 32
  {
    (x << n) | (x >> (32 - n))
  }

  /** memcpy into a buffer, behind the bytes before at. */
  method CopyInto(buf: array<Byte>, at: nat, s: Octets)
    requires at + |s| <= buf.Length
    modifies buf
    ensures buf[..at + |s|] == old(buf[..at]) + s
  {
    forall i | 0 <= i < |s| { buf[at + i] := s[i]; }
  }
}
