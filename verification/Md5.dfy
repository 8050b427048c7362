/** MD5 (algo_md5.c) around its block transformation, which is a parameter here. */
module Md5 {
  import opened Bytes
  import opened BlockFold
  import opened Digest64

  type Word32 = x: int | 0 <= x < WORD

  /** A word's bytes, least significant first. */
  function LittleBytes(n: Word32): (s: Octets)
    ensures |s| == 4
  {
    [n % 256, n / 256 % 256, n / 0x1_0000 % 256, n / 0x100_0000 % 256]
  }

  function Encoded(ws: seq<Word32>): (s: Octets)
    ensures |s| == 4 * |ws|
  {
    if ws == [] then [] else Encoded(ws[..|ws| - 1]) + LittleBytes(ws[|ws| - 1])
  }

  /** Encode */
  method Encode(ws: seq<Word32>) returns (s: Octets)
    ensures s == Encoded(ws)
  {
    s := [];
    var i := 0;
    while i < |ws|
      invariant 0 <= i <= |ws| && s == Encoded(ws[..i])
    {
      assert ws[..i + 1][..i] == ws[..i];
      s := s + LittleBytes(ws[i]);
      i := i + 1;
    }
    assert ws[..|ws|] == ws;
  }

  /** Decode undoes Encode. */
  method Decode(s: Octets, ghost ws: seq<Word32>) returns (r: seq<Word32>)
    requires s == Encoded(ws)
    ensures r == ws
  {
    r := [];
    var i, j := 0, 0;
    while j < |s|
      invariant 0 <= i <= |ws| && j == 4 * i && r == ws[..i]
    {
      EncodedAt(ws, i);
      var a: int, b: int, c: int, d: int := s[j], s[j + 1], s[j + 2], s[j + 3];
      Assemble(ws[i]);
      r := r + [a + b * 256 + c * 0x1_0000 + d * 0x100_0000];
      i, j := i + 1, j + 4;
    }
  }

  lemma Assemble(n: Word32)
    ensures var s := LittleBytes(n);
      (s[0] as int) + (s[1] as int) * 256 + (s[2] as int) * 0x1_0000 + (s[3] as int) * 0x100_0000 == n
  {
    var q1, q2, q3 := n / 256, n / 0x1_0000, n / 0x100_0000;
    Division(n, q1);
    assert n == 256 * q1 + n % 256 && q1 == 256 * q2 + q1 % 256 && q2 == 256 * q3 + q2 % 256 && q3 < 256;
  }

  lemma Division(n: nat, q: nat)
    requires q == n / 256
    ensures q / 256 == n / 0x1_0000 && q / 0x1_0000 == n / 0x100_0000
  {
    Twice(n, 256);
    Twice(n, 0x1_0000);
  }

  lemma Twice(n: nat, k: nat)
    requires k == 256 || k == 0x1_0000
    ensures n / 256 / k == n / (256 * k)
  {
    var q := n / (256 * k);
    assert k * q <= n / 256 < k * q + k;
  }

  lemma {:induction false} EncodedAt(ws: seq<Word32>, i: nat)
    requires i < |ws|
    ensures Encoded(ws)[4 * i..4 * i + 4] == LittleBytes(ws[i])
    ensures var s := Encoded(ws); var t := LittleBytes(ws[i]);
      s[4 * i] == t[0] && s[4 * i + 1] == t[1] && s[4 * i + 2] == t[2] && s[4 * i + 3] == t[3]
    decreases |ws|
  {
    if i < |ws| - 1 {
      EncodedAt(ws[..|ws| - 1], i);
      assert Encoded(ws)[4 * i..4 * i + 4] == Encoded(ws[..|ws| - 1])[4 * i..4 * i + 4];
    }
  }

  /** The bit count of n bytes, modulo 2^64, in eight bytes. */
  function BitCount(n: nat): (s: Octets)
    ensures |s| == 8
  {
    LittleBytes(8 * n % WORD) + LittleBytes(8 * n / WORD % WORD)
  }

  /** The state after the padded message, from start and for the transformation f. */
  function Hash<S>(f: (S, Octets) -> S, start: S, m: Octets): S { Fold(64, f, start, Padded(m, BitCount(|m|))) }

  const PADDING: Octets := [0x80] + Zeros(63)

  /** li_MD5_Final, up to the words of the digest: the padding comes in one piece. */
  method Final<S>(c: Context<S>, ghost m: Octets) returns (state: S)
    requires c.Represents(m)
    modifies c, c.buffer
    ensures state == Hash(c.f, c.start, m)
  {
    hide Fold, Rest, Bits, LittleBytes;
    CountWords(c.count0, c.count1, |m|);
    TwoWords(c.count0, c.count1);
    var bits := Encode([c.count0, c.count1]);
    var ndx := c.Held();
    var padLen := if ndx < 56 then 56 - ndx else 120 - ndx;
    assert PADDING[..padLen] == [0x80] + Zeros(padLen - 1);
    assert padLen - 1 == ZeroCount(|m|);
    c.Update(PADDING[..padLen], m);
    assert m + PADDING[..padLen] == m + [0x80] + Zeros(ZeroCount(|m|));
    c.Update(bits, m + PADDING[..padLen]);
    state := c.state;
  }

  lemma TwoWords(c0: Word32, c1: Word32)
    ensures Encoded([c0, c1]) == LittleBytes(c0) + LittleBytes(c1)
  {
    assert [c0, c1][..1] == [c0] && [c0][..0] == [];
  }

  /** The index of the loop over whole blocks in li_MD5_Update after some turns, in 32-bit arithmetic. */
  function Index(held: nat, turns: nat): (i: nat)
    requires held < 64
  {
    (64 - held + 64 * turns) % WORD
  }

  /** That loop comes to an end exactly when its sums do not wrap: otherwise its guard holds for ever. */
  lemma LoopEndsExact(held: nat, len: nat)
    requires held < 64 && 64 - held <= len < WORD
    ensures (exists n: nat :: (Index(held, n) + 63) % WORD >= len) <==> Short(held, len)
  {
    if Short(held, len) {
      var n := (held + len) / 64 - 1;
      assert Index(held, n) == 64 - held + 64 * n;
      assert (Index(held, n) + 63) % WORD >= len;
    } else {
      forall n: nat ensures (Index(held, n) + 63) % WORD < len {
        IndexAligned(held, n);
      }
    }
  }

  /** The index is one that the loop reaches in its first turns, all of which leave the guard true. */
  lemma IndexAligned(held: nat, n: nat)
    requires 0 < held < 64
    ensures (Index(held, n) + 63) % WORD < WORD - held
  {
    var q := (64 * (n + 1)) % WORD;
    assert q % 64 == 0;
    if q == 0 {
      assert (64 * (n + 1) - held) % WORD == WORD - held;
    } else {
      assert (64 * (n + 1) - held) % WORD == q - held;
    }
  }

  /** With one byte held and 2^32 - 1 to come, the guard holds for every index that is reached. */
  lemma LoopGoesOn()
    ensures forall n: nat :: (Index(1, n) + 63) % WORD < WORD - 1
  {
    LoopEndsExact(1, WORD - 1);
  }

  /** li_MD5_Init, li_MD5_Update of the parts, and li_MD5_Final. */
  method Md5<S>(f: (S, Octets) -> S, start: S, parts: seq<Octets>) returns (state: S)
    requires ShortParts(parts)
    ensures state == Hash(f, start, Flat(parts))
  {
    hide Fold, Rest;
    var c := new Context<S>(f, start);
    ghost var m: Octets := [];
    for i := 0 to |parts|
      invariant fresh(c) && fresh(c.buffer) && m == Flat(parts[..i]) && c.Represents(m) && c.f == f && c.start == start
    {
      assert parts[..i + 1][..i] == parts[..i] && parts[i] in parts;
      c.Update(parts[i], m);
      m := m + parts[i];
    }
    assert parts[..|parts|] == parts;
    state := Final(c, m);
  }
}
