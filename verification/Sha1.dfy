/** SHA-1 (algo_sha1.c) against the definition in sections 5 and 6 of RFC 3174. */
module Sha1 {
  import opened Bytes
  import opened BlockFold
  import opened Digest64

  datatype Words = Words(a: bv32, b: bv32, c: bv32, d: bv32, e: bv32)

  const INIT := Words(0x67452301, 0xEFCDAB89, 0x98BADCFE, 0x10325476, 0xC3D2E1F0)

  // ---------------------------------------------------------------- the definition

  function Big(a: Byte, b: Byte, c: Byte, d: Byte): bv32 {
    ((a as bv32) << 24) | ((b as bv32) << 16) | ((c as bv32) << 8) | (d as bv32)
  }

  function WordAt(block: Octets, t: nat): bv32
    requires 4 * t + 4 <= |block|
  {
    Big(block[4 * t], block[4 * t + 1], block[4 * t + 2], block[4 * t + 3])
  }

  function Next(w3: bv32, w8: bv32, w14: bv32, w16: bv32): bv32 { Rotl(w3 ^ w8 ^ w14 ^ w16, 1) }

  /** The message schedule of 80 words. */
  function W(block: Octets, t: nat): bv32
    requires |block| == 64
  {
    if t < 16 then WordAt(block, t)
    else Next(W(block, t - 3), W(block, t - 8), W(block, t - 14), W(block, t - 16))
  }

  function F(t: nat, b: bv32, c: bv32, d: bv32): bv32 {
    if t < 20 then (b & c) | (!b & d)
    else if t < 40 then b ^ c ^ d
    else if t < 60 then (b & c) | (b & d) | (c & d)
    else b ^ c ^ d
  }

  function K(t: nat): bv32 { if t < 20 then 0x5A827999 else if t < 40 then 0x6ED9EBA1 else if t < 60 then 0x8F1BBCDC else 0xCA62C1D6 }

  function Sum(a: bv32, b: bv32, c: bv32, d: bv32, e: bv32): bv32 { a + b + c + d + e }

  function Step(t: nat, s: Words, w: bv32): Words {
    Words(Sum(Rotl(s.a, 5), F(t, s.b, s.c, s.d), s.e, w, K(t)), s.a, Rotl(s.b, 30), s.c, s.d)
  }

  /** The words after the first t steps. */
  function Steps(s: Words, block: Octets, t: nat): Words
    requires |block| == 64
  {
    if t == 0 then s else Step(t - 1, Steps(s, block, t - 1), W(block, t - 1))
  }

  function Plus(s: Words, t: Words): Words { Words(s.a + t.a, s.b + t.b, s.c + t.c, s.d + t.d, s.e + t.e) }

  function Compress(s: Words, block: Octets): Words { if |block| != 64 then s else Plus(s, Steps(s, block, 80)) }

  // ---------------------------------------------------------------- the transformation

  /** The code's forms of the functions of rounds 0 to 19 and 40 to 59. */
  function Mixed(t: nat, w: bv32, x: bv32, y: bv32): bv32 {
    if t < 20 then (w & (x ^ y)) ^ y
    else if t < 40 then w ^ x ^ y
    else if t < 60 then ((w | x) & y) | (w & x)
    else w ^ x ^ y
  }

  lemma SameFunctions(t: nat, w: bv32, x: bv32, y: bv32)
    ensures Mixed(t, w, x, y) == F(t, w, x, y)
  {
    Choice(w, x, y);
    Majority(w, x, y);
  }

  lemma Choice(w: bv32, x: bv32, y: bv32)
    ensures (w & (x ^ y)) ^ y == (w & x) | (!w & y)
  {
  }

  lemma Majority(w: bv32, x: bv32, y: bv32)
    ensures ((w | x) & y) | (w & x) == (w & x) | (w & y) | (x & y)
  {
  }

  /** The array of 16 words before step t: the last 16 words of the schedule, each at its index modulo 16. */
  ghost predicate Window(l: seq<bv32>, block: Octets, t: nat)
    requires |block| == 64
  {
    |l| == 16 && forall k: nat :: t - 16 <= k < t ==> l[k % 16] == W(block, k)
  }

  lemma Indices(t: nat)
    requires t >= 16
    ensures (t + 13) % 16 == (t - 3) % 16 && (t + 8) % 16 == (t - 8) % 16 && (t + 2) % 16 == (t - 14) % 16 && t % 16 == (t - 16) % 16
  {
    Sixteen(t + 13, t - 3);
    Sixteen(t + 8, t - 8);
    Sixteen(t + 2, t - 14);
    Sixteen(t, t - 16);
  }

  lemma Sixteen(a: nat, b: nat)
    requires a == b + 16
    ensures a % 16 == b % 16
  {
  }

  lemma Slide(l: seq<bv32>, block: Octets, t: nat)
    requires |block| == 64 && Window(l, block, t)
    ensures Window(l[t % 16 := W(block, t)], block, t + 1)
  {
    hide W;
    var l' := l[t % 16 := W(block, t)];
    forall k: nat | t + 1 - 16 <= k < t + 1 ensures l'[k % 16] == W(block, k) {
      if k < t { Apart(t, k); }
    }
  }

  lemma Apart(t: nat, k: nat)
    requires t - 16 < k < t
    ensures t % 16 != k % 16
  {
  }

  /** blk0 and blk: the word of step t, which replaces the one of 16 steps before. */
  method Schedule(l: array<bv32>, block: Octets, t: nat) returns (w: bv32)
    requires |block| == 64 && Window(l[..], block, t)
    modifies l
    ensures w == W(block, t) && Window(l[..], block, t + 1)
  {
    hide Next, Big;
    ghost var was := l[..];
    if t < 16 {
      w := WordAt(block, t);
    } else {
      Indices(t);
      w := Next(l[(t + 13) % 16], l[(t + 8) % 16], l[(t + 2) % 16], l[t % 16]);
      assert was[(t - 3) % 16] == W(block, t - 3) && was[(t - 8) % 16] == W(block, t - 8);
      assert was[(t - 14) % 16] == W(block, t - 14) && was[(t - 16) % 16] == W(block, t - 16);
    }
    Slide(was, block, t);
    l[t % 16] := w;
    assert l[..] == was[t % 16 := w];
  }

  /** What R0 to R4 make of their argument z; they also rotate w. */
  function Added(t: nat, v: bv32, w: bv32, x: bv32, y: bv32, z: bv32, word: bv32): bv32 {
    Sum(z, Mixed(t, w, x, y), word, K(t), Rotl(v, 5))
  }

  lemma MacroIsStep(t: nat, v: bv32, w: bv32, x: bv32, y: bv32, z: bv32, word: bv32)
    ensures Words(Added(t, v, w, x, y, z, word), v, Rotl(w, 30), x, y) == Step(t, Words(v, w, x, y, z), word)
  {
    hide Mixed, F, K, Rotl, Sum;
    SameFunctions(t, w, x, y);
    Reordered(z, F(t, w, x, y), word, K(t), Rotl(v, 5));
  }

  lemma Reordered(e: bv32, f: bv32, w: bv32, k: bv32, r: bv32)
    ensures Sum(e, f, w, k, r) == Sum(r, f, e, w, k)
  {
  }

  /** R0 to R4 at step t, in place in z and w: what they leave are the next step's variables, with z first. */
  method Macro(v: bv32, w: bv32, x: bv32, y: bv32, z: bv32, t: nat, l: array<bv32>, block: Octets, ghost state: Words)
    returns (z': bv32, w': bv32)
    requires |block| == 64 && Window(l[..], block, t) && Words(v, w, x, y, z) == Steps(state, block, t)
    modifies l
    ensures Window(l[..], block, t + 1) && Words(z', v, w', x, y) == Steps(state, block, t + 1)
  {
    hide W, Step, Added, Rotl;
    var word := Schedule(l, block, t);
    MacroIsStep(t, v, w, x, y, z, word);
    z', w' := Added(t, v, w, x, y, z, word), Rotl(w, 30);
  }

  /** SHA1_Transform, whose 80 calls repeat after every fifth: in place in 16 words and five variables that
      take each other's part from call to call, it is the compression with the whole schedule. */
  method Transform(state: Words, block: Octets) returns (r: Words)
    requires |block| == 64
    ensures r == Compress(state, block)
  {
    hide W, Steps, Plus, Window;
    var l := new bv32[16](_ => 0);
    var a, b, c, d, e := state.a, state.b, state.c, state.d, state.e;
    AtFirst(l[..], state, block);
    for i := 0 to 16
      invariant Window(l[..], block, 5 * i) && Words(a, b, c, d, e) == Steps(state, block, 5 * i)
    {
      e, b := Macro(a, b, c, d, e, 5 * i, l, block, state);
      d, a := Macro(e, a, b, c, d, 5 * i + 1, l, block, state);
      c, e := Macro(d, e, a, b, c, 5 * i + 2, l, block, state);
      b, d := Macro(c, d, e, a, b, 5 * i + 3, l, block, state);
      a, c := Macro(b, c, d, e, a, 5 * i + 4, l, block, state);
    }
    r := Plus(state, Words(a, b, c, d, e));
  }

  lemma AtFirst(l: seq<bv32>, state: Words, block: Octets)
    requires |block| == 64 && |l| == 16
    ensures Window(l, block, 0) && Steps(state, block, 0) == state
  {
  }

  // ---------------------------------------------------------------- the digest

  /** A word's bytes, most significant first. */
  function BigBytes(n: nat): (s: Octets)
    requires n < WORD
    ensures |s| == 4
  {
    [n / 0x100_0000, n / 0x1_0000 % 256, n / 256 % 256, n % 256]
  }

  /** The bit count of n bytes, modulo 2^64, in eight bytes. */
  function BitCount(n: nat): (s: Octets)
    ensures |s| == 8
  {
    BigBytes(8 * n / WORD % WORD) + BigBytes(8 * n % WORD)
  }

  /** The five words of the hash. */
  function Hash(m: Octets): Words { Fold(64, Compress, INIT, Padded(m, BitCount(|m|))) }

  /** The guard of SHA1_Update keeps what it copies within the buffer of 64 bytes exactly when its 32-bit
      sum does not wrap. */
  lemma GuardExact(held: nat, len: nat)
    requires held < 64 && len < WORD
    ensures ((held + len) % WORD > 63 || held + len <= 64) <==> Short(held, len)
  {
    if held + len >= WORD { assert (held + len) % WORD == held + len - WORD; }
  }

  /** With one byte held and 2^32 - 1 to come, all of them would be copied behind it. */
  lemma GuardWraps()
    ensures var held, len := 1, WORD - 1; (held + len) % WORD == 0 && held + len > 64 && !Short(held, len)
  {
  }

  /** SHA1_Init, SHA1_Update of the parts, and SHA1_Final up to the words of the digest. */
  method Sha1(parts: seq<Octets>) returns (digest: Words)
    requires ShortParts(parts)
    ensures digest == Hash(Flat(parts))
  {
    hide Compress, Fold, Rest;
    var c := new Context<Words>(Compress, INIT);
    ghost var m: Octets := [];
    for i := 0 to |parts|
      invariant fresh(c) && fresh(c.buffer) && m == Flat(parts[..i]) && c.Represents(m) && c.f == Compress && c.start == INIT
    {
      assert parts[..i + 1][..i] == parts[..i] && parts[i] in parts;
      c.Update(parts[i], m);
      m := m + parts[i];
    }
    assert parts[..|parts|] == parts;
    digest := Final(c, m);
  }

  /** SHA1_Final: the byte 0x80, zero bytes one at a time until 56 of 64 are held, and the bit count. */
  method Final(c: Context<Words>, ghost m: Octets) returns (digest: Words)
    requires c.Represents(m) && c.f == Compress && c.start == INIT
    modifies c, c.buffer
    ensures digest == Hash(m)
  {
    hide Compress, Fold, Rest, Bits, BigBytes;
    CountWords(c.count0, c.count1, |m|);
    var finalcount := BigBytes(c.count1) + BigBytes(c.count0);
    c.Update([0x80], m);
    ghost var n := 0;
    assert m + [0x80] + Zeros(0) == m + [0x80];
    while c.Held() * 8 != 448
      invariant c.f == Compress && c.start == INIT && n <= ZeroCount(|m|)
      invariant c.Represents(m + [0x80] + Zeros(n))
      decreases ZeroCount(|m|) - n
    {
      ZerosMissing(|m|, n, c.Held());
      c.Update([0], m + [0x80] + Zeros(n));
      assert m + [0x80] + Zeros(n) + [0] == m + [0x80] + Zeros(n + 1);
      n := n + 1;
    }
    ZerosDone(|m|, n, c.Held());
    c.Update(finalcount, m + [0x80] + Zeros(n));
    digest := c.state;
  }

  lemma ZerosMissing(len: nat, n: nat, held: nat)
    requires n <= ZeroCount(len) && held == (len + 1 + n) % 64 && held != 56
    ensures n < ZeroCount(len)
  {
  }

  lemma ZerosDone(len: nat, n: nat, held: nat)
    requires n <= ZeroCount(len) && held == (len + 1 + n) % 64 && held == 56
    ensures n == ZeroCount(len)
  {
  }
}
