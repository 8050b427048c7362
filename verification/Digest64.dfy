/** The context that SHA-1 and MD5 share (algo_sha1.c, algo_md5.c): a state, a bit count of two words and a
    buffer for an incomplete block of 64 bytes. */
module Digest64 {
  import opened Bytes
  import opened BlockFold

  const WORD: nat := 0x1_0000_0000

  /** An update for which none of the code's 32-bit sums wraps, held bytes being in the buffer: exactly
      then the code is right (Sha1.GuardExact, Md5.LoopEndsExact). */
  predicate Short(held: nat, len: nat) { held + len < WORD }

  /** Every part is short enough when its turn comes. */
  predicate ShortParts(parts: seq<Octets>) {
    forall i :: 0 <= i < |parts| ==> Short(|Flat(parts[..i])| % 64, |parts[i]|)
  }

  class Context<S> {
    const f: (S, Octets) -> S
    ghost const start: S
    var state: S
    var count0: nat
    var count1: nat
    const buffer: array<Byte>

    constructor (f: (S, Octets) -> S, start: S)
      ensures this.f == f && this.start == start && Represents([]) && fresh(buffer)
    {
      this.f, this.start := f, start;
      state, count0, count1 := start, 0, 0;
      buffer := new Byte[64](_ => 0);
      new;
      assert 0 + WORD * 0 + WORD * WORD * 0 == 8 * 0;
      assert Bits(0, 0, 0);
    }

    /** The number of bytes in the buffer. */
    function Held(): (j: nat)
      reads this`count0
      ensures j < 64
    {
      count0 / 8 % 64
    }

    /** The context after the bytes m: the count is that of their bits modulo 2^64. */
    ghost predicate Represents(m: Octets)
      reads this, buffer
    {
      && buffer.Length == 64 && count0 < WORD && count1 < WORD && Bits(count0, count1, |m|)
      && state == Fold(64, f, start, m) && Held() == |m| % 64 && buffer[..Held()] == Rest(64, m)
    }

    /** SHA1_Update and li_MD5_Update, in 32-bit arithmetic */
    method Update(data: Octets, ghost m: Octets)
      requires Represents(m) && Short(Held(), |data|)
      modifies this, buffer
      ensures Represents(m + data)
    {
      hide Fold, Rest, Bits;
      var j := Held();
      ghost var t := Rest(64, m);
      Grow(64, f, start, m, data);
      RestLength(64, m + data);
      RestLength(64, m);
      AddCount(data, m);
      var i := 0;
      if (j + |data|) % WORD > 63 {
        i := FirstBlock(data, j);
        i := WholeBlocks(data, j, i);
        j := 0;
      } else {
        NoBlock(64, f, state, t + data);
      }
      NoBlock(64, f, state, data[i..]);
      assert data[0..] == data;
      CopyInto(buffer, j, data[i..]);
    }

    method AddCount(data: Octets, ghost m: Octets)
      requires count0 < WORD && count1 < WORD && Bits(count0, count1, |m|) && |data| < WORD
      modifies this`count0, this`count1
      ensures count0 < WORD && count1 < WORD && Bits(count0, count1, |m + data|) && Held() == |m + data| % 64
    {
      var add := |data| * 8 % WORD;
      ghost var c0, c1 := count0, count1;
      count0 := (count0 + add) % WORD;
      if count0 < add { count1 := (count1 + 1) % WORD; }
      count1 := (count1 + |data| / 0x2000_0000) % WORD;
      CountAdds(c0, c1, |m|, |data|);
      HeldIs(count0, count1, |m + data|);
    }

    /** The buffer filled up to a block. */
    method FirstBlock(data: Octets, j: nat) returns (i: nat)
      requires buffer.Length == 64 && j < 64 && j + |data| > 63
      modifies this`state, buffer
      ensures i == 64 - j <= |data|
      ensures var all := old(buffer[..j]) + data;
        Fold(64, f, state, data[i..]) == Fold(64, f, old(state), all) && Rest(64, data[i..]) == Rest(64, all)
    {
      hide Fold, Rest;
      ghost var t := buffer[..j];
      i := 64 - j;
      assert t + data == (t + data[..i]) + data[i..];
      OneBlock(64, f, state, t + data[..i], data[i..]);
      CopyInto(buffer, j, data[..i]);
      assert buffer[..] == buffer[..64];
      state := f(state, buffer[..]);
    }

    method WholeBlocks(data: Octets, ghost j: nat, from: nat) returns (i: nat)
      requires from <= |data| && j + |data| < WORD && (j + from) % 64 == 0
      modifies this`state
      ensures i <= |data| < i + 64
      ensures Fold(64, f, state, data[i..]) == Fold(64, f, old(state), data[from..]) && Rest(64, data[i..]) == Rest(64, data[from..])
    {
      hide Fold, Rest;
      i := from;
      NoWrap(j + i);
      while (i + 63) % WORD < |data|
        invariant i <= |data| && i + 63 < WORD && (j + i) % 64 == 0
        invariant Fold(64, f, state, data[i..]) == Fold(64, f, old(state), data[from..]) && Rest(64, data[i..]) == Rest(64, data[from..])
      {
        assert data[i..] == data[i..i + 64] + data[i + 64..];
        OneBlock(64, f, state, data[i..i + 64], data[i + 64..]);
        state := f(state, data[i..i + 64]);
        i := (i + 64) % WORD;
        NoWrap(j + i);
      }
    }
  }

  /** A multiple of 64 below 2^32 leaves room for a block's last index. */
  lemma NoWrap(n: nat)
    requires n < WORD && n % 64 == 0
    ensures n + 63 < WORD
  {
  }

  /** The two words of the bit count of n bytes. */
  ghost predicate Bits(c0: nat, c1: nat, n: nat) { exists k: nat :: c0 + WORD * c1 + WORD * WORD * k == 8 * n }

  lemma HeldIs(c0: nat, c1: nat, n: nat)
    requires Bits(c0, c1, n) && c0 < WORD && c1 < WORD
    ensures c0 / 8 % 64 == n % 64
  {
    var k: nat :| c0 + WORD * c1 + WORD * WORD * k == 8 * n;
    assert c0 == 8 * (n - 0x2000_0000 * c1 - 0x2000_0000 * WORD * k);
    var q := n - 0x2000_0000 * c1 - 0x2000_0000 * WORD * k;
    assert c0 / 8 == q;
    assert n == q + 64 * (0x80_0000 * c1 + 0x80_0000 * WORD * k);
    SameRemainder(n, q, 0x80_0000 * c1 + 0x80_0000 * WORD * k);
  }

  lemma SameRemainder(n: int, q: int, z: int)
    requires n == q + 64 * z
    ensures n % 64 == q % 64
  {
  }

  lemma CountWords(c0: nat, c1: nat, n: nat)
    requires Bits(c0, c1, n) && c0 < WORD && c1 < WORD
    ensures c0 == 8 * n % WORD && c1 == 8 * n / WORD % WORD
  {
    var k: nat :| c0 + WORD * c1 + WORD * WORD * k == 8 * n;
    var q := c1 + WORD * k;
    assert 8 * n == c0 + WORD * q;
    assert 8 * n / WORD == q;
  }

  lemma CountAdds(c0: nat, c1: nat, n: nat, len: nat)
    requires Bits(c0, c1, n) && c0 < WORD && c1 < WORD && len < WORD
    ensures var add := len * 8 % WORD; var d0 := (c0 + add) % WORD;
      var d1 := ((if d0 < add then (c1 + 1) % WORD else c1) + len / 0x2000_0000) % WORD;
      Bits(d0, d1, n + len)
  {
    var k: nat :| c0 + WORD * c1 + WORD * WORD * k == 8 * n;
    var add := len * 8 % WORD;
    var high := len / 0x2000_0000;
    assert 8 * len == add + WORD * high;
    var d0 := (c0 + add) % WORD;
    var carry := if d0 < add then 1 else 0;
    assert c0 + add == d0 + WORD * carry;
    var e1 := if d0 < add then (c1 + 1) % WORD else c1;
    var w1 := if e1 == c1 + carry then 0 else 1;
    assert c1 + carry == e1 + WORD * w1;
    var d1 := (e1 + high) % WORD;
    var w2 := if d1 == e1 + high then 0 else 1;
    assert e1 + high == d1 + WORD * w2;
    assert d0 + WORD * d1 + WORD * WORD * (k + w1 + w2) == 8 * (n + len);
  }

  // ---------------------------------------------------------------- padding

  function Zeros(k: nat): (z: Octets)
    ensures |z| == k
  {
    seq(k, _ => 0)
  }

  /** How many zero bytes follow the byte 0x80, so that eight bytes complete a block. */
  function ZeroCount(n: nat): (k: nat)
    ensures k < 64 && (n + 1 + k) % 64 == 56
  {
    (119 - n % 64) % 64
  }

  /** The message with its padding and the bytes of its bit count. */
  function Padded(m: Octets, lengthBytes: Octets): Octets { m + [0x80] + Zeros(ZeroCount(|m|)) + lengthBytes }

  lemma PaddedWhole(m: Octets, lengthBytes: Octets)
    requires |lengthBytes| == 8
    ensures |Padded(m, lengthBytes)| % 64 == 0
  {
  }
}
