/** XXH32 (algo_xxhash.h): the streaming interface gives the one-shot hash for every split of the input, and
    the unrolled finalisation is the loop. */
module Xxh32 {
  import opened Bytes
  import opened BlockFold

  const P1: bv32 := 0x9E3779B1
  const P2: bv32 := 0x85EBCA77
  const P3: bv32 := 0xC2B2AE3D
  const P4: bv32 := 0x27D4EB2F
  const P5: bv32 := 0x165667B1

  /** XXH_readLE32 */
  function Word(s: Octets): bv32
    requires |s| >= 4
  {
    Little(s[0], s[1], s[2], s[3])
  }

  function Little(a: Byte, b: Byte, c: Byte, d: Byte): bv32 {
    (a as bv32) | ((b as bv32) << 8) | ((c as bv32) << 16) | ((d as bv32) << 24)
  }

  /** The length joins the hash modulo 2^32. */
  function AddLength(h: bv32, n: nat): bv32 { AddWord(h, n % 0x1_0000_0000) }

  function AddWord(h: bv32, n: nat): bv32
    requires n < 0x1_0000_0000
  {
    h + (n as bv32)
  }

  /** The start for messages without a complete block. */
  function Short(seed: bv32): bv32 { seed + P5 }

  /** XXH32_round */
  function Round(acc: bv32, w: bv32): bv32 { Rotl(acc + w * P2, 13) * P1 }

  /** XXH32_avalanche */
  function Avalanche(h: bv32): bv32 {
    var a := (h ^ (h >> 15)) * P2;
    var b := (a ^ (a >> 13)) * P3;
    b ^ (b >> 16)
  }

  datatype Lanes = Lanes(v1: bv32, v2: bv32, v3: bv32, v4: bv32)

  function Init(seed: bv32): Lanes { Lanes(seed + P1 + P2, seed + P2, seed, seed - P1) }

  /** The four rounds on a block of 16 bytes. */
  function Stripe(v: Lanes, b: Octets): Lanes {
    if |b| < 16 then v
    else Lanes(Round(v.v1, Word(b)), Round(v.v2, Word(b[4..])), Round(v.v3, Word(b[8..])), Round(v.v4, Word(b[12..])))
  }

  function Merge(v: Lanes): bv32 { Rotl(v.v1, 1) + Rotl(v.v2, 7) + Rotl(v.v3, 12) + Rotl(v.v4, 18) }

  function Process4(h: bv32, s: Octets): bv32
    requires |s| >= 4
  {
    ProcessWord(h, Word(s))
  }

  function ProcessWord(h: bv32, w: bv32): bv32 { Rotl(h + w * P3, 17) * P4 }

  function Process1(h: bv32, c: Byte): bv32 { Rotl(h + (c as bv32) * P5, 11) * P1 }

  /** The bytes behind the last block, four at a time and then singly. */
  function Tail(h: bv32, s: Octets): bv32
    decreases |s|
  {
    if |s| >= 4 then Tail(Process4(h, s), s[4..])
    else if s == [] then h
    else Tail(Process1(h, s[0]), s[1..])
  }

  /** The hash of a message. */
  function Hash(m: Octets, seed: bv32): bv32 {
    var h := if |m| >= 16 then Merge(Fold(16, Stripe, Init(seed), m)) else Short(seed);
    Avalanche(Tail(AddLength(h, |m|), Rest(16, m)))
  }

  // ---------------------------------------------------------------- finalisation

  /** XXH32_finalize, rolled */
  method FinalizeLoop(h0: bv32, s: Octets, len0: nat) returns (r: bv32)
    requires len0 % 16 <= |s|
    ensures r == Avalanche(Tail(h0, s[..len0 % 16]))
  {
    hide Process4, Process1, Avalanche, Tail;
    var h, p, len := h0, 0, len0 % 16;
    ghost var t := s[..len];
    assert t[0..] == t;
    while len >= 4
      invariant len >= 0 && p + len == |t| && Tail(h0, t) == Tail(h, t[p..])
    {
      h, p := Four(h, s, p, t);
      len := len - 4;
    }
    while len > 0
      invariant 0 <= len < 4 && p + len == |t| && Tail(h0, t) == Tail(h, t[p..])
    {
      h, p := One(h, s, p, t);
      len := len - 1;
    }
    r := Finished(h, p, t);
  }

  lemma SameSlice(s: Octets, t: Octets, p: nat)
    requires t <= s && p + 4 <= |t|
    ensures s[p..][..4] == t[p..][..4]
  {
    assert s[p..p + 4] == t[p..p + 4];
  }

  lemma SameWord(h: bv32, s: Octets, t: Octets)
    requires |s| >= 4 && |t| >= 4 && s[..4] == t[..4]
    ensures Process4(h, s) == Process4(h, t)
  {
    hide Little, Rotl, ProcessWord;
    assert forall i :: 0 <= i < 4 ==> s[i] == s[..4][i] == t[..4][i] == t[i];
  }

  /** XXH32_finalize, unrolled: a switch of 16 cases in four groups, which fall through from the longest tail
      to the shortest. */
  method FinalizeUnrolled(h0: bv32, s: Octets, len: nat) returns (r: bv32)
    requires len % 16 <= |s|
    ensures r == Avalanche(Tail(h0, s[..len % 16]))
  {
    hide Process4, Process1, Avalanche, Tail;
    var n := len % 16;
    ghost var t := s[..n];
    var h, p := h0, 0;
    assert t[0..] == t;
    if n in {12, 8, 4} {
      if n == 12 { h, p := Four(h, s, p, t); }
      if n in {12, 8} { h, p := Four(h, s, p, t); }
      h, p := Four(h, s, p, t);
      return Finished(h, p, t);
    } else if n in {13, 9, 5} {
      if n == 13 { h, p := Four(h, s, p, t); }
      if n in {13, 9} { h, p := Four(h, s, p, t); }
      h, p := Four(h, s, p, t);
      h, p := One(h, s, p, t);
      return Finished(h, p, t);
    } else if n in {14, 10, 6} {
      if n == 14 { h, p := Four(h, s, p, t); }
      if n in {14, 10} { h, p := Four(h, s, p, t); }
      h, p := Four(h, s, p, t);
      h, p := One(h, s, p, t);
      h, p := One(h, s, p, t);
      return Finished(h, p, t);
    } else {
      if n == 15 { h, p := Four(h, s, p, t); }
      if n in {15, 11} { h, p := Four(h, s, p, t); }
      if n in {15, 11, 7} { h, p := Four(h, s, p, t); }
      if n in {15, 11, 7, 3} { h, p := One(h, s, p, t); }
      if n in {15, 11, 7, 3, 2} { h, p := One(h, s, p, t); }
      if n in {15, 11, 7, 3, 2, 1} { h, p := One(h, s, p, t); }
      return Finished(h, p, t);
    }
  }

  /** The hash when the whole tail has been taken in. */
  function Finished(h: bv32, p: nat, ghost t: Octets): (r: bv32)
    requires p == |t|
    ensures r == Avalanche(Tail(h, t[p..]))
  {
    assert t[p..] == [];
    Avalanche(h)
  }

  /** XXH_PROCESS4 */
  method Four(h: bv32, s: Octets, p: nat, ghost t: Octets) returns (h': bv32, p': nat)
    requires p + 4 <= |t| && t <= s
    ensures p' == p + 4 && Tail(h, t[p..]) == Tail(h', t[p'..])
  {
    hide Process4, Process1;
    SameSlice(s, t, p);
    SameWord(h, s[p..], t[p..]);
    assert t[p..][4..] == t[p + 4..];
    h', p' := Process4(h, s[p..]), p + 4;
  }

  /** XXH_PROCESS1 */
  method One(h: bv32, s: Octets, p: nat, ghost t: Octets) returns (h': bv32, p': nat)
    requires p < |t| < p + 4 && t <= s
    ensures p' == p + 1 && Tail(h, t[p..]) == Tail(h', t[p'..])
  {
    hide Process4, Process1;
    assert t[p..][0] == s[p] && t[p..][1..] == t[p + 1..];
    h', p' := Process1(h, s[p]), p + 1;
  }

  // ---------------------------------------------------------------- one-shot

  /** XXH32_endian_align */
  method OneShot(m: Octets, seed: bv32) returns (r: bv32)
    ensures r == Hash(m, seed)
  {
    hide Stripe, Merge, Tail, Avalanche, Rotl, Init, AddLength, Short;
    var p, h := 0, Short(seed);
    ghost var v0 := Init(seed);
    assert m[0..] == m;
    if |m| >= 16 {
      var v := Init(seed);
      var first := true;
      while first || |m| - p >= 16
        invariant p <= |m| && (first ==> p == 0) && Fold(16, Stripe, v0, m) == Fold(16, Stripe, v, m[p..]) && Rest(16, m) == Rest(16, m[p..])
        decreases |m| - p
      {
        first := false;
        assert m[p..] == m[p..p + 16] + m[p + 16..];
        OneBlock(16, Stripe, v, m[p..p + 16], m[p + 16..]);
        v := Stripe(v, m[p..p + 16]);
        p := p + 16;
      }
      NoBlock(16, Stripe, v, m[p..]);
      h := Merge(v);
    } else {
      NoBlock(16, Stripe, v0, m);
    }
    RestLength(16, m);
    h := AddLength(h, |m|);
    assert m[p..][..|m| % 16] == m[p..];
    r := FinalizeUnrolled(h, m[p..], |m| % 16);
  }

  // ---------------------------------------------------------------- streaming

  class State {
    var v: Lanes
    var totalLen32: nat
    var largeLen: bool
    const mem32: array<Byte>
    var memsize: nat

    /** XXH32_reset */
    constructor (seed: bv32)
      ensures Represents([], seed) && fresh(mem32)
    {
      v, totalLen32, largeLen, memsize := Init(seed), 0, false, 0;
      mem32 := new Byte[16](_ => 0);
    }

    /** The state after the bytes m. */
    ghost predicate Represents(m: Octets, seed: bv32)
      reads this, mem32
    {
      && mem32.Length == 16 && memsize < 16 && v == Fold(16, Stripe, Init(seed), m) && mem32[..memsize] == Rest(16, m)
      && totalLen32 == |m| % 0x1_0000_0000 && (largeLen <==> |m| >= 16)
    }

    /** XXH32_update */
    method Update(data: Octets, ghost m: Octets, ghost seed: bv32)
      requires Represents(m, seed)
      modifies this, mem32
      ensures Represents(m + data, seed)
    {
      hide Stripe, Init, Fold, Rest;
      ghost var t := Rest(16, m);
      Grow(16, Stripe, Init(seed), m, data);
      totalLen32 := (totalLen32 + |data|) % 0x1_0000_0000;
      Wraps(|m|, |data|);
      largeLen := largeLen || |data| >= 16 || totalLen32 >= 16;
      if memsize + |data| < 16 {
        NoBlock(16, Stripe, v, t + data);
        CopyInto(mem32, memsize, data);
        memsize := memsize + |data|;
        return;
      }
      var p := FirstBlock(data);
      p := WholeBlocks(data, p);
      NoBlock(16, Stripe, v, data[p..]);
      if p < |data| {
        CopyInto(mem32, 0, data[p..]);
        memsize := |data| - p;
      }
    }

    /** The bytes left over from before, filled up to a block. */
    method FirstBlock(data: Octets) returns (p: nat)
      requires mem32.Length == 16 && memsize < 16 && memsize + |data| >= 16
      modifies this`v, this`memsize, mem32
      ensures p <= |data| && memsize == 0
      ensures var all := old(mem32[..memsize]) + data;
        Fold(16, Stripe, v, data[p..]) == Fold(16, Stripe, old(v), all) && Rest(16, data[p..]) == Rest(16, all)
    {
      hide Stripe, Fold, Rest;
      p := 0;
      ghost var t := mem32[..memsize];
      if memsize > 0 {
        p := 16 - memsize;
        assert t + data == (t + data[..p]) + data[p..];
        OneBlock(16, Stripe, v, t + data[..p], data[p..]);
        CopyInto(mem32, memsize, data[..p]);
        assert mem32[..] == mem32[..16];
        v := Stripe(v, mem32[..]);
        memsize := 0;
      } else {
        assert t + data == data == data[0..];
      }
    }

    /** The loop over whole blocks of the input. */
    method WholeBlocks(data: Octets, from: nat) returns (p: nat)
      requires from <= |data|
      modifies this`v
      ensures p <= |data| < p + 16
      ensures Fold(16, Stripe, v, data[p..]) == Fold(16, Stripe, old(v), data[from..]) && Rest(16, data[p..]) == Rest(16, data[from..])
    {
      hide Stripe, Fold, Rest;
      p := from;
      while |data| - p >= 16
        invariant p <= |data|
        invariant Fold(16, Stripe, v, data[p..]) == Fold(16, Stripe, old(v), data[from..]) && Rest(16, data[p..]) == Rest(16, data[from..])
      {
        assert data[p..] == data[p..p + 16] + data[p + 16..];
        OneBlock(16, Stripe, v, data[p..p + 16], data[p + 16..]);
        v := Stripe(v, data[p..p + 16]);
        p := p + 16;
      }
    }

    /** XXH32_digest */
    method Digest(ghost m: Octets, ghost seed: bv32) returns (r: bv32)
      requires Represents(m, seed)
      ensures r == Hash(m, seed)
    {
      hide Stripe, Merge, Tail, Avalanche, Rotl, Init, AddLength, Short;
      RestLength(16, m);
      var h;
      if largeLen {
        h := Merge(v);
      } else {
        NoBlock(16, Stripe, Init(seed), m);
        h := Short(v.v3);
        InitSeed(seed);
      }
      ghost var h0 := h;
      h := AddLength(h, totalLen32);
      SameLength(h0, |m|);
      assert mem32[..memsize][..memsize % 16] == mem32[..memsize];
      r := FinalizeUnrolled(h, mem32[..memsize], memsize);
    }
  }

  lemma Wraps(a: nat, b: nat)
    ensures (a % 0x1_0000_0000 + b) % 0x1_0000_0000 == (a + b) % 0x1_0000_0000
    ensures a < 16 && b < 16 ==> (a + b) % 0x1_0000_0000 == a + b
  {
  }

  lemma InitSeed(seed: bv32)
    ensures Init(seed).v3 == seed
  {
  }

  lemma SameLength(h: bv32, n: nat)
    ensures AddLength(h, n % 0x1_0000_0000) == AddLength(h, n)
  {
    hide AddWord;
  }

  /** A message hashed in any pieces has the hash of the whole. */
  method Stream(parts: seq<Octets>, seed: bv32) returns (r: bv32)
    ensures r == Hash(Flat(parts), seed)
  {
    var state := new State(seed);
    ghost var m: Octets := [];
    for i := 0 to |parts|
      invariant fresh(state) && fresh(state.mem32) && m == Flat(parts[..i]) && state.Represents(m, seed)
    {
      assert parts[..i + 1][..i] == parts[..i];
      state.Update(parts[i], m, seed);
      m := m + parts[i];
    }
    assert parts[..|parts|] == parts;
    r := state.Digest(m, seed);
  }
}
