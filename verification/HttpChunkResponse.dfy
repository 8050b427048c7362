/** The response that the chunked coder works on, with the code's methods: the encoder, and the decoder for
    bodies from backends, proved for every block to be the function of HttpChunkBlock. */
module HttpChunkResponse {
  import opened Bytes
  import opened HttpChunk
  import opened HttpChunkBlock

  datatype Control = Go | Stop | Fail

  /** The fields of request_st that the coder uses.  The write queue is seen as its bytes;
      gwChunked, b and done are those of gw_dechunk. */
  class Response {
    var sendChunked: bool
    /** Whether the backend's body is chunked (there is a gw_dechunk); if not, how much of its announced length
        is missing (-1: no length was announced). */
    var decodeChunked: bool
    var scratchpad: int
    var status: int
    var maxField: nat
    var keepAlive: bool
    var bodyFinished: bool
    var writeQueue: Octets
    var gwChunked: nat
    var b: Octets
    var done: int

    constructor (status: int, maxField: nat, decodeChunked: bool, sendChunked: bool)
      ensures this.status == status && this.maxField == maxField
      ensures this.decodeChunked == decodeChunked && this.sendChunked == sendChunked
      ensures keepAlive && !bodyFinished && writeQueue == [] && gwChunked == 0 && b == [] && done == 0
    {
      this.status, this.maxField, this.decodeChunked, this.sendChunked := status, maxField, decodeChunked, sendChunked;
      scratchpad, keepAlive, bodyFinished, writeQueue := -1, true, false, [];
      gwChunked, b, done := 0, [], 0;
    }

    /** http_chunk_append_mem: a chunk of its own when the response is sent chunked. */
    method AppendMem(mem: Octets)
      requires |mem| < 0x1_0000_0000_0000_0000
      modifies this`writeQueue
      ensures writeQueue == old(writeQueue) + if sendChunked then EncodeChunk(mem) else mem
    {
      if |mem| == 0 { return; }
      if sendChunked {
        var line := SizeLine(|mem|);
        writeQueue := writeQueue + line;
      }
      writeQueue := writeQueue + mem;
      if sendChunked {
        writeQueue := writeQueue + CRLF;
        assert writeQueue == old(writeQueue) + EncodeChunk(mem);
      }
    }

    /** http_chunk_close: a body that is passed through brings its own end; if that is missing, the connection
        has to end. */
    method Close()
      modifies this`writeQueue, this`keepAlive
      ensures writeQueue == old(writeQueue) + if sendChunked && !decodeChunked then LAST_CHUNK else []
      ensures keepAlive <==> old(keepAlive) && !(sendChunked && decodeChunked && done == 0)
    {
      if !sendChunked { return; }
      if decodeChunked {
        if done == 0 { keepAlive := false; }
      } else {
        writeQueue := writeQueue + LAST_CHUNK;
      }
    }

    function Now(): Decoder
      reads this
    {
      Decoder(gwChunked, b, done != 0)
    }

    /** The decoder between two blocks. */
    ghost predicate Valid()
      reads this
    {
      decodeChunked && status != 0 && (done == 0 || done == status) && Sound(Now())
    }

    /** Finds a complete size line, in the block or across buffer and block. */
    method TakeLine(mem: Octets) returns (ctl: Control, f: Found)
      requires mem != []
      modifies this`b
      ensures match FindLine(old(b), mem)
        case Long => ctl == Fail
        case Part(h) => ctl == Stop && b == h
        case Hit(h, l) => ctl == Go && b == h && f == l
    {
      hide Find;
      f := Found(mem, [], 0, mem);
      FindAbsent(mem, LF);
      if b == [] {
        var k := Find(mem, LF);
        if k < |mem| { return Go, Found(mem, mem[k + 1..], k + 1, mem); }
        if |mem| >= 1024 { return Fail, f; }
        b := b + mem;
        assert b == mem;
        return Stop, f;
      }
      var k := Find(CString(b), LF);
      if k < |CString(b)| { return Go, Found(b, b[k + 1..], k + 1, mem); }
      var n := Find(mem, LF);
      var hsz := if n < |mem| then n + 1 else |mem|;
      if (MAX_LINE - |b|) % 0x1_0000_0000 < hsz { return Fail, f; }
      assert mem[..|mem|] == mem;
      b := b + mem[..hsz];
      if n == |mem| { return Stop, f; }
      return Go, Found(b, mem[hsz..], 0, mem[hsz..]);
    }

    /** The size is zero: look for the end of the trailers; nothing is consumed before it has arrived. */
    method EndTrailers(f: Found) returns (ok: bool)
      requires done == 0 && status != 0 && f.text <= b + f.rest && SizeOf(f.text) == Some(0)
      modifies this`b, this`done, this`keepAlive
      ensures var x := EndSection(old(b), f, maxField);
        && (ok <==> x.Took?)
        && (ok ==> b == x.d.h && done == if x.d.done then status else 0)
        && (keepAlive <==> old(keepAlive) && !(ok && x.cut && sendChunked))
    {
      hide SizeOf, FindBlank, Find, Cut;
      EndIs(b, f, maxField);
      var len := |f.rest|;
      if len - f.hsz >= 2 && At(f.after, 0) == CR && At(f.after, 1) == LF {
        if len - f.hsz > 2 { return false; }
        b := [];
        done := status;
        return true;
      }
      var mlen := if maxField > |b| then maxField - |b| else 0;
      if mlen < len {
        Truncate(f, mlen);
        return true;
      }
      b := b + f.rest;
      var text := CString(b);
      var k := FindBlank(text);
      if k < |text| {
        done := status;
        return At(b, k + 4) == NUL;
      }
      ok := true;
    }

    /** Trailers over the field limit: the section ends after the last line that fits. */
    method Truncate(f: Found, mlen: nat)
      requires f.text <= b + f.rest && SizeOf(f.text) == Some(0) && mlen < |f.rest|
      modifies this`b, this`done, this`keepAlive
      ensures b == Cut(old(b) + f.rest[..mlen])
      ensures done == status && (keepAlive <==> old(keepAlive) && !sendChunked)
    {
      hide SizeOf, Find, HexValue;
      if sendChunked { keepAlive := false; }
      done := status;
      StartsWithDigit(f.text);
      var was := b + f.rest;
      b := b + f.rest[..mlen];
      assert b <= was && f.text[0] == was[0];
      var text := CString(b);
      var k := FindLast(text, LF);
      if k < |text| {
        assert text[0] == b[0];
        var bare := b[k - 1] != CR;
        b := b[..k + 1];
        if bare { b := b + CRLF; }
      } else {
        b := [ZERO] + CRLF;
      }
      b := b + CRLF;
    }

    /** One pass over a size line: on Go the chunk's data follows in rest, te counts it and its CRLF. */
    method TakeHeader(mem: Octets) returns (ctl: Control, rest: Octets, te: nat)
      requires mem != [] && done == 0 && status != 0 && SafeBuffer(b)
      modifies this`b, this`done, this`keepAlive
      ensures match LinePass(old(b), mem, maxField)
        case Goes(te', _, rest') => ctl == Go && te == te' && rest == rest' && b == [] && done == 0 && keepAlive == old(keepAlive)
        case Stops(x) =>
          && te == 0 && ctl == (if x.Took? then Stop else Fail) && x.out == []
          && (x.Took? ==> b == x.d.h && x.d.te == 0 && done == if x.d.done then status else 0)
          && (keepAlive <==> old(keepAlive) && !(x.Took? && x.cut && sendChunked))
    {
      hide SizeOf, FindLine, EndSection, SafeBuffer;
      Sizes(b, mem);
      var f;
      ctl, f := TakeLine(mem);
      rest, te := mem, 0;
      if !ctl.Go? { return; }
      var size := ParseSize(f.text);
      if size.None? { return Fail, rest, te; }
      if size.value == 0 {
        EndTe(b, f, maxField);
        var ok := EndTrailers(f);
        return if ok then Stop else Fail, rest, te;
      }
      rest := f.rest[f.hsz..];
      te := size.value + 2;
      b := [];
    }

    /** Chunk data and, when it has arrived, the CRLF behind it.  On Stop, a lone CR ends the block. */
    method TakeData(mem: Octets, te: nat) returns (ctl: Control, rest: Octets, te': nat, ghost sent: Octets)
      requires te >= 2 && |mem| <= OFF_MAX
      modifies this`writeQueue
      ensures writeQueue == old(writeQueue) + if sendChunked then [] else sent
      ensures match DataPass(te, mem)
        case Goes(t, out, m) => ctl == Go && te' == t && rest == m && sent == out
        case Stops(x) =>
          && (ctl == Fail <==> x.Refused?) && sent == x.out
          && (x.Took? ==> te' == x.d.te && (ctl == Go ==> rest == []))
    {
      hide EncodeChunk;
      var clen := Min(te - 2, |mem|);
      sent := mem[..clen];
      if !sendChunked { AppendMem(mem[..clen]); }
      rest := mem[clen..];
      te' := te - clen;
      CrlfAhead(rest);
      if te' == 2 {
        if |rest| >= 2 {
          if rest[0] != CR || rest[1] != LF { return Fail, rest, te', sent; }
          rest := rest[2..];
          te' := 0;
        } else if |rest| == 1 {
          if rest[0] != CR { return Fail, rest, te', sent; }
          return Stop, rest, 1, sent;
        }
      }
      ctl := Go;
    }

    /** One iteration of the decoder's loop: what was sent, and what is still to do. */
    method Round(mem: Octets, te: nat) returns (ctl: Control, rest: Octets, te': nat, ghost sent: Octets, ghost cut: bool)
      requires mem != [] && |mem| <= OFF_MAX && done == 0 && status != 0 && Sound(Decoder(te, b, false))
      modifies this`b, this`done, this`keepAlive, this`writeQueue
      ensures writeQueue == old(writeQueue) + if sendChunked then [] else sent
      ensures keepAlive <==> old(keepAlive) && !(cut && sendChunked)
      ensures var x := Decode(te, old(b), mem, maxField);
        match ctl
        case Fail => x == Refused(sent) && !cut
        case Stop => x == Took(Decoder(te', b, done != 0), sent, cut) && (done == 0 || done == status)
        case Go =>
          && done == 0 && |rest| < |mem| && !cut && Sound(Decoder(te', b, false))
          && x == Decode(te', b, rest, maxField).After(sent)
    {
      hide LinePass, DataPass, Decode, SafeBuffer;
      rest, te', sent, cut, ctl := mem, te, [], false, Go;
      if te == 0 {
        LineRound(b, mem, maxField);
        ghost var p := LinePass(b, mem, maxField);
        ctl, rest, te' := TakeHeader(mem);
        if ctl.Fail? { return; }
        if ctl.Stop? {
          cut := p.x.cut;
          return;
        }
        if |rest| == 0 {
          ctl := Stop;
          return;
        }
      }
      ghost var x := Decode(te', b, rest, maxField);
      AfterNothing(x);
      if te' >= 2 {
        DataRound(te', rest, maxField);
        ctl, rest, te', sent := TakeData(rest, te');
      } else if te' == 1 {
        LfRound(rest, maxField);
        if rest[0] != LF { return Fail, rest, te', sent, cut; }
        rest := rest[1..];
        te' := 0;
        AfterNothing(Decode(0, [], rest, maxField));
      }
    }

    /** The decoder's loop over one block. */
    method Rounds(mem0: Octets) returns (ok: bool, te: nat)
      requires Valid() && done == 0 && |mem0| <= OFF_MAX
      modifies this`b, this`done, this`keepAlive, this`writeQueue
      ensures var x := Decode(gwChunked, old(b), mem0, maxField);
        && (ok <==> x.Took?)
        && writeQueue == old(writeQueue) + (if sendChunked then [] else x.out)
        && (ok ==> x.d == Decoder(te, b, done != 0) && (done == 0 || done == status))
        && (keepAlive <==> old(keepAlive) && !(ok && x.cut && sendChunked))
    {
      hide Decode, SafeBuffer;
      var mem := mem0;
      te := gwChunked;
      ghost var all, sent: Octets := Decode(gwChunked, b, mem0, maxField), [];
      AfterNothing(all);
      while |mem| > 0
        invariant keepAlive == old(keepAlive) && done == 0 && |mem| <= |mem0| && Sound(Decoder(te, b, false))
        invariant all == Decode(te, b, mem, maxField).After(sent)
        invariant writeQueue == old(writeQueue) + if sendChunked then [] else sent
        decreases |mem|
      {
        var ctl;
        ghost var part, cut;
        ctl, mem, te, part, cut := Round(mem, te);
        if ctl.Fail? { return false, te; }
        if ctl.Stop? { return true, te; }
        AfterAfter(Decode(te, b, mem, maxField), sent, part);
        sent := sent + part;
      }
      NothingLeft(te, b, sent, maxField);
      ok := true;
    }

    /** http_chunk_decode_append_data: one block from the backend, refused or taken as the function says. */
    method DecodeAppendData(mem: Octets) returns (ok: bool)
      requires Valid() && |mem| <= OFF_MAX
      modifies this`gwChunked, this`b, this`done, this`keepAlive, this`bodyFinished, this`writeQueue
      ensures old(done) != 0 ==> !ok && unchanged(this)
      ensures old(done) == 0 ==>
        var x := Decode(old(gwChunked), old(b), mem, maxField);
        && (ok <==> x.Took?)
        && writeQueue == old(writeQueue) + (if sendChunked then [] else x.out)
        && (ok ==> Valid() && Now() == x.d)
        && (keepAlive <==> old(keepAlive) && !(ok && x.cut && sendChunked))
        && (bodyFinished <==> old(bodyFinished) || (ok && x.d.done))
    {
      hide Decode, SafeBuffer;
      if done != 0 { return false; }
      DecodeSound(gwChunked, b, mem, maxField);
      var te;
      ok, te := Rounds(mem);
      if !ok { return; }
      if done != 0 { bodyFinished := true; }
      gwChunked := te;
    }

    /** http_chunk_decode_append_mem for a chunked backend: a response that is itself sent chunked passes the
        backend's bytes on as they are, and has them checked all the same. */
    method DecodeAppendMem(mem: Octets) returns (ok: bool)
      requires Valid() && |mem| <= OFF_MAX
      modifies this`gwChunked, this`b, this`done, this`keepAlive, this`bodyFinished, this`writeQueue, this`sendChunked
      ensures sendChunked == old(sendChunked)
      ensures old(done) != 0 ==> !ok && unchanged(this)
      ensures old(done) == 0 ==>
        var x := Decode(old(gwChunked), old(b), mem, maxField);
        && (ok <==> x.Took?)
        && writeQueue == old(writeQueue) + (if !sendChunked then x.out else if ok then mem else [])
        && (ok ==> Valid() && Now() == x.d)
        && (keepAlive <==> old(keepAlive) && !(ok && x.cut && sendChunked))
        && (bodyFinished <==> old(bodyFinished) || (ok && x.d.done))
    {
      hide Decode, Sound;
      ok := DecodeAppendData(mem);
      if ok && sendChunked {
        sendChunked := false;
        AppendMem(mem);
        sendChunked := true;
      }
    }

    /** http_chunk_decode_append_mem for a backend that is not chunked: no more is passed on than the length
        that was announced, and the body ends with it. */
    method AppendPlain(mem: Octets)
      requires !decodeChunked && |mem| <= OFF_MAX
      modifies this`writeQueue, this`scratchpad, this`bodyFinished
      ensures var n := if old(scratchpad) < 0 then |mem| else Min(|mem|, old(scratchpad));
        && writeQueue == old(writeQueue) + (if sendChunked then EncodeChunk(mem[..n]) else mem[..n])
        && scratchpad == (if old(scratchpad) < 0 then old(scratchpad) else old(scratchpad) - n)
        && (bodyFinished <==> old(bodyFinished) || (old(scratchpad) > 0 && scratchpad == 0))
    {
      var part := mem;
      assert mem[..|mem|] == mem;
      if scratchpad > 0 {
        scratchpad := scratchpad - |mem|;
        if scratchpad <= 0 {
          bodyFinished := true;
          if scratchpad < 0 {
            part := mem[..scratchpad + |mem|];
            scratchpad := 0;
          }
        }
      } else if scratchpad == 0 {
        assert writeQueue + [] == writeQueue && EncodeChunk([]) == [] && mem[..0] == [];
        return;
      }
      AppendMem(part);
    }
  }

  lemma EndTe(h: Octets, l: Found, maxField: nat)
    ensures var x := EndSection(h, l, maxField); x.out == [] && (x.Took? ==> x.d.te == 0)
  {
    hide Excess, Common, Ended, Cut;
  }

  lemma AfterAfter(x: Outcome, a: Octets, b: Octets)
    ensures x.After(b).After(a) == x.After(a + b)
  {
    assert a + (b + x.out) == (a + b) + x.out;
  }

  lemma NothingLeft(te: nat, h: Octets, out: Octets, maxField: nat)
    requires SafeBuffer(h)
    ensures Decode(te, h, [], maxField).After(out) == Wait(te, h, out)
  {
    assert out + [] == out;
  }

  /** The pass over a size line, and what it leaves to do. */
  lemma LineRound(h: Octets, mem: Octets, maxField: nat)
    requires mem != [] && Sound(Decoder(0, h, false))
    ensures Sound(Decoder(0, [], false))
    ensures var p := LinePass(h, mem, maxField);
      && (p.Goes? ==>
            && p.te >= 2 && |p.rest| < |mem| && Sound(Decoder(p.te, [], false)) && p.out == []
            && Decode(0, h, mem, maxField) == Decode(p.te, [], p.rest, maxField)
            && (p.rest == [] ==> Decode(0, h, mem, maxField) == Wait(p.te, [], [])))
      && (p.Stops? ==> Decode(0, h, mem, maxField) == p.x)
  {
    hide FindLine, SizeOf, SafeBuffer, EndSection, DataPass;
    NextSound(0, h, mem, maxField);
    SafeEmpty();
    var p := LinePass(h, mem, maxField);
    if p.Goes? {
      AfterNothing(Decode(p.te, [], p.rest, maxField));
    }
  }

  /** The pass over chunk data, likewise. */
  lemma DataRound(te: nat, mem: Octets, maxField: nat)
    requires mem != [] && 2 <= te <= OFF_MAX
    ensures Sound(Decoder(0, [], false)) && Sound(Decoder(te, [], false))
    ensures var p := DataPass(te, mem);
      && (p.Goes? ==>
            p.te == 0 && |p.rest| < |mem| && Decode(te, [], mem, maxField) == Decode(p.te, [], p.rest, maxField).After(p.out))
      && (p.Stops? ==>
            && Decode(te, [], mem, maxField) == p.x
            && (p.x.Took? ==>
                  Sound(p.x.d) && p.x == Wait(p.x.d.te, [], p.x.out) == Decode(p.x.d.te, [], [], maxField).After(p.x.out)))
  {
    hide LinePass, SafeBuffer;
    SafeEmpty();
    var x := DataPass(te, mem);
    if x.Stops? && x.x.Took? { assert x.x.out + [] == x.x.out; }
  }

  /** The LF of a CRLF that two blocks share. */
  lemma LfRound(mem: Octets, maxField: nat)
    requires mem != []
    ensures Sound(Decoder(0, [], false)) && Sound(Decoder(1, [], false))
    ensures Decode(1, [], mem, maxField) == if mem[0] == LF then Decode(0, [], mem[1..], maxField) else Refused([])
  {
    hide LinePass, SafeBuffer, DataPass;
    SafeEmpty();
    if mem[0] == LF { AfterNothing(Decode(0, [], mem[1..], maxField)); }
  }
}
