/** Reading a chunked request body (connections.c): the decoder over the read queue and the body queue. */
module RequestRead {
  import opened Bytes
  import opened ChunkQueue
  import ChunkPool
  import HttpChunk
  import RequestBody
  import Format = HttpChunkFormat

  type Limits = RequestBody.Limits
  type End = RequestBody.End

  const HEADER_MAX := RequestBody.HEADER_MAX
  const BUFFERED_MAX := 64 * 1024
  const READ_MAX: nat := 256 * 1024

  /** A queue read from the network: memory only, nothing used up. */
  ghost predicate Incoming(q: Queue)
    reads q, Objects(q.nodes)
  {
    q.Valid() && AllMem(q.nodes) && NoEmpty(q.nodes)
  }

  /** connection_handle_read_post_cq_compact: the first chunk takes in the next one that is not empty. */
  method CqCompact(cq: Queue) returns (more: bool)
    requires cq.Valid() && AllMem(cq.nodes)
    modifies cq`first, cq`last, cq`nodes, Objects(cq.nodes)
    ensures cq.Valid() && AllMem(cq.nodes) && cq.Contents() == old(cq.Contents())
    ensures old(NoEmpty(cq.nodes)) ==> NoEmpty(cq.nodes)
    ensures forall x :: x in Objects(cq.nodes) ==> x in old(Objects(cq.nodes)) || fresh(x)
    ensures more ==> old(cq.first) != null && cq.first != null && |cq.first.Rest()| > old(|cq.first.Rest()|)
    ensures !more ==> cq.nodes == old(cq.nodes) && cq.first == old(cq.first)
    ensures !more && cq.first != null ==> old(cq.first.Rest()) == cq.first.Rest() == cq.Contents()
  {
    hide BytesOf, AllOk, NoEmpty, AllMem, Queue.Listed;
    cq.Head();
    if cq.first == null { return false; }
    ghost var ns, k := cq.nodes, 0;
    var c := cq.first;
    var mlen := c.Remaining();
    cq.NodeAt(0);
    var blen := 0;
    while blen == 0 && c.next != null
      invariant k < |ns| && c == ns[k] && c.next == (if k + 1 < |ns| then ns[k + 1] else null)
      invariant BytesOf(ns[..k + 1]) <= cq.Contents() && |BytesOf(ns[..k + 1])| == mlen + blen && blen >= 0
      invariant k + 1 == |ns| ==> BytesOf(ns[..k + 1]) == cq.Contents()
      decreases |ns| - k
      modifies {}
    {
      cq.NodeAt(k + 1);
      k := k + 1;
      c := c.next;
      blen := c.Remaining();
    }
    if blen == 0 { return false; }
    cq.CompactMem(mlen + blen);
    more := true;
  }

  /** connection_handle_read_post_chunked_crlf: 1 for CRLF, -1 for anything else, 0 for too few bytes. */
  method Crlf(cq: Queue) returns (r: int)
    requires cq.Valid() && (cq.first != null ==> cq.first.Rest() != [])
    ensures var m := cq.Contents();
      r == if m == [] then 0 else if m[0] != CR then -1 else if |m| == 1 then 0 else if m[1] == LF then 1 else -1
  {
    hide BytesOf, AllOk, NoEmpty, AllMem, Queue.Listed;
    cq.Head();
    var c := cq.first;
    if c == null { return 0; }
    cq.NodeAt(0);
    assert c.Rest()[0] == c.store[c.offset] && (|c.Rest()| > 1 ==> c.Rest()[1] == c.store[c.offset + 1]);
    if At(c.store, c.offset) != CR { return -1; }
    if At(c.store, c.offset + 1) == LF { return 1; }
    if c.Remaining() != 1 { return -1; }
    ghost var ns, k := cq.nodes, 0;
    while c.next != null
      invariant k < |ns| && c == ns[k] && c.next == (if k + 1 < |ns| then ns[k + 1] else null)
      invariant BytesOf(ns[..k + 1]) == [CR]
      decreases |ns| - k
    {
      cq.NodeAt(k + 1);
      k := k + 1;
      c := c.next;
      if c.Remaining() == 0 { continue; }
      assert BytesOf(ns[..k + 1])[1] == c.Rest()[0] == c.store[c.offset];
      return if At(c.store, c.offset) == LF then 1 else -1;
    }
    cq.NodeAt(k);
    r := 0;
  }

  /** The frame of the methods that only use the read queue. */
  twostate predicate Kept(cq: Queue)
    reads cq, Objects(cq.nodes)
  {
    && Incoming(cq) && (forall x :: x in Objects(cq.nodes) ==> x in old(Objects(cq.nodes)) || !old(allocated(x)))
    && cq.bytesIn == old(cq.bytesIn)
  }

  /** A blank line in the first chunk is the one that ends the body. */
  lemma BlankFound(r: Octets, m: Octets, hsz: nat)
    requires RequestBody.LineAt(r) == RequestBody.Size(0, hsz) && r <= m
    ensures var s := CString(r[hsz - 2..]); var p := HttpChunk.FindBlank(s);
      && RequestBody.LineAt(m) == RequestBody.LineAt(r)
      && (p < |s| ==> RequestBody.EndAt(m, hsz) == Some(hsz + p + 2) && hsz + p + 2 <= |r|)
      && (p == |s| && r == m ==> RequestBody.EndAt(m, hsz) == None)
  {
    hide RequestBody.LineAt, HttpChunk.FindBlank;
    var more := m[|r|..];
    assert m == r + more;
    RequestBody.LineGrows(r, more);
    if RequestBody.EndAt(r, hsz).Some? { RequestBody.EndGrows(r, hsz, more); }
  }

  /** Looks for the end of the trailers behind the last size line, of hsz bytes in the first chunk.  (A test
      before that, for a blank line right behind the size line, compares the line's newline with CR and so
      never holds; the search covers that case too.) */
  method FindEnd(cq: Queue, hsz: nat) returns (n: Option<nat>)
    requires Incoming(cq) && cq.first != null && RequestBody.LineAt(cq.first.Rest()) == RequestBody.Size(0, hsz)
    modifies cq`first, cq`last, cq`nodes, Objects(cq.nodes)
    ensures Kept(cq) && cq.Contents() == old(cq.Contents()) && cq.first != null
    ensures RequestBody.LineAt(cq.Contents()) == RequestBody.Size(0, hsz)
    ensures n == RequestBody.EndAt(cq.Contents(), hsz) && (n == None ==> cq.first.Rest() == cq.Contents())
  {
    hide BytesOf, AllOk, NoEmpty, AllMem, Queue.Listed, HttpChunk.FindBlank, RequestBody.LineAt, RequestBody.EndAt, CString;
    ghost var m := cq.Contents();
    var at := hsz - 2;
    var text := TextFrom(cq, at, hsz);
    while HttpChunk.FindBlank(text) == |text|
      invariant Kept(cq) && cq.Contents() == m && cq.first != null
      invariant RequestBody.LineAt(cq.first.Rest()) == RequestBody.Size(0, hsz) && cq.first.Rest() <= m
      invariant text == CString(cq.first.Rest()[at..])
      decreases |m| - |cq.first.Rest()|
    {
      ghost var r := cq.first.Rest();
      var more := CqCompact(cq);
      if !more {
        BlankFound(r, m, hsz);
        return None;
      }
      cq.Head();
      LineStays(r, cq.first.Rest(), m);
      text := TextFrom(cq, at, hsz);
    }
    BlankFound(cq.first.Rest(), m, hsz);
    n := Some(at + HttpChunk.FindBlank(text) + 4);
  }

  /** The string in the first chunk, from the offset at. */
  method TextFrom(cq: Queue, at: nat, ghost hsz: nat) returns (text: Octets)
    requires Incoming(cq) && cq.first != null && at + 2 == hsz && RequestBody.LineAt(cq.first.Rest()) == RequestBody.Size(0, hsz)
    ensures cq.first.Rest() <= cq.Contents() && text == CString(cq.first.Rest()[at..])
  {
    cq.Head();
    assert cq.first.store[cq.first.offset + at..] == cq.first.Rest()[at..];
    text := CString(cq.first.store[cq.first.offset + at..]);
  }

  lemma LineStays(r: Octets, more: Octets, m: Octets)
    requires r <= m && more <= m && |r| <= |more| && !RequestBody.LineAt(r).Incomplete?
    ensures RequestBody.LineAt(more) == RequestBody.LineAt(r)
  {
    assert more == r + more[|r|..];
    RequestBody.LineGrows(r, more[|r|..]);
  }

  /** The last chunk's trailers: nothing is consumed before the blank line has come. */
  method TakeTrailers(cq: Queue, hsz: nat, lim: Limits) returns (end: End)
    requires Incoming(cq) && cq.first != null && RequestBody.LineAt(cq.first.Rest()) == RequestBody.Size(0, hsz)
    modifies cq, Objects(cq.nodes)
    ensures Kept(cq) && RequestBody.LineAt(old(cq.Contents())) == RequestBody.Size(0, hsz)
    ensures var o := RequestBody.Trailers(old(cq.Contents()), hsz, lim);
      end == o.end && cq.Contents() == o.rest
  {
    hide BytesOf, AllOk, NoEmpty, AllMem, Queue.Listed, RequestBody.LineAt, RequestBody.EndAt;
    var n := FindEnd(cq, hsz);
    cq.Head();
    if n == None {
      if cq.first.Remaining() < lim.maxField { return RequestBody.Waiting(0); }
      cq.MarkWritten(cq.first.Remaining());
      end := RequestBody.Overlong;
    } else {
      cq.MarkWritten(n.value);
      end := RequestBody.Finished;
    }
  }

  /** What a size line in the first chunk says is what it says in the whole queue. */
  lemma LineFound(r: Octets, m: Octets)
    requires r <= m
    ensures var s := CString(r); var k := Find(s, LF);
      && (k < |s| ==> RequestBody.LineAt(m) == RequestBody.LineAt(r) && SizeLineIs(r, k))
      && (k == |s| && |r| >= HEADER_MAX ==> RequestBody.LineAt(m) == RequestBody.BadLine)
      && (k == |s| && |r| < HEADER_MAX && r == m ==> RequestBody.LineAt(m) == RequestBody.Incomplete)
  {
    var more := m[|r|..];
    assert m == r + more;
    RequestBody.LineGrows(r, more);
    var s := CString(r);
    var k := Find(s, LF);
    if k < |s| {
      assert r == r[..k + 1] + r[k + 1..] && r[k] == s[k] == LF;
      HttpChunk.SizeOfLine(r[..k + 1], r[k + 1..]);
    }
  }

  ghost predicate SizeLineIs(r: Octets, k: nat) {
    RequestBody.LineAt(r) ==
      if HttpChunk.SizeOf(r) == None || k + 1 >= HEADER_MAX then RequestBody.BadLine
      else RequestBody.Size(HttpChunk.SizeOf(r).value, k + 1)
  }

  /** The outcome of the loop that reads a size line: a size to read, or the end of the call. */
  datatype SizeRead = Data(te: nat) | Ended(end: End)

  ghost function Sizing(m: Octets, got: int, lim: Limits): (SizeRead, Octets) {
    match RequestBody.LineAt(m)
    case Incomplete => (Ended(RequestBody.Waiting(0)), m)
    case BadLine => (Ended(RequestBody.Refused(400)), m)
    case Size(value, length) =>
      if value == 0 then
        var o := RequestBody.Trailers(m, length, lim);
        (Ended(o.end), o.rest)
      else if RequestBody.TooBig(value, got, lim) then (Ended(RequestBody.Refused(413)), m[length..])
      else (Data(value + 2), m[length..])
  }

  /** A size line found in the first chunk, its newline at offset k. */
  method TakeSizeLine(cq: Queue, k: nat, got: int, lim: Limits) returns (r: SizeRead)
    requires Incoming(cq) && cq.first != null
    requires var s := CString(cq.first.Rest()); k == Find(s, LF) < |s|
    modifies cq, Objects(cq.nodes)
    ensures Kept(cq) && (r, cq.Contents()) == Sizing(old(cq.Contents()), got, lim)
  {
    hide BytesOf, AllOk, NoEmpty, AllMem, Queue.Listed, RequestBody.LineAt, RequestBody.Trailers, HttpChunk.SizeOf, Find;
    cq.Head();
    var c: Chunk := cq.first;
    var hsz := k + 1;
    assert c.store[c.offset..] == c.Rest();
    LineFound(c.Rest(), cq.Contents());
    var size := HttpChunk.ParseSize(c.store[c.offset..]);
    if size == None || hsz >= HEADER_MAX { return Ended(RequestBody.Refused(400)); }
    var te := size.value;
    if te == 0 {
      var end := TakeTrailers(cq, hsz, lim);
      return Ended(end);
    }
    cq.MarkWritten(hsz);
    if lim.maxSize != 0 && (lim.maxSize < te || lim.maxSize - te < got) { return Ended(RequestBody.Refused(413)); }
    r := Data(te + 2);
  }

  /** The loop that reads a size line. */
  method ReadSizeLine(cq: Queue, got: int, lim: Limits) returns (r: SizeRead)
    requires Incoming(cq)
    modifies cq, Objects(cq.nodes)
    ensures Kept(cq) && (r, cq.Contents()) == Sizing(old(cq.Contents()), got, lim)
  {
    hide BytesOf, AllOk, NoEmpty, AllMem, Queue.Listed, RequestBody.LineAt, RequestBody.Trailers, CString, Find;
    ghost var m := cq.Contents();
    while cq.first != null
      invariant Kept(cq) && cq.Contents() == m
      decreases |m| - if cq.first == null then 0 else |cq.first.Rest()|
    {
      cq.Head();
      var c: Chunk := cq.first;
      LineFound(c.Rest(), m);
      assert c.store[c.offset..] == c.Rest();
      var text := CString(c.store[c.offset..]);
      var k := Find(text, LF);
      if k < |text| {
        r := TakeSizeLine(cq, k, got, lim);
        return;
      }
      if c.Remaining() >= HEADER_MAX { return Ended(RequestBody.Refused(400)); }
      var more := CqCompact(cq);
      if !more { return Ended(RequestBody.Waiting(0)); }
    }
    cq.Head();
    NoLine();
    r := Ended(RequestBody.Waiting(0));
  }

  lemma NoLine()
    ensures RequestBody.LineAt([]) == RequestBody.Incomplete
  {
  }

  /** The read queue and the body queue, sharing nothing. */
  ghost predicate Paired(cq: Queue, dst: Queue)
    reads cq, Objects(cq.nodes), dst, Objects(dst.nodes)
  {
    Incoming(cq) && dst.Valid() && NoEmpty(dst.nodes) && dst.Apart(cq)
  }

  twostate predicate NoneForeign(cq: Queue, dst: Queue)
    reads cq, dst
  {
    && (forall x :: x in Objects(dst.nodes) ==> x in old(Objects(dst.nodes)) || x in old(Objects(cq.nodes)) || !old(allocated(x)))
    && (forall x :: x in Objects(cq.nodes) ==> x in old(Objects(dst.nodes)) || x in old(Objects(cq.nodes)) || !old(allocated(x)))
  }

  /** Moves what there is of the chunk's data, buffering small bodies in memory and others in files. */
  method MoveData(cq: Queue, dst: Queue, te: nat) returns (left: nat)
    requires Paired(cq, dst) && te > 2
    modifies cq, dst, Objects(cq.nodes), Objects(dst.nodes)
    ensures Paired(cq, dst) && NoneForeign(cq, dst)
    ensures var n := Min(te - 2, |old(cq.Contents())|);
      && left == te - n && dst.bytesIn == old(dst.bytesIn) + n
      && dst.Contents() == old(dst.Contents()) + old(cq.Contents())[..n] && cq.Contents() == old(cq.Contents())[n..]
    ensures if old(dst.bytesIn) + te <= 64 * 1024 then old(AllMem(dst.nodes)) ==> AllMem(dst.nodes) else dst.OnlyFiles()
  {
    hide BytesOf, AllOk, NoEmpty, AllMem, Queue.Listed;
    var len := cq.Length();
    if len > te - 2 { len := te - 2; }
    if dst.bytesIn + te <= BUFFERED_MAX {
      dst.Steal(cq, len);
    } else {
      dst.StealWithTempfiles(cq, len);
    }
    left := te - len;
  }

  lemma DataDecodes(te: nat, m: Octets, got: int, lim: Limits)
    requires te > 2
    ensures var n := Min(te - 2, |m|);
      RequestBody.Decode(te, m, got, lim) == RequestBody.Decode(te - n, m[n..], got + n, lim).After(m[..n])
  {
    hide RequestBody.LineAt, RequestBody.Trailers, CString, HttpChunk.FindBlank;
    if |m| < te - 2 {
      assert m[..|m|] == m && m[|m|..] == [] && m + [] == m;
      var o := RequestBody.Decode(te - |m|, [], got + |m|, lim);
      assert o == RequestBody.Outcome([], [], RequestBody.Waiting(te - |m|));
    }
  }

  /** The end of one iteration: with the data read, its CRLF. */
  method TakeCrlf(cq: Queue, te: nat, ghost got: int, ghost lim: Limits) returns (end: Option<End>)
    requires Incoming(cq) && te >= 2 && (te > 2 ==> cq.Contents() == [])
    modifies cq, Objects(cq.nodes)
    ensures Kept(cq)
    ensures var o := RequestBody.Decode(te, old(cq.Contents()), got, lim);
      match end
      case Some(e) => o == RequestBody.Outcome([], cq.Contents(), e)
      case None => o == RequestBody.Decode(0, cq.Contents(), got, lim) && |cq.Contents()| < |old(cq.Contents())|
  {
    hide BytesOf, AllOk, NoEmpty, AllMem, Queue.Listed, RequestBody.LineAt, RequestBody.Trailers;
    cq.Head();
    var len := cq.Length();
    if len < te { return Some(RequestBody.Waiting(te)); }
    var r := Crlf(cq);
    if r == -1 { return Some(RequestBody.Refused(400)); }
    assert cq.Contents()[..2] == CRLF;
    cq.MarkWritten(2);
    end := None;
  }

  lemma SizingDecodes(m: Octets, got: int, lim: Limits)
    ensures var (r, rest) := Sizing(m, got, lim); var o := RequestBody.Decode(0, m, got, lim);
      match r
      case Data(te) => te > 2 && |rest| <= |m| && o == RequestBody.Decode(te, rest, got, lim)
      case Ended(end) => Ends(o, end, [], rest)
  {
    hide RequestBody.LineAt;
  }

  /** The call ends so, with these bytes decoded and these left unread. */
  ghost predicate Ends(o: RequestBody.Outcome, end: End, body: Octets, rest: Octets) {
    o == RequestBody.Outcome(body, rest, end)
  }

  lemma EndsAfter(o: RequestBody.Outcome, end: End, body: Octets, rest: Octets, data: Octets)
    requires Ends(o, end, body, rest)
    ensures Ends(o.After(data), end, data + body, rest)
  {
  }

  /** The data and its CRLF, with te kept from the size line or the last call. */
  method TakeChunk(cq: Queue, dst: Queue, te0: nat, ghost lim: Limits) returns (end: Option<End>, ghost part: Octets)
    requires Paired(cq, dst) && te0 >= 2
    modifies cq, dst, Objects(cq.nodes), Objects(dst.nodes)
    ensures Paired(cq, dst) && NoneForeign(cq, dst)
    ensures dst.Contents() == old(dst.Contents()) + part && dst.bytesIn == old(dst.bytesIn) + |part|
    ensures var o := RequestBody.Decode(te0, old(cq.Contents()), old(dst.bytesIn), lim);
      match end
      case Some(e) => Ends(o, e, part, cq.Contents())
      case None => o == RequestBody.Decode(0, cq.Contents(), dst.bytesIn, lim).After(part) && |cq.Contents()| < |old(cq.Contents())|
  {
    hide BytesOf, AllOk, NoEmpty, AllMem, Queue.Listed, RequestBody.Decode, RequestBody.Outcome.After;
    var te := te0;
    part := [];
    ghost var m := cq.Contents();
    ghost var o := RequestBody.Decode(te, m, dst.bytesIn, lim);
    assert dst.Contents() + [] == dst.Contents();
    if te > 2 {
      DataDecodes(te, m, dst.bytesIn, lim);
      part := m[..Min(te - 2, |m|)];
      te := MoveData(cq, dst, te);
    } else {
      RequestBody.AfterTwice(o, [], []);
    }
    ghost var o1 := RequestBody.Decode(te, cq.Contents(), dst.bytesIn, lim);
    end := TakeCrlf(cq, te, dst.bytesIn, lim);
    if end.Some? {
      EndsAfter(o1, end.value, [], cq.Contents(), part);
      assert part + [] == part;
    }
  }

  /** One iteration of connection_handle_read_post_chunked; it goes on after a chunk's CRLF. */
  method Round(cq: Queue, dst: Queue, te0: nat, lim: Limits) returns (end: Option<End>, ghost part: Octets)
    requires Paired(cq, dst) && te0 != 1
    modifies cq, dst, Objects(cq.nodes), Objects(dst.nodes)
    ensures Paired(cq, dst) && NoneForeign(cq, dst)
    ensures dst.Contents() == old(dst.Contents()) + part && dst.bytesIn == old(dst.bytesIn) + |part|
    ensures var o := RequestBody.Decode(te0, old(cq.Contents()), old(dst.bytesIn), lim);
      match end
      case Some(e) => Ends(o, e, part, cq.Contents())
      case None => o == RequestBody.Decode(0, cq.Contents(), dst.bytesIn, lim).After(part) && |cq.Contents()| < |old(cq.Contents())|
  {
    hide BytesOf, AllOk, NoEmpty, AllMem, Queue.Listed, RequestBody.Decode, Sizing, RequestBody.Outcome.After;
    var te := te0;
    if te == 0 {
      SizingDecodes(cq.Contents(), dst.bytesIn, lim);
      var r := ReadSizeLine(cq, dst.bytesIn, lim);
      match r {
        case Ended(e) =>
          assert dst.Contents() + [] == dst.Contents();
          return Some(e), [];
        case Data(n) => te := n;
      }
    }
    end, part := TakeChunk(cq, dst, te, lim);
  }

  /** connection_handle_read_post_chunked: decodes what has arrived.  The outcome is a function of the
      unread bytes and the kept te alone; reqbody_length is set at the end of the body. */
  method ReadChunked(cq: Queue, dst: Queue, te: nat, lim: Limits) returns (end: End, reqbodyLength: int)
    requires Paired(cq, dst) && te != 1
    modifies cq, dst, Objects(cq.nodes), Objects(dst.nodes)
    ensures Paired(cq, dst) && NoneForeign(cq, dst)
    ensures var o := RequestBody.Decode(te, old(cq.Contents()), old(dst.bytesIn), lim);
      && end == o.end && dst.Contents() == old(dst.Contents()) + o.body && dst.bytesIn == old(dst.bytesIn) + |o.body|
      && cq.Contents() == o.rest
    ensures reqbodyLength == if end.Finished? || end.Overlong? then dst.bytesIn else -1
    ensures lim.maxSize != 0 && old(dst.bytesIn) + RequestBody.Missing(RequestBody.Waiting(te)) <= lim.maxSize ==>
      dst.bytesIn + RequestBody.Missing(end) <= lim.maxSize
  {
    hide BytesOf, AllOk, NoEmpty, AllMem, Queue.Listed, RequestBody.Decode, RequestBody.Outcome.After;
    hide RequestBody.Missing;
    ghost var o := RequestBody.Decode(te, cq.Contents(), dst.bytesIn, lim);
    ghost var was, got := dst.Contents(), dst.bytesIn;
    WithinLimit(te, cq.Contents(), got, lim);
    RequestBody.AfterTwice(o, [], []);
    var kept := te;
    ghost var body: Octets := [];
    while true
      invariant Paired(cq, dst) && NoneForeign(cq, dst) && kept != 1
      invariant dst.Contents() == was + body && dst.bytesIn == got + |body|
      invariant o == RequestBody.Decode(kept, cq.Contents(), dst.bytesIn, lim).After(body)
      decreases |cq.Contents()|
    {
      ghost var o1 := RequestBody.Decode(kept, cq.Contents(), dst.bytesIn, lim);
      var e, part := Round(cq, dst, kept, lim);
      assert was + (body + part) == (was + body) + part;
      match e {
        case Some(ended) =>
          EndsAfter(o1, ended, part, cq.Contents(), body);
          return ended, if ended.Finished? || ended.Overlong? then dst.bytesIn else -1;
        case None =>
          RequestBody.AfterTwice(RequestBody.Decode(0, cq.Contents(), dst.bytesIn, lim), part, body);
          kept := 0;
          body := body + part;
      }
      cq.Head();
      if cq.first == null { break; }
    }
    NothingLeft(dst.bytesIn, lim, body);
    return RequestBody.Waiting(kept), -1;
  }

  lemma WithinLimit(te: nat, m: Octets, got: int, lim: Limits)
    ensures var o := RequestBody.Decode(te, m, got, lim);
      lim.maxSize != 0 && got + RequestBody.Missing(RequestBody.Waiting(te)) <= lim.maxSize ==>
        got + |o.body| + RequestBody.Missing(o.end) <= lim.maxSize
  {
    if lim.maxSize != 0 && got + RequestBody.Missing(RequestBody.Waiting(te)) <= lim.maxSize {
      RequestBody.LimitKept(te, m, got, lim);
    }
  }

  lemma NothingLeft(got: int, lim: Limits, body: Octets)
    ensures Ends(RequestBody.Decode(0, [], got, lim).After(body), RequestBody.Waiting(0), body, [])
  {
    NoLine();
  }

  /** The state of a request whose bytes a have arrived, from the start of the body. */
  ghost predicate Reading(cq: Queue, dst: Queue, te: nat, a: Octets, b: Format.Body, lim: Limits)
    reads cq, Objects(cq.nodes), dst, Objects(dst.nodes)
  {
    && |a| < |Format.Text(b)|
    && RequestBody.Decode(0, a, 0, lim) == RequestBody.Outcome(dst.Contents(), cq.Contents(), RequestBody.Waiting(te))
    && dst.bytesIn == |dst.Contents()| && te != 1
  }

  /** A further call, with part arrived. */
  lemma FurtherCall(te: nat, body: Octets, rest: Octets, a: Octets, part: Octets, b: Format.Body, extra: Octets, lim: Limits)
    requires RequestBody.Fits(b, lim) && a + part <= Format.Text(b) + extra && te != 1
    requires RequestBody.Decode(0, a, 0, lim) == RequestBody.Outcome(body, rest, RequestBody.Waiting(te))
    ensures var o := RequestBody.Decode(te, rest + part, |body|, lim); var t := Format.Text(b);
      && RequestBody.Decode(0, a + part, 0, lim) == o.After(body)
      && (|a + part| < |t| ==> o.end.Waiting? && o.end.te != 1 && body + o.body == HttpChunk.Emit(HttpChunk.Line([]), a + part, lim.maxField))
      && (|a + part| >= |t| ==> o.end.Finished? && body + o.body == Format.ChunksData(b.chunks) && a + part == t + o.rest)
  {
    hide RequestBody.Decode, RequestBody.Fits, Format.Text, Format.ChunksData, HttpChunk.Emit;
    var t, m := Format.Text(b), a + part;
    RequestBody.Resume(0, a, part, 0, lim);
    RequestBody.NeverOne(te, rest + part, |body|, lim);
    if |m| < |t| {
      assert m == t[..|m|];
      RequestBody.PartOfBody(b, |m|, lim);
    } else {
      assert m == t + m[|t|..];
      RequestBody.WholeBody(b, m[|t|..], lim);
    }
  }

  /** The data that a prefix of a request, with the body at its start, carries. */
  ghost function SoFar(a: Octets, b: Format.Body, lim: Limits): Octets {
    if |a| < |Format.Text(b)| then HttpChunk.Emit(HttpChunk.Line([]), a, lim.maxField) else Format.ChunksData(b.chunks)
  }

  /** The state of a request with a well-formed body, after the bytes a. */
  ghost predicate Received(cq: Queue, dst: Queue, te: nat, length: int, a: Octets, b: Format.Body, lim: Limits)
    reads cq, Objects(cq.nodes), dst, Objects(dst.nodes)
  {
    && Paired(cq, dst) && dst.Contents() == SoFar(a, b, lim) && dst.bytesIn == |dst.Contents()|
    && (if |a| < |Format.Text(b)| then Reading(cq, dst, te, a, b, lim) && length == -1
        else a == Format.Text(b) + cq.Contents() && length == |dst.Contents()|)
  }

  /** The pool of unused chunks shares none with the two queues. */
  ghost predicate Served(cq: Queue, dst: Queue, pool: ChunkPool.Pool)
    reads cq, dst, pool, Objects(pool.free), Objects(pool.big)
  {
    pool.Valid() && ChunkPool.Apart(cq, pool) && ChunkPool.Apart(dst, pool)
  }

  /** The three have only chunks that one of them had, or new ones. */
  twostate predicate AllOurs(cq: Queue, dst: Queue, pool: ChunkPool.Pool)
    reads cq, dst, pool
  {
    && (forall x :: x in Objects(cq.nodes) ==> Ours(cq, dst, pool, x))
    && (forall x :: x in Objects(dst.nodes) ==> Ours(cq, dst, pool, x))
    && (forall x :: x in pool.Held() ==> Ours(cq, dst, pool, x))
  }

  twostate predicate Ours(cq: Queue, dst: Queue, pool: ChunkPool.Pool, new x: Chunk)
    reads cq, dst, pool
  {
    x in old(Objects(cq.nodes)) || x in old(Objects(dst.nodes)) || x in old(pool.Held()) || !old(allocated(x))
  }

  /** The read of connection_handle_read_post_state, which takes what has arrived, up to 256 KiB. */
  method Read(cq: Queue, dst: Queue, pool: ChunkPool.Pool, part: Octets, told: bool)
    requires Paired(cq, dst) && Served(cq, dst, pool) && |part| <= READ_MAX
    modifies cq, pool, Objects(cq.nodes), pool.Held()
    ensures Paired(cq, dst) && Served(cq, dst, pool) && AllOurs(cq, dst, pool)
    ensures cq.Contents() == old(cq.Contents()) + part && dst.Contents() == old(dst.Contents())
  {
    hide BytesOf, AllOk, NoEmpty, AllMem, Queue.Valid, ChunkPool.Pool.Valid;
    assert allocated(Objects(dst.nodes));
    var n := ChunkPool.ReadCq(cq, pool, READ_MAX, part, told);
    assert part[..|part|] == part;
  }

  /** One arrival: the bytes are read into the queue and, unless the body is complete, decoded. */
  method Arrive(cq: Queue, dst: Queue, pool: ChunkPool.Pool, te: nat, length: int, part: Octets, told: bool,
      ghost a: Octets, lim: Limits, ghost b: Format.Body, ghost extra: Octets)
    returns (te': nat, length': int)
    requires Received(cq, dst, te, length, a, b, lim) && Served(cq, dst, pool) && |part| <= READ_MAX
    requires RequestBody.Fits(b, lim) && a + part <= Format.Text(b) + extra
    modifies cq, dst, pool, Objects(cq.nodes), Objects(dst.nodes), pool.Held()
    ensures Received(cq, dst, te', length', a + part, b, lim) && Served(cq, dst, pool) && AllOurs(cq, dst, pool)
    ensures dst.bytesIn == |SoFar(a + part, b, lim)|
  {
    hide BytesOf, AllOk, NoEmpty, AllMem, Queue.Listed, Queue.Valid, ChunkPool.Pool.Valid;
    hide RequestBody.Decode, RequestBody.Fits, Format.Text, Format.ChunksData, HttpChunk.Emit;
    Read(cq, dst, pool, part, told);
    if length != -1 {
      assert a + part == Format.Text(b) + cq.Contents();
      return te, length;
    }
    FurtherCall(te, dst.Contents(), old(cq.Contents()), a, part, b, extra, lim);
    assert allocated(pool.Held()) && allocated(Objects(pool.free)) && allocated(Objects(pool.big));
    var end, n := ReadChunked(cq, dst, te, lim);
    te' := if end.Waiting? then end.te else 0;
    length' := n;
  }

  /** The body's size after each of the first arrivals. */
  ghost predicate Sized(sizes: seq<int>, parts: seq<Octets>, b: Format.Body, lim: Limits) {
    |sizes| <= |parts| && forall i :: 0 <= i < |sizes| ==> sizes[i] == |SoFar(Flat(parts[..i + 1]), b, lim)|
  }

  /** A well-formed chunked request in any arrival pattern: after each arrival the body queue holds exactly
      the data decodable so far, the end is seen with the arrival of the body's last byte, and what came
      behind the body is left in the read queue in order. */
  method ReceiveBody(parts: seq<Octets>, told: seq<bool>, lim: Limits, ghost b: Format.Body, ghost extra: Octets)
    returns (cq: Queue, dst: Queue, reqbodyLength: int, sizes: seq<int>)
    requires RequestBody.Fits(b, lim) && Flat(parts) == Format.Text(b) + extra
    requires |told| == |parts| && forall p :: p in parts ==> |p| <= READ_MAX
    ensures dst.Valid() && dst.Contents() == Format.ChunksData(b.chunks) && reqbodyLength == |dst.Contents()|
    ensures cq.Valid() && cq.Contents() == extra
    ensures |sizes| == |parts| && Sized(sizes, parts, b, lim)
  {
    hide Queue.Valid, RequestBody.Decode, RequestBody.Fits, Format.Text, Format.ChunksData, Received, Served, SoFar, Flat, Sized;
    var te := 0;
    reqbodyLength := -1;
    sizes := [];
    ghost var a: Octets := [];
    var pool;
    cq, dst, pool := Open(b, lim);
    AtStart(parts, b, lim);
    for i := 0 to |parts|
      invariant fresh(cq) && fresh(dst) && fresh(pool) && fresh(Objects(cq.nodes)) && fresh(Objects(dst.nodes)) && fresh(pool.Held())
      invariant Served(cq, dst, pool)
      invariant a == Flat(parts[..i]) && Received(cq, dst, te, reqbodyLength, a, b, lim)
      invariant |sizes| == i && Sized(sizes, parts, b, lim)
    {
      FlatNext(parts, i);
      assert parts[i] in parts;
      te, reqbodyLength := Arrive(cq, dst, pool, te, reqbodyLength, parts[i], told[i], a, lim, b, extra);
      a := a + parts[i];
      SizedMore(sizes, parts, b, lim);
      sizes := sizes + [dst.bytesIn];
    }
    assert parts[..|parts|] == parts;
    HasRead(cq, dst, te, reqbodyLength, a, b, lim);
    Suffix(Format.Text(b), extra, cq.Contents());
  }

  method Open(ghost b: Format.Body, ghost lim: Limits) returns (cq: Queue, dst: Queue, pool: ChunkPool.Pool)
    ensures fresh(cq) && fresh(dst) && fresh(pool) && fresh(Objects(cq.nodes)) && fresh(Objects(dst.nodes)) && fresh(pool.Held())
    ensures Received(cq, dst, 0, -1, [], b, lim) && Served(cq, dst, pool)
  {
    cq := new Queue();
    dst := new Queue();
    pool := new ChunkPool.Pool();
    Unread(cq, dst, b, lim);
  }

  lemma AtStart(parts: seq<Octets>, b: Format.Body, lim: Limits)
    ensures Flat(parts[..0]) == [] && Sized([], parts, b, lim)
  {
  }

  lemma SizedMore(sizes: seq<int>, parts: seq<Octets>, b: Format.Body, lim: Limits)
    requires Sized(sizes, parts, b, lim) && |sizes| < |parts|
    ensures Sized(sizes + [|SoFar(Flat(parts[..|sizes| + 1]), b, lim)|], parts, b, lim)
  {
  }

  lemma Unread(cq: Queue, dst: Queue, b: Format.Body, lim: Limits)
    requires cq.Valid() && cq.nodes == [] && dst.Valid() && dst.nodes == [] && dst.bytesIn == 0 && cq != dst
    ensures Received(cq, dst, 0, -1, [], b, lim)
  {
    NoLine();
  }

  lemma HasRead(cq: Queue, dst: Queue, te: nat, length: int, a: Octets, b: Format.Body, lim: Limits)
    requires Received(cq, dst, te, length, a, b, lim)
    ensures dst.Valid() && cq.Valid() && dst.bytesIn == |SoFar(a, b, lim)| && dst.Contents() == SoFar(a, b, lim)
    ensures |a| >= |Format.Text(b)| ==>
      a == Format.Text(b) + cq.Contents() && length == |dst.Contents()| && dst.Contents() == Format.ChunksData(b.chunks)
  {
  }

  lemma FlatNext(parts: seq<Octets>, i: nat)
    requires i < |parts|
    ensures Flat(parts[..i + 1]) == Flat(parts[..i]) + parts[i] <= Flat(parts)
  {
    FlatPrefix(parts, i + 1);
    assert parts[..i + 1][..i] == parts[..i];
  }

  lemma Suffix(a: Octets, b: Octets, c: Octets)
    requires a + b == a + c
    ensures b == c
  {
    assert (a + b)[|a|..] == b && (a + c)[|a|..] == c;
  }

  // ---------------------------------------------------------------- a body of announced length

  /** The Content-Length branch: what is missing of the body moves over, in files when the body is large. */
  method TakeLength(cq: Queue, dst: Queue, length: nat) returns (ready: bool)
    requires Paired(cq, dst) && dst.bytesIn <= length
    modifies cq, dst, Objects(cq.nodes), Objects(dst.nodes)
    ensures Paired(cq, dst) && NoneForeign(cq, dst)
    ensures var n := Min(length - old(dst.bytesIn), |old(cq.Contents())|);
      && dst.Contents() == old(dst.Contents()) + old(cq.Contents())[..n] && cq.Contents() == old(cq.Contents())[n..]
      && dst.bytesIn == old(dst.bytesIn) + n && (ready <==> dst.bytesIn == length)
    ensures if length <= 64 * 1024 then old(AllMem(dst.nodes)) ==> AllMem(dst.nodes) else dst.OnlyFiles()
  {
    hide BytesOf, AllOk, NoEmpty, AllMem, Queue.Listed;
    var len := length - dst.bytesIn;
    if length <= BUFFERED_MAX {
      dst.Steal(cq, len);
    } else {
      dst.StealWithTempfiles(cq, len);
    }
    cq.RemoveFinished();
    ready := dst.bytesIn == length;
  }

  /** The two queues when the bytes a of a request with a body of announced length have arrived. */
  ghost predicate Parted(cq: Queue, dst: Queue, a: Octets, length: nat)
    reads cq, Objects(cq.nodes), dst, Objects(dst.nodes)
  {
    var n := Min(length, |a|);
    Paired(cq, dst) && dst.Contents() == a[..n] && cq.Contents() == a[n..] && dst.bytesIn == n
  }

  method ArriveLength(cq: Queue, dst: Queue, pool: ChunkPool.Pool, part: Octets, told: bool, length: nat, ghost a: Octets)
    returns (ready: bool)
    requires Parted(cq, dst, a, length) && Served(cq, dst, pool) && |part| <= READ_MAX
    modifies cq, dst, pool, Objects(cq.nodes), Objects(dst.nodes), pool.Held()
    ensures Parted(cq, dst, a + part, length) && Served(cq, dst, pool) && AllOurs(cq, dst, pool)
    ensures ready <==> |a + part| >= length
  {
    hide BytesOf, AllOk, NoEmpty, AllMem, Queue.Listed, Queue.Valid, ChunkPool.Pool.Valid;
    Read(cq, dst, pool, part, told);
    assert allocated(pool.Held()) && allocated(Objects(pool.free)) && allocated(Objects(pool.big));
    LengthStep(a, part, length);
    ready := TakeLength(cq, dst, length);
  }

  lemma LengthStep(a: Octets, part: Octets, length: nat)
    ensures var n, rest := Min(length, |a|), a[Min(length, |a|)..] + part;
      var m := Min(length - n, |rest|);
      a[..n] + rest[..m] == (a + part)[..n + m] && rest[m..] == (a + part)[n + m..] && n + m == Min(length, |a + part|)
  {
    var n := Min(length, |a|);
    assert a + part == a[..n] + (a[n..] + part);
  }

  /** A request with a body of announced length in any arrival pattern: the body queue holds exactly the part of the
      body that has arrived, the body is ready with the arrival of its last byte, and later bytes stay in order. */
  method ReceiveLength(parts: seq<Octets>, told: seq<bool>, length: nat) returns (cq: Queue, dst: Queue, ready: seq<bool>)
    requires |told| == |parts| && forall p :: p in parts ==> |p| <= READ_MAX
    ensures cq.Valid() && dst.Valid()
    ensures var n := Min(length, |Flat(parts)|); dst.Contents() == Flat(parts)[..n] && cq.Contents() == Flat(parts)[n..]
    ensures |ready| == |parts| && forall i :: 0 <= i < |parts| ==> (ready[i] <==> |Flat(parts[..i + 1])| >= length)
  {
    hide Queue.Valid, Served, Parted, Flat;
    ready := [];
    var pool;
    cq, dst, pool := OpenLength(parts, length);
    for i := 0 to |parts|
      invariant fresh(cq) && fresh(dst) && fresh(pool) && fresh(Objects(cq.nodes)) && fresh(Objects(dst.nodes)) && fresh(pool.Held())
      invariant Served(cq, dst, pool) && Parted(cq, dst, Flat(parts[..i]), length)
      invariant |ready| == i && forall k :: 0 <= k < i ==> (ready[k] <==> |Flat(parts[..k + 1])| >= length)
    {
      FlatNext(parts, i);
      assert parts[i] in parts;
      var now := ArriveLength(cq, dst, pool, parts[i], told[i], length, Flat(parts[..i]));
      ready := ready + [now];
    }
    assert parts[..|parts|] == parts;
    HasParted(cq, dst, Flat(parts), length);
  }

  method OpenLength(parts: seq<Octets>, length: nat) returns (cq: Queue, dst: Queue, pool: ChunkPool.Pool)
    ensures fresh(cq) && fresh(dst) && fresh(pool) && fresh(Objects(cq.nodes)) && fresh(Objects(dst.nodes)) && fresh(pool.Held())
    ensures Parted(cq, dst, Flat(parts[..0]), length) && Served(cq, dst, pool)
  {
    cq := new Queue();
    dst := new Queue();
    pool := new ChunkPool.Pool();
  }

  lemma HasParted(cq: Queue, dst: Queue, a: Octets, length: nat)
    requires Parted(cq, dst, a, length)
    ensures cq.Valid() && dst.Valid()
    ensures var n := Min(length, |a|); dst.Contents() == a[..n] && cq.Contents() == a[n..]
  {
  }
}
