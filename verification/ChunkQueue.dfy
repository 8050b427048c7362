/** The chunk queue (chunk.c): a linked list of memory and file chunks with byte counters, whose
    meaning is one byte sequence. */
module ChunkQueue {
  import opened Bytes

  datatype Kind = Mem | File(isTemp: bool, open: bool)

  /** A chunk.  For memory, store is the buffer's string and size its allocation; for a file, store is
      the file's first file.length bytes.  The bytes still to be sent start at offset. */
  class Chunk {
    var next: Chunk?
    var kind: Kind
    var store: Octets
    var size: nat
    var offset: nat

    constructor (kind: Kind, store: Octets, size: nat, offset: nat)
      ensures next == null && this.kind == kind && this.store == store && this.size == size && this.offset == offset
    {
      next, this.kind, this.store, this.size, this.offset := null, kind, store, size, offset;
    }

    ghost predicate Ok()
      reads this`kind, this`store, this`size, this`offset
    {
      offset <= |store| && (kind.Mem? ==> |store| < size)
    }

    /** The bytes still to be sent; their number is chunk_remaining_length. */
    function Rest(): Octets
      reads this`store, this`offset
    {
      if offset <= |store| then store[offset..] else []
    }

    function Remaining(): int
      reads this`store, this`offset
    {
      |store| - offset
    }

    /** chunk_buffer_string_space */
    function Space(): int
      reads this`store, this`size
    {
      if size == 0 then 0 else size - (|store| + 1)
    }
  }

  const CHUNK_SIZE: nat := 8192
  const DEFAULT_TEMPFILE_SIZE: nat := 1024 * 1024

  /** chunk_acquire: an empty memory chunk of at least the requested size. */
  method Acquire(sz: nat) returns (c: Chunk)
    ensures fresh(c) && c.next == null && c.kind == Mem && c.store == [] && c.offset == 0 && c.size >= sz && c.size > 0
  {
    var n := if sz <= CHUNK_SIZE then CHUNK_SIZE else (sz + (CHUNK_SIZE - 1)) / CHUNK_SIZE * CHUNK_SIZE;
    c := new Chunk(Mem, [], n, 0);
  }

  /** What is left in a chunk, at the start of a new one with room for sz bytes. */
  method Copied(c: Chunk, sz: nat) returns (b: Chunk)
    requires c.Ok() && |c.Rest()| <= sz
    ensures fresh(b) && b.Ok() && b.kind.Mem? && b.Rest() == c.Rest() && b.Space() >= sz - |c.Rest()|
  {
    b := Acquire(sz + 1);
    b.store := c.store[c.offset..];
    assert b.Rest() == c.Rest();
  }

  ghost function Objects(ns: seq<Chunk>): set<Chunk> { set c | c in ns }

  ghost function BytesOf(ns: seq<Chunk>): Octets
    reads Objects(ns)`store, Objects(ns)`offset
  {
    if ns == [] then [] else ns[0].Rest() + BytesOf(ns[1..])
  }

  lemma {:induction false} BytesOfConcat(a: seq<Chunk>, b: seq<Chunk>)
    ensures BytesOf(a + b) == BytesOf(a) + BytesOf(b)
  {
    if a == [] { assert a + b == b; } else {
      assert (a + b)[1..] == a[1..] + b;
      BytesOfConcat(a[1..], b);
    }
  }

  lemma Appended(ns: seq<Chunk>, c: Chunk)
    ensures BytesOf(ns + [c]) == BytesOf(ns) + c.Rest()
  {
    assert [c][1..] == [];
    BytesOfConcat(ns, [c]);
  }

  /** The bytes of a list, by its last chunk. */
  lemma LastSplit(ns: seq<Chunk>)
    requires ns != [] && Distinct(ns)
    ensures var k := |ns| - 1; ns[k] !in Objects(ns[..k]) && BytesOf(ns) == BytesOf(ns[..k]) + ns[k].Rest()
  {
    hide BytesOf;
    var k := |ns| - 1;
    assert ns == ns[..k] + [ns[k]];
    Appended(ns[..k], ns[k]);
  }

  lemma AllLast(ns: seq<Chunk>)
    requires ns != []
    ensures var k := |ns| - 1;
      && (AllOk(ns) <==> AllOk(ns[..k]) && ns[k].Ok())
      && (AllMem(ns) <==> AllMem(ns[..k]) && ns[k].kind.Mem?)
      && (NoEmpty(ns) <==> NoEmpty(ns[..k]) && ns[k].Rest() != [])
  {
    hide AllOk, AllMem, NoEmpty;
    OkLast(ns);
    MemLast(ns);
    NoEmptyLast(ns);
  }

  lemma OkLast(ns: seq<Chunk>)
    requires ns != []
    ensures AllOk(ns) <==> AllOk(ns[..|ns| - 1]) && ns[|ns| - 1].Ok()
  {
  }

  lemma MemLast(ns: seq<Chunk>)
    requires ns != []
    ensures AllMem(ns) <==> AllMem(ns[..|ns| - 1]) && ns[|ns| - 1].kind.Mem?
  {
  }

  lemma NoEmptyLast(ns: seq<Chunk>)
    requires ns != []
    ensures NoEmpty(ns) <==> NoEmpty(ns[..|ns| - 1]) && ns[|ns| - 1].Rest() != []
  {
  }

  ghost predicate Distinct(ns: seq<Chunk>) { forall i, j :: 0 <= i < j < |ns| ==> ns[i] != ns[j] }

  /** Every chunk points to its successor, the last one to nothing. */
  ghost predicate Chained(ns: seq<Chunk>)
    reads Objects(ns)`next
  {
    && (forall i, j :: 0 <= i && j == i + 1 < |ns| ==> ns[i].next == ns[j])
    && (ns != [] ==> ns[|ns| - 1].next == null)
  }

  ghost predicate AllOk(ns: seq<Chunk>)
    reads Objects(ns)`kind, Objects(ns)`store, Objects(ns)`size, Objects(ns)`offset
  {
    forall i :: 0 <= i < |ns| ==> ns[i].Ok()
  }

  /** No chunk is used up. */
  ghost predicate NoEmpty(ns: seq<Chunk>)
    reads Objects(ns)`store, Objects(ns)`offset
  {
    forall i :: 0 <= i < |ns| ==> ns[i].Rest() != []
  }

  /** Every chunk is memory, as in every queue read from a client. */
  ghost predicate AllMem(ns: seq<Chunk>)
    reads Objects(ns)`kind
  {
    forall i :: 0 <= i < |ns| ==> ns[i].kind.Mem?
  }

  class Queue {
    var first: Chunk?
    var last: Chunk?
    var bytesIn: int
    var bytesOut: int
    var tempFileSize: nat
    ghost var nodes: seq<Chunk>

    constructor ()
      ensures Valid() && nodes == [] && bytesIn == 0 && bytesOut == 0
    {
      first, last, bytesIn, bytesOut, nodes := null, null, 0, 0, [];
      tempFileSize := DEFAULT_TEMPFILE_SIZE;
    }

    /** The list structure: first leads along nodes, last is their tail. */
    ghost predicate Listed()
      reads this`first, this`last, this`nodes, Objects(nodes)`next
    {
      && Distinct(nodes) && Chained(nodes)
      && first == (if nodes == [] then null else nodes[0])
      && last == (if nodes == [] then null else nodes[|nodes| - 1])
    }

    /** The byte sequence that the queue stands for. */
    ghost function Contents(): Octets
      reads this`nodes, Objects(nodes)`store, Objects(nodes)`offset
    {
      BytesOf(nodes)
    }

    /** chunkqueue_length */
    function Length(): int
      reads this`bytesIn, this`bytesOut
    {
      bytesIn - bytesOut
    }

    ghost predicate Valid()
      reads this, Objects(nodes)
    {
      Listed() && AllOk(nodes) && Length() == |Contents()|
    }

    /** chunkqueue_append_chunk; the counters are the caller's. */
    method AppendChunk(c: Chunk)
      requires Listed() && c !in nodes
      modifies this`first, this`last, this`nodes, c`next, Objects(nodes)`next
      ensures Listed() && nodes == old(nodes) + [c]
    {
      c.next := null;
      if last != null { last.next := c; } else { first := c; }
      last := c;
      nodes := nodes + [c];
    }

    /** The first chunk leaves the list, as in chunkqueue_steal. */
    method PopFirst() returns (c: Chunk)
      requires Listed() && first != null
      modifies this`first, this`last, this`nodes
      ensures Listed() && c == old(nodes)[0] && nodes == old(nodes)[1..]
    {
      ghost var ns := nodes;
      c := first;
      assert c == ns[0] && (|ns| > 1 ==> c.next == ns[1] && last != ns[0]);
      first := c.next;
      if c == last { last := null; }
      nodes := ns[1..];
      assert forall i :: 0 <= i < |nodes| ==> nodes[i] == ns[i + 1] && nodes[i].next == ns[i + 1].next;
    }

    /** chunkqueue_append_mem_extend_chunk: room in the last chunk is used first. */
    method ExtendLast(mem: Octets) returns (done: bool)
      requires Valid()
      modifies this`bytesIn, Objects(nodes)`store
      ensures Valid() && bytesIn == old(bytesIn) + if done then |mem| else 0
      ensures Contents() == if done then old(Contents()) + mem else old(Contents())
      ensures mem == [] ==> done
      ensures old(NoEmpty(nodes)) ==> NoEmpty(nodes)
    {
      hide BytesOf, Listed, Chained, Distinct, AllOk, NoEmpty;
      var c := last;
      if |mem| == 0 {
        assert Contents() == Contents() + mem;
        return true;
      }
      if c != null && c.kind == Mem && c.Space() >= |mem| {
        EndSplits();
        LongerRest(c.store, c.offset, mem);
        c.store := c.store + mem;
        EndSplits();
        bytesIn := bytesIn + |mem|;
        return true;
      }
      done := false;
    }

    /** chunkqueue_append_chunk with its bytes counted in. */
    method AddChunk(c: Chunk)
      requires Valid() && c !in Objects(nodes) && c.Ok()
      modifies this`first, this`last, this`nodes, this`bytesIn, c`next, Objects(nodes)`next
      ensures Valid() && nodes == old(nodes) + [c] && Objects(nodes) == old(Objects(nodes)) + {c} && last == c
      ensures Contents() == old(Contents()) + c.Rest() && bytesIn == old(bytesIn) + |c.Rest()|
      ensures c.Rest() != [] && old(NoEmpty(nodes)) ==> NoEmpty(nodes)
    {
      hide BytesOf, Chained, Distinct;
      ghost var ns := nodes;
      AppendChunk(c);
      Appended(ns, c);
      bytesIn := bytesIn + c.Remaining();
    }

    /** chunkqueue_append_mem */
    method AppendMem(mem: Octets)
      requires Valid()
      modifies this, Objects(nodes)
      ensures Valid() && Contents() == old(Contents()) + mem
      ensures bytesIn == old(bytesIn) + |mem| && bytesOut == old(bytesOut)
      ensures forall x :: x in Objects(nodes) ==> x in old(Objects(nodes)) || (fresh(x) && x.kind.Mem?)
      ensures mem != [] && old(NoEmpty(nodes)) ==> NoEmpty(nodes)
      ensures (old(AllMem(nodes)) ==> AllMem(nodes)) && StaysFile()
    {
      hide BytesOf, Listed, NoEmpty, AllOk;
      if |mem| < CHUNK_SIZE {
        var done := ExtendLast(mem);
        if done { return; }
      }
      var c := Acquire(|mem| + 1);
      c.store := mem;
      assert c.Rest() == mem;
      AddChunk(c);
    }
 
    /** The first chunk leaves the queue and its bytes are counted out. */
    method TakeFirst() returns (c: Chunk)
      requires Valid() && first != null
      modifies this`first, this`last, this`nodes, this`bytesOut
      ensures Valid() && c == old(first) && nodes == old(nodes)[1..] && c !in Objects(nodes)
      ensures Objects(nodes) <= old(Objects(nodes)) && c in old(Objects(nodes))
      ensures c.Ok() && bytesOut == old(bytesOut) + |c.Rest()|
      ensures c.Rest() <= old(Contents()) && Contents() == old(Contents())[|c.Rest()|..]
      ensures (old(NoEmpty(nodes)) ==> NoEmpty(nodes)) && (old(AllMem(nodes)) ==> AllMem(nodes))
    {
      hide BytesOf, Listed, Chained, Distinct, NoEmpty, AllOk;
      Splits();
      ghost var was, rest := Contents(), BytesOf(nodes[1..]);
      c := PopFirst();
      bytesOut := bytesOut + c.Remaining();
      assert (c.Rest() + rest)[|c.Rest()|..] == rest;
    }

    /** The first len bytes of a longer first chunk are counted out. */
    method Advance(len: nat)
      requires Valid() && first != null && len < |first.Rest()|
      modifies first`offset, this`bytesOut
      ensures Valid() && Contents() == old(Contents())[len..] && bytesOut == old(bytesOut) + len
      ensures old(NoEmpty(nodes)) ==> NoEmpty(nodes)
    {
      hide BytesOf, Listed, Chained, Distinct, NoEmpty, AllOk, AllMem;
      Splits();
      DropTwice(first.store, first.offset, len, BytesOf(nodes[1..]));
      first.offset := first.offset + len;
      Splits();
      bytesOut := bytesOut + len;
    }

    /** Two queues that share nothing. */
    ghost predicate Apart(q: Queue)
      reads this`nodes, q`nodes
    {
      this != q && Objects(nodes) !! Objects(q.nodes)
    }

    lemma Head()
      requires Valid()
      ensures first == null ==> nodes == [] && Contents() == []
      ensures first != null ==>
        && nodes != [] && first == nodes[0] && first in Objects(nodes) && first.Ok()
        && first.Rest() <= Contents() && |first.Rest()| == first.Remaining()
        && (NoEmpty(nodes) ==> first.Rest() != [])
    {
    }

    /** chunkqueue_append_file: a range of a file, with nothing appended for an empty one. */
    method AppendFile(file: Octets, offset: nat, len: nat)
      requires Valid() && offset + len <= |file|
      modifies this, Objects(nodes)
      ensures Valid() && Contents() == old(Contents()) + file[offset..offset + len]
      ensures bytesIn == old(bytesIn) + len && bytesOut == old(bytesOut)
      ensures forall x :: x in Objects(nodes) ==> x in old(Objects(nodes)) || (fresh(x) && x.kind.File?)
      ensures (old(NoEmpty(nodes)) ==> NoEmpty(nodes)) && StaysFile()
    {
      hide BytesOf, Listed, NoEmpty, AllOk;
      if len > 0 {
        var c := new Chunk(File(false, true), file[..offset + len], 0, offset);
        assert c.Rest() == file[offset..offset + len];
        AddChunk(c);
      } else {
        assert Contents() == Contents() + file[offset..offset + len];
      }
    }

    /** The first use bytes of src have moved to the end of this queue. */
    ghost predicate Moved(src: Queue, use: nat, was: Octets, srcWas: Octets)
      reads this, src, Objects(nodes), Objects(src.nodes)
    {
      && Valid() && src.Valid() && Apart(src)
      && use <= |srcWas| && Contents() == was + srcWas[..use] && src.Contents() == srcWas[use..]
    }

    /** Copies the first use bytes of a longer first chunk, or refers to them in its file. */
    method StealPart(src: Queue, c: Chunk, use: nat)
      requires Valid() && src.Valid() && Apart(src) && c == src.first && use < |c.Rest()|
      modifies this, src, Objects(nodes), Objects(src.nodes)
      ensures Moved(src, use, old(Contents()), old(src.Contents()))
      ensures bytesIn == old(bytesIn) + use && bytesOut == old(bytesOut)
      ensures src.bytesIn == old(src.bytesIn) && src.bytesOut == old(src.bytesOut) + use
      ensures forall x :: x in Objects(nodes) || x in Objects(src.nodes) ==> x in old(Objects(nodes) + Objects(src.nodes)) || fresh(x)
      ensures use > 0 && old(NoEmpty(nodes)) && old(NoEmpty(src.nodes)) ==> NoEmpty(nodes) && NoEmpty(src.nodes)
      ensures src.nodes == old(src.nodes) && StaysFile() && (old(c.kind.File?) ==> OnlyFiles())
      ensures old(AllMem(src.nodes)) ==> AllMem(src.nodes) && (old(AllMem(nodes)) ==> AllMem(nodes))
    {
      hide BytesOf, Listed, AllOk, NoEmpty;
      src.Head();
      ghost var all := src.Contents();
      assert c.store[c.offset..c.offset + use] == all[..use];
      match c.kind {
        case Mem => AppendMem(c.store[c.offset..c.offset + use]);
        case File(_, _) => AppendFile(c.store, c.offset, use);
      }
      assert src.Valid() && src.Contents() == all && Apart(src) && c !in Objects(nodes);
      src.Advance(use);
    }

    /** One iteration of chunkqueue_steal: returns how many bytes were moved. */
    method StealOne(src: Queue, len: nat) returns (use: nat)
      requires Valid() && src.Valid() && Apart(src) && src.first != null && len > 0
      modifies this, src, Objects(nodes), Objects(src.nodes)
      ensures Moved(src, use, old(Contents()), old(src.Contents()))
      ensures bytesIn == old(bytesIn) + use && bytesOut == old(bytesOut)
      ensures src.bytesIn == old(src.bytesIn) && src.bytesOut == old(src.bytesOut) + use
      ensures forall x :: x in Objects(nodes) || x in Objects(src.nodes) ==> x in old(Objects(nodes) + Objects(src.nodes)) || fresh(x)
      ensures old(NoEmpty(nodes)) && old(NoEmpty(src.nodes)) ==> NoEmpty(nodes) && NoEmpty(src.nodes)
      ensures use <= len && (use > 0 || |src.nodes| < |old(src.nodes)|)
      ensures old(AllMem(src.nodes)) ==> AllMem(src.nodes) && (old(AllMem(nodes)) ==> AllMem(nodes))
      ensures StaysFile() && (old(src.first.kind.File? || src.first.Rest() == []) ==> OnlyFiles())
    {
      hide BytesOf, Listed, AllOk, NoEmpty;
      src.Head();
      var c := src.first;
      var clen := c.Remaining();
      if clen == 0 {
        var dropped := src.TakeFirst();
        assert Contents() == Contents() + old(src.Contents())[..0];
        return 0;
      }
      use := if len >= clen then clen else len;
      if use == clen {
        var whole := src.TakeFirst();
        assert Valid() && Contents() == old(Contents());
        AddChunk(c);
        assert src.Valid() && src.Contents() == old(src.Contents())[use..];
      } else {
        StealPart(src, c, use);
      }
    }

    /** chunkqueue_steal: moves the first bytes of src, in order, to the end of this queue. */
    method Steal(src: Queue, len: int)
      requires Valid() && src.Valid() && Apart(src)
      modifies this, src, Objects(nodes), Objects(src.nodes)
      ensures var n := Min(Max(len, 0), |old(src.Contents())|);
        && Moved(src, n, old(Contents()), old(src.Contents()))
        && bytesIn == old(bytesIn) + n && bytesOut == old(bytesOut)
        && src.bytesIn == old(src.bytesIn) && src.bytesOut == old(src.bytesOut) + n
      ensures forall x :: x in Objects(nodes) || x in Objects(src.nodes) ==> x in old(Objects(nodes) + Objects(src.nodes)) || fresh(x)
      ensures old(NoEmpty(nodes)) && old(NoEmpty(src.nodes)) ==> NoEmpty(nodes) && NoEmpty(src.nodes)
      ensures old(AllMem(src.nodes)) ==> AllMem(src.nodes) && (old(AllMem(nodes)) ==> AllMem(nodes))
    {
      hide BytesOf, Listed, AllOk, NoEmpty;
      var left := len;
      ghost var n: nat := 0;
      assert Contents() + src.Contents()[..0] == Contents();
      while left > 0
        invariant Moved(src, n, old(Contents()), old(src.Contents()))
        invariant left == len - n && (left >= 0 || n == 0)
        invariant bytesIn == old(bytesIn) + n && bytesOut == old(bytesOut)
        invariant src.bytesIn == old(src.bytesIn) && src.bytesOut == old(src.bytesOut) + n
        invariant forall x :: x in Objects(nodes) || x in Objects(src.nodes) ==> x in old(Objects(nodes) + Objects(src.nodes)) || fresh(x)
        invariant old(NoEmpty(nodes)) && old(NoEmpty(src.nodes)) ==> NoEmpty(nodes) && NoEmpty(src.nodes)
        invariant old(AllMem(src.nodes)) ==> AllMem(src.nodes) && (old(AllMem(nodes)) ==> AllMem(nodes))
        decreases left, |src.nodes|
      {
        src.Head();
        if src.first == null { break; }
        var use := StealOne(src, left);
        left := left - use;
        MovedMore(old(Contents()), old(src.Contents()), n, use);
        n := n + use;
      }
    }

    /** The two lists become one. */
    method Splice(src: Queue)
      requires Listed() && src.Listed() && Apart(src) && src.first != null
      modifies this`first, this`last, this`nodes, Objects(nodes)`next
      ensures Listed() && nodes == old(nodes) + src.nodes
    {
      if first == null { first := src.first; } else { last.next := src.first; }
      Joined(nodes, src.nodes);
      last := src.last;
      nodes := nodes + src.nodes;
    }

    /** chunkqueue_append_chunkqueue: all of src moves over. */
    method AppendQueue(src: Queue)
      requires Valid() && src.Valid() && Apart(src)
      modifies this`first, this`last, this`nodes, this`bytesIn, Objects(nodes)`next
      modifies src`first, src`last, src`nodes, src`bytesOut
      ensures Valid() && src.Valid() && src.nodes == [] && nodes == old(nodes) + old(src.nodes)
      ensures Contents() == old(Contents()) + old(src.Contents()) && src.Contents() == []
      ensures bytesIn == old(bytesIn) + old(src.Length()) && bytesOut == old(bytesOut)
      ensures src.first == null && src.bytesIn == old(src.bytesIn)
    {
      hide BytesOf, Distinct, Chained, AllOk, Listed;
      src.Head();
      NoBytes();
      if src.first == null {
        assert nodes + [] == nodes && Contents() + [] == Contents();
        return;
      }
      ghost var a, b := nodes, src.nodes;
      Splice(src);
      bytesIn := bytesIn + src.Length();
      AllOkConcat(a, b);
      BytesOfConcat(a, b);
      src.bytesOut := src.bytesIn;
      ghost var s := Objects(nodes);
      assert allocated(s);
      src.Clear();
    }

    /** The list is given up; the counters are the caller's. */
    method Clear()
      modifies this`first, this`last, this`nodes
      ensures Listed() && nodes == [] && first == null && AllOk(nodes) && Contents() == []
    {
      first, last, nodes := null, null, [];
    }

    /** The last chunk, if it is a temporary file that may grow. */
    function Growing(): (c: Chunk?)
      reads this, last
      ensures c != null ==> c == last
    {
      if last != null && last.kind.File? && last.kind.isTemp && last.kind.open && last.offset == 0 then last else null
    }

    /** chunkqueue_append_mem_to_tempfile, where every write succeeds. */
    method AppendMemToTempfile(mem: Octets)
      requires Valid()
      modifies this, Objects(nodes)
      ensures Valid() && Contents() == old(Contents()) + mem
      ensures bytesIn == old(bytesIn) + |mem| && bytesOut == old(bytesOut)
      ensures forall x :: x in Objects(nodes) ==> x in old(Objects(nodes)) || (fresh(x) && x.kind.File?)
      ensures mem != [] && old(NoEmpty(nodes)) ==> NoEmpty(nodes)
      ensures StaysFile()
      ensures last != null && last.kind == File(true, true)
      ensures if old(Growing() != null && |last.store| < tempFileSize) then nodes == old(nodes) else nodes == old(nodes) + [last]
    {
      hide BytesOf, Listed, NoEmpty;
      EndsAtLast();
      var c := Growing();
      if c != null && |c.store| >= tempFileSize {
        c.kind := File(true, false);
        c := null;
      }
      if c == null {
        c := new Chunk(File(true, true), mem, 0, 0);
        assert c.Rest() == mem;
        hide AllOk;
        AddChunk(c);
      } else {
        GrowLast(mem);
      }
    }

    /** The last chunk and those before it. */
    lemma EndSplits()
      requires Listed() && last != null
      ensures nodes != [] && last == nodes[|nodes| - 1] && last in Objects(nodes)
      ensures var init := nodes[..|nodes| - 1];
        && last !in Objects(init) && BytesOf(nodes) == BytesOf(init) + last.Rest()
        && (AllOk(nodes) <==> AllOk(init) && last.Ok())
        && (NoEmpty(nodes) <==> NoEmpty(init) && last.Rest() != [])
    {
      hide BytesOf, Distinct, Chained, AllOk, NoEmpty;
      LastSplit(nodes);
      AllLast(nodes);
    }

    lemma NoFirst()
      requires Listed()
      ensures first == null <==> nodes == []
    {
    }

    lemma EndsAtLast()
      requires Valid()
      ensures last != null ==> nodes != [] && last == nodes[|nodes| - 1] && last in Objects(nodes) && last.Ok()
    {
    }

    /** The bytes written to the last chunk's file. */
    method GrowLast(mem: Octets)
      requires Valid() && last != null && last.kind.File?
      modifies this`bytesIn, last`store
      ensures Valid() && Contents() == old(Contents()) + mem && bytesIn == old(bytesIn) + |mem|
      ensures old(NoEmpty(nodes)) ==> NoEmpty(nodes)
    {
      hide BytesOf, Listed, Chained, Distinct, AllOk, NoEmpty;
      EndSplits();
      LongerRest(last.store, last.offset, mem);
      last.store := last.store + mem;
      EndSplits();
      bytesIn := bytesIn + |mem|;
    }

    /** The chunks that have joined the queue are files. */
    twostate predicate OnlyFiles()
      reads this, Objects(nodes)
    {
      forall x :: x in Objects(nodes) ==> x in old(Objects(nodes)) || x.kind.File?
    }

    /** The queue's files are files still. */
    twostate predicate StaysFile()
      reads *
    {
      forall x :: x in old(Objects(nodes)) && old(x.kind.File?) ==> x.kind.File?
    }

    /** Puts the first use bytes of a memory chunk into a temporary file. */
    method StealToTempfile(src: Queue, c: Chunk, use: nat)
      requires Valid() && src.Valid() && Apart(src) && c == src.first && 0 < use <= |c.Rest()|
      modifies this, src, Objects(nodes), Objects(src.nodes)
      ensures Moved(src, use, old(Contents()), old(src.Contents()))
      ensures bytesIn == old(bytesIn) + use && bytesOut == old(bytesOut)
      ensures src.bytesIn == old(src.bytesIn) && src.bytesOut == old(src.bytesOut) + use
      ensures forall x :: x in Objects(nodes) || x in Objects(src.nodes) ==> x in old(Objects(nodes) + Objects(src.nodes)) || fresh(x)
      ensures old(NoEmpty(nodes)) && old(NoEmpty(src.nodes)) ==> NoEmpty(nodes) && NoEmpty(src.nodes)
      ensures old(AllMem(src.nodes)) ==> AllMem(src.nodes)
      ensures StaysFile() && OnlyFiles()
    {
      hide BytesOf, Listed, AllOk, NoEmpty, AllMem;
      src.Head();
      ghost var all := src.Contents();
      FirstBytes(c.store, c.offset, use, all);
      AppendMemToTempfile(c.store[c.offset..c.offset + use]);
      assert src.Valid() && src.Contents() == all && Apart(src) && c !in Objects(nodes);
      if use == c.Remaining() {
        var gone := src.TakeFirst();
      } else {
        src.Advance(use);
      }
    }

    /** One iteration of chunkqueue_steal_with_tempfiles. */
    method StealOneWithTempfiles(src: Queue, len: nat) returns (use: nat)
      requires Valid() && src.Valid() && Apart(src) && src.first != null && len > 0
      modifies this, src, Objects(nodes), Objects(src.nodes)
      ensures Moved(src, use, old(Contents()), old(src.Contents()))
      ensures bytesIn == old(bytesIn) + use && bytesOut == old(bytesOut)
      ensures src.bytesIn == old(src.bytesIn) && src.bytesOut == old(src.bytesOut) + use
      ensures forall x :: x in Objects(nodes) || x in Objects(src.nodes) ==> x in old(Objects(nodes) + Objects(src.nodes)) || fresh(x)
      ensures old(NoEmpty(nodes)) && old(NoEmpty(src.nodes)) ==> NoEmpty(nodes) && NoEmpty(src.nodes)
      ensures use <= len && (use > 0 || |src.nodes| < |old(src.nodes)|)
      ensures old(AllMem(src.nodes)) ==> AllMem(src.nodes)
      ensures StaysFile() && OnlyFiles()
    {
      hide BytesOf, Listed, AllOk, NoEmpty;
      src.Head();
      var c := src.first;
      var clen := c.Remaining();
      if clen == 0 || c.kind.File? {
        use := StealOne(src, len);
      } else {
        use := if len >= clen then clen else len;
        StealToTempfile(src, c, use);
      }
    }

    /** chunkqueue_steal_with_tempfiles: the same bytes as chunkqueue_steal, memory going to files. */
    method StealWithTempfiles(src: Queue, len: int)
      requires Valid() && src.Valid() && Apart(src)
      modifies this, src, Objects(nodes), Objects(src.nodes)
      ensures var n := Min(Max(len, 0), |old(src.Contents())|);
        && Moved(src, n, old(Contents()), old(src.Contents()))
        && bytesIn == old(bytesIn) + n && bytesOut == old(bytesOut)
        && src.bytesIn == old(src.bytesIn) && src.bytesOut == old(src.bytesOut) + n
      ensures forall x :: x in Objects(nodes) || x in Objects(src.nodes) ==> x in old(Objects(nodes) + Objects(src.nodes)) || fresh(x)
      ensures old(NoEmpty(nodes)) && old(NoEmpty(src.nodes)) ==> NoEmpty(nodes) && NoEmpty(src.nodes)
      ensures old(AllMem(src.nodes)) ==> AllMem(src.nodes)
      ensures OnlyFiles()
    {
      hide BytesOf, Listed, AllOk, NoEmpty;
      var left := len;
      ghost var n: nat := 0;
      assert Contents() + src.Contents()[..0] == Contents();
      while left > 0
        invariant Moved(src, n, old(Contents()), old(src.Contents()))
        invariant left == len - n && (left >= 0 || n == 0)
        invariant bytesIn == old(bytesIn) + n && bytesOut == old(bytesOut)
        invariant src.bytesIn == old(src.bytesIn) && src.bytesOut == old(src.bytesOut) + n
        invariant forall x :: x in Objects(nodes) || x in Objects(src.nodes) ==> x in old(Objects(nodes) + Objects(src.nodes)) || fresh(x)
        invariant old(NoEmpty(nodes)) && old(NoEmpty(src.nodes)) ==> NoEmpty(nodes) && NoEmpty(src.nodes)
        invariant old(AllMem(src.nodes)) ==> AllMem(src.nodes)
        invariant OnlyFiles()
        decreases left, |src.nodes|
      {
        src.Head();
        if src.first == null { break; }
        var use := StealOneWithTempfiles(src, left);
        left := left - use;
        MovedMore(old(Contents()), old(src.Contents()), n, use);
        n := n + use;
      }
    }

    /** chunkqueue_compact_mem_offset: the bytes of the first chunk move to the start of its buffer. */
    method CompactMemOffset()
      requires Valid() && first != null
      modifies first`store, first`offset
      ensures Valid() && Contents() == old(Contents()) && first.Rest() == old(first.Rest())
      ensures first.kind.Mem? ==> first.offset == 0
      ensures old(NoEmpty(nodes)) ==> NoEmpty(nodes)
    {
      hide BytesOf, Chained, Distinct, NoEmpty, AllOk;
      FirstSplit(nodes);
      var c := first;
      if c.offset == 0 || !c.kind.Mem? { return; }
      c.store, c.offset := c.store[c.offset..], 0;
      FirstSplit(nodes);
    }

    /** b takes the place of the first chunk in the list. */
    method Replace(b: Chunk)
      requires Listed() && first != null && b !in Objects(nodes)
      modifies this`first, this`last, this`nodes, b`next
      ensures Listed() && Distinct(nodes) && first == b && nodes != [] && nodes[1..] == old(nodes)[1..]
    {
      hide Distinct, Chained;
      ghost var ns := nodes;
      ghost var olds := Objects(ns);
      assert allocated(olds);
      SecondOrEnd(ns);
      b.next := first.next;
      if first.next == null { last := b; }
      first := b;
      nodes := [b] + ns[1..];
      Relinked(ns, b);
    }

    /** The first chunk is replaced by a fresh one with room for clen bytes. */
    method Reseat(clen: nat)
      requires Valid() && first != null && AllMem(nodes) && |first.Rest()| <= clen
      modifies this`first, this`last, this`nodes
      ensures Valid() && Contents() == old(Contents()) && fresh(first) && AllMem(nodes)
      ensures forall x :: x in Objects(nodes) ==> x in old(Objects(nodes)) || fresh(x)
      ensures first.Rest() == old(first.Rest()) && first.Space() >= clen - |first.Rest()|
      ensures old(NoEmpty(nodes)) ==> NoEmpty(nodes)
    {
      hide BytesOf, Listed, Chained, Distinct, NoEmpty, AllOk, AllMem;
      Splits();
      ghost var ns := nodes;
      ghost var s, rest := Objects(ns), BytesOf(ns[1..]);
      assert allocated(s);
      var b := Copied(first, clen);
      Replace(b);
      Splits();
    }

    /** The first chunk and the rest. */
    lemma Splits()
      requires Listed() && first != null
      ensures nodes != [] && first == nodes[0] && first !in Objects(nodes[1..])
      ensures Objects(nodes) == {first} + Objects(nodes[1..]) && BytesOf(nodes) == first.Rest() + BytesOf(nodes[1..])
      ensures AllOk(nodes) <==> first.Ok() && AllOk(nodes[1..])
      ensures AllMem(nodes) <==> first.kind.Mem? && AllMem(nodes[1..])
      ensures NoEmpty(nodes) <==> first.Rest() != [] && NoEmpty(nodes[1..])
    {
      FirstSplit(nodes);
    }

    /** The first two chunks and the rest. */
    lemma SplitsTwice()
      requires Listed() && first != null && first.next != null
      ensures |nodes| > 1 && first == nodes[0] && first.next == nodes[1] != first
      ensures first !in Objects(nodes[2..]) && first.next !in Objects(nodes[2..])
      ensures Objects(nodes) == {first, first.next} + Objects(nodes[2..])
      ensures BytesOf(nodes) == first.Rest() + BytesOf(nodes[1..]) && BytesOf(nodes[1..]) == first.next.Rest() + BytesOf(nodes[2..])
      ensures AllOk(nodes) <==> first.Ok() && first.next.Ok() && AllOk(nodes[2..])
      ensures AllMem(nodes) <==> first.kind.Mem? && first.next.kind.Mem? && AllMem(nodes[2..])
      ensures NoEmpty(nodes) <==> first.Rest() != [] && first.next.Rest() != [] && NoEmpty(nodes[2..])
    {
      SecondSplit(nodes);
    }

    /** Bytes are copied to the end of the first chunk. */
    method Extend(t: Octets)
      requires Listed() && AllOk(nodes) && first != null && first.kind.Mem? && |t| <= first.Space()
      modifies first`store
      ensures AllOk(nodes) && first.Ok() && first.Rest() == old(first.Rest()) + t && first.Space() == old(first.Space()) - |t|
      ensures BytesOf(nodes) == first.Rest() + BytesOf(nodes[1..]) && BytesOf(nodes[1..]) == old(BytesOf(nodes[1..]))
      ensures old(NoEmpty(nodes)) ==> NoEmpty(nodes)
    {
      hide BytesOf, Listed, Chained, Distinct, NoEmpty, AllOk, AllMem;
      Splits();
      ghost var was := first.Rest();
      first.store := first.store + t;
      assert first.Rest() == was + t;
      Splits();
    }

    /** The first want bytes of a longer second chunk are passed over. */
    method SkipSecond(c: Chunk, want: nat)
      requires Listed() && AllOk(nodes) && first != null && first.next == c && want < |c.Rest()|
      modifies c`offset
      ensures AllOk(nodes) && BytesOf(nodes) == first.Rest() + old(BytesOf(nodes[1..]))[want..]
      ensures old(NoEmpty(nodes)) ==> NoEmpty(nodes)
    {
      hide BytesOf, Listed, Chained, Distinct, NoEmpty, AllOk, AllMem;
      SplitsTwice();
      ghost var rest, later := BytesOf(nodes[2..]), BytesOf(nodes[1..]);
      Skipped(c.store, c.offset, want, rest);
      c.offset := c.offset + want;
      SplitsTwice();
      assert BytesOf(nodes[1..]) == later[want..];
    }

    /** Copies the first want bytes of a longer second chunk into the first. */
    method AbsorbPart(c: Chunk, want: nat)
      requires Valid() && first != null && first.next == c && AllMem(nodes) && 0 < want <= first.Space()
      requires want < |c.Rest()|
      modifies first`store, c`offset
      ensures Valid() && Contents() == old(Contents())
      ensures |first.Rest()| == |old(first.Rest())| + want && first.Space() == old(first.Space()) - want
      ensures old(NoEmpty(nodes)) ==> NoEmpty(nodes)
    {
      hide BytesOf, NoEmpty, AllOk, AllMem, Listed, Chained, Distinct;
      SplitsTwice();
      var part := c.store[c.offset..c.offset + want];
      Absorbed(first.Rest(), part, c.Rest(), BytesOf(nodes[2..]), c.store, c.offset, want);
      Extend(part);
      SkipSecond(c, want);
    }

    /** Copies the second chunk into the first and drops it. */
    method AbsorbAll(c: Chunk)
      requires Valid() && first != null && first.next == c && AllMem(nodes) && |c.Rest()| <= first.Space()
      modifies this`last, this`nodes, first`store, first`next
      ensures Valid() && Contents() == old(Contents()) && AllMem(nodes) && |nodes| < |old(nodes)|
      ensures |first.Rest()| == |old(first.Rest())| + |c.Rest()| && first.Space() == old(first.Space()) - |c.Rest()|
      ensures Objects(nodes) <= old(Objects(nodes))
      ensures old(NoEmpty(nodes)) ==> NoEmpty(nodes)
    {
      hide BytesOf, NoEmpty, AllOk, AllMem, Listed, Chained, Distinct;
      SplitsTwice();
      ghost var was, rest := first.Rest(), BytesOf(nodes[2..]);
      Regroup(was, c.Rest(), rest, |c.Rest()|);
      Extend(c.store[c.offset..]);
      SplitsTwice();
      DropSecond();
    }

    /** Takes up to want bytes of the second chunk into the first. */
    method Absorb(want: nat) returns (took: nat)
      requires Valid() && first != null && first.next != null && AllMem(nodes) && 0 < want <= first.Space()
      modifies this`last, this`nodes, Objects(nodes)
      ensures Valid() && Contents() == old(Contents()) && first == old(first) && AllMem(nodes)
      ensures took <= want && (took == want || |nodes| < |old(nodes)|)
      ensures |first.Rest()| == |old(first.Rest())| + took && first.Space() == old(first.Space()) - took
      ensures took >= Min(want, old(|first.next.Rest()|)) && Objects(nodes) <= old(Objects(nodes))
      ensures old(NoEmpty(nodes)) ==> NoEmpty(nodes)
    {
      SecondSplit(nodes);
      hide BytesOf, NoEmpty, AllOk, Listed;
      var c := first.next;
      var len := c.Remaining();
      if len > want {
        AbsorbPart(c, want);
        took := want;
      } else {
        AbsorbAll(c);
        took := len;
      }
    }

    /** What remains of the queue without its second chunk. */
    method DropSecond()
      requires Listed() && first != null && first.next != null && |nodes| > 1
      requires first.Ok() && AllOk(nodes[2..]) && first.kind.Mem? && AllMem(nodes[2..])
      requires Length() == |first.Rest() + BytesOf(nodes[2..])|
      modifies this`last, this`nodes, first`next
      ensures Valid() && |nodes| < |old(nodes)| && Objects(nodes) <= old(Objects(nodes)) && AllMem(nodes)
      ensures Contents() == first.Rest() + old(BytesOf(nodes[2..]))
      ensures first.Rest() != [] && old(NoEmpty(nodes[2..])) ==> NoEmpty(nodes)
    {
      hide BytesOf, NoEmpty, AllOk, AllMem, Chained, Distinct;
      ghost var later := nodes[2..];
      Unlink();
      assert nodes[1..] == later;
      FirstSplit(nodes);
    }

    /** The second chunk leaves the list. */
    method Unlink()
      requires Listed() && first != null && first.next != null
      modifies this`last, this`nodes, first`next
      ensures Listed() && Distinct(nodes) && nodes == [first] + old(nodes)[2..] && Objects(nodes) <= old(Objects(nodes))
    {
      ghost var ns := nodes;
      assert |ns| > 1 && ns[0].next == ns[1] && (|ns| > 2 ==> ns[1].next == ns[2] && ns[|ns| - 1] == ns[2..][|ns| - 3]);
      var fc, c := first, first.next;
      fc.next := c.next;
      if c.next == null { last := fc; }
      nodes := [fc] + ns[2..];
      assert forall i :: 1 <= i < |nodes| ==> nodes[i] == ns[i + 1];
    }

    /** chunkqueue_compact_mem: the first chunk gets at least clen bytes, or all there are. */
    method CompactMem(clen: nat)
      requires Valid() && first != null && AllMem(nodes)
      modifies this`first, this`last, this`nodes, Objects(nodes)
      ensures Valid() && first != null && AllMem(nodes) && Contents() == old(Contents())
      ensures Min(clen, |Contents()|) <= |first.Rest()| && old(|first.Rest()|) <= |first.Rest()|
      ensures forall x :: x in Objects(nodes) ==> x in old(Objects(nodes)) || fresh(x)
      ensures old(NoEmpty(nodes)) ==> NoEmpty(nodes)
    {
      hide BytesOf, NoEmpty, AllOk, Listed;
      Head();
      var len := first.Remaining();
      if len >= clen { return; }
      if first.size > clen {
        if first.Space() < clen - len { CompactMemOffset(); }
      } else {
        Reseat(clen);
      }
      var left := clen - len;
      while left > 0 && first.next != null
        invariant Valid() && first != null && AllMem(nodes) && Contents() == old(Contents())
        invariant |first.Rest()| == clen - left && 0 <= left <= clen - len && left <= first.Space()
        invariant forall x :: x in Objects(nodes) ==> x in old(Objects(nodes)) || fresh(x)
        invariant old(NoEmpty(nodes)) ==> NoEmpty(nodes)
        decreases left, |nodes|
      {
        Head();
        var took := Absorb(left);
        left := left - took;
      }
      OnlyFirst();
    }

    /** One chunk's turn in chunkqueue_peek_data: memory is referred to while nothing has been gathered
        and copied otherwise; a file is read into buf, wherever the result is looked for. */
    method PeekChunk(c: Chunk, buf: array<Byte>, n: nat, at: Chunk?, space: nat, ghost behind: Octets)
        returns (ok: bool, m: nat, place: Chunk?)
      requires c.Ok() && n + space <= buf.Length && |behind| >= n + space
      requires at != null ==> n == 0 && at.Rest() == []
      modifies buf
      ensures ok <==> Reads(c, space)
      ensures m == n + |Upto(c.Rest(), space)|
      ensures View(place, buf, m, behind) == old(Shown(at != null, c, View(at, buf, n, behind), space, behind))
      ensures place != null && m == 0 && space > 0 ==> place.Rest() == []
      ensures place == null <==> at == null && (c.kind.File? || n > 0)
    {
      var have := Min(c.Remaining(), space);
      var part := c.store[c.offset..c.offset + have];
      assert part == c.Rest()[..have];
      if c.kind.Mem? && n == 0 {
        return true, have, c;
      }
      CopyInto(buf, n, part);
      return c.kind.Mem? || have > 0, n + have, at;
    }

    /** How far chunkqueue_peek_data has come before chunk k, or after the last one when c is null: n bytes
        have been gathered, which are shown as g. */
    ghost predicate Gathering(k: nat, c: Chunk?, n: nat, g: Octets, want: nat, behind: Octets)
      reads this, Objects(nodes)
    {
      && Valid() && n <= want <= |behind|
      && if c == null then
           g == Gathered(nodes, want, behind) && n == Min(|Contents()|, want) && Readable(nodes, want)
         else
           && k < |nodes| && c == nodes[k] && n == |BytesOf(nodes[..k])| && g == Gathered(nodes[..k], want, behind)
           && (if k == 0 then n == 0 else n < want) && forall j :: 0 <= j < k ==> Reads(nodes[j], want)
    }

    /** Besides, the result is in place's buffer or, when place is null, in buf. */
    ghost predicate Peeking(k: nat, c: Chunk?, buf: array<Byte>, n: nat, place: Chunk?, want: nat, behind: Octets, g: Octets)
      reads this, Objects(nodes), buf, if place == null then {} else {place}
    {
      && Gathering(k, c, n, g, want, behind) && n <= want <= buf.Length && want <= |behind|
      && View(place, buf, n, behind) == g
      && (c != null ==> if place == null then n > 0 || k == 0 else n == 0 && k > 0 && place.Rest() == [])
    }

    lemma PeekStart(want: nat, behind: Octets)
      requires Valid() && want <= |behind|
      ensures Gathering(0, first, 0, [], want, behind)
    {
      Head();
      Prefixes(nodes, 0);
    }

    /** The bytes of the next chunk join the ones gathered so far. */
    lemma PeekStep(k: nat, c: Chunk, n: nat, g: Octets, want: nat, behind: Octets)
      requires Gathering(k, c, n, g, want, behind)
      ensures c.Ok() && c.next == (if k + 1 < |nodes| then nodes[k + 1] else null)
      ensures |BytesOf(nodes[..k + 1])| == n + |c.Rest()| && (k + 1 == |nodes| ==> |Contents()| == n + |c.Rest()|)
      ensures var part := Upto(c.Rest(), want - n);
        |part| == Min(|c.Rest()|, want - n) &&
        Gathered(nodes[..k + 1], want, behind) == Shown(n == 0 && k > 0, c, g, want - n, behind)
    {
      hide BytesOf, Gathered, Valid, Upto, Readable, Reads, Shown;
      var init := nodes[..k];
      NodeAt(k);
      GatheredLength(init, want, behind);
      GatheredStep(init, c, want, behind);
      assert init + [c] == nodes[..k + 1];
      UptoLength(c.Rest(), want - n);
    }

    /** One chunk further: reading has failed, all is gathered, or the loop goes on. */
    lemma GatheringNext(k: nat, c: Chunk, n: nat, g: Octets, want: nat, behind: Octets)
      requires Gathering(k, c, n, g, want, behind)
      ensures k < |nodes| && c.Ok() && |Upto(c.Rest(), want - n)| == Min(|c.Rest()|, want - n)
      ensures !Reads(c, want - n) ==> !Readable(nodes, want)
      ensures Reads(c, want - n) && c.kind.File? ==> c.Rest() != [] && want > n
      ensures Reads(c, want - n) ==> var part := Upto(c.Rest(), want - n);
        Gathering(k + 1, if n + |part| == want then null else c.next, n + |part|,
          Shown(n == 0 && k > 0, c, g, want - n, behind), want, behind)
    {
      hide BytesOf, Upto, Gathered, Listed, AllOk, Shown, Valid;
      PeekStep(k, c, n, g, want, behind);
      assert Reads(c, want - n) == Reads(c, want);
      if Reads(c, want) && (k + 1 == |nodes| || n + |c.Rest()| >= want) {
        ReadableBy(nodes, k + 1, want);
        assert k + 1 == |nodes| ==> nodes[..k + 1] == nodes;
        if n + |c.Rest()| >= want { GatheredFull(nodes, k + 1, want, behind); }
      }
    }

    /** The chunk's turn, and the end of the loop or the next chunk. */
    method PeekTurn(ghost k: nat, c: Chunk, buf: array<Byte>, n: nat, at: Chunk?, want: nat, behind: Octets, ghost g: Octets)
        returns (ok: bool, m: nat, place: Chunk?, next: Chunk?, ghost h: Octets)
      requires Peeking(k, c, buf, n, at, want, behind, g)
      modifies buf
      ensures k < |nodes| && (!ok ==> !Readable(nodes, want))
      ensures ok ==> Gathering(k + 1, next, m, h, want, behind) && m <= want && View(place, buf, m, behind) == h
      ensures ok && next != null ==> if place == null then m > 0 else m == 0 ==> place.Rest() == []
    {
      hide Gathering, Readable, Upto, View, Reads, Shown;
      GatheringNext(k, c, n, g, want, behind);
      h := Shown(n == 0 && k > 0, c, g, want - n, behind);
      assert allocated(Objects(nodes));
      ok, m, place := PeekChunk(c, buf, n, at, want - n, behind);
      next := if m == want then null else c.next;
    }

    /** One iteration of chunkqueue_peek_data; it is the last one when no next chunk is returned. */
    method PeekNext(ghost k: nat, c: Chunk, buf: array<Byte>, n: nat, at: Chunk?, want: nat, behind: Octets, ghost g: Octets)
        returns (ok: bool, m: nat, place: Chunk?, next: Chunk?, ghost h: Octets)
      requires Peeking(k, c, buf, n, at, want, behind, g)
      modifies buf
      ensures k < |nodes| && (ok ==> Peeking(k + 1, next, buf, m, place, want, behind, h))
      ensures !ok ==> !Readable(nodes, want)
    {
      ok, m, place, next, h := PeekTurn(k, c, buf, n, at, want, behind, g);
      if ok && next != null {
        hide Gathering, View;
        assert allocated(Objects(nodes));
        place := Settle(buf, m, place, behind);
      }
    }

    /** Before the next chunk, bytes that are only referred to are copied to buf. */
    method Settle(buf: array<Byte>, m: nat, at: Chunk?, behind: Octets) returns (place: Chunk?)
      requires m <= buf.Length && m <= |behind|
      modifies buf
      ensures View(place, buf, m, behind) == old(View(at, buf, m, behind))
      ensures place == if m > 0 then null else at
    {
      place := at;
      if m > 0 && place != null {
        CopyInto(buf, 0, View(place, buf, m, behind));
        place := null;
      }
    }

    /** chunkqueue_peek_data: the first want bytes, in a chunk's own buffer or else in buf.  A file that
        follows only empty chunks is read into buf, but the result is left at the empty chunk: what is seen
        there is whatever memory lies behind that chunk's string, called behind here. */
    method PeekData(buf: array<Byte>, want: nat, behind: Octets) returns (ok: bool, n: nat, place: Chunk?)
      requires Valid() && want <= buf.Length && want <= |behind|
      modifies buf
      ensures ok <==> Readable(nodes, want)
      ensures ok ==> n == Min(|Contents()|, want) && View(place, buf, n, behind) == Gathered(nodes, want, behind)
      ensures ok && !Misled(nodes) ==> View(place, buf, n, behind) == Upto(Contents(), want)
    {
      PeekStart(want, behind);
      ghost var k, g := 0, [];
      n, place, ok := 0, null, true;
      var c := first;
      while c != null
        invariant ok && Peeking(k, c, buf, n, place, want, behind, g)
        decreases |nodes| - k, if c == null then 0 else 1
      {
        hide Valid, Upto, Gathered, Gathering;
        ok, n, place, c, g := PeekNext(k, c, buf, n, place, want, behind, g);
        if !ok { return; }
        k := k + 1;
      }
      hide Valid, Upto, Gathered;
      if !Misled(nodes) { GatheredRight(nodes, want, behind); }
    }

    /** chunkqueue_read_data: the first want bytes leave the queue for buf, or nothing happens. */
    method ReadData(buf: array<Byte>, want: nat, behind: Octets) returns (ok: bool)
      requires Valid() && want <= buf.Length && want <= |behind|
      modifies this`first, this`last, this`nodes, this`bytesOut, Objects(nodes)`offset, buf
      ensures Valid() && ok == (old(Readable(nodes, want)) && want <= old(|Contents()|)) && bytesIn == old(bytesIn)
      ensures ok ==> buf[..want] == old(Gathered(nodes, want, behind)) && Contents() == old(Contents())[want..]
      ensures ok && !old(Misled(nodes)) ==> buf[..want] == old(Contents())[..want]
      ensures !ok ==> Contents() == old(Contents())
    {
      hide BytesOf, Listed, AllOk, Gathered, Readable, Misled;
      var peeked, n, place := PeekData(buf, want, behind);
      if !peeked || n != want { return false; }
      if place != null { CopyInto(buf, 0, View(place, buf, want, behind)); }
      MarkWritten(want);
      ok := true;
    }

    lemma NodeAt(k: nat)
      requires Valid() && k < |nodes|
      ensures nodes[k].Ok() && nodes[k].next == (if k + 1 < |nodes| then nodes[k + 1] else null)
      ensures BytesOf(nodes[..k + 1]) == BytesOf(nodes[..k]) + nodes[k].Rest() && BytesOf(nodes[..k + 1]) <= Contents()
      ensures k + 1 == |nodes| ==> BytesOf(nodes[..k + 1]) == Contents()
      ensures k == 0 ==> BytesOf(nodes[..k]) == []
    {
      assert k + 1 < |nodes| ==> nodes[k].next == nodes[k + 1];
      Prefixes(nodes, k);
      Prefixes(nodes, k + 1);
    }

    lemma OnlyFirst()
      requires Valid() && first != null
      ensures first.next == null ==> Contents() == first.Rest()
      ensures first in Objects(nodes) && (first.next != null ==> first.next in Objects(nodes))
    {
      assert |nodes| > 1 ==> nodes[0].next == nodes[1];
      assert |nodes| == 1 ==> BytesOf(nodes[1..]) == [];
    }

    /** chunkqueue_remove_finished_chunks */
    method RemoveFinished()
      requires Listed() && AllOk(nodes)
      modifies this`first, this`last, this`nodes
      ensures Listed() && AllOk(nodes) && Contents() == old(Contents()) && Objects(nodes) <= old(Objects(nodes))
      ensures first != null ==> first.Rest() != []
      ensures old(NoEmpty(nodes)) ==> nodes == old(nodes)
    {
      hide BytesOf, Chained, Distinct, NoEmpty, AllOk;
      while first != null && first.Remaining() == 0
        invariant Listed() && AllOk(nodes) && Contents() == old(Contents()) && Objects(nodes) <= old(Objects(nodes))
        invariant old(NoEmpty(nodes)) ==> nodes == old(nodes)
        decreases |nodes|
      {
        FirstSplit(nodes);
        assert [] + BytesOf(nodes[1..]) == BytesOf(nodes[1..]);
        var c := PopFirst();
      }
      if first != null { FirstSplit(nodes); }
    }

    /** One iteration of chunkqueue_mark_written on the first chunk; done when nothing is left to drop. */
    method DropFirst(len: nat) returns (left: nat, partial: bool)
      requires Listed() && AllOk(nodes) && first != null && len <= |Contents()|
      modifies this`first, this`last, this`nodes, Objects(nodes)`offset
      ensures Listed() && AllOk(nodes) && Objects(nodes) <= old(Objects(nodes))
      ensures left <= len && Contents() == old(Contents())[len - left..]
      ensures partial ==> left == 0 && first != null && first.Rest() != []
      ensures !partial ==> |nodes| < |old(nodes)|
      ensures old(NoEmpty(nodes)) ==> NoEmpty(nodes)
    {
      hide BytesOf, Listed, Chained, Distinct, NoEmpty, AllOk;
      Splits();
      var c := first;
      var cLen := c.Remaining();
      ghost var rest, was := BytesOf(nodes[1..]), c.Rest();
      if len >= cLen {
        assert (was + rest)[cLen..] == rest;
        var gone := PopFirst();
        return len - cLen, false;
      } else {
        DropTwice(c.store, c.offset, len, rest);
        c.offset := c.offset + len;
        Splits();
        return 0, true;
      }
    }

    /** The loop of chunkqueue_mark_written. */
    method DropBytes(len: nat) returns (partial: bool)
      requires Listed() && AllOk(nodes) && len <= |Contents()|
      modifies this`first, this`last, this`nodes, Objects(nodes)`offset
      ensures Listed() && AllOk(nodes) && Contents() == old(Contents())[len..] && Objects(nodes) <= old(Objects(nodes))
      ensures partial ==> first != null && first.Rest() != []
      ensures old(NoEmpty(nodes)) ==> NoEmpty(nodes)
    {
      hide BytesOf, Listed, NoEmpty, AllOk, AllMem;
      var left := len;
      partial := false;
      assert old(Contents())[len - left..] == Contents();
      while first != null
        invariant Listed() && AllOk(nodes) && 0 <= left <= len && Objects(nodes) <= old(Objects(nodes))
        invariant Contents() == old(Contents())[len - left..]
        invariant !partial && (old(NoEmpty(nodes)) ==> NoEmpty(nodes))
        decreases |nodes|
      {
        left, partial := DropFirst(left);
        if partial || left == 0 { return; }
      }
      NoBytes();
      NoFirst();
    }

    /** chunkqueue_mark_written: the first len bytes have been sent. */
    method MarkWritten(len: nat)
      requires Valid() && len <= |Contents()|
      modifies this`first, this`last, this`nodes, this`bytesOut, Objects(nodes)`offset
      ensures Valid() && Contents() == old(Contents())[len..] && Objects(nodes) <= old(Objects(nodes))
      ensures bytesIn == old(bytesIn) && bytesOut == old(bytesOut) + len
      ensures first != null ==> first.Rest() != []
      ensures old(NoEmpty(nodes)) ==> NoEmpty(nodes)
      ensures old(AllMem(nodes)) ==> AllMem(nodes)
    {
      hide BytesOf, Listed, NoEmpty, AllOk, AllMem;
      bytesOut := bytesOut + len;
      var partial := DropBytes(len);
      if !partial && first != null { RemoveFinished(); }
      AllMemSome(old(nodes), nodes);
    }
  }

  // ---------------------------------------------------------------- peeking

  /** Reading this chunk for want bytes does not fail: a read of no bytes counts as a failure. */
  ghost predicate Reads(c: Chunk, want: nat)
    reads c`kind, c`store, c`offset
  {
    c.kind.File? ==> c.Rest() != [] && want > 0
  }

  /** Every chunk that is reached before want bytes are complete can be read. */
  ghost predicate Readable(ns: seq<Chunk>, want: nat)
    reads Objects(ns)`kind, Objects(ns)`store, Objects(ns)`offset
  {
    forall k :: 0 <= k < |ns| && (k == 0 || |BytesOf(ns[..k])| < want) ==> Reads(ns[k], want)
  }

  /** Chunk k is a file with the first bytes of the list. */
  ghost predicate FirstInFile(ns: seq<Chunk>, k: nat)
    requires k < |ns|
    reads Objects(ns)`kind, Objects(ns)`store, Objects(ns)`offset
  {
    ns[k].kind.File? && ns[k].Rest() != [] && BytesOf(ns[..k]) == []
  }

  /** The first bytes are a file's, and empty chunks come before it. */
  ghost predicate Misled(ns: seq<Chunk>)
    reads Objects(ns)`kind, Objects(ns)`store, Objects(ns)`offset
  {
    exists k :: 0 < k < |ns| && FirstInFile(ns, k)
  }

  /** Where the result of a peek is seen: in buf, or from the rest of a chunk's string onwards. */
  function View(place: Chunk?, buf: array<Byte>, n: nat, behind: Octets): Octets
    requires n <= buf.Length && n <= |behind|
    reads buf, if place == null then {} else {place}
  {
    if place == null then buf[..n] else (place.Rest() + behind)[..n]
  }

  /** What a peek shows when a chunk is added; late means that only empty chunks come before it. */
  ghost function Shown(late: bool, c: Chunk, g: Octets, space: nat, behind: Octets): Octets
    requires space <= |behind|
    reads c`kind, c`store, c`offset
  {
    var part := Upto(c.Rest(), space);
    if late && c.kind.File? then behind[..|part|] else g + part
  }

  /** What a peek shows of a list, chunk by chunk. */
  ghost function Gathered(ns: seq<Chunk>, want: nat, behind: Octets): (g: Octets)
    requires want <= |behind|
    reads Objects(ns)`kind, Objects(ns)`store, Objects(ns)`offset
    ensures |g| <= want
  {
    if ns == [] then []
    else
      var g, c := Gathered(ns[..|ns| - 1], want, behind), ns[|ns| - 1];
      Shown(g == [] && |ns| > 1, c, g, want - |g|, behind)
  }

  lemma {:induction false} GatheredLength(ns: seq<Chunk>, want: nat, behind: Octets)
    requires want <= |behind|
    ensures |Gathered(ns, want, behind)| == Min(|BytesOf(ns)|, want)
  {
    if ns != [] {
      var k := |ns| - 1;
      assert ns[..k] + [ns[k]] == ns;
      GatheredLength(ns[..k], want, behind);
      hide BytesOf;
      Appended(ns[..k], ns[k]);
    }
  }

  lemma ReadableBy(ns: seq<Chunk>, k: nat, want: nat)
    requires 0 < k <= |ns| && (forall j :: 0 <= j < k ==> Reads(ns[j], want))
    requires k == |ns| || |BytesOf(ns[..k])| >= want
    ensures Readable(ns, want)
  {
    hide BytesOf;
    forall j | k <= j < |ns| ensures |BytesOf(ns[..j])| >= want {
      assert ns[..j][..k] == ns[..k];
      Prefixes(ns[..j], k);
    }
  }

  /** Once all is gathered, further chunks change nothing. */
  lemma {:induction false} GatheredFull(ns: seq<Chunk>, k: nat, want: nat, behind: Octets)
    requires k <= |ns| && want <= |behind| && |BytesOf(ns[..k])| >= want
    ensures |BytesOf(ns)| >= want && Gathered(ns, want, behind) == Gathered(ns[..k], want, behind)
  {
    if k == |ns| { assert ns[..k] == ns; } else {
      var e := |ns| - 1;
      assert ns[..e][..k] == ns[..k];
      GatheredFull(ns[..e], k, want, behind);
      GatheredLength(ns[..e], want, behind);
      Prefixes(ns, e);
    }
  }

  /** What the last chunk does to a peek. */
  lemma GatheredStep(init: seq<Chunk>, c: Chunk, want: nat, behind: Octets)
    requires want <= |behind|
    ensures var g := Gathered(init, want, behind);
      Gathered(init + [c], want, behind) == Shown(g == [] && init != [], c, g, want - |g|, behind)
  {
    hide Upto, Shown;
    assert (init + [c])[..|init|] == init;
  }

  /** What it does to whether the peek is misled. */
  lemma MisledStep(init: seq<Chunk>, c: Chunk)
    ensures Misled(init + [c]) <==> Misled(init) || (init != [] && c.kind.File? && c.Rest() != [] && BytesOf(init) == [])
  {
    var k, ns := |init|, init + [c];
    assert ns[..k] == init && ns[k] == c;
    assert forall j :: 0 < j < k ==> FirstInFile(init, j) == FirstInFile(ns, j) by {
      forall j | 0 < j < k ensures FirstInFile(init, j) == FirstInFile(ns, j) {
        assert init[..j] == ns[..j];
      }
    }
    assert k > 0 ==> FirstInFile(ns, k) == (c.kind.File? && c.Rest() != [] && BytesOf(init) == []);
    hide FirstInFile;
  }

  /** Without such a file a peek shows the first bytes of the queue; with one, the first byte shown is one
      from behind the empty chunk. */
  lemma {:induction false} GatheredRight(ns: seq<Chunk>, want: nat, behind: Octets)
    requires want <= |behind|
    ensures !Misled(ns) ==> Gathered(ns, want, behind) == Upto(BytesOf(ns), want)
    ensures Misled(ns) && want > 0 ==> var g := Gathered(ns, want, behind); g != [] && g[0] == behind[0]
  {
    if ns == [] { NoBytes(); } else {
      var k := |ns| - 1;
      var init, c := ns[..k], ns[k];
      assert init + [c] == ns;
      GatheredRight(init, want, behind);
      GatheredLength(init, want, behind);
      Appended(init, c);
      GatheredStep(init, c, want, behind);
      MisledStep(init, c);
      hide Gathered, BytesOf, Misled;
      TakeMore(BytesOf(init), c.Rest(), want);
    }
  }

  /** A peek shows the first bytes of the queue, whatever lies behind strings, if and only if it asks for
      none or the first bytes are not a file's behind empty chunks. */
  lemma PeekExact(ns: seq<Chunk>, want: nat)
    ensures (forall behind: Octets :: want <= |behind| ==> Gathered(ns, want, behind) == Upto(BytesOf(ns), want))
      <==> !Misled(ns) || want == 0
  {
    hide Gathered, BytesOf, Misled, Upto;
    forall behind: Octets | want <= |behind| && (!Misled(ns) || want == 0)
      ensures Gathered(ns, want, behind) == Upto(BytesOf(ns), want)
    {
      GatheredRight(ns, want, behind);
      UptoNothing(Gathered(ns, want, behind), BytesOf(ns), want);
    }
    if Misled(ns) && want > 0 {
      var zeros: Octets, ones: Octets := seq(want, _ => 0), seq(want, _ => 1);
      GatheredRight(ns, want, zeros);
      GatheredRight(ns, want, ones);
      assert Gathered(ns, want, zeros)[0] != Gathered(ns, want, ones)[0];
    }
  }

  lemma UptoNothing(g: Octets, s: Octets, want: nat)
    requires |g| <= want
    ensures want == 0 ==> g == Upto(s, want)
  {
  }

  /** A queue with one chunk. */
  method Only(c: Chunk) returns (q: Queue)
    requires c.Ok()
    modifies c`next
    ensures fresh(q) && q.Valid() && q.nodes == [c] && q.Contents() == c.Rest() && c.Ok()
  {
    hide BytesOf, Queue.Valid;
    q := new Queue();
    q.Head();
    q.AddChunk(c);
  }

  /** An empty memory chunk before a file of one byte. */
  method EmptyThenFile() returns (q: Queue)
    ensures q.Valid() && q.Contents() == [65] && Misled(q.nodes) && Readable(q.nodes, 1)
  {
    hide BytesOf, Readable, Misled, Queue.Valid;
    var empty := Acquire(1);
    var file := new Chunk(File(false, true), [65], 0, 0);
    FileBehindEmpty(empty, file);
    q := Only(empty);
    assert q.nodes == [empty] && file !in q.nodes;
    q.AddChunk(file);
    assert [empty] + [file] == [empty, file];
    FileBehindEmpty(empty, file);
  }

  /** The queue's only byte is 65, and a peek shows what lies behind the empty chunk's string. */
  method MisledPeek(behind: Byte) returns (q: Queue, shown: Byte)
    ensures q.Valid() && q.Contents() == [65] && shown == behind
  {
    hide BytesOf, Gathered, Readable, Misled, Queue.Valid;
    var buf := new Byte[1];
    q := EmptyThenFile();
    GatheredRight(q.nodes, 1, [behind]);
    assert allocated(Objects(q.nodes));
    var ok, n, place := q.PeekData(buf, 1, [behind]);
    shown := View(place, buf, n, [behind])[0];
  }

  lemma FileBehindEmpty(m: Chunk, f: Chunk)
    requires m.kind.Mem? && m.Rest() == [] && f.kind.File? && f.Rest() != []
    ensures Misled([m, f]) && Readable([m, f], 1)
  {
    var ns := [m, f];
    assert ns[..1] == [m];
    Prefixes(ns, 0);
    assert FirstInFile(ns, 1);
  }

  /** Queues of memory only, and queues without used-up chunks, can be peeked into. */
  lemma Peekable(ns: seq<Chunk>, want: nat)
    requires AllMem(ns) || (NoEmpty(ns) && want > 0)
    ensures Readable(ns, want) && !Misled(ns)
  {
    forall k | 0 < k < |ns| ensures !FirstInFile(ns, k) {
      if NoEmpty(ns) {
        assert BytesOf(ns[..k]) == ns[..k][0].Rest() + BytesOf(ns[..k][1..]) && ns[0].Rest() != [];
      }
    }
  }

  lemma AllMemSome(ns: seq<Chunk>, some: seq<Chunk>)
    requires Objects(some) <= Objects(ns)
    ensures AllMem(ns) ==> AllMem(some)
  {
    forall i | 0 <= i < |some| ensures AllMem(ns) ==> some[i].kind.Mem? {
      assert some[i] in Objects(some) && some[i] in ns;
    }
  }

  lemma AllOkConcat(a: seq<Chunk>, b: seq<Chunk>)
    requires AllOk(a) && AllOk(b)
    ensures AllOk(a + b)
  {
  }

  /** Two lists become one when the first one's last chunk points to the second. */
  lemma Joined(a: seq<Chunk>, b: seq<Chunk>)
    requires Distinct(a) && Distinct(b) && Objects(a) !! Objects(b) && b != [] && Chained(b)
    requires a != [] ==> a[|a| - 1].next == b[0]
    requires forall i, j :: 0 <= i && j == i + 1 < |a| ==> a[i].next == a[j]
    ensures Distinct(a + b) && Chained(a + b)
  {
    var c := a + b;
    forall i, j | 0 <= i < j < |c| ensures c[i] != c[j] {
      assert i < |a| ==> c[i] in Objects(a);
      assert j >= |a| ==> c[j] in Objects(b);
    }
    assert forall i :: |a| <= i < |c| ==> c[i] == b[i - |a|];
  }

  lemma Prefixes(ns: seq<Chunk>, k: nat)
    requires k <= |ns|
    ensures BytesOf([]) == [] && ns[..0] == []
    ensures BytesOf(ns[..k]) <= BytesOf(ns) && (k == 0 ==> BytesOf(ns[..k]) == [])
    ensures k == |ns| ==> BytesOf(ns[..k]) == BytesOf(ns)
    ensures k < |ns| ==> BytesOf(ns[..k + 1]) == BytesOf(ns[..k]) + ns[k].Rest() && BytesOf(ns[..k + 1]) <= BytesOf(ns)
  {
    NoBytes();
    hide BytesOf;
    BytesOfConcat(ns[..k], ns[k..]);
    assert ns[..k] + ns[k..] == ns;
    if k < |ns| {
      Appended(ns[..k], ns[k]);
      assert ns[..k] + [ns[k]] == ns[..k + 1];
      BytesOfConcat(ns[..k + 1], ns[k + 1..]);
      assert ns[..k + 1] + ns[k + 1..] == ns;
    }
  }

  lemma NoBytes()
    ensures BytesOf([]) == []
  {
  }

  lemma DropTwice(s: Octets, i: nat, j: nat, rest: Octets)
    requires i + j <= |s|
    ensures s[i + j..] == s[i..][j..] && s[i..i + j] == s[i..][..j]
    ensures (s[i..] + rest)[j..] == s[i..][j..] + rest
  {
  }

  lemma Absorbed(was: Octets, part: Octets, mine: Octets, rest: Octets, store: Octets, offset: nat, want: nat)
    requires offset + want <= |store| && part == store[offset..offset + want] && mine == store[offset..]
    ensures (was + part) + (mine + rest)[want..] == was + (mine + rest)
  {
    assert part == mine[..want] && (mine + rest)[want..] == mine[want..] + rest;
  }

  lemma Skipped(s: Octets, i: nat, j: nat, rest: Octets)
    requires i + j <= |s|
    ensures (s[i..] + rest)[j..] == s[i + j..] + rest
  {
  }

  lemma Regroup(a: Octets, b: Octets, c: Octets, n: nat)
    requires n <= |b|
    ensures a + (b + c) == (a + b[..n]) + (b[n..] + c)
    ensures n == |b| ==> a + (b + c) == (a + b) + c
  {
  }

  lemma TakeMore(a: Octets, b: Octets, want: nat)
    ensures |Upto(a, want)| <= want && |Upto(a + b, want)| <= want && Upto([], want) == []
    ensures Upto(a + b, want) == Upto(a, want) + Upto(b, want - |Upto(a, want)|)
    ensures Upto(a + b, want) == [] && want > 0 ==> b == []
  {
  }

  /** The first n bytes, or all of fewer. */
  function Upto(s: Octets, n: nat): Octets { s[..Min(n, |s|)] }

  lemma UptoLength(s: Octets, n: nat)
    ensures |Upto(s, n)| == Min(|s|, n)
  {
  }

  lemma FirstBytes(store: Octets, offset: nat, use: nat, all: Octets)
    requires offset + use <= |store| && store[offset..] <= all
    ensures store[offset..offset + use] == all[..use]
  {
  }

  lemma LongerRest(store: Octets, offset: nat, mem: Octets)
    requires offset <= |store|
    ensures (store + mem)[offset..] == store[offset..] + mem
  {
  }

  lemma MovedMore(was: Octets, all: Octets, n: nat, use: nat)
    requires n + use <= |all|
    ensures (was + all[..n]) + all[n..][..use] == was + all[..n + use] && all[n..][use..] == all[n + use..]
  {
  }

  /** The first chunk's successor. */
  lemma SecondOrEnd(ns: seq<Chunk>)
    requires ns != [] && Distinct(ns) && Chained(ns)
    ensures if |ns| > 1 then ns[0].next == ns[1] && ns[|ns| - 1] == ([ns[0]] + ns[1..])[|ns| - 1] else ns[0].next == null
  {
  }

  /** Another chunk takes the first one's place. */
  lemma Relinked(ns: seq<Chunk>, b: Chunk)
    requires ns != [] && Distinct(ns) && Chained(ns) && b !in Objects(ns) && b.next == ns[0].next
    ensures Distinct([b] + ns[1..]) && Chained([b] + ns[1..])
  {
    var r := [b] + ns[1..];
    assert forall i :: 1 <= i < |ns| ==> r[i] == ns[i] && ns[i] in Objects(ns);
  }

  /** The bytes of a list, by its first two chunks. */
  lemma SecondSplit(ns: seq<Chunk>)
    requires Distinct(ns) && Chained(ns) && ns != [] && ns[0].next != null
    ensures |ns| > 1 && ns[0].next == ns[1] && ns[0] != ns[1] && ns[0] !in Objects(ns[2..]) && ns[1] !in Objects(ns[2..])
    ensures Objects(ns) == {ns[0], ns[1]} + Objects(ns[2..])
    ensures BytesOf(ns) == ns[0].Rest() + BytesOf(ns[1..]) && BytesOf(ns[1..]) == ns[1].Rest() + BytesOf(ns[2..])
    ensures AllOk(ns) <==> ns[0].Ok() && ns[1].Ok() && AllOk(ns[2..])
    ensures AllMem(ns) <==> ns[0].kind.Mem? && ns[1].kind.Mem? && AllMem(ns[2..])
    ensures NoEmpty(ns) <==> ns[0].Rest() != [] && ns[1].Rest() != [] && NoEmpty(ns[2..])
  {
    hide BytesOf, AllOk, NoEmpty, AllMem;
    FirstSplit(ns);
    FirstSplit(ns[1..]);
    assert ns[1..][1..] == ns[2..] && ns[1] in Objects(ns[1..]);
  }

  /** The bytes of a list, by its first chunk. */
  lemma FirstSplit(ns: seq<Chunk>)
    requires ns != [] && Distinct(ns)
    ensures ns[0] !in Objects(ns[1..]) && Objects(ns) == {ns[0]} + Objects(ns[1..])
    ensures BytesOf(ns) == ns[0].Rest() + BytesOf(ns[1..])
    ensures AllOk(ns) <==> ns[0].Ok() && AllOk(ns[1..])
    ensures AllMem(ns) <==> ns[0].kind.Mem? && AllMem(ns[1..])
    ensures NoEmpty(ns) <==> ns[0].Rest() != [] && NoEmpty(ns[1..])
  {
    assert forall c :: c in ns <==> c == ns[0] || c in ns[1..];
    assert forall i :: 0 <= i < |ns| - 1 ==> ns[1..][i] == ns[i + 1];
    assert forall i :: 1 <= i < |ns| ==> ns[i] == ns[1..][i - 1];
  }
}
