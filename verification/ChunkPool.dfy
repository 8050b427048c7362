/** The pools of unused chunks and the memory that a queue lends out for reading (chunk.c). */
module ChunkPool {
  import opened Bytes
  import opened ChunkQueue

  const OVERSIZED_MAX: nat := 64

  /** A size rounded up to whole chunks. */
  function Rounded(sz: nat): nat { (sz + (CHUNK_SIZE - 1)) / CHUNK_SIZE * CHUNK_SIZE }

  lemma RoundedIs(sz: nat)
    ensures sz <= Rounded(sz) && (0 < sz <= CHUNK_SIZE ==> Rounded(sz) == CHUNK_SIZE)
  {
  }

  /** A chunk as chunk_reset leaves it. */
  ghost predicate Clean(c: Chunk)
    reads c`kind, c`store, c`offset
  {
    c.kind == Mem && c.store == [] && c.offset == 0
  }

  /** Unused chunks of the usual size. */
  ghost predicate Usual(ns: seq<Chunk>)
    reads Objects(ns)`kind, Objects(ns)`store, Objects(ns)`offset, Objects(ns)`size
  {
    forall i :: 0 <= i < |ns| ==> Clean(ns[i]) && ns[i].size == CHUNK_SIZE
  }

  /** Unused larger chunks, the largest first. */
  ghost predicate Larger(ns: seq<Chunk>)
    reads Objects(ns)`kind, Objects(ns)`store, Objects(ns)`offset, Objects(ns)`size
  {
    && (forall i :: 0 <= i < |ns| ==> Clean(ns[i]) && ns[i].size > CHUNK_SIZE)
    && (forall i, j :: 0 <= i < j < |ns| ==> ns[i].size >= ns[j].size)
  }

  /** A list of distinct linked chunks starts at head. */
  ghost predicate ListFrom(head: Chunk?, ns: seq<Chunk>)
    reads Objects(ns)`next
  {
    Distinct(ns) && Chained(ns) && head == if ns == [] then null else ns[0]
  }

  class Pool {
    var chunks: Chunk?
    var oversized: Chunk?
    var oversizedCount: nat
    ghost var free: seq<Chunk>
    ghost var big: seq<Chunk>

    constructor ()
      ensures Valid() && free == [] && big == []
    {
      chunks, oversized, oversizedCount, free, big := null, null, 0, [], [];
    }

    ghost function Held(): set<Chunk>
      reads this`free, this`big
    {
      Objects(free) + Objects(big)
    }

    /** The two lists. */
    ghost predicate Valid()
      reads this, Objects(free), Objects(big)
    {
      && ListFrom(chunks, free) && Usual(free)
      && ListFrom(oversized, big) && Larger(big) && oversizedCount == |big| <= OVERSIZED_MAX
      && Objects(free) !! Objects(big)
    }

    /** Some pooled chunk serves a request. */
    ghost predicate Serves(sz: nat)
      reads this, Objects(big)
    {
      if sz <= CHUNK_SIZE then free != [] else exists c :: c in Objects(big) && c.size >= Rounded(sz)
    }

    /** The allocation that a request gets. */
    function Grant(sz: nat): nat
      reads this, oversized
    {
      if sz <= CHUNK_SIZE then CHUNK_SIZE
      else if oversized != null && oversized.size >= Rounded(sz) then oversized.size else Rounded(sz)
    }

    /** chunk_pop_oversized */
    method PopOversized(sz: nat) returns (c: Chunk?)
      requires Valid()
      modifies this`oversized, this`oversizedCount, this`big
      ensures Valid()
      ensures if old(oversized != null && oversized.size >= sz)
        then c != null && c == old(oversized) && Clean(c) && c !in Held() && old(Held()) == Held() + {c}
        else c == null && Held() == old(Held())
    {
      hide ListFrom, Usual, Larger, Objects, Clean;
      c := null;
      if oversized != null && oversized.size >= sz {
        c := oversized;
        TailList(c, big);
        TailLarger(big);
        oversizedCount := oversizedCount - 1;
        oversized := c.next;
        big := big[1..];
      }
    }

    /** The first chunk of the usual size. */
    method PopUsual() returns (c: Chunk?)
      requires Valid()
      modifies this`chunks, this`free
      ensures Valid()
      ensures if old(chunks) != null
        then c != null && c == old(chunks) && c.size == CHUNK_SIZE && Clean(c) && c !in Held() && old(Held()) == Held() + {c}
        else c == null && Held() == old(Held())
    {
      hide ListFrom, Usual, Larger, Objects;
      c := chunks;
      if c != null {
        TailList(c, free);
        TailUsual(free);
        chunks := c.next;
        free := free[1..];
      }
    }

    /** A pooled chunk, when there is one that serves. */
    method Take(sz: nat) returns (c: Chunk?)
      requires Valid()
      modifies this
      ensures Valid() && (c != null <==> old(Serves(sz)))
      ensures if c != null then Clean(c) && c.size == old(Grant(sz)) >= sz && c.size > 0 && c !in Held() && Held() + {c} == old(Held())
        else Held() == old(Held()) && old(Grant(sz)) == Rounded(Max(sz, 1))
    {
      EmptyList(chunks, free);
      LargestFirst(oversized, big, Rounded(sz));
      RoundedIs(sz);
      RoundedIs(Max(sz, 1));
      ghost var g := Grant(sz);
      assert Serves(sz) <==> if sz <= CHUNK_SIZE then chunks != null else oversized != null && oversized.size >= Rounded(sz);
      assert g >= sz && g > 0 && (if !Serves(sz) then g == Rounded(Max(sz, 1)) else g == if sz <= CHUNK_SIZE then CHUNK_SIZE else oversized.size);
      hide ListFrom, Usual, Larger, Objects, Clean, Rounded, Grant, Serves, Held;
      if sz <= CHUNK_SIZE { c := PopUsual(); } else { c := PopOversized(Rounded(sz)); }
    }

    /** chunk_acquire: an empty chunk that is large enough and belongs to nobody else; a pooled one is taken
        exactly when there is one that serves. */
    method Acquire(sz: nat) returns (c: Chunk)
      requires Valid()
      modifies this
      ensures Valid() && Clean(c) && c.size == old(Grant(sz)) >= sz && c.size > 0
      ensures c !in Held() && (if old(Serves(sz)) then Held() + {c} == old(Held()) else fresh(c) && Held() == old(Held()))
    {
      RoundedIs(Max(sz, 1));
      hide ListFrom, Usual, Larger, Held, Serves, Grant, Rounded;
      ghost var held := Held();
      assert allocated(held);
      var popped := Take(sz);
      if popped != null { return popped; }
      c := new Chunk(Mem, [], Rounded(Max(sz, 1)), 0);
    }

    /** The chunk goes between before and co. */
    method Link(before: Chunk?, c: Chunk, co: Chunk?, ghost k: nat)
      requires ListFrom(oversized, big) && c !in Objects(big) && k <= |big|
      requires co == (if k < |big| then big[k] else null) && before == (if k > 0 then big[k - 1] else null)
      modifies this`oversized, this`big, c`next, Objects(big)`next
      ensures ListFrom(oversized, big) && big == Inserted(old(big), k, c)
    {
      ghost var ns := big;
      c.next := co;
      if before == null { oversized := c; } else { before.next := c; }
      big := Inserted(ns, k, c);
      assert forall i :: 0 <= i < k ==> big[i] == ns[i];
      assert forall i :: k < i < |big| ==> big[i] == ns[i - 1];
      assert big[k] == c;
    }

    /** chunk_push_oversized: behind all larger chunks, or nowhere when the pool is full. */
    method PushOversized(c: Chunk)
      requires Valid() && c !in Held() && Clean(c) && c.size > CHUNK_SIZE
      modifies this`oversized, this`oversizedCount, this`big, c`next, Objects(big)`next
      ensures Valid()
      ensures Held() == if |old(big)| < OVERSIZED_MAX then old(Held()) + {c} else old(Held())
    {
      hide Usual, Larger, Clean, ListFrom;
      if oversizedCount < OVERSIZED_MAX {
        assert allocated(Objects(free));
        oversizedCount := oversizedCount + 1;
        Sort(c);
      }
    }

    /** The chunk is put behind all larger ones. */
    method Sort(c: Chunk)
      requires ListFrom(oversized, big) && Larger(big) && c !in Objects(big) && Clean(c) && c.size > CHUNK_SIZE
      modifies this`oversized, this`big, c`next, Objects(big)`next
      ensures ListFrom(oversized, big) && Larger(big)
      ensures |big| == |old(big)| + 1 && Objects(big) == old(Objects(big)) + {c}
    {
      hide Larger, Clean, ListFrom, Inserted;
      ghost var k;
      var before, co;
      before, co, k := FindPlace(c.size);
      InsertLarger(big, k, c);
      InsertObjects(big, k, c);
      ghost var more := Inserted(big, k, c);
      assert allocated(Objects(more));
      Link(before, c, co, k);
      assert Larger(more);
    }

    /** chunk_release: the chunk is emptied and pooled, unless it is small or the pool of large ones full. */
    method Release(c: Chunk)
      requires Valid() && c !in Held()
      modifies this, c`kind, c`store, c`offset, c`next, Objects(big)`next
      ensures Valid()
      ensures if old(Keeps(c)) then Held() == old(Held()) + {c} && Clean(c) else Held() == old(Held())
      ensures Clean(c) || (c.store == old(c.store) && c.offset == old(c.offset))
      ensures c.size == CHUNK_SIZE ==> chunks == c
    {
      if c.size == CHUNK_SIZE {
        Reset(c);
        PushUsual(c);
      } else if c.size > CHUNK_SIZE {
        Reset(c);
        PushOversized(c);
      }
    }

    method PushUsual(c: Chunk)
      requires Valid() && c !in Held() && Clean(c) && c.size == CHUNK_SIZE
      modifies this`chunks, this`free, c`next
      ensures Valid() && Held() == old(Held()) + {c} && chunks == c
    {
      hide Usual, Larger, Clean, ListFrom;
      InsertUsual(free, c);
      ghost var more := [c] + free;
      assert allocated(Objects(free)) && allocated(Objects(big)) && allocated(Objects(more));
      c.next := chunks;
      chunks := c;
      InsertList(c, free);
      free := more;
    }

    /** chunk_reset */
    method Reset(c: Chunk)
      requires Valid() && c !in Held()
      modifies c`kind, c`store, c`offset
      ensures Valid() && Clean(c)
    {
      hide ListFrom, Usual, Larger;
      assert allocated(Objects(free)) && allocated(Objects(big));
      c.kind, c.store, c.offset := Mem, [], 0;
    }

    /** Whether a released chunk is pooled. */
    predicate Keeps(c: Chunk)
      reads this`oversizedCount, c`size
    {
      c.size == CHUNK_SIZE || (c.size > CHUNK_SIZE && oversizedCount < OVERSIZED_MAX)
    }

    /** The first chunk that is no larger, and the one before it. */
    method FindPlace(sz: nat) returns (before: Chunk?, co: Chunk?, ghost k: nat)
      requires ListFrom(oversized, big)
      ensures k <= |big| && co == (if k < |big| then big[k] else null) && before == (if k > 0 then big[k - 1] else null)
      ensures (forall i :: 0 <= i < k ==> big[i].size > sz) && (k < |big| ==> big[k].size <= sz)
    {
      before, co, k := null, oversized, 0;
      while co != null && sz < co.size
        invariant k <= |big| && co == (if k < |big| then big[k] else null)
        invariant before == (if k > 0 then big[k - 1] else null)
        invariant forall i :: 0 <= i < k ==> big[i].size > sz
        decreases |big| - k
      {
        assert k + 1 < |big| ==> big[k].next == big[k + 1];
        before, co, k := co, co.next, k + 1;
      }
    }
  }

  ghost function Inserted(ns: seq<Chunk>, k: nat, c: Chunk): (r: seq<Chunk>)
    requires k <= |ns|
    ensures |r| == |ns| + 1
  {
    ns[..k] + [c] + ns[k..]
  }

  lemma InsertLarger(ns: seq<Chunk>, k: nat, c: Chunk)
    requires Larger(ns) && k <= |ns| && Clean(c) && c.size > CHUNK_SIZE
    requires (forall i :: 0 <= i < k ==> ns[i].size > c.size) && (k < |ns| ==> ns[k].size <= c.size)
    ensures Larger(Inserted(ns, k, c))
  {
    var r := Inserted(ns, k, c);
    hide Clean;
    forall i | 0 <= i < |r| ensures Clean(r[i]) && r[i].size > CHUNK_SIZE {
      if i < k { assert r[i] == ns[i]; } else if i > k { assert r[i] == ns[i - 1]; }
    }
    forall i, j | 0 <= i < j < |r| ensures r[i].size >= r[j].size {
      if j < k { assert r[i] == ns[i] && r[j] == ns[j]; }
      else if i < k {
        assert r[i] == ns[i];
        if j > k { assert r[j] == ns[j - 1] && ns[i].size >= ns[j - 1].size; }
      } else {
        assert r[j] == ns[j - 1] && (i > k ==> r[i] == ns[i - 1]);
        assert ns[k].size >= ns[j - 1].size;
      }
    }
  }

  lemma InsertObjects(ns: seq<Chunk>, k: nat, c: Chunk)
    requires k <= |ns|
    ensures Objects(Inserted(ns, k, c)) == Objects(ns) + {c}
  {
    ObjectsConcat(ns[..k], [c]);
    ObjectsConcat(ns[..k] + [c], ns[k..]);
    ObjectsConcat(ns[..k], ns[k..]);
    assert ns == ns[..k] + ns[k..] && Objects([c]) == {c} by { assert [c][0] == c; }
  }

  lemma ObjectsConcat(a: seq<Chunk>, b: seq<Chunk>)
    ensures Objects(a + b) == Objects(a) + Objects(b)
  {
  }

  lemma EmptyList(head: Chunk?, ns: seq<Chunk>)
    requires ListFrom(head, ns)
    ensures head == null <==> ns == []
  {
  }

  lemma TailList(c: Chunk, ns: seq<Chunk>)
    requires ListFrom(c, ns)
    ensures ns != [] && c == ns[0] && ListFrom(c.next, ns[1..])
    ensures Objects(ns) == Objects(ns[1..]) + {c} && c !in Objects(ns[1..])
  {
    assert |ns| > 1 ==> ns[0].next == ns[1];
    assert forall i :: 0 <= i < |ns| - 1 ==> ns[1..][i] == ns[i + 1];
    assert ns == [c] + ns[1..];
  }

  lemma TailUsual(ns: seq<Chunk>)
    requires Usual(ns) && ns != []
    ensures Usual(ns[1..]) && Clean(ns[0]) && ns[0].size == CHUNK_SIZE
  {
  }

  lemma TailLarger(ns: seq<Chunk>)
    requires Larger(ns) && ns != []
    ensures Larger(ns[1..]) && Clean(ns[0])
  {
  }

  /** The first chunk decides whether one is large enough. */
  lemma LargestFirst(head: Chunk?, ns: seq<Chunk>, n: nat)
    requires ListFrom(head, ns) && Larger(ns)
    ensures (exists c :: c in Objects(ns) && c.size >= n) <==> head != null && head.size >= n
  {
    if head != null && head.size >= n { assert head in Objects(ns); }
    if c :| c in Objects(ns) && c.size >= n {
      var i :| 0 <= i < |ns| && ns[i] == c;
    }
  }

  lemma InsertUsual(ns: seq<Chunk>, c: Chunk)
    requires Usual(ns) && Clean(c) && c.size == CHUNK_SIZE
    ensures Usual([c] + ns) && Objects([c] + ns) == Objects(ns) + {c}
  {
    ObjectsConcat([c], ns);
    assert Objects([c]) == {c} by { assert [c][0] == c; }
  }

  lemma InsertList(c: Chunk, ns: seq<Chunk>)
    requires c !in Objects(ns) && ListFrom(c.next, ns)
    ensures ListFrom(c, [c] + ns)
  {
    var r := [c] + ns;
    assert forall i :: 0 < i < |r| ==> r[i] == ns[i - 1];
  }

  // ---------------------------------------------------------------- memory lent to a reader

  /** No chunk of the queue is in the pool. */
  ghost predicate Apart(q: Queue, pool: Pool)
    reads q`nodes, pool`free, pool`big
  {
    Objects(q.nodes) !! pool.Held()
  }

  /** The last chunk has room for so many bytes. */
  predicate HasRoom(c: Chunk?, sz: nat)
    reads c
  {
    c != null && c.kind.Mem? && c.Space() >= sz
  }

  /** The size that is asked for; zero stands for half a chunk. */
  function Wanted(len: nat): nat { if len > 0 then len else CHUNK_SIZE / 2 }

  /** chunkqueue_get_memory: room at the end of the queue, in the last chunk or in a new one.  It is as
      much as wanted except when a new chunk has exactly that size, for its last byte is not lent. */
  method GetMemory(q: Queue, pool: Pool, len: nat) returns (avail: nat)
    requires q.Valid() && pool.Valid() && Apart(q, pool)
    modifies q, pool, Objects(q.nodes)`next, pool.Held()`next
    ensures q.Valid() && pool.Valid() && Apart(q, pool)
    ensures q.Contents() == old(q.Contents()) && q.bytesIn == old(q.bytesIn) && q.bytesOut == old(q.bytesOut)
    ensures q.last != null && q.last.kind.Mem? && q.last.Space() == avail > 0
    ensures pool.Held() <= old(pool.Held()) && (q.last in old(Objects(q.nodes) + pool.Held()) || fresh(q.last))
    ensures if old(HasRoom(q.last, Wanted(len))) then q.nodes == old(q.nodes)
      else q.nodes == old(q.nodes) + [q.last] && q.last.store == [] && avail == old(pool.Grant(Wanted(len))) - 1
    ensures avail >= Wanted(len) <==> old(HasRoom(q.last, Wanted(len)) || pool.Grant(Wanted(len)) > Wanted(len))
  {
    var sz := Wanted(len);
    var c := q.last;
    if c != null && c.kind == Mem && c.Space() >= sz { return c.Space(); }
    avail := LendNew(q, pool, sz);
  }

  lemma GrantIs(pool: Pool, sz: nat)
    ensures pool.Grant(sz) >= Max(sz, CHUNK_SIZE)
  {
  }

  method LendNew(q: Queue, pool: Pool, sz: nat) returns (avail: nat)
    requires q.Valid() && pool.Valid() && Apart(q, pool) && sz > 0
    modifies q, pool, Objects(q.nodes)`next, pool.Held()`next
    ensures q.Valid() && pool.Valid() && Apart(q, pool)
    ensures q.Contents() == old(q.Contents()) && q.bytesIn == old(q.bytesIn) && q.bytesOut == old(q.bytesOut)
    ensures q.last != null && Clean(q.last) && q.nodes == old(q.nodes) + [q.last]
    ensures q.last.Space() == avail == old(pool.Grant(sz)) - 1 && avail > 0
    ensures pool.Held() <= old(pool.Held()) && (q.last in old(pool.Held()) || fresh(q.last))
  {
    GrantIs(pool, sz);
    hide BytesOf, ListFrom, Usual, Larger, Queue.Listed, AllOk, Pool.Grant;
    var c := pool.Acquire(sz);
    q.AddChunk(c);
    avail := c.Space();
  }

  /** A reader has asked for memory when the last chunk was ckpt: it is still the last, or one new chunk
      follows it. */
  ghost predicate Lent(q: Queue, ckpt: Chunk?)
    reads q, q.last
  {
    && q.last != null && q.last.kind.Mem?
    && (ckpt == q.last || (q.last.store == [] && q.last.offset == 0 && ckpt == Before(q)))
  }

  /** The last chunk but one. */
  ghost function Before(q: Queue): Chunk?
    reads q`nodes
  {
    if |q.nodes| > 1 then q.nodes[|q.nodes| - 2] else null
  }

  /** Not an empty memory chunk. */
  ghost predicate InUse(c: Chunk?)
    reads c
  {
    c != null && c.kind.Mem? ==> c.store != []
  }

  /** Nothing has been read, and the last chunk, which was there before, is empty. */
  ghost predicate Dangles(q: Queue, ckpt: Chunk?, data: Octets)
    reads q`last, q.last
  {
    data == [] && ckpt == q.last && q.last != null && q.last.store == []
  }

  /** chunkqueue_use_memory after data has been read into the memory lent.  The bytes are appended, and a
      new chunk is given back when it stays empty or when the chunk before it has room for the bytes.  An
      old chunk that is empty is given back too if nothing is read: exactly then the chunk given back is
      still in the queue. */
  method UseMemory(q: Queue, pool: Pool, ckpt: Chunk?, data: Octets) returns (ghost gone: Chunk?)
    requires q.Valid() && pool.Valid() && Apart(q, pool) && Lent(q, ckpt) && |data| <= q.last.Space()
    modifies q, pool, Objects(q.nodes), Objects(pool.big)`next
    ensures q.Valid() && q.Contents() == old(q.Contents()) + data
    ensures q.bytesIn == old(q.bytesIn) + |data| && q.bytesOut == old(q.bytesOut)
    ensures gone != null && gone in Objects(q.nodes) <==> old(Dangles(q, ckpt, data))
    ensures !old(Dangles(q, ckpt, data)) ==> pool.Valid() && Apart(q, pool)
    ensures old(Dangles(q, ckpt, data)) && old(q.last.size) == CHUNK_SIZE ==> q.last == old(q.last) == pool.chunks
    ensures old(InUse(ckpt)) || data != [] ==> InUse(q.last)
    ensures q.nodes == if old(ckpt != q.last && (data == [] || HasRoom(ckpt, |data|)))
      then old(q.nodes)[..|old(q.nodes)| - 1] else old(q.nodes)
    ensures old(NoEmpty(q.nodes[..|q.nodes| - 1]) && (ckpt == q.last ==> q.last.Rest() != [])) ==> NoEmpty(q.nodes)
    ensures !old(Dangles(q, ckpt, data)) && old(AllMem(q.nodes)) ==> AllMem(q.nodes)
    ensures Objects(q.nodes) <= old(Objects(q.nodes)) && pool.Held() <= old(pool.Held() + Objects(q.nodes))
  {
    hide BytesOf, ListFrom, Usual, Larger, AllOk, NoEmpty, AllMem, Pool.Valid, LinkedToLast, Distinct, Chained, Queue.Listed;
    q.EndsAtLast();
    BeforeLast(q);
    LastBytes(q);
    gone := null;
    var c := q.last;
    if |data| > 0 {
      Commit(q, data);
      if c == ckpt || ckpt == null || ckpt.kind != Mem || |data| > ckpt.Space() { return; }
      MoveBack(q, ckpt);
      DropLast(q, pool, ckpt);
      return c;
    }
    if c.store != [] { return; }
    gone := c;
    if c == ckpt {
      ReleaseLast(q, pool);
    } else {
      DropLast(q, pool, ckpt);
    }
  }

  /** Asked for 8192 bytes, an empty queue with an empty pool lends 8191. */
  method WholeChunkAsked() returns (avail: nat)
    ensures avail == 8191
  {
    var q := new Queue();
    var pool := new Pool();
    avail := GetMemory(q, pool, 8192);
  }

  /** The chunks of a queue without used-up chunks and the pool's, none of them shared. */
  ghost predicate Readying(q: Queue, pool: Pool)
    reads q, Objects(q.nodes), pool, Objects(pool.free), Objects(pool.big)
  {
    q.Valid() && NoEmpty(q.nodes) && pool.Valid() && Apart(q, pool)
  }

  /** Both have only chunks that one of them had, or new ones. */
  twostate predicate NoOthers(q: Queue, pool: Pool)
    reads q, pool
  {
    && (forall x :: x in Objects(q.nodes) ==> x in old(Objects(q.nodes)) || x in old(pool.Held()) || !old(allocated(x)))
    && (forall x :: x in pool.Held() ==> x in old(Objects(q.nodes)) || x in old(pool.Held()) || !old(allocated(x)))
  }

  /** The memory that the decoded form of n base64 characters is given. */
  function Base64Room(n: nat): (sz: nat)
    ensures sz > 0
  {
    (n + 3) / 4 * 3 + 1
  }

  /** Memory of so many bytes is lent at the end of a queue without used-up chunks. */
  method Reserve(q: Queue, pool: Pool, sz: nat)
    requires Readying(q, pool) && sz > 0
    modifies q, pool, Objects(q.nodes)`next, pool.Held()`next
    ensures q.Valid() && pool.Valid() && Apart(q, pool) && NoOthers(q, pool) && q.nodes != [] && NoEmpty(q.nodes[..|q.nodes| - 1])
    ensures q.Contents() == old(q.Contents()) && q.last != null && q.last.kind.Mem? && q.last.Space() >= sz - 1
    ensures q.last in old(Objects(q.nodes) + pool.Held()) || fresh(q.last)
    ensures NoEmpty(q.nodes) <==> old(HasRoom(q.last, sz))
    ensures !NoEmpty(q.nodes) ==> q.last.store == [] && q.last.Space() == old(pool.Grant(sz)) - 1
  {
    hide BytesOf, NoEmpty, AllMem, Pool.Valid, Queue.Valid, Pool.Grant;
    ghost var ns, ckpt := q.nodes, q.last;
    LastOf(q);
    GrantIs(pool, sz);
    var avail := GetMemory(q, pool, sz);
    AfterLending(q, ns, ckpt);
    EmptyAtEnd(q);
  }

  /** A frame of n base64 characters (mod_wstunnel): memory is lent for its decoded bytes and the decoder writes
      them there.  When it refuses the text, or there are no bytes, a chunk that was opened for them stays. */
  method AppendDecoded(q: Queue, pool: Pool, n: nat, decoded: Option<Octets>) returns (ok: bool)
    requires Readying(q, pool) && (decoded.Some? ==> |decoded.value| < Base64Room(n))
    modifies q, pool, Objects(q.nodes), pool.Held()
    ensures q.Valid() && pool.Valid() && Apart(q, pool) && NoOthers(q, pool) && (ok <==> decoded.Some?)
    ensures q.Contents() == old(q.Contents()) + (if ok then decoded.value else [])
    ensures NoEmpty(q.nodes) <==> old(HasRoom(q.last, Base64Room(n))) || (decoded.Some? && decoded.value != [])
    ensures !NoEmpty(q.nodes) ==>
      q.last != null && q.last.kind.Mem? && q.last.store == [] && q.last.Space() == old(pool.Grant(Base64Room(n))) - 1
  {
    hide BytesOf, NoEmpty, AllMem, Pool.Valid, Queue.Valid, Pool.Grant, HasRoom, Readying, Base64Room;
    Reserve(q, pool, Base64Room(n));
    if decoded.None? { return false; }
    assert q.Contents() + [] == q.Contents();
    if decoded.value != [] { Commit(q, decoded.value); }
    ok := true;
  }

  lemma EmptyAtEnd(q: Queue)
    requires q.Valid() && q.nodes != [] && NoEmpty(q.nodes[..|q.nodes| - 1])
    ensures q.last == q.nodes[|q.nodes| - 1] && (NoEmpty(q.nodes) <==> q.last.Rest() != [])
  {
    AllLast(q.nodes);
  }

  /** The first frame of a queue is refused. */
  method FrameRefused() returns (q: Queue, pool: Pool)
    ensures fresh(q) && fresh(pool) && q.Valid() && pool.Valid() && Apart(q, pool) && fresh(Objects(q.nodes)) && fresh(pool.Held())
    ensures q.last != null && q.last.kind.Mem? && q.last.store == [] && q.last.size == CHUNK_SIZE
  {
    hide BytesOf, Pool.Valid, Queue.Valid, Pool.Grant;
    q := new Queue();
    pool := new Pool();
    NewChunk(pool, Base64Room(4));
    LastOf(q);
    assert NoEmpty(q.nodes) && !HasRoom(q.last, Base64Room(4));
    var ok := AppendDecoded(q, pool, 4, None);
    q.EndsAtLast();
  }

  lemma NewChunk(pool: Pool, sz: nat)
    requires sz <= CHUNK_SIZE
    ensures pool.Grant(sz) == CHUNK_SIZE
  {
  }

  /** That leaves an empty chunk.  Should a reader find it there and read nothing, it is the first chunk of the pool
      and the last of the queue. */
  method PooledAndQueued() returns (q: Queue, pool: Pool)
    ensures q.Valid() && q.last != null && q.last == pool.chunks
  {
    hide BytesOf, Queue.Valid, Pool.Valid, Pool.Grant;
    q, pool := FrameRefused();
    var ckpt := q.last;
    q.EndsAtLast();
    var avail := GetMemory(q, pool, 1);
    q.EndsAtLast();
    ghost var gone := UseMemory(q, pool, ckpt, []);
  }

  /** One turn of connection_read_cq: the bytes that a read delivers join the queue.  What is given back does
      not stay in the queue. */
  method ReadOnce(q: Queue, pool: Pool, len: nat, maxBytes: nat, input: Octets) returns (n: nat, memLen: nat)
    requires Readying(q, pool)
    modifies q, pool, Objects(q.nodes), pool.Held()
    ensures Readying(q, pool) && NoOthers(q, pool) && (old(AllMem(q.nodes)) ==> AllMem(q.nodes))
    ensures n == Min(memLen, |input|) && memLen <= maxBytes && (maxBytes > 0 ==> memLen > 0)
    ensures q.Contents() == old(q.Contents()) + input[..n]
    ensures q.bytesIn == old(q.bytesIn) + n && q.bytesOut == old(q.bytesOut)
  {
    hide BytesOf, NoEmpty, AllMem, Pool.Valid, Queue.Valid;
    var ckpt := q.last;
    ghost var ns := q.nodes;
    LastOf(q);
    assert allocated(Objects(ns));
    memLen := GetMemory(q, pool, len);
    AfterLending(q, ns, ckpt);
    if memLen > maxBytes { memLen := maxBytes; }
    n := Min(memLen, |input|);
    ghost var gone := UseMemory(q, pool, ckpt, input[..n]);
  }

  /** connection_read_cq: as much of what has arrived as is allowed joins the queue, read by read.  The size of a
      further read is what the system tells to be waiting, or unknown. */
  method ReadCq(q: Queue, pool: Pool, maxBytes: nat, input: Octets, told: bool) returns (n: nat)
    requires Readying(q, pool) && maxBytes > 0
    modifies q, pool, Objects(q.nodes), pool.Held()
    ensures Readying(q, pool) && NoOthers(q, pool) && (old(AllMem(q.nodes)) ==> AllMem(q.nodes))
    ensures n == Min(maxBytes, |input|) && q.Contents() == old(q.Contents()) + input[..n]
    ensures q.bytesIn == old(q.bytesIn) + n && q.bytesOut == old(q.bytesOut)
  {
    hide BytesOf, Readying, AllMem;
    var memLen: nat, left := 0, maxBytes;
    n := 0;
    assert q.Contents() + input[..0] == q.Contents();
    while true
      invariant Readying(q, pool) && NoOthers(q, pool) && (old(AllMem(q.nodes)) ==> AllMem(q.nodes))
      invariant n + left == maxBytes && left > 0 && n <= |input|
      invariant q.Contents() == old(q.Contents()) + input[..n] && q.bytesIn == old(q.bytesIn) + n && q.bytesOut == old(q.bytesOut)
      decreases left
    {
      ghost var was := input[..n];
      var k, lent := ReadOnce(q, pool, memLen, left, input[n..]);
      assert input[..n + k] == was + input[n..][..k];
      n := n + k;
      if k != lent { return; }
      left := left - k;
      memLen := if told then Min(|input| - n, left) else 0;
      if left == 0 { return; }
    }
  }

  lemma LastOf(q: Queue)
    requires q.Valid()
    ensures q.last == if q.nodes == [] then null else q.nodes[|q.nodes| - 1]
  {
  }

  /** A new chunk follows the last one, or it is lent itself. */
  lemma AfterLending(q: Queue, ns: seq<Chunk>, ckpt: Chunk?)
    requires q.Valid() && NoEmpty(ns) && ckpt == (if ns == [] then null else ns[|ns| - 1]) && q.last != null && q.last.kind.Mem?
    requires q.nodes == ns || (q.nodes == ns + [q.last] && q.last.store == [])
    ensures q.nodes != [] && NoEmpty(q.nodes[..|q.nodes| - 1]) && Lent(q, ckpt)
    ensures (ckpt == q.last <==> q.nodes == ns) && (ckpt == q.last ==> q.last.Rest() != [] && q.last.store != [])
    ensures AllMem(ns) ==> AllMem(q.nodes)
  {
    hide BytesOf;
    AllLast(q.nodes);
    if q.nodes != ns {
      assert q.nodes[..|q.nodes| - 1] == ns;
    }
  }

  /** buffer_commit with the bytes counted in. */
  method Commit(q: Queue, data: Octets)
    requires q.nodes != [] && q.Valid() && q.last != null && q.last.kind.Mem? && |data| <= q.last.Space()
    modifies q`bytesIn, q.last`store
    ensures q.Valid() && q.Contents() == old(q.Contents()) + data && q.bytesIn == old(q.bytesIn) + |data|
    ensures q.last.store == old(q.last.store) + data
    ensures data != [] && old(NoEmpty(q.nodes[..|q.nodes| - 1])) ==> NoEmpty(q.nodes)
  {
    hide BytesOf, Queue.Listed, AllOk, NoEmpty;
    q.EndSplits();
    LongerRest(q.last.store, q.last.offset, data);
    q.last.store := q.last.store + data;
    q.EndSplits();
    q.bytesIn := q.bytesIn + |data|;
  }

  /** The last chunk's bytes are copied to the chunk before it. */
  method MoveBack(q: Queue, ckpt: Chunk)
    requires q.Valid() && q.last != null && ckpt == Before(q) && ckpt.kind.Mem?
    requires q.last.offset == 0 && |q.last.store| <= ckpt.Space()
    modifies ckpt`store
    ensures q.Listed() && AllOk(q.nodes) && BytesOf(q.nodes[..|q.nodes| - 1]) == old(q.Contents())
    ensures ckpt.store == old(ckpt.store + q.last.store)
    ensures old(NoEmpty(q.nodes[..|q.nodes| - 1])) ==> NoEmpty(q.nodes[..|q.nodes| - 1])
  {
    hide BytesOf, Chained;
    var c := q.last;
    ghost var init := q.nodes[..|q.nodes| - 1];
    LastSplit(q.nodes);
    LastSplit(init);
    ghost var was := ckpt.Rest();
    ckpt.store := ckpt.store + c.store;
    assert ckpt.Rest() == was + c.Rest();
    LastSplit(init);
  }

  /** The list of a queue whose last chunk may point anywhere. */
  ghost predicate LinkedToLast(q: Queue)
    requires q.nodes != []
    reads q`first, q`nodes, Objects(q.nodes[..|q.nodes| - 1])`next
  {
    && Distinct(q.nodes) && q.first == q.nodes[0]
    && forall i, j :: 0 <= i && j == i + 1 < |q.nodes| ==> q.nodes[i].next == q.nodes[j]
  }

  /** The list ends before its last chunk. */
  method CutLast(q: Queue, ckpt: Chunk?)
    requires q.nodes != [] && LinkedToLast(q) && ckpt == Before(q)
    modifies q`first, q`last, q`nodes, (if ckpt == null then {} else {ckpt})`next
    ensures q.Listed() && q.last == ckpt && q.nodes == old(q.nodes)[..|old(q.nodes)| - 1]
  {
    q.last := ckpt;
    if ckpt != null { ckpt.next := null; } else { q.first := null; }
    q.nodes := q.nodes[..|q.nodes| - 1];
  }

  /** The new chunk is given back and leaves the list. */
  method DropLast(q: Queue, pool: Pool, ckpt: Chunk?)
    requires q.nodes != [] && q.Listed() && AllOk(q.nodes) && q.nodes[|q.nodes| - 1].kind.Mem? && ckpt == Before(q)
    requires pool.Valid() && Apart(q, pool)
    requires q.Length() == |BytesOf(q.nodes[..|q.nodes| - 1])|
    modifies q`first, q`last, q`nodes, pool, Objects(q.nodes)`next, q.nodes[|q.nodes| - 1], Objects(pool.big)`next
    ensures q.Valid() && pool.Valid() && Apart(q, pool) && q.last == ckpt && old(q.nodes[|q.nodes| - 1]) !in Objects(q.nodes)
    ensures q.nodes == old(q.nodes)[..|old(q.nodes)| - 1] && q.Contents() == old(BytesOf(q.nodes[..|q.nodes| - 1]))
    ensures old(NoEmpty(q.nodes[..|q.nodes| - 1])) ==> NoEmpty(q.nodes)
    ensures old(AllMem(q.nodes[..|q.nodes| - 1])) ==> AllMem(q.nodes)
    ensures pool.Held() <= old(pool.Held()) + {old(q.nodes[|q.nodes| - 1])}
  {
    hide BytesOf, ListFrom, Usual, Larger, AllOk, NoEmpty, AllMem, LinkedToLast, Distinct, Chained, Queue.Listed, Pool.Valid;
    ghost var init := q.nodes[..|q.nodes| - 1];
    GiveBack(q, pool);
    assert allocated(Objects(init)) && allocated(Objects(pool.free)) && allocated(Objects(pool.big));
    assert ckpt != null ==> ckpt in Objects(init) && ckpt !in Objects(pool.free) && ckpt !in Objects(pool.big);
    CutLast(q, ckpt);
  }

  /** The last chunk goes to the pool; the rest of the queue is as before. */
  method GiveBack(q: Queue, pool: Pool)
    requires q.nodes != [] && q.Listed() && AllOk(q.nodes) && q.nodes[|q.nodes| - 1].kind.Mem? && pool.Valid() && Apart(q, pool)
    modifies pool, q.nodes[|q.nodes| - 1], Objects(pool.big)`next
    ensures LinkedToLast(q) && pool.Valid() && (old(q.nodes[|q.nodes| - 1].size) == CHUNK_SIZE ==> pool.chunks == q.nodes[|q.nodes| - 1])
    ensures old(q.nodes[|q.nodes| - 1].store == []) ==> var c := q.nodes[|q.nodes| - 1]; c.store == [] && c.offset == 0 && c.size > 0
    ensures var init := q.nodes[..|q.nodes| - 1];
      && q.nodes[|q.nodes| - 1] !in Objects(init) && AllOk(init) && BytesOf(init) == old(BytesOf(init)) && Objects(init) !! pool.Held()
      && (old(NoEmpty(init)) ==> NoEmpty(init)) && (old(AllMem(init)) ==> AllMem(init))
      && pool.Held() <= old(pool.Held()) + {q.nodes[|q.nodes| - 1]}
  {
    hide BytesOf, ListFrom, Usual, Larger, AllOk, NoEmpty, AllMem, Pool.Keeps, Pool.Valid, LinkedToLast, Distinct, Chained, Queue.Listed;
    ghost var init := q.nodes[..|q.nodes| - 1];
    BeforeLast(q);
    assert allocated(Objects(init));
    pool.Release(q.last);
  }

  lemma BeforeLast(q: Queue)
    requires q.nodes != [] && q.Listed() && AllOk(q.nodes)
    ensures var init, c := q.nodes[..|q.nodes| - 1], q.nodes[|q.nodes| - 1];
      && q.last == c && c.Ok() && LinkedToLast(q) && AllOk(init) && c !in Objects(init) && Objects(q.nodes) == Objects(init) + {c}
      && (NoEmpty(q.nodes) <==> NoEmpty(init) && c.Rest() != []) && (AllMem(q.nodes) <==> AllMem(init) && c.kind.Mem?)
  {
    hide BytesOf;
    LastSplit(q.nodes);
    AllLast(q.nodes);
    assert q.nodes == q.nodes[..|q.nodes| - 1] + [q.last];
  }

  /** The last chunk is given back, but stays in the list. */
  method ReleaseLast(q: Queue, pool: Pool)
    requires q.nodes != [] && q.Valid() && q.nodes[|q.nodes| - 1].kind.Mem? && q.nodes[|q.nodes| - 1].store == []
    requires pool.Valid() && Apart(q, pool)
    modifies pool, q.nodes[|q.nodes| - 1], Objects(pool.big)`next
    ensures q.Valid() && q.Contents() == old(q.Contents()) && q.nodes == old(q.nodes)
    ensures q.last == old(q.last) && (old(q.last.size) == CHUNK_SIZE ==> pool.chunks == q.last)
    ensures pool.Held() <= old(pool.Held()) + {q.last}
  {
    hide BytesOf, ListFrom, Usual, Larger, AllOk, Pool.Keeps, Pool.Valid, LinkedToLast, Distinct, Chained, Queue.Listed;
    ghost var init := q.nodes[..|q.nodes| - 1];
    var c := q.last;
    BeforeLast(q);
    LastBytes(q);
    GiveBack(q, pool);
    c.next := null;
    EndsAt(q, c);
    LastBytes(q);
  }

  lemma LastBytes(q: Queue)
    requires q.nodes != [] && q.Listed()
    ensures q.Contents() == BytesOf(q.nodes[..|q.nodes| - 1]) + q.nodes[|q.nodes| - 1].Rest()
  {
    hide BytesOf;
    LastSplit(q.nodes);
  }

  lemma EndsAt(q: Queue, c: Chunk)
    requires q.nodes != [] && LinkedToLast(q) && c == q.nodes[|q.nodes| - 1] == q.last && c.next == null
    requires AllOk(q.nodes[..|q.nodes| - 1]) && c.Ok()
    ensures q.Listed() && AllOk(q.nodes)
  {
  }
}
