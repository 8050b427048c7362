/** The poll back end (fdevent_poll.c) and its callers in fdevent.c: every registered file descriptor that
    waits for events has one slot of the pollfd array, and the slots given up are kept on a stack. */
module PollSlots {

  /** struct pollfd, without what the kernel returns */
  datatype Slot = Slot(fd: int, events: int)

  class Node {
    const fd: nat
    var events: int
    var fdeNdx: int

    constructor (fd: nat)
      ensures this.fd == fd && events == 0 && fdeNdx == -1
    {
      this.fd, events, fdeNdx := fd, 0, -1;
    }
  }

  class Events {
    /** ev->fdarray, by file descriptor */
    var nodes: map<nat, Node>
    /** ev->pollfds[0..used) */
    var slots: seq<Slot>
    /** ev->unused, a stack */
    var unused: seq<nat>

    constructor ()
      ensures Valid() && nodes == map[] && slots == [] && unused == []
    {
      nodes, slots, unused := map[], [], [];
    }

    ghost predicate Valid()
      reads this, nodes.Values
    {
      && (forall fd :: fd in nodes ==> nodes[fd].fd == fd && -1 <= nodes[fd].fdeNdx < |slots|)
      && (forall fd :: fd in nodes && nodes[fd].fdeNdx == -1 ==> nodes[fd].events == 0)
      && (forall fd :: fd in nodes && nodes[fd].fdeNdx >= 0 ==> slots[nodes[fd].fdeNdx] == Slot(fd, nodes[fd].events))
      && (forall i, j :: 0 <= i < j < |unused| ==> unused[i] != unused[j])
      && (forall k :: 0 <= k < |slots| ==> if k in unused then slots[k].fd == -1 else Live(k))
      && (forall k :: k in unused ==> k < |slots|)
    }

    /** The slot belongs to a registered node. */
    ghost predicate Live(k: nat)
      reads this, nodes.Values
      requires k < |slots|
    {
      slots[k].fd >= 0 && slots[k].fd in nodes && nodes[slots[k].fd].fdeNdx == k
    }

    /** The slots are parted between the nodes and the stack: each slot is either on the stack, once, or is
        that of exactly one node, and then holds its file descriptor and events. */
    lemma Parted(k: nat)
      requires Valid() && k < |slots|
      ensures k in unused ==> forall fd :: fd in nodes ==> nodes[fd].fdeNdx != k
      ensures k !in unused ==>
        exists fd :: fd in nodes && nodes[fd].fdeNdx == k && slots[k] == Slot(fd, nodes[fd].events)
          && forall other :: other in nodes && nodes[other].fdeNdx == k ==> other == fd
    {
      if k !in unused {
        assert Live(k);
        var fd: nat := slots[k].fd;
        assert fd in nodes && nodes[fd].fdeNdx == k && slots[k] == Slot(fd, nodes[fd].events);
      }
    }

    /** fdevent_register: a new node, without slot.  The slots stay parted if and only if the node that it
        replaces, if any, has given up its slot. */
    method Register(fd: nat) returns (n: Node)
      requires Valid()
      modifies this`nodes
      ensures fresh(n) && n.fd == fd && n.fdeNdx == -1 && n.events == 0 && nodes == old(nodes)[fd := n]
      ensures Valid() <==> (fd in old(nodes) ==> old(nodes[fd].fdeNdx) == -1)
    {
      ghost var k := if fd in nodes then nodes[fd].fdeNdx else -1;
      n := new Node(fd);
      nodes := nodes[fd := n];
      if k >= 0 { assert !Live(k); }
    }

    /** fdevent_unregister: likewise, the slots stay parted if and only if the node has given up its slot. */
    method Unregister(fd: nat)
      requires Valid() && fd in nodes
      modifies this`nodes
      ensures nodes == old(nodes) - {fd}
      ensures Valid() <==> old(nodes[fd].fdeNdx) == -1
    {
      ghost var k := nodes[fd].fdeNdx;
      nodes := nodes - {fd};
      if k >= 0 { assert !Live(k); }
    }

    /** fdevent_poll_event_set: false for EINVAL */
    method PollSet(n: Node, events: int) returns (ok: bool)
      requires Valid() && n.fd in nodes && nodes[n.fd] == n
      modifies this`slots, this`unused, n`fdeNdx
      ensures ok && n.fdeNdx >= 0 && n.fdeNdx < |slots| && slots[n.fdeNdx] == Slot(n.fd, events)
      ensures old(n.fdeNdx) >= 0 ==> n.fdeNdx == old(n.fdeNdx) && unused == old(unused) && slots == old(slots)[n.fdeNdx := Slot(n.fd, events)]
      ensures old(n.fdeNdx) < 0 && old(unused) != [] ==>
        unused == old(unused)[..|old(unused)| - 1] && n.fdeNdx == old(unused)[|old(unused)| - 1] &&
        |slots| == |old(slots)| && slots == old(slots)[n.fdeNdx := Slot(n.fd, events)]
      ensures old(n.fdeNdx) < 0 && old(unused) == [] ==> unused == [] && n.fdeNdx == |old(slots)| && slots == old(slots) + [Slot(n.fd, events)]
    {
      var k := n.fdeNdx;
      if k >= 0 {
        if k >= |slots| || slots[k].fd != n.fd { return false; }
        slots := slots[k := slots[k].(events := events)];
        return true;
      }
      if |unused| > 0 {
        k := unused[|unused| - 1];
        assert unused[|unused| - 1] in unused;
        unused := unused[..|unused| - 1];
        slots := slots[k := Slot(n.fd, events)];
      } else {
        k := |slots|;
        slots := slots + [Slot(n.fd, events)];
      }
      n.fdeNdx := k;
      ok := true;
    }

    /** fdevent_poll_event_del */
    method PollDel(n: Node) returns (ok: bool)
      requires Valid() && n.fd in nodes && nodes[n.fd] == n && n.fdeNdx >= 0
      modifies this`slots, this`unused
      ensures ok && slots == old(slots)[n.fdeNdx := old(slots)[n.fdeNdx].(fd := -1)] && unused == old(unused) + [n.fdeNdx]
    {
      var k := n.fdeNdx;
      if k >= |slots| || slots[k].fd != n.fd { return false; }
      slots := slots[k := slots[k].(fd := -1)];
      unused := unused + [k];
      ok := true;
    }

    /** fdevent_fdnode_event_setter: no change, no call; so a node gets its slot with its first events. */
    method SetEvents(n: Node, events: int)
      requires Valid() && n.fd in nodes && nodes[n.fd] == n
      modifies this`slots, this`unused, n
      ensures Valid() && nodes == old(nodes) && n.events == events
      ensures n.fdeNdx == -1 <==> old(n.fdeNdx) == -1 && events == 0
      ensures old(n.fdeNdx) >= 0 ==> n.fdeNdx == old(n.fdeNdx)
    {
      if n.events == events { return; }
      ghost var had, free := slots, unused;
      var ok := PollSet(n, events);
      if ok { n.events := events; }
      ghost var k := n.fdeNdx;
      if free != [] { Popped(free); }
      forall j | 0 <= j < |slots| ensures if j in unused then slots[j].fd == -1 else Live(j) {
        if j != k {
          assert slots[j] == had[j] && (j in unused <==> j in free);
          assert j !in free ==> old(Live(j));
        }
      }
    }

    /** The stack without its top. */
    static lemma Popped(free: seq<nat>)
      requires free != [] && forall i, j :: 0 <= i < j < |free| ==> free[i] != free[j]
      ensures var top, rest := free[|free| - 1], free[..|free| - 1];
        top !in rest && top in free && forall j :: j in free <==> j in rest || j == top
    {
      assert free == free[..|free| - 1] + [free[|free| - 1]];
    }

    /** fdevent_fdnode_event_unsetter: the node gives up its slot. */
    method Unset(n: Node)
      requires Valid() && n.fd in nodes && nodes[n.fd] == n
      modifies this`slots, this`unused, n
      ensures Valid() && nodes == old(nodes) && n.fdeNdx == -1 && n.events == 0
      ensures old(n.fdeNdx) >= 0 ==> unused == old(unused) + [old(n.fdeNdx)] && |slots| == |old(slots)|
    {
      if n.fdeNdx == -1 { return; }
      var ok := PollDel(n);
      n.fdeNdx := -1;
      n.events := 0;
    }

    /** Any run of the operations, as their callers order them: a descriptor is registered when it has no
        node, and gives up its slot before its node goes. */
    method Run(ops: seq<Op>)
      requires Valid()
      modifies this, nodes.Values
      ensures Valid() && forall n :: n in nodes.Values ==> n in old(nodes.Values) || fresh(n)
    {
      for i := 0 to |ops|
        invariant Valid() && forall n :: n in nodes.Values ==> n in old(nodes.Values) || fresh(n)
      {
        match ops[i] {
          case Open(fd) => if fd !in nodes { var n := Register(fd); }
          case Set(fd, events) => if fd in nodes { SetEvents(nodes[fd], events); }
          case Clear(fd) => if fd in nodes { Unset(nodes[fd]); }
          case Close(fd) =>
            if fd in nodes {
              Unset(nodes[fd]);
              Unregister(fd);
            }
        }
      }
    }
  }

  datatype Op = Open(fd: nat) | Set(fd: nat, events: int) | Clear(fd: nat) | Close(fd: nat)
}
