/**
 The event loop's handlers: an intrusive circular doubly linked list (src/utils/cutils/linked_list.h)
 that should mirror the interest set the kernel keeps for the loop (src/utils/cutils/mainloop.c).
 */
module HandlerRing {

  // ----- the loop as a value

  /** The descriptors of the registered handlers, newest first, and the kernel's interest set. */
  datatype Loop = Loop(handlers: seq<int>, interest: set<int>)

  const NEW_LOOP := Loop([], {})

  function AsSet(s: seq<int>): set<int> { set x | x in s }

  /** The ring mirrors the interest set: the same descriptors, each once. */
  predicate Mirrors(l: Loop) {
    AsSet(l.handlers) == l.interest && forall i, j :: 0 <= i < j < |l.handlers| ==> l.handlers[i] != l.handlers[j]
  }

  /** Which allocations and system calls succeed during one call. */
  datatype Env = Env(handlerAllocated: bool, ctlWorks: bool, nodeAllocated: bool)

  /** Adding fails for want of memory, when the kernel refuses, and for a registered descriptor; every
      failure also removes the descriptor from the interest set. */
  function Add(l: Loop, fd: int, env: Env): (Loop, bool) {
    if env.handlerAllocated && env.ctlWorks && env.nodeAllocated && fd !in l.interest
    then (Loop([fd] + l.handlers, l.interest + {fd}), true)
    else (l.(interest := l.interest - {fd}), false)
  }

  /** The first position of x, or the length. */
  function IndexOf(s: seq<int>, x: int): (k: nat)
    ensures k <= |s| && (k < |s| <==> x in s)
    ensures k < |s| ==> s[k] == x
    ensures x !in s[..k]
  {
    if s == [] then 0 else if s[0] == x then 0
    else
      var k := 1 + IndexOf(s[1..], x);
      assert s[..k] == [s[0]] + s[1..][..k - 1];
      k
  }

  function Without<T>(s: seq<T>, k: nat): (r: seq<T>)
    requires k < |s|
    ensures |r| == |s| - 1 && forall j :: 0 <= j < |r| ==> r[j] == if j < k then s[j] else s[j + 1]
  {
    s[..k] + s[k + 1..]
  }

  /** Deleting removes the handler found first, provided the kernel lets go of the descriptor. */
  function Delete(l: Loop, fd: int, env: Env): (Loop, bool) {
    if fd in l.handlers && fd in l.interest && env.ctlWorks
    then (Loop(Without(l.handlers, IndexOf(l.handlers, fd)), l.interest - {fd}), true)
    else (l, false)
  }

  datatype Event = AddEvent(fd: int, env: Env) | DeleteEvent(fd: int, env: Env)

  function Apply(l: Loop, e: Event): Loop {
    match e
    case AddEvent(fd, env) => Add(l, fd, env).0
    case DeleteEvent(fd, env) => Delete(l, fd, env).0
  }

  function Run(l: Loop, es: seq<Event>): Loop
    decreases |es|
  {
    if es == [] then l else Run(Apply(l, es[0]), es[1..])
  }

  /** Adding keeps the mirror exactly when the descriptor is not registered yet. */
  lemma AddMirrorsExactly(l: Loop, fd: int, env: Env)
    requires Mirrors(l)
    ensures Mirrors(Add(l, fd, env).0) <==> fd !in l.interest
  {
    var l' := Add(l, fd, env).0;
    if fd in l.interest {
      assert fd in AsSet(l'.handlers);
    } else if Add(l, fd, env).1 {
      assert AsSet(l'.handlers) == AsSet(l.handlers) + {fd};
    } else {
      assert l.interest - {fd} == l.interest;
    }
  }

  /** On a loop where the two agree adding succeeds exactly for a descriptor that is not registered, when
      memory and kernel allow it, and adds it to both; a failing attempt to add such a descriptor changes
      nothing, and one to add a registered descriptor takes it from the set only. */
  lemma AddExactly(l: Loop, fd: int, env: Env)
    requires Mirrors(l)
    ensures Add(l, fd, env).1 <==> fd !in l.handlers && env == Env(true, true, true)
    ensures Add(l, fd, env).1 ==> Add(l, fd, env).0 == Loop([fd] + l.handlers, l.interest + {fd})
    ensures !Add(l, fd, env).1 && fd !in l.handlers ==> Add(l, fd, env).0 == l
    ensures fd in l.handlers ==> Add(l, fd, env).0 == Loop(l.handlers, l.interest - {fd})
  {
    assert fd in l.handlers <==> fd in AsSet(l.handlers);
    assert fd !in l.interest ==> l.interest - {fd} == l.interest;
  }

  lemma DeleteMirrors(l: Loop, fd: int, env: Env)
    requires Mirrors(l)
    ensures Mirrors(Delete(l, fd, env).0)
    ensures Delete(l, fd, env).1 <==> fd in l.interest && env.ctlWorks
    ensures Delete(l, fd, env).1 ==> |Delete(l, fd, env).0.handlers| == |l.handlers| - 1
  {
    assert fd in l.handlers <==> fd in AsSet(l.handlers);
    if Delete(l, fd, env).1 {
      var k := IndexOf(l.handlers, fd);
      WithoutMembers(l.handlers, k);
      assert AsSet(Without(l.handlers, k)) == AsSet(l.handlers) - {fd};
    }
  }

  lemma WithoutMembers(s: seq<int>, k: nat)
    requires k < |s| && forall i, j :: 0 <= i < j < |s| ==> s[i] != s[j]
    ensures forall x :: x in Without(s, k) <==> x in s && x != s[k]
  {
    var t := Without(s, k);
    forall x | x in s && x != s[k] ensures x in t {
      var i :| 0 <= i < |s| && s[i] == x;
      assert x == t[if i < k then i else i - 1];
    }
    forall x | x in t ensures x in s && x != s[k] {
      var i :| 0 <= i < |t| && t[i] == x;
      assert x == s[if i < k then i else i + 1];
    }
  }

  /** No step of the run adds a registered descriptor. */
  predicate NeverReadds(l: Loop, es: seq<Event>)
    decreases |es|
  {
    es == [] || ((es[0].AddEvent? ==> es[0].fd !in l.interest) && NeverReadds(Apply(l, es[0]), es[1..]))
  }

  /** Over every run that never adds a registered descriptor the ring mirrors the interest set. */
  lemma {:induction false} RunMirrors(l: Loop, es: seq<Event>)
    requires Mirrors(l) && NeverReadds(l, es)
    ensures Mirrors(Run(l, es))
    decreases |es|
  {
    if es != [] {
      match es[0] {
        case AddEvent(fd, env) => AddMirrorsExactly(l, fd, env);
        case DeleteEvent(fd, env) => DeleteMirrors(l, fd, env);
      }
      RunMirrors(Apply(l, es[0]), es[1..]);
    }
  }

  /** Adding and then deleting a new descriptor restores the loop. */
  lemma AddThenDelete(l: Loop, fd: int, env: Env, env': Env)
    requires fd !in l.interest && fd !in l.handlers && Add(l, fd, env).1 && env'.ctlWorks
    ensures Delete(Add(l, fd, env).0, fd, env') == (l, true)
  {
    var l' := Add(l, fd, env).0;
    assert l'.handlers[0] == fd && IndexOf(l'.handlers, fd) == 0;
    assert l'.handlers[..0] + l'.handlers[1..] == l.handlers;
    assert l'.interest - {fd} == l.interest;
  }

  // ----- the linked list

  class Link {
    const fd: int
    var next: Link
    var prev: Link

    /** `linked_list_init`. */
    constructor (fd: int)
      ensures this.fd == fd && next == this && prev == this
    {
      this.fd := fd;
      next, prev := this, this;
    }
  }

  /** A closed ring: the head, the nodes in order and the head again. Following `next` goes through it
      forward, following `prev` backward, and no node occurs twice. */
  ghost predicate IsRing(ring: seq<Link>)
    reads ring
  {
    && |ring| >= 2 && ring[|ring| - 1] == ring[0]
    && (forall i :: 0 <= i < |ring| - 1 ==> ring[i].next == ring[i + 1])
    && (forall i :: 1 <= i < |ring| ==> ring[i].prev == ring[i - 1])
    && (forall i, j :: 0 <= i < j < |ring| - 1 ==> ring[i] != ring[j])
  }

  function Fds(nodes: seq<Link>): (r: seq<int>)
    ensures |r| == |nodes| && forall i :: 0 <= i < |r| ==> r[i] == nodes[i].fd
  {
    seq(|nodes|, i requires 0 <= i < |nodes| => nodes[i].fd)
  }

  /** `linked_list_add`: links a node in right behind the head. */
  method LinkedListAdd(head: Link, node: Link, ghost ring: seq<Link>)
    requires IsRing(ring) && ring[0] == head && node !in ring
    modifies ring, node
    ensures IsRing([head, node] + ring[1..])
  {
    var prev, next := head, head.next;
    assert next == ring[1];
    next.prev := node;
    node.next := next;
    node.prev := prev;
    prev.next := node;
  }

  /** `linked_list_del`: the neighbours of the node at position k are linked to each other. */
  method LinkedListDel(node: Link, ghost ring: seq<Link>, ghost k: nat)
    requires IsRing(ring) && 0 < k < |ring| - 1 && ring[k] == node
    modifies ring
    ensures IsRing(Without(ring, k))
  {
    var next, prev := node.next, node.prev;
    assert next == ring[k + 1] && prev == ring[k - 1];
    next.prev := prev;
    prev.next := next;
  }

  /** `linked_list_len`. */
  method LinkedListLen(list: Link, ghost ring: seq<Link>) returns (n: nat)
    requires IsRing(ring) && ring[0] == list
    ensures n == |ring| - 2
  {
    n := 0;
    var iter := list.next;
    while iter != list
      invariant n <= |ring| - 2 && iter == ring[n + 1]
      decreases |ring| - n
    {
      iter := iter.next;
      n := n + 1;
    }
    assert forall i :: 1 <= i < |ring| - 1 ==> ring[0] != ring[i];
  }

  // ----- the loop object

  class EpollDescr {
    var head: Link
    var interest: set<int>
    ghost var ring: seq<Link>

    ghost predicate Valid()
      reads this, ring
    {
      IsRing(ring) && ring[0] == head
    }

    ghost function Nodes(): seq<Link>
      requires |ring| >= 2
      reads this
    {
      NodesOf(ring)
    }

    ghost function Abs(): Loop
      requires |ring| >= 2
      reads this
    {
      Loop(Fds(Nodes()), interest)
    }

    /** `epoll_loop_open`. */
    constructor ()
      ensures Valid() && Abs() == NEW_LOOP && fresh(head)
    {
      var h := new Link(-1);
      head := h;
      ring := [h, h];
      interest := {};
    }

    /** `epoll_loop_add_handler`. */
    method AddHandler(fd: int, env: Env) returns (ok: bool)
      requires Valid()
      modifies this, ring
      ensures Valid() && head == old(head)
      ensures (Abs(), ok) == Add(old(Abs()), fd, env)
      ensures if ok then exists n :: fresh(n) && Nodes() == [n] + old(Nodes()) else Nodes() == old(Nodes())
    {
      if !env.handlerAllocated || !env.ctlWorks || fd in interest {
        ForgetDescriptor(fd);
        return false;
      }
      interest := interest + {fd};
      if !env.nodeAllocated {
        ForgetDescriptor(fd);
        assert old(interest) + {fd} - {fd} == old(interest) - {fd};
        return false;
      }
      var node := new Link(fd);
      NodesPushed(ring, node);
      LinkedListAdd(head, node, ring);
      ring := [head, node] + ring[1..];
      return true;
    }

    /** `epoll_loop_del_handler`: exactly the node at position k goes. */
    method DelHandler(fd: int, env: Env) returns (ok: bool, ghost k: nat)
      requires Valid()
      modifies this, ring
      ensures Valid() && head == old(head)
      ensures (Abs(), ok) == Delete(old(Abs()), fd, env)
      ensures if ok then k < |old(Nodes())| && Nodes() == Without(old(Nodes()), k) else Nodes() == old(Nodes())
    {
      var found, index;
      found, index, k := FindHandler(fd);
      if !found || fd !in interest || !env.ctlWorks {
        return false, k;
      }
      ForgetDescriptor(fd);
      Unlink(index, k);
      return true, k;
    }

    /** `epoll_ctl` with EPOLL_CTL_DEL; for a descriptor that is not there it changes nothing. */
    method ForgetDescriptor(fd: int)
      requires Valid()
      modifies this`interest
      ensures Valid() && interest == old(interest) - {fd}
    {
      interest := interest - {fd};
    }

    method Unlink(index: Link, ghost k: nat)
      requires Valid() && k < |ring| - 2 && index == ring[k + 1]
      modifies this`ring, ring
      ensures Valid() && ring == Without(old(ring), k + 1)
      ensures Nodes() == Without(old(Nodes()), k) && Fds(Nodes()) == Without(Fds(old(Nodes())), k)
    {
      NodesWithout(ring, k);
      LinkedListDel(index, ring, k + 1);
      ring := Without(ring, k + 1);
    }

    /** The search of the deletion: the first node with the descriptor. */
    method FindHandler(fd: int) returns (found: bool, index: Link, ghost i: nat)
      requires Valid()
      ensures found <==> fd in Fds(Nodes())
      ensures found ==> i < |ring| - 2 && index == ring[i + 1] && IndexOf(Fds(Nodes()), fd) == i
    {
      index, i := head.next, 0;
      ghost var nodes := Nodes();
      while index != head
        invariant 0 <= i <= |ring| - 2 && index == ring[i + 1]
        invariant forall j :: 0 <= j < i ==> nodes[j].fd != fd
        decreases |ring| - i
      {
        assert index == nodes[i];
        if fd == index.fd {
          FirstIndex(Fds(nodes), fd, i);
          return true, index, i;
        }
        index := index.next;
        i := i + 1;
      }
      assert forall j :: 1 <= j < |ring| - 1 ==> ring[0] != ring[j];
      return false, index, i;
    }

    /** `epoll_loop_close`: every node is unlinked and freed, each once and in order, and closing the
        descriptor of the loop ends the interest set. */
    method Close() returns (freed: seq<Link>)
      requires Valid()
      modifies this`ring, this`interest, ring
      ensures freed == old(Nodes()) && Valid() && Nodes() == [] && Abs() == NEW_LOOP
    {
      freed := [];
      var index := head.next;
      var next := index.next;
      while index != head
        invariant Valid() && forall i :: 0 <= i < |ring| ==> ring[i] in old(ring)
        invariant index == ring[1] && next == index.next
        invariant freed + Nodes() == old(Nodes())
        decreases |ring|
      {
        FirstNode(freed, ring);
        freed := freed + [index];
        UnlinkFirst(index, next);
        index := next;
        next := next.next;
      }
      assert |ring| == 2;
      interest := {};
    }

    method UnlinkFirst(index: Link, next: Link)
      requires Valid() && |ring| > 2 && index == ring[1] && next == index.next
      modifies this`ring, ring
      ensures Valid() && |ring| == old(|ring|) - 1 && next == ring[1] && Nodes() == Without(old(Nodes()), 0)
      ensures forall i :: 0 <= i < |ring| ==> ring[i] in old(ring)
    {
      Unlink(index, 0);
    }
  }

  lemma FirstNode(freed: seq<Link>, ring: seq<Link>)
    requires |ring| > 2
    ensures freed + NodesOf(ring) == freed + [ring[1]] + Without(NodesOf(ring), 0)
  {
  }

  ghost function NodesOf(ring: seq<Link>): seq<Link>
    requires |ring| >= 2
  {
    ring[1..|ring| - 1]
  }

  lemma NodesPushed(ring: seq<Link>, node: Link)
    requires |ring| >= 2
    ensures NodesOf([ring[0], node] + ring[1..]) == [node] + NodesOf(ring)
    ensures Fds([node] + NodesOf(ring)) == [node.fd] + Fds(NodesOf(ring))
  {
  }

  lemma NodesWithout(ring: seq<Link>, i: nat)
    requires |ring| >= 2 && i < |ring| - 2
    ensures NodesOf(Without(ring, i + 1)) == Without(NodesOf(ring), i)
    ensures Fds(Without(NodesOf(ring), i)) == Without(Fds(NodesOf(ring)), i)
  {
    var a, b := NodesOf(Without(ring, i + 1)), Without(NodesOf(ring), i);
    assert |a| == |b|;
    forall j | 0 <= j < |a| ensures a[j] == b[j] {
      assert a[j] == Without(ring, i + 1)[j + 1] == ring[if j < i then j + 1 else j + 2];
      assert b[j] == NodesOf(ring)[if j < i then j else j + 1];
    }
  }

  lemma FirstIndex(s: seq<int>, x: int, i: nat)
    requires i < |s| && s[i] == x && forall j :: 0 <= j < i ==> s[j] != x
    ensures IndexOf(s, x) == i && x in s
  {
    assert forall j :: 0 <= j < IndexOf(s, x) ==> s[j] == s[..IndexOf(s, x)][j];
  }
}
