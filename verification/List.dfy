// The intrusive circular list of include/list.h.
module List {

  // The member of a structure that a node is.
  datatype Use = RunNode | ReadEntry | ForegroundEntry

  class ListHead {
    var next: ListHead?
    var prev: ListHead?
    // What list_entry finds: the number of the object this node is embedded in.
    const owner: nat
    const use: Use

    // A node before its first use.
    constructor (owner: nat, use: Use)
      ensures this.owner == owner && this.use == use
    {
      this.owner, this.use := owner, use;
      next, prev := null, null;
    }
  }

  predicate NoDup(s: seq<ListHead>) { forall i, j :: 0 <= i < j < |s| ==> s[i] != s[j] }

  function NextIn(h: ListHead, s: seq<ListHead>, i: nat): ListHead { if i + 1 < |s| then s[i + 1] else h }

  function PrevIn(h: ListHead, s: seq<ListHead>, i: nat): ListHead
    requires i <= |s|
  {
    if i > 0 then s[i - 1] else h
  }

  // Following next from h visits s in order and returns to h; prev is its inverse.
  ghost predicate Ring(h: ListHead, s: seq<ListHead>)
    reads h, s
  {
    && h !in s && NoDup(s)
    && h.next == (if s == [] then h else s[0])
    && h.prev == PrevIn(h, s, |s|)
    && (forall i {:trigger NextIn(h, s, i)} :: 0 <= i < |s| ==> s[i].next == NextIn(h, s, i))
    && (forall i {:trigger PrevIn(h, s, i)} :: 0 <= i < |s| ==> s[i].prev == PrevIn(h, s, i))
  }

  // The contents of a ring are determined by its pointers.
  lemma {:induction false} RingPrefix(h: ListHead, s: seq<ListHead>, t: seq<ListHead>, n: nat)
    requires Ring(h, s) && Ring(h, t) && n <= |s|
    ensures n <= |t| && s[..n] == t[..n]
  {
    if n > 0 {
      RingPrefix(h, s, t, n - 1);
      if n > 1 {
        assert s[n - 2] == s[..n - 1][n - 2] == t[..n - 1][n - 2];
        assert NextIn(h, s, n - 2) == NextIn(h, t, n - 2);
      }
      assert s[..n] == s[..n - 1] + [s[n - 1]];
    }
  }

  lemma RingUnique(h: ListHead, s: seq<ListHead>, t: seq<ListHead>)
    requires Ring(h, s) && Ring(h, t)
    ensures s == t
  {
    RingPrefix(h, s, t, |s|);
    RingPrefix(h, t, s, |t|);
    assert s[..|s|] == s && t[..|t|] == t;
  }

  lemma FirstOfRing(h: ListHead, s: seq<ListHead>)
    requires Ring(h, s)
    ensures h !in s && h.next == if s == [] then h else s[0]
  {
  }

  lemma NextOfRing(h: ListHead, s: seq<ListHead>, i: nat)
    requires Ring(h, s) && i < |s|
    ensures s[i].next == (if i + 1 < |s| then s[i + 1] else h) && s[i] != h
  {
    assert s[i].next == NextIn(h, s, i);
  }

  // INIT_LIST_HEAD
  method InitListHead(l: ListHead)
    modifies l
    ensures Ring(l, [])
  {
    l.next := l;
    l.prev := l;
  }

  method ListAddTail(node: ListHead, head: ListHead, ghost s: seq<ListHead>)
    requires Ring(head, s) && node != head && node !in s
    modifies node, head, s
    ensures Ring(head, s + [node])
  {
    var last := head.prev;
    node.next := head;
    node.prev := last;
    last.next := node;
    head.prev := node;
    ghost var t := s + [node];
    forall i | 0 <= i < |t| ensures t[i].next == NextIn(head, t, i) && t[i].prev == PrevIn(head, t, i) {
      if i < |s| {
        assert t[i] == s[i] && PrevIn(head, t, i) == PrevIn(head, s, i);
        assert i + 1 < |s| ==> NextIn(head, t, i) == NextIn(head, s, i) && s[i] != last;
      }
    }
  }

  method ListAdd(node: ListHead, head: ListHead, ghost s: seq<ListHead>)
    requires Ring(head, s) && node != head && node !in s
    modifies node, head, s
    ensures Ring(head, [node] + s)
  {
    var first := head.next;
    node.prev := head;
    node.next := first;
    first.prev := node;
    head.next := node;
    ghost var t := [node] + s;
    forall i | 0 <= i < |t| ensures t[i].next == NextIn(head, t, i) && t[i].prev == PrevIn(head, t, i) {
      if i > 0 {
        assert t[i] == s[i - 1] && NextIn(head, t, i) == NextIn(head, s, i - 1);
        assert i > 1 ==> PrevIn(head, t, i) == PrevIn(head, s, i - 1) && s[i - 1] != first;
      }
    }
  }

  // Unlinks the i-th entry; its own pointers are left as they were.
  method ListDel(entry: ListHead, ghost head: ListHead, ghost s: seq<ListHead>, ghost i: nat)
    requires Ring(head, s) && i < |s| && s[i] == entry
    modifies head, s
    ensures Ring(head, s[..i] + s[i + 1..])
    ensures entry.next == old(entry.next) && entry.prev == old(entry.prev)
  {
    assert s[i].prev == PrevIn(head, s, i) && s[i].next == NextIn(head, s, i);
    var p, n := entry.prev, entry.next;
    p.next := n;
    n.prev := p;
    ghost var t := s[..i] + s[i + 1..];
    forall k | 0 <= k < |t| ensures t[k].next == NextIn(head, t, k) && t[k].prev == PrevIn(head, t, k) {
      ghost var j := if k < i then k else k + 1;
      assert t[k] == s[j];
      assert j + 1 != i ==> NextIn(head, t, k) == NextIn(head, s, j) && s[j] != p;
      assert j != i + 1 ==> PrevIn(head, t, k) == PrevIn(head, s, j) && s[j] != n;
    }
  }

  // Takes the first node off the ring and appends it.
  method MoveFirstToBack(head: ListHead, ghost s: seq<ListHead>)
    requires Ring(head, s) && s != []
    modifies head, s
    ensures Ring(head, s[1..] + [s[0]])
  {
    FirstOfRing(head, s);
    var first := head.next;
    FirstAlone(head, s);
    hide Ring;
    ListDel(first, head, s, 0);
    assert s[..0] + s[1..] == s[1..];
    ListAddTail(first, head, s[1..]);
  }

  lemma FirstAlone(h: ListHead, s: seq<ListHead>)
    requires Ring(h, s) && s != []
    ensures s[0] !in s[1..] && s[0] != h
  {
  }

  method ListEmpty(head: ListHead, ghost s: seq<ListHead>) returns (b: bool)
    requires Ring(head, s)
    ensures b <==> s == []
  {
    b := head.next == head;
  }
}
