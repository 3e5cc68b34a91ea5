/** Intrusive circular lists (components/chip_d1/melis/include/hal/aw_list.h): a head and the
    entries behind it form one doubly linked ring. */
module ListHead {
  import opened Basics

  class Node {
    var next: Node
    var prev: Node

    /** INIT_LIST_HEAD on a fresh node */
    constructor ()
      ensures next == this && prev == this
    {
      next, prev := this, this;
    }
  }

  function After(ring: seq<Node>, k: nat): Node
    requires k < |ring|
  {
    if k + 1 < |ring| then ring[k + 1] else ring[0]
  }

  function Before(ring: seq<Node>, k: nat): Node
    requires k < |ring|
  {
    if k > 0 then ring[k - 1] else ring[|ring| - 1]
  }

  ghost predicate LinksAt(ring: seq<Node>, k: nat)
    requires k < |ring|
    reads ring
  {
    ring[k].next == After(ring, k) && ring[k].prev == Before(ring, k)
  }

  /** The nodes form one ring in this order, linked both ways; the first one is the head. */
  ghost predicate Ring(ring: seq<Node>)
    reads ring
  {
    |ring| > 0 && Distinct(ring) && forall k :: 0 <= k < |ring| ==> LinksAt(ring, k)
  }

  /** list_empty */
  predicate IsEmpty(head: Node)
    reads head
  {
    head.next == head
  }

  /** list_is_singular */
  predicate IsSingular(head: Node)
    reads head
  {
    !IsEmpty(head) && head.next == head.prev
  }

  lemma EmptyMeans(head: Node, s: seq<Node>)
    requires Ring([head] + s)
    ensures IsEmpty(head) <==> s == []
    ensures IsSingular(head) <==> |s| == 1
  {
    var ring := [head] + s;
    assert LinksAt(ring, 0);
    if |s| > 0 { assert LinksAt(ring, 1); assert ring[0] != ring[1]; }
    if |s| > 1 { assert ring[1] != ring[|s|]; }
  }

  lemma HeadLinks(ring: seq<Node>)
    requires Ring(ring)
    ensures ring[0].next == After(ring, 0) && ring[0].prev == ring[|ring| - 1]
  {
    assert LinksAt(ring, 0);
  }

  /** INIT_LIST_HEAD */
  method Init(list: Node)
    modifies list
    ensures Ring([list])
  {
    list.next := list;
    list.prev := list;
  }

  /** __list_add: a new entry between ring[j] and the node behind it. */
  method AddBetween(entry: Node, prev: Node, next: Node, ghost ring: seq<Node>, ghost j: nat)
    requires Ring(ring) && entry !in ring && j < |ring|
    requires prev == ring[j] && next == After(ring, j)
    modifies ring, entry
    ensures Ring(ring[..j + 1] + [entry] + ring[j + 1..])
  {
    ghost var r := ring[..j + 1] + [entry] + ring[j + 1..];
    next.prev := entry;
    entry.next := next;
    entry.prev := prev;
    prev.next := entry;
    forall k | 0 <= k < |r| ensures LinksAt(r, k) {
      if k != j + 1 {
        assert r[k] == ring[if k <= j then k else k - 1];
        assert old(LinksAt(ring, if k <= j then k else k - 1));
      }
    }
  }

  /** list_add */
  method Add(entry: Node, head: Node, ghost s: seq<Node>)
    requires Ring([head] + s) && entry !in [head] + s
    modifies [head] + s, entry
    ensures Ring([head] + [entry] + s)
  {
    assert LinksAt([head] + s, 0);
    AddBetween(entry, head, head.next, [head] + s, 0);
    assert ([head] + s)[..1] + [entry] + ([head] + s)[1..] == [head] + [entry] + s;
  }

  /** list_add_tail */
  method AddTail(entry: Node, head: Node, ghost s: seq<Node>)
    requires Ring([head] + s) && entry !in [head] + s
    modifies [head] + s, entry
    ensures Ring([head] + s + [entry])
  {
    ghost var ring := [head] + s;
    assert LinksAt(ring, 0);
    AddBetween(entry, head.prev, head, ring, |s|);
    assert ring[..|ring|] + [entry] + ring[|ring|..] == ring + [entry];
  }

  /** __list_del_entry */
  method DelEntry(entry: Node, ghost ring: seq<Node>, ghost j: nat)
    requires Ring(ring) && 0 < j < |ring| && entry == ring[j]
    modifies ring
    ensures Ring(RemoveAt(ring, j))
  {
    ghost var r := RemoveAt(ring, j);
    assert LinksAt(ring, j);
    var prev, next := entry.prev, entry.next;
    next.prev := prev;
    prev.next := next;
    forall k | 0 <= k < |r| ensures LinksAt(r, k) {
      assert r[k] == ring[if k < j then k else k + 1];
      assert old(LinksAt(ring, if k < j then k else k + 1));
    }
  }

  lemma RemovedLacks(ring: seq<Node>, j: nat)
    requires Ring(ring) && j < |ring|
    ensures ring[j] !in RemoveAt(ring, j)
    ensures forall a :: a in RemoveAt(ring, j) ==> a in ring
  {}

  /** list_del: the entry's own links are poisoned. */
  method Del(entry: Node, poison1: Node, poison2: Node, ghost ring: seq<Node>, ghost j: nat)
    requires Ring(ring) && 0 < j < |ring| && entry == ring[j]
    modifies ring
    ensures Ring(RemoveAt(ring, j)) && entry.next == poison1 && entry.prev == poison2
  {
    hide Ring;
    ghost var left := RemoveAt(ring, j);
    RemovedLacks(ring, j);
    DelEntry(entry, ring, j);
    assert forall i :: 0 <= i < |left| ==> left[i] != entry;
    entry.next := poison1;
    entry.prev := poison2;
  }

  /** list_move_tail, when the entry is already on the list */
  method MoveToEnd(entry: Node, head: Node, ghost s: seq<Node>, ghost j: nat)
    requires Ring([head] + s) && 0 < j <= |s| && entry == s[j - 1]
    modifies [head] + s
    ensures Ring(RemoveAt([head] + s, j) + [entry])
  {
    DelEntry(entry, [head] + s, j);
    ghost var rest := RemoveAt([head] + s, j)[1..];
    assert [head] + rest == RemoveAt([head] + s, j);
    AddTail(entry, head, rest);
  }

  /** list_move_tail, from one list to another */
  method MoveTail(entry: Node, head: Node, ghost from: seq<Node>, ghost j: nat, ghost s: seq<Node>)
    requires Ring(from) && 0 < j < |from| && entry == from[j] && Ring([head] + s)
    requires forall a :: a in from ==> a !in [head] + s
    modifies from, [head] + s
    ensures Ring(RemoveAt(from, j)) && Ring([head] + s + [entry])
  {
    hide Ring;
    ghost var ring, left := [head] + s, RemoveAt(from, j);
    assert forall i :: 0 <= i < |ring| ==> ring[i] in ring && ring[i] !in from;
    RemovedLacks(from, j);
    DelEntry(entry, from, j);
    assert Ring(ring);
    assert forall i :: 0 <= i < |left| ==> left[i] !in ring && left[i] != entry;
    AddTail(entry, head, s);
  }

  /** list_rotate_left */
  method RotateLeft(head: Node, ghost s: seq<Node>)
    requires Ring([head] + s)
    modifies [head] + s
    ensures Ring([head] + if s == [] then [] else s[1..] + [s[0]])
  {
    EmptyMeans(head, s);
    if !IsEmpty(head) {
      assert LinksAt([head] + s, 0);
      MoveToEnd(head.next, head, s, 1);
      assert RemoveAt([head] + s, 1) + [s[0]] == [head] + (s[1..] + [s[0]]);
    }
  }

  lemma CutDistinct(list: Node, head: Node, s: seq<Node>, j: nat)
    requires Distinct([head] + s) && list !in [head] + s && j <= |s|
    ensures Distinct([list] + s[..j]) && Distinct([head] + s[j..])
  {
    var ring, a, b := [head] + s, [list] + s[..j], [head] + s[j..];
    forall i, k | 0 <= i < k < |a| ensures a[i] != a[k] {
      assert a[k] == ring[k];
      if i > 0 { assert a[i] == ring[i]; }
    }
    forall i, k | 0 <= i < k < |b| ensures b[i] != b[k] {
      assert b[k] == ring[j + k];
      assert b[i] == ring[if i == 0 then 0 else j + i];
    }
  }

  /** `r` is the ring with `l` put in behind ring[j]. */
  ghost predicate Joined(r: seq<Node>, ring: seq<Node>, l: seq<Node>, j: nat)
    requires j < |ring|
  {
    |r| == |ring| + |l| &&
    (forall k :: 0 <= k <= j ==> r[k] == ring[k]) &&
    (forall k :: j < k <= j + |l| ==> r[k] == l[k - j - 1]) &&
    (forall k :: j + |l| < k < |r| ==> r[k] == ring[k - |l|])
  }

  lemma JoinDistinct(r: seq<Node>, ring: seq<Node>, l: seq<Node>, j: nat)
    requires j < |ring| && Joined(r, ring, l, j)
    requires Distinct(l) && Distinct(ring) && forall a :: a in l ==> a !in ring
    ensures Distinct(r)
  {
    forall i, k | 0 <= i < k < |r| ensures r[i] != r[k] {
      if j < i <= j + |l| { assert r[i] == l[i - j - 1] && l[i - j - 1] in l; }
      if j < k <= j + |l| { assert r[k] == l[k - j - 1] && l[k - j - 1] in l; }
      assert i <= j ==> r[i] == ring[i] && ring[i] in ring;
      assert k <= j ==> r[k] == ring[k] && ring[k] in ring;
      assert i > j + |l| ==> r[i] == ring[i - |l|] && ring[i - |l|] in ring;
      assert k > j + |l| ==> r[k] == ring[k - |l|] && ring[k - |l|] in ring;
    }
  }

  /** __list_cut_position */
  method CutAt(list: Node, head: Node, entry: Node, ghost s: seq<Node>, ghost j: nat)
    requires Ring([head] + s) && list !in [head] + s && 0 < j <= |s| && entry == s[j - 1]
    modifies list, [head] + s
    ensures Ring([list] + s[..j]) && Ring([head] + s[j..])
  {
    ghost var ring, a, b := [head] + s, [list] + s[..j], [head] + s[j..];
    assert LinksAt(ring, 0) && LinksAt(ring, j);
    var newFirst := entry.next;
    list.next := head.next;
    list.next.prev := list;
    list.prev := entry;
    entry.next := list;
    head.next := newFirst;
    newFirst.prev := head;
    CutDistinct(list, head, s, j);
    forall k | 0 <= k < |a| ensures LinksAt(a, k) {
      if k > 0 { assert a[k] == ring[k] && old(LinksAt(ring, k)); }
    }
    forall k | 0 <= k < |b| ensures LinksAt(b, k) {
      if k > 0 { assert b[k] == ring[j + k] && old(LinksAt(ring, j + k)); } else { assert old(LinksAt(ring, 0)); }
    }
  }

  /** list_cut_position: everything up to and including the entry moves to `list`. An empty list
      is left alone, and so is one whose only entry is another one; so is `list` then. */
  method CutPosition(list: Node, head: Node, entry: Node, ghost s: seq<Node>, ghost j: nat)
    requires Ring([head] + s) && list !in [head] + s && j <= |s|
    requires entry == ([head] + s)[j] || (|s| <= 1 && entry !in [head] + s)
    modifies list, [head] + s
    ensures s != [] && entry in [head] + s ==> Ring([list] + s[..j]) && Ring([head] + s[j..])
    ensures s == [] || entry !in [head] + s ==>
              Ring([head] + s) && list.next == old(list.next) && list.prev == old(list.prev)
  {
    ghost var ring := [head] + s;
    EmptyMeans(head, s);
    HeadLinks(ring);
    assert head in ring && (j > 0 ==> ring[0] != ring[j]);
    if IsEmpty(head) {
      return;
    }
    assert head.next == s[0] == ring[1] && ring[1] in ring;
    if IsSingular(head) && head.next != entry && head != entry {
      return;
    }
    assert entry == ring[j] && ring[j] in ring;
    if entry == head {
      Init(list);
      assert [list] + s[..0] == [list] && [head] + s[0..] == ring;
      assert forall k :: 0 <= k < |ring| ==> old(LinksAt(ring, k)) && LinksAt(ring, k);
    } else {
      CutAt(list, head, entry, s, j);
    }
  }

  lemma SplicedJoins(ring: seq<Node>, l: seq<Node>, j: nat)
    requires j < |ring|
    ensures Joined(ring[..j + 1] + l + ring[j + 1..], ring, l, j)
  {
  }

  /** __list_splice: the entries of a non-empty `list` go in behind ring[j]. */
  method SpliceBetween(list: Node, prev: Node, next: Node, ghost l: seq<Node>, ghost ring: seq<Node>, ghost j: nat)
    requires Ring([list] + l) && l != [] && Ring(ring) && j < |ring|
    requires forall a :: a in l ==> a !in ring
    requires prev == ring[j] && next == After(ring, j)
    modifies l, ring
    ensures Ring(ring[..j + 1] + l + ring[j + 1..])
  {
    hide Joined;
    ghost var x, r := [list] + l, ring[..j + 1] + l + ring[j + 1..];
    assert Distinct(l) by { assert forall k :: 0 <= k < |l| ==> l[k] == x[k + 1]; }
    SplicedJoins(ring, l, j);
    JoinDistinct(r, ring, l, j);
    assert LinksAt(x, 0);
    var first, last := list.next, list.prev;
    first.prev := prev;
    prev.next := first;
    last.next := next;
    next.prev := last;
    assert first == r[j + 1] && last == r[j + |l|] && prev == r[j] && next == After(r, j + |l|);
    assert first.prev == prev && prev.next == first && last.next == next && next.prev == last;
    forall k | 0 <= k < |r| ensures LinksAt(r, k) {
      if j < k <= j + |l| {
        assert r[k] == x[k - j] && old(LinksAt(x, k - j));
      } else if k <= j {
        assert old(LinksAt(ring, k));
      } else {
        assert old(LinksAt(ring, k - |l|));
      }
    }
  }

  /** list_splice: the entries of `list` go in front of those of `head`. */
  method Splice(list: Node, head: Node, ghost l: seq<Node>, ghost s: seq<Node>)
    requires Ring([list] + l) && Ring([head] + s)
    requires forall a :: a in l ==> a !in [head] + s
    modifies l, [head] + s
    ensures Ring([head] + (l + s))
  {
    ghost var ring := [head] + s;
    EmptyMeans(list, l);
    if !IsEmpty(list) {
      assert LinksAt(ring, 0);
      SpliceBetween(list, head, head.next, l, ring, 0);
      assert ring[..1] + l + ring[1..] == [head] + (l + s);
    } else {
      assert ring == [head] + (l + s);
    }
  }

  /** list_splice_tail_init: the entries of `list` go behind those of `head`, and `list` is empty
      afterwards. */
  method SpliceTailInit(list: Node, head: Node, ghost l: seq<Node>, ghost s: seq<Node>)
    requires Ring([list] + l) && Ring([head] + s)
    requires list !in [head] + s && forall a :: a in l ==> a !in [head] + s
    modifies list, l, [head] + s
    ensures Ring([head] + (s + l)) && Ring([list])
  {
    hide Ring, LinksAt, Before;
    ghost var ring, r := [head] + s, [head] + (s + l);
    EmptyMeans(list, l);
    HeadLinks(ring);
    HeadOutside(list, l);
    if !IsEmpty(list) {
      SpliceBetween(list, head.prev, head, l, ring, |s|);
      assert ring[..|ring|] + l + ring[|ring|..] == r;
      assert forall k :: 0 <= k < |r| ==> r[k] != list;
      Init(list);
    } else {
      assert ring == [head] + (s + l) && [list] + l == [list];
    }
  }

  lemma HeadOutside(list: Node, l: seq<Node>)
    requires Ring([list] + l)
    ensures list !in l
  {
    var x := [list] + l;
    assert forall k :: 0 <= k < |l| ==> l[k] == x[k + 1] && x[k + 1] != x[0];
  }

  lemma AllLinks(ring: seq<Node>)
    requires Ring(ring)
    ensures forall k :: 0 <= k < |ring| ==> ring[k].next == After(ring, k) && ring[k].prev == Before(ring, k)
  {
    forall k | 0 <= k < |ring| ensures ring[k].next == After(ring, k) && ring[k].prev == Before(ring, k) {
      assert LinksAt(ring, k);
    }
  }

  lemma Alone(list: Node)
    ensures Ring([list]) <==> list.next == list && list.prev == list
  {
    assert LinksAt([list], 0) <==> list.next == list && list.prev == list;
  }

  lemma CutDisjoint(head: Node, s: seq<Node>, j: nat)
    requires Ring([head] + s) && j <= |s|
    ensures forall a :: a in s[..j] ==> a !in [head] + s[j..]
    ensures forall k :: 0 <= k < j ==> s[..j][k] in [head] + s
    ensures forall k :: 0 <= k <= |s| - j ==> ([head] + s[j..])[k] in [head] + s
  {
    var ring, l, rest := [head] + s, s[..j], [head] + s[j..];
    assert forall k :: 0 <= k < |l| ==> l[k] == ring[k + 1] && l[k] in ring;
    assert forall k :: 0 <= k < |rest| ==> rest[k] == ring[if k == 0 then 0 else j + k] && rest[k] in ring;
    forall a | a in s[..j] ensures a !in [head] + s[j..] {
      var i :| 0 <= i < j && s[i] == a;
      assert a == ring[i + 1] && head == ring[0];
      forall k | j <= k < |s| ensures s[k] != a { assert ring[k + 1] == s[k]; }
    }
  }

  /** Cutting a list just behind any of its nodes and splicing the two parts back leaves every link
      of the list as it was: a ring fixes the links of all its nodes. */
  method CutThenSplice(list: Node, head: Node, entry: Node, ghost s: seq<Node>, ghost j: nat)
    requires Ring([head] + s) && list !in [head] + s && j <= |s| && entry == ([head] + s)[j]
    requires s == [] ==> Ring([list])
    modifies list, [head] + s
    ensures Ring([head] + s)
    ensures forall a :: a in [head] + s ==> a.next == old(a.next) && a.prev == old(a.prev)
  {
    hide Ring, After, Before;
    ghost var ring, l := [head] + s, s[..j];
    AllLinks(ring);
    CutDisjoint(head, s, j);
    Alone(list);
    CutPosition(list, head, entry, s, j);
    if s == [] {
      assert [list] + l == [list] && [head] + s[j..] == [head];
      Alone(list);
    }
    Splice(list, head, l, s[j..]);
    assert s[..j] + s[j..] == s;
    AllLinks(ring);
  }
}
