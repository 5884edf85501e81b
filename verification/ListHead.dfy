/** The circular doubly linked list of list.h. A list is a head and the sequence of nodes on the
    way around back to it; a node also carries the string of the struct name_entry it is
    embedded in (unused in a head). */
module ListHead {
  import opened Basics

  class Node {
    var next: Node?
    var prev: Node?
    var name: string

    constructor (name: string)
      ensures this.name == name && next == this && prev == this
    {
      this.name := name;
      next, prev := this, this;
    }
  }

  /** Once around: the head, the nodes, the head again. */
  function Cycle(head: Node, items: seq<Node>): (c: seq<Node>)
    ensures |c| == |items| + 2 && c[0] == head && c[|items| + 1] == head
    ensures forall i :: 1 <= i <= |items| ==> c[i] == items[i - 1]
  {
    [head] + items + [head]
  }

  /** next and prev are inverse between two neighbours. */
  predicate LinkAt(c: seq<Node>, i: nat)
    requires i + 1 < |c|
    reads c
  {
    c[i].next == c[i + 1] && c[i + 1].prev == c[i]
  }

  predicate Distinct(head: Node, items: seq<Node>) {
    && (forall i :: 0 <= i < |items| ==> items[i] != head)
    && (forall i, j :: 0 <= i < j < |items| ==> items[i] != items[j])
  }

  /** The links are right all the way around, and no node is met twice. */
  ghost predicate Ring(head: Node, items: seq<Node>)
    reads head, items
  {
    && Distinct(head, items)
    && (forall i :: 0 <= i <= |items| ==> LinkAt(Cycle(head, items), i))
  }

  function Inserted<T>(s: seq<T>, k: nat, x: T): seq<T>
    requires k <= |s|
  {
    s[..k] + [x] + s[k..]
  }

  lemma CycleInserted(head: Node, items: seq<Node>, k: nat, n: Node)
    requires k <= |items|
    ensures Cycle(head, Inserted(items, k, n)) == Inserted(Cycle(head, items), k + 1, n)
  {
  }

  lemma CycleWithout(head: Node, items: seq<Node>, k: nat)
    requires k < |items|
    ensures Cycle(head, Without(items, k)) == Without(Cycle(head, items), k + 1)
  {
  }

  /** A link is the only one at either of its ends. */
  lemma OneLinkEach(head: Node, items: seq<Node>, i: nat, k: nat)
    requires Distinct(head, items) && i <= |items| && k <= |items| && i != k
    ensures var c := Cycle(head, items); c[i] != c[k] && c[i + 1] != c[k + 1]
  {
  }

  /** The ring with n linked in at position k. */
  lemma RingInserted(head: Node, items: seq<Node>, k: nat, n: Node)
    requires Distinct(head, items) && n != head && n !in items && k <= |items|
    requires var c := Cycle(head, items);
             && c[k].next == n && n.prev == c[k] && n.next == c[k + 1] && c[k + 1].prev == n
             && forall i :: 0 <= i <= |items| && i != k ==> LinkAt(c, i)
    ensures Ring(head, Inserted(items, k, n))
  {
    var items', c := Inserted(items, k, n), Cycle(head, items);
    CycleInserted(head, items, k, n);
    var c' := Cycle(head, items');
    assert forall i :: 0 <= i < |items'| ==> items'[i] == if i < k then items[i] else if i == k then n else items[i - 1];
    forall i | 0 <= i <= |items'|
      ensures LinkAt(c', i)
    {
      if i < k {
        assert LinkAt(c, i);
      } else if i > k + 1 {
        assert LinkAt(c, i - 1);
      }
    }
  }

  /** The ring with position k bridged. */
  lemma RingWithout(head: Node, items: seq<Node>, k: nat)
    requires Distinct(head, items) && k < |items|
    requires var c := Cycle(head, items);
             && c[k].next == c[k + 2] && c[k + 2].prev == c[k]
             && forall i :: 0 <= i <= |items| && i != k && i != k + 1 ==> LinkAt(c, i)
    ensures Ring(head, Without(items, k))
  {
    var items', c := Without(items, k), Cycle(head, items);
    CycleWithout(head, items, k);
    var c' := Cycle(head, items');
    assert forall i :: 0 <= i < |items'| ==> items'[i] == items[if i < k then i else i + 1];
    forall i | 0 <= i <= |items'|
      ensures LinkAt(c', i)
    {
      if i < k {
        assert LinkAt(c, i);
      } else if i > k {
        assert LinkAt(c, i + 1);
      }
    }
  }

  /** __list_add. */
  method AddBetween(n: Node, prev: Node, next: Node)
    requires n != prev && n != next
    modifies n, prev, next
    ensures next.prev == n && n.next == next && n.prev == prev && prev.next == n
    ensures prev != next ==> prev.prev == old(prev.prev) && next.next == old(next.next)
    ensures n.name == old(n.name) && prev.name == old(prev.name) && next.name == old(next.name)
  {
    next.prev := n;
    n.next := next;
    n.prev := prev;
    prev.next := n;
  }

  /** __list_del. */
  method JoinAround(prev: Node, next: Node)
    modifies prev, next
    ensures next.prev == prev && prev.next == next
    ensures prev != next ==> prev.prev == old(prev.prev) && next.next == old(next.next)
    ensures prev.name == old(prev.name) && next.name == old(next.name)
  {
    next.prev := prev;
    prev.next := next;
  }

  /** list_add_tail in front of any node of a list: at is the head or items[k]. */
  method AddTail(n: Node, at: Node, ghost head: Node, ghost items: seq<Node>, ghost k: nat)
    requires Ring(head, items) && n != head && n !in items
    requires k <= |items| && at == Cycle(head, items)[k + 1]
    modifies n, head, items
    ensures Ring(head, Inserted(items, k, n))
    ensures n.name == old(n.name) && head.name == old(head.name)
    ensures forall i :: 0 <= i < |items| ==> items[i].name == old(items[i].name)
  {
    ghost var c := Cycle(head, items);
    assert LinkAt(c, k);
    AddBetween(n, at.prev, at);
    forall i | 0 <= i <= |items| && i != k
      ensures LinkAt(c, i)
    {
      assert old(LinkAt(c, i));
      OneLinkEach(head, items, i, k);
    }
    RingInserted(head, items, k, n);
  }

  /** list_add: right behind the head. */
  method Add(n: Node, head: Node, ghost items: seq<Node>)
    requires Ring(head, items) && n != head && n !in items
    modifies n, head, items
    ensures Ring(head, [n] + items)
  {
    ghost var c := Cycle(head, items);
    assert LinkAt(c, 0);
    AddBetween(n, head, head.next);
    forall i | 0 <= i <= |items| && i != 0
      ensures LinkAt(c, i)
    {
      assert old(LinkAt(c, i));
      OneLinkEach(head, items, i, 0);
    }
    RingInserted(head, items, 0, n);
    assert Inserted(items, 0, n) == [n] + items;
  }

  /** Bridges an entry of a list. */
  method Unlink(entry: Node, ghost head: Node, ghost items: seq<Node>, ghost k: nat)
    requires Ring(head, items) && k < |items| && entry == items[k]
    modifies head, items
    ensures Ring(head, Without(items, k))
    ensures forall i :: 0 <= i < |items| ==> items[i].name == old(items[i].name)
  {
    ghost var c := Cycle(head, items);
    assert LinkAt(c, k) && LinkAt(c, k + 1);
    JoinAround(entry.prev, entry.next);
    forall i | 0 <= i <= |items| && i != k && i != k + 1
      ensures LinkAt(c, i)
    {
      assert old(LinkAt(c, i));
      OneLinkEach(head, items, i, k);
      OneLinkEach(head, items, i, k + 1);
    }
    RingWithout(head, items, k);
  }

  /** list_del; the entry's own pointers are poisoned. */
  method Delete(entry: Node, ghost head: Node, ghost items: seq<Node>, ghost k: nat)
    requires Ring(head, items) && k < |items| && entry == items[k]
    modifies head, items
    ensures Ring(head, Without(items, k)) && entry.next == null && entry.prev == null
  {
    Unlink(entry, head, items, k);
    ghost var rest := Without(items, k);
    ghost var c := Cycle(head, rest);
    assert forall i :: 0 <= i < |rest| ==> rest[i] == items[if i < k then i else i + 1];
    assert forall i :: 0 <= i < |c| ==> c[i] != entry;
    entry.next := null;
    entry.prev := null;
    forall i | 0 <= i <= |rest|
      ensures LinkAt(c, i)
    {
    }
  }

  /** Two lists without a common node. */
  predicate Apart(head: Node, items: seq<Node>, head': Node, items': seq<Node>) {
    && head != head' && head !in items' && head' !in items
    && (forall i, j :: 0 <= i < |items| && 0 <= j < |items'| ==> items[i] != items'[j])
  }

  /** list_move_tail: from one list to the end of another. */
  method MoveTail(entry: Node, to: Node, ghost from: Node, ghost items: seq<Node>, ghost k: nat, ghost others: seq<Node>)
    requires Ring(from, items) && Ring(to, others) && Apart(from, items, to, others)
    requires k < |items| && entry == items[k]
    modifies from, items, to, others
    ensures Ring(from, Without(items, k)) && Ring(to, others + [entry])
    ensures Apart(from, Without(items, k), to, others + [entry])
  {
    ghost var rest := Without(items, k);
    assert forall i :: 0 <= i < |rest| ==> rest[i] == items[if i < k then i else i + 1];
    Unlink(entry, from, items, k);
    AddTail(entry, to, to, others, |others|);
    assert Inserted(others, |others|, entry) == others + [entry];
  }

  method IsEmpty(head: Node, ghost items: seq<Node>) returns (b: bool)
    requires Ring(head, items)
    ensures b <==> items == []
  {
    assert LinkAt(Cycle(head, items), 0);
    return head.next == head;
  }

  /** The ring that two rings make when the first is linked in behind the head of the second. */
  lemma RingJoined(list: Node, a: seq<Node>, head: Node, b: seq<Node>)
    requires Distinct(list, a) && Distinct(head, b) && Apart(list, a, head, b) && a != []
    requires var ca, cb := Cycle(list, a), Cycle(head, b);
             && head.next == ca[1] && ca[1].prev == head && ca[|a|].next == cb[1] && cb[1].prev == ca[|a|]
             && (forall i :: 1 <= i < |a| ==> LinkAt(ca, i))
             && (forall i :: 1 <= i <= |b| ==> LinkAt(cb, i))
    ensures Ring(head, a + b)
  {
    var ca, cb := Cycle(list, a), Cycle(head, b);
    var c := Cycle(head, a + b);
    assert c == [head] + a + cb[1..];
    forall i | 0 <= i <= |a + b|
      ensures LinkAt(c, i)
    {
      if 0 < i < |a| {
        assert LinkAt(ca, i);
      } else if i > |a| {
        assert LinkAt(cb, i - |a|);
      }
    }
  }

  /** list_splice_init: the nodes of one list go to the front of another. */
  method SpliceInit(list: Node, head: Node, ghost a: seq<Node>, ghost b: seq<Node>)
    requires Ring(list, a) && Ring(head, b) && Apart(list, a, head, b)
    modifies list, a, head, b
    ensures Ring(list, []) && Ring(head, a + b)
  {
    var empty := IsEmpty(list, a);
    if empty {
      assert a + b == b;
      return;
    }
    Splice(list, head, a, b);
    list.next, list.prev := list, list;
    assert LinkAt(Cycle(list, []), 0);
    forall i | 0 <= i <= |a + b|
      ensures LinkAt(Cycle(head, a + b), i)
    {
      assert Cycle(head, a + b)[i] != list && Cycle(head, a + b)[i + 1] != list;
    }
  }

  /** __list_splice. */
  method Splice(list: Node, head: Node, ghost a: seq<Node>, ghost b: seq<Node>)
    requires Ring(list, a) && Ring(head, b) && Apart(list, a, head, b) && a != []
    modifies list, a, head, b
    ensures Ring(head, a + b)
  {
    ghost var ca, cb := Cycle(list, a), Cycle(head, b);
    assert LinkAt(ca, 0) && LinkAt(ca, |a|) && LinkAt(cb, 0);
    var first, last, at := list.next, list.prev, head.next;
    first.prev := head;
    head.next := first;
    last.next := at;
    at.prev := last;
    forall i | 1 <= i < |a|
      ensures LinkAt(ca, i)
    {
      assert old(LinkAt(ca, i));
    }
    forall i | 1 <= i <= |b|
      ensures LinkAt(cb, i)
    {
      assert old(LinkAt(cb, i));
      OneLinkEach(head, b, i, 0);
    }
    RingJoined(list, a, head, b);
  }
}
