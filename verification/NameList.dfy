/** name_list_add on the circular list (udev_utils.c): names without doubles, and in strcmp order
    when every name was added with sorting. */
module NameList {
  import opened Basics
  import opened ListHead
  import DbRecord

  /** strcmp(a, b) < 0. */
  predicate Before(a: string, b: string) {
    b != "" && (a == "" || a[0] < b[0] || (a[0] == b[0] && Before(a[1..], b[1..])))
  }

  lemma {:induction false} OrderIsTotal(a: string, b: string)
    ensures a != b <==> Before(a, b) || Before(b, a)
    ensures !(Before(a, b) && Before(b, a))
  {
    if a != "" && b != "" && a[0] == b[0] {
      OrderIsTotal(a[1..], b[1..]);
      assert a == [a[0]] + a[1..] && b == [b[0]] + b[1..];
    }
  }

  lemma {:induction false} OrderIsTransitive(a: string, b: string, c: string)
    requires Before(a, b) && Before(b, c)
    ensures Before(a, c)
  {
    if a != "" && a[0] == b[0] == c[0] {
      OrderIsTransitive(a[1..], b[1..], c[1..]);
    }
  }

  /** a comes first if it is shorter and b goes on from it, or has the smaller character where they
      first differ. */
  predicate FirstDiffer(a: string, b: string, i: nat) {
    i <= |a| && i < |b| && a[..i] == b[..i] && (i == |a| || a[i] < b[i])
  }

  lemma {:induction false} OrderMeaning(a: string, b: string)
    ensures Before(a, b) <==> exists i: nat :: FirstDiffer(a, b, i)
  {
    if b != "" && (a == "" || a[0] < b[0]) {
      assert FirstDiffer(a, b, 0);
    } else if a != "" && b != "" && a[0] == b[0] {
      OrderMeaning(a[1..], b[1..]);
      if i: nat :| FirstDiffer(a[1..], b[1..], i) {
        assert a[..i + 1] == [a[0]] + a[1..][..i] && b[..i + 1] == [b[0]] + b[1..][..i];
        assert FirstDiffer(a, b, i + 1);
      }
      if i: nat :| FirstDiffer(a, b, i) {
        assert i > 0;
        assert a[1..][..i - 1] == a[..i][1..] && b[1..][..i - 1] == b[..i][1..];
        assert FirstDiffer(a[1..], b[1..], i - 1);
      }
    } else {
      forall i: nat
        ensures !FirstDiffer(a, b, i)
      {
        if 0 < i <= |a| && i < |b| {
          assert a[..i][0] == a[0] && b[..i][0] == b[0];
        }
      }
    }
  }

  /** The first position whose name comes after the new one, or the end. */
  function Position(names: seq<string>, name: string): (k: nat)
    ensures k <= |names|
    ensures forall i :: 0 <= i < k ==> !Before(name, names[i])
    ensures k < |names| ==> Before(name, names[k])
  {
    if names == [] || Before(name, names[0]) then 0 else 1 + Position(names[1..], name)
  }

  /** The list of names after name_list_add. */
  function AddName(names: seq<string>, name: string, sort: bool): seq<string> {
    if sort && name !in names then Inserted(names, Position(names, name), name)
    else DbRecord.AddName(names, name)
  }

  function AddAll(names: seq<string>, added: seq<string>): seq<string>
    decreases |added|
  {
    if added == [] then names else AddAll(AddName(names, added[0], true), added[1..])
  }

  predicate Ascending(names: seq<string>) {
    forall i, j :: 0 <= i < j < |names| ==> Before(names[i], names[j])
  }

  lemma AddKeepsAscending(names: seq<string>, name: string)
    requires Ascending(names)
    ensures Ascending(AddName(names, name, true))
  {
    if name !in names {
      var k := Position(names, name);
      var r := Inserted(names, k, name);
      forall i, j | 0 <= i < j < |r|
        ensures Before(r[i], r[j])
      {
        var x, y := if i < k then i else i - 1, if j < k then j else j - 1;
        if i == k {
          if y > k {
            OrderIsTransitive(name, names[k], names[y]);
          }
        } else if j == k {
          OrderIsTotal(names[x], name);
        } else {
          assert r[i] == names[x] && r[j] == names[y];
        }
      }
    }
  }

  lemma AddedNames(names: seq<string>, name: string, sort: bool, n: string)
    ensures n in AddName(names, name, sort) <==> n in names || n == name
  {
    var k := Position(names, name);
    assert names == names[..k] + names[k..];
  }

  /** Without sorting a name that is new goes to the end. */
  lemma UnsortedAtEnd(names: seq<string>, name: string)
    ensures names <= AddName(names, name, false)
    ensures name !in names ==> AddName(names, name, false)[|names|..] == [name]
  {
  }

  /** A list built by sorted additions alone is strictly ascending and holds exactly the names
      that were added. */
  lemma {:induction false} SortedListIsASet(added: seq<string>, names: seq<string>)
    requires Ascending(names)
    ensures Ascending(AddAll(names, added))
    ensures forall n :: n in AddAll(names, added) <==> n in names || n in added
    decreases |added|
  {
    if added != [] {
      AddKeepsAscending(names, added[0]);
      SortedListIsASet(added[1..], AddName(names, added[0], true));
      forall n
        ensures n in AddAll(names, added) <==> n in names || n in added
      {
        AddedNames(names, added[0], true, n);
        assert n in added <==> n == added[0] || n in added[1..];
      }
    }
  }

  /** So the order of the additions does not show. */
  lemma OrderOfAdditions(added: seq<string>, added': seq<string>)
    requires forall n :: n in added <==> n in added'
    ensures AddAll([], added) == AddAll([], added')
  {
    SortedListIsASet(added, []);
    SortedListIsASet(added', []);
    SameAscending(AddAll([], added), AddAll([], added'));
  }

  lemma HasMember(a: seq<string>)
    ensures a != [] ==> exists n :: n in a
  {
    if a != [] {
      assert a[0] in a;
    }
  }

  lemma {:induction false} SameAscending(a: seq<string>, b: seq<string>)
    requires Ascending(a) && Ascending(b) && forall n :: n in a <==> n in b
    ensures a == b
  {
    if a == [] {
      HasMember(b);
    } else {
      assert a[0] in b;
      assert b[0] in a;
      var i :| 0 <= i < |b| && b[i] == a[0];
      var j :| 0 <= j < |a| && a[j] == b[0];
      OrderIsTotal(a[0], b[0]);
      assert a[0] == b[0];
      forall n
        ensures n in a[1..] <==> n in b[1..]
      {
        RestMembers(a, n);
        RestMembers(b, n);
      }
      AscendingRest(a);
      AscendingRest(b);
      SameAscending(a[1..], b[1..]);
      assert a == [a[0]] + a[1..] && b == [b[0]] + b[1..];
    }
  }

  lemma AscendingRest(a: seq<string>)
    requires Ascending(a) && a != []
    ensures Ascending(a[1..])
  {
    assert forall i :: 0 <= i < |a[1..]| ==> a[1..][i] == a[i + 1];
  }

  lemma RestMembers(a: seq<string>, n: string)
    requires Ascending(a) && a != []
    ensures n in a[1..] <==> n in a && n != a[0]
  {
    if n in a[1..] {
      var i :| 0 <= i < |a[1..]| && a[1..][i] == n;
      assert a[i + 1] == n;
      OrderIsTotal(a[0], n);
    }
    if n in a && n != a[0] {
      var i :| 0 <= i < |a| && a[i] == n;
      assert a[1..][i - 1] == n;
    }
  }

  /** The names of the nodes. */
  ghost function NamesOf(items: seq<Node>): (r: seq<string>)
    reads items
    ensures |r| == |items| && forall i :: 0 <= i < |r| ==> r[i] == items[i].name
  {
    seq(|items|, i requires 0 <= i < |items| reads items => items[i].name)
  }

  lemma PositionIs(names: seq<string>, name: string, k: nat)
    requires k <= |names| && forall i :: 0 <= i < k ==> !Before(name, names[i])
    requires k < |names| ==> Before(name, names[k])
    ensures Position(names, name) == k
  {
    var p := Position(names, name);
    assert !(p < k);
    assert !(k < p);
  }

  /** The first walk: is the name already there? */
  method FindDouble(head: Node, name: string, ghost items: seq<Node>) returns (node: Node, found: bool)
    requires Ring(head, items)
    ensures found <==> name in NamesOf(items)
    ensures found ==> node in items && node.name == name
    ensures !found ==> node == head
  {
    ghost var c := Cycle(head, items);
    assert LinkAt(c, 0);
    node := head.next;
    ghost var k := 0;
    while node != head
      invariant k <= |items| && node == c[k + 1]
      invariant forall i :: 0 <= i < k ==> items[i].name != name
      decreases |items| - k
    {
      assert node == items[k];
      if node.name == name {
        assert NamesOf(items)[k] == name;
        return node, true;
      }
      assert LinkAt(c, k + 1);
      node := node.next;
      k := k + 1;
    }
    assert k == |items|;
    return node, false;
  }

  /** The second walk: the first entry that comes after the name. */
  method FindPlace(head: Node, name: string, ghost items: seq<Node>) returns (at: Node, ghost k: nat)
    requires Ring(head, items)
    ensures k == Position(NamesOf(items), name) && at == Cycle(head, items)[k + 1]
  {
    ghost var c := Cycle(head, items);
    assert LinkAt(c, 0);
    at, k := head.next, 0;
    while at != head
      invariant k <= |items| && at == c[k + 1]
      invariant forall i :: 0 <= i < k ==> !Before(name, items[i].name)
      decreases |items| - k
    {
      assert at == items[k];
      if Before(name, at.name) {
        break;
      }
      assert LinkAt(c, k + 1);
      at := at.next;
      k := k + 1;
    }
    PositionIs(NamesOf(items), name, k);
  }

  /** name_list_add: the new node goes in front of the place where the walk stopped. */
  method NameListAdd(head: Node, name: string, sort: bool, ghost items: seq<Node>)
    returns (node: Node, ghost items': seq<Node>)
    requires Ring(head, items)
    modifies head, items
    ensures Ring(head, items')
    ensures NamesOf(items') == AddName(old(NamesOf(items)), name, sort)
    ensures node in items' && node.name == name
    ensures forall n :: n in items' ==> n in items || fresh(n)
  {
    hide Position, Before, Ring, Inserted;
    ghost var names := NamesOf(items);
    var loop, found := FindDouble(head, name, items);
    if found {
      return loop, items;
    }
    ghost var k := |items|;
    if sort {
      loop, k := FindPlace(head, name, items);
    }
    node := new Node(name);
    assert forall i :: 0 <= i < |items| ==> items[i] != node;
    InsertAt(node, loop, head, items, k);
    items' := Inserted(items, k, node);
    InInserted(items, k, node);
    InsertedLast(names, name);
  }

  lemma InsertedLast(names: seq<string>, name: string)
    ensures Inserted(names, |names|, name) == names + [name]
  {
  }

  lemma InInserted(items: seq<Node>, k: nat, node: Node)
    requires k <= |items|
    ensures node in Inserted(items, k, node)
    ensures forall n :: n in Inserted(items, k, node) ==> n in items || n == node
  {
    assert Inserted(items, k, node)[k] == node;
  }

  method InsertAt(node: Node, at: Node, head: Node, ghost items: seq<Node>, ghost k: nat)
    requires Ring(head, items) && node != head && node !in items
    requires k <= |items| && at == Cycle(head, items)[k + 1]
    modifies node, head, items
    ensures Ring(head, Inserted(items, k, node)) && node.name == old(node.name)
    ensures NamesOf(Inserted(items, k, node)) == Inserted(old(NamesOf(items)), k, old(node.name))
  {
    ghost var names := NamesOf(items);
    assert forall i :: 0 <= i < |items| ==> items[i].name == names[i];
    AddTail(node, at, head, items, k);
    hide Ring;
    NamesInserted(items, names, k, node);
  }

  lemma NamesInserted(items: seq<Node>, names: seq<string>, k: nat, node: Node)
    requires k <= |items| == |names| && forall i :: 0 <= i < |items| ==> items[i].name == names[i]
    ensures NamesOf(Inserted(items, k, node)) == Inserted(names, k, node.name)
  {
    var items' := Inserted(items, k, node);
    assert forall i :: 0 <= i < |items'| ==> items'[i] == if i < k then items[i] else if i == k then node else items[i - 1];
    assert NamesOf(items') == Inserted(names, k, node.name);
  }
}
