/** The children of a JSON array or object: a sibling list linked both ways, in which
the head's prev is the last element.  `items` is the sequence the list stands for. */
module JsonList {
  import opened Words

  class Item {
    var next: Item?
    var prev: Item?
    var child: Item?

    constructor ()
      ensures next == null && prev == null && child == null
    {
      next, prev, child := null, null, null;
    }
  }

  function Next(items: seq<Item>, i: nat): Item? {
    if i + 1 < |items| then items[i + 1] else null
  }

  function Prev(items: seq<Item>, i: nat): Item
    requires i < |items|
  {
    if i == 0 then items[|items| - 1] else items[i - 1]
  }

  ghost predicate LinkedAt(items: seq<Item>, i: nat)
    requires i < |items|
    reads items[i]
  {
    items[i].next == Next(items, i) && items[i].prev == Prev(items, i)
  }

  /** The children of `parent` are `items`, in order. */
  ghost predicate Children(parent: Item, items: seq<Item>)
    reads parent, items
  {
    && parent !in items && Distinct(items)
    && parent.child == (if items == [] then null else items[0])
    && (forall i :: 0 <= i < |items| ==> LinkedAt(items, i))
  }

  /** Whoever follows the next pointers from the first child stays in a zone without an end. */
  lemma Trapped(parent: Item, zone: set<Item>, xs: seq<Item>)
    requires parent.child in zone && forall x <- zone :: x.next in zone
    ensures !Children(parent, xs)
  {
    if xs != [] && xs[0] == parent.child && forall i :: 0 <= i < |xs| - 1 ==> LinkedAt(xs, i) {
      var j := 0;
      while j + 1 < |xs|
        invariant 0 <= j < |xs| && xs[j] in zone
      {
        assert LinkedAt(xs, j);
        j := j + 1;
      }
      assert !LinkedAt(xs, j);
    }
  }

  /** Appends, finding the last element through the head.  The new item's own next
      pointer is not cleared behind a non-empty list, so the result is a list with the item
      last if and only if the item was no child yet and that pointer was clear, as it is for
      a new or detached item.  With an item that was a child, no list at all is left. */
  method AddItem(parent: Item?, item: Item?, ghost items: seq<Item>) returns (ok: bool)
    requires parent != null ==> Children(parent, items)
    modifies parent, item, items
    ensures ok <==> item != null && parent != null && parent != item
    ensures ok ==> (Children(parent, items + [item]) <==> item !in items && (items == [] || old(item.next) == null))
    ensures ok && item in items ==> forall xs: seq<Item> :: !Children(parent, xs)
    ensures !ok ==> (parent != null ==> unchanged(parent)) && (item != null ==> unchanged(item)) && unchanged(items)
  {
    if item == null || parent == null || parent == item {
      return false;
    }
    var child := parent.child;
    ghost var all := items + [item];
    if child == null {
      parent.child := item;
      item.prev := item;
      item.next := null;
      assert LinkedAt([item], 0);
      assert all == [item];
    } else {
      assert LinkedAt(items, 0);
      var last := child.prev;
      last.next := item;
      item.prev := last;
      parent.child.prev := item;
      if item in items {
        ghost var k :| 0 <= k < |items| && items[k] == item;
        assert all[k] == all[|items|];
        ghost var zone := set x | x in items;
        forall x | x in zone ensures x.next in zone {
          ghost var i :| 0 <= i < |items| && items[i] == x;
          assert old(LinkedAt(items, i));
        }
        forall xs: seq<Item> ensures !Children(parent, xs) {
          Trapped(parent, zone, xs);
        }
      } else {
        forall i | 0 <= i < |items| ensures LinkedAt(all, i) {
          assert old(LinkedAt(items, i));
        }
        assert LinkedAt(all, |items|) <==> item.next == null;
      }
    }
    return true;
  }

  /** An item belongs to nobody, or is the k-th child of its owner. */
  ghost predicate Placed(item: Item, owner: Item?, list: seq<Item>, k: nat)
    reads item, owner, list
  {
    if owner == null then item.next == null && item.prev == null
    else Children(owner, list) && k < |list| && list[k] == item
  }

  /** The list of the parent and that of the owner are one or have nothing in common. */
  ghost predicate OneOrApart(parent: Item, items: seq<Item>, owner: Item?, list: seq<Item>) {
    if owner == parent then items == list
    else forall i, j :: 0 <= i < |items| && 0 <= j < |list| ==> items[i] != list[j]
  }

  /** The neighbours in a list without its k-th element. */
  lemma Rest(list: seq<Item>, k: nat, i: nat)
    requires k < |list| && i < |list| - 1
    ensures var rest, was := list[..k] + list[k + 1..], if i < k then i else i + 1;
            && rest[i] == list[was]
            && Next(rest, i) == Next(list, if i + 1 == k then k else was)
            && Prev(rest, i) == Prev(list, if i == k || (i == 0 && k == |list| - 1) then k else was)
  {
  }

  /** The links of the i-th element when the k-th is taken out. */
  ghost predicate ClosedUp(list: seq<Item>, k: nat, i: nat)
    requires k < |list| && i < |list|
    reads list[i]
  {
    && list[i].next == Next(list, if i + 1 == k then k else i)
    && list[i].prev == Prev(list, if i == k + 1 || (i == 0 && k == |list| - 1) then k else i)
  }

  lemma ClosedList(list: seq<Item>, k: nat, rest: seq<Item>)
    requires k < |list| && rest == list[..k] + list[k + 1..]
    requires forall i :: 0 <= i < |list| && i != k ==> ClosedUp(list, k, i)
    ensures forall i :: 0 <= i < |rest| ==> LinkedAt(rest, i)
  {
    forall i | 0 <= i < |rest| ensures LinkedAt(rest, i) {
      Rest(list, k, i);
      assert ClosedUp(list, k, if i < k then i else i + 1);
    }
  }

  /** Takes a child of its owner out, with the parent it is said to have. */
  method Unlink(parent: Item, item: Item, ghost items: seq<Item>, ghost owner: Item, ghost list: seq<Item>,
                ghost k: nat)
    requires Children(parent, items) && Placed(item, owner, list, k) && OneOrApart(parent, items, owner, list)
    requires owner != parent && item.next == null ==> items != []
    modifies parent, item, items, list
    ensures item.prev == null && item.next == null
    ensures owner == parent ==> parent.child == if k == 0 then Next(list, 0) else list[0]
    ensures owner != parent ==> owner.child == list[0]
    ensures owner != parent && k == |list| - 1 ==> items != [] && items[0].prev == Prev(list, k)
    ensures owner == parent || 0 < k < |list| - 1 ==>
              forall i :: 0 <= i < |list| && i != k ==> ClosedUp(list, k, i)
    ensures owner != parent && 0 < k < |list| - 1 ==> Children(parent, items)
  {
    assert LinkedAt(list, k) && LinkedAt(list, 0);
    assert items != [] ==> LinkedAt(items, 0);
    assert k > 0 ==> LinkedAt(list, k - 1);
    assert k + 1 < |list| ==> LinkedAt(list, k + 1);
    if item != parent.child {
      item.prev.next := item.next;
    }
    if item.next != null {
      item.next.prev := item.prev;
    }
    if item == parent.child {
      parent.child := item.next;
    } else if item.next == null {
      parent.child.prev := item.prev;
    }
    item.prev := null;
    item.next := null;
    if owner == parent || 0 < k < |list| - 1 {
      forall i | 0 <= i < |list| && i != k ensures ClosedUp(list, k, i) {
        assert old(LinkedAt(list, i));
      }
    }
    if owner != parent && 0 < k < |list| - 1 {
      forall i | 0 <= i < |items| ensures LinkedAt(items, i) {
        assert old(LinkedAt(items, i));
      }
    }
  }

  /** Takes an element out of the list and clears its links.  Through a parent that is not
      its owner that comes out right if and only if the element is neither first nor last. */
  method Detach(parent: Item?, item: Item?, ghost items: seq<Item>, ghost owner: Item?, ghost list: seq<Item>,
                ghost k: nat) returns (r: Item?)
    requires parent != null ==> Children(parent, items)
    requires item != null ==> Placed(item, owner, list, k)
    requires parent != null && item != null ==> OneOrApart(parent, items, owner, list)
    // the first child of the parent is used without being looked for
    requires parent != null && item != null && owner != null && owner != parent && item.next == null ==> items != []
    modifies parent, item, items, list
    ensures r == if parent != null && item != null && owner != null then item else null
    ensures r != null ==> item.prev == null && item.next == null
    ensures r != null && owner == parent ==> Children(parent, items[..k] + items[k + 1..])
    ensures r != null && owner != parent ==>
              (Children(parent, items) && Children(owner, list[..k] + list[k + 1..]) <==> 0 < k < |list| - 1)
    ensures r == null ==> (parent != null ==> unchanged(parent)) && (item != null ==> unchanged(item))
    ensures r == null ==> unchanged(items) && unchanged(list)
  {
    assert item != null && owner != null ==> LinkedAt(list, k);
    assert parent != null && items != [] ==> LinkedAt(items, 0);
    if parent == null || item == null || (item != parent.child && item.prev == null) {
      return null;
    }
    Unlink(parent, item, items, owner, list, k);
    ghost var rest := list[..k] + list[k + 1..];
    if owner == parent || 0 < k < |list| - 1 {
      ClosedList(list, k, rest);
    } else if k == 0 {
      assert rest != [] ==> rest[0] == list[1];
    } else {
      LastAway(items, Prev(list, k));
    }
    return item;
  }

  /** The element at an index, or null past the end. */
  method GetItem(parent: Item?, index: nat, ghost items: seq<Item>) returns (r: Item?)
    requires parent != null ==> Children(parent, items)
    ensures r == if parent == null || index >= |items| then null else items[index]
  {
    if parent == null {
      return null;
    }
    var left: nat := index;
    r := parent.child;
    ghost var i := 0;
    while r != null && left > 0
      invariant i + left == index && i <= |items| && r == if i < |items| then items[i] else null
    {
      assert LinkedAt(items, i);
      left := left - 1;
      r := r.next;
      i := i + 1;
    }
  }

  /** The next pointers leave no choice. */
  lemma {:induction false} FollowsPath(parent: Item, xs: seq<Item>, path: seq<Item>, i: nat)
    requires Children(parent, xs) && i < |path| && parent.child == path[0]
    requires forall j :: 0 <= j < |path| ==> path[j].next == Next(path, j)
    ensures i < |xs| && xs[i] == path[i]
  {
    if i > 0 {
      FollowsPath(parent, xs, path, i - 1);
      assert LinkedAt(xs, i - 1);
    }
  }

  lemma SamePath(parent: Item, xs: seq<Item>, path: seq<Item>)
    requires Children(parent, xs) && path != [] && parent.child == path[0]
    requires forall j :: 0 <= j < |path| ==> path[j].next == Next(path, j)
    ensures xs == path
  {
    forall i | 0 <= i < |path| ensures i < |xs| && xs[i] == path[i] {
      FollowsPath(parent, xs, path, i);
    }
    FollowsPath(parent, xs, path, |path| - 1);
    assert LinkedAt(xs, |path| - 1);
  }

  /** A path from the first child to an end is the only candidate for the children. */
  lemma OnlyPath(parent: Item, path: seq<Item>)
    requires path != [] && parent.child == path[0] && !Children(parent, path)
    requires forall j :: 0 <= j < |path| ==> path[j].next == Next(path, j)
    ensures forall xs: seq<Item> :: !Children(parent, xs)
  {
    forall xs: seq<Item> | Children(parent, xs) ensures xs == path {
      SamePath(parent, xs, path);
    }
  }

  /** What linking an item in front of the k-th child leaves, whether it was a child or not. */
  ghost predicate Spliced(parent: Item, item: Item, items: seq<Item>, k: nat)
    reads parent, item, items
  {
    && k < |items| && Distinct(items) && parent !in items
    && parent.child == (if k == 0 then item else items[0])
    && item.next == (if k > 0 && item == items[k - 1] then item else items[k])
    && item.prev == (if item == items[k] then item else Prev(items, k))
    && (forall i :: 0 <= i < |items| && items[i] != item ==>
          && items[i].next == (if i + 1 == k then item else Next(items, i))
          && items[i].prev == (if i == k then item else Prev(items, i)))
  }

  /** The neighbours in a list with one element more. */
  lemma Wider(items: seq<Item>, k: nat, v: Item, i: nat)
    requires k < |items| && i <= |items|
    ensures var all, was := items[..k] + [v] + items[k..], if i <= k then i else i - 1;
            && all[i] == (if i == k then v else items[was])
            && Next(all, i) == (if i == k then items[k] else if i + 1 == k then v else Next(items, was))
            && Prev(all, i) == (if i == k + 1 then v else Prev(items, was))
  {
  }

  lemma WiderDistinct(items: seq<Item>, k: nat, v: Item)
    requires k < |items| && Distinct(items) && v !in items
    ensures Distinct(items[..k] + [v] + items[k..])
  {
  }

  /** The links of one child. */
  lemma SplicedAt(parent: Item, item: Item, items: seq<Item>, k: nat, i: nat)
    requires Spliced(parent, item, items, k) && i < |items| && items[i] != item
    ensures items[i].next == (if i + 1 == k then item else Next(items, i))
    ensures items[i].prev == (if i == k then item else Prev(items, i))
  {
  }

  lemma NewSpliced(parent: Item, item: Item, items: seq<Item>, k: nat)
    requires Spliced(parent, item, items, k) && item !in items && item != parent
    ensures Children(parent, items[..k] + [item] + items[k..])
  {
    var all := items[..k] + [item] + items[k..];
    WiderDistinct(items, k, item);
    forall i | 0 <= i < |all| ensures LinkedAt(all, i) {
      hide Distinct, Next, Prev;
      Wider(items, k, item, i);
      if i != k {
        SplicedAt(parent, item, items, k, if i < k then i else i - 1);
      }
    }
  }

  /** A child linked in again leaves a path whose links back do not match, if it comes from
      further up, and a circle otherwise. */
  lemma ChildSpliced(parent: Item, item: Item, items: seq<Item>, k: nat, m: nat)
    requires Spliced(parent, item, items, k) && m < |items| && items[m] == item
    ensures forall xs: seq<Item> :: !Children(parent, xs)
  {
    hide Spliced, Children;
    if m + 1 < k {
      ShortCut(parent, item, items, k, m);
    } else {
      var head := items[..m + 1];
      var zone: set<Item> := set x | x in head;
      Circle(parent, item, items, k, m, head);
      forall xs: seq<Item> ensures !Children(parent, xs) {
        Trapped(parent, zone, xs);
      }
    }
  }

  lemma ShortCut(parent: Item, item: Item, items: seq<Item>, k: nat, m: nat)
    requires Spliced(parent, item, items, k) && m + 1 < k && items[m] == item
    ensures forall xs: seq<Item> :: !Children(parent, xs)
  {
    var path := items[..m + 1] + items[k..];
    forall j | 0 <= j < |path| ensures path[j].next == Next(path, j) {
      assert path[j] == items[if j <= m then j else j - m - 1 + k];
    }
    assert !LinkedAt(path, m);
    OnlyPath(parent, path);
  }

  lemma Circle(parent: Item, item: Item, items: seq<Item>, k: nat, m: nat, head: seq<Item>)
    requires Spliced(parent, item, items, k) && k <= m + 1 <= |items| && items[m] == item && head == items[..m + 1]
    ensures parent.child in head && forall x <- head :: x.next in head
  {
    assert parent.child in head by {
      assert items[0] in head && item in head;
    }
    forall x | x in head ensures x.next in head {
      hide Spliced;
      var i :| 0 <= i < |head| && head[i] == x;
      NextOnCircle(parent, item, items, k, m, i);
    }
  }

  lemma NextOnCircle(parent: Item, item: Item, items: seq<Item>, k: nat, m: nat, i: nat)
    requires Spliced(parent, item, items, k) && k <= m + 1 <= |items| && items[m] == item && i <= m
    ensures items[i].next in items[..m + 1]
  {
    var to := if i == m then if k == m + 1 then m else k else if i + 1 == k then m else i + 1;
    assert i != m ==> items[i] != item;
    assert items[i].next == items[to];
    assert items[..m + 1][to] == items[to];
  }

  /** Links an item in front of an element. */
  method InsertBefore(parent: Item, item: Item, after: Item, ghost items: seq<Item>, ghost k: nat)
    requires Children(parent, items) && k < |items| && items[k] == after
    modifies parent, item, items
    ensures Spliced(parent, item, items, k)
  {
    assert LinkedAt(items, k) && LinkedAt(items, 0);
    assert k > 0 ==> LinkedAt(items, k - 1);
    item.next := after;
    item.prev := after.prev;
    after.prev := item;
    if after == parent.child {
      parent.child := item;
    } else {
      item.prev.next := item;
    }
    forall i | 0 <= i < |items| && items[i] != item
      ensures items[i].next == (if i + 1 == k then item else Next(items, i))
      ensures items[i].prev == (if i == k then item else Prev(items, i))
    {
      assert old(LinkedAt(items, i));
    }
  }

  /** Inserts before an index, or appends past the end.  The result is a list with the item
      in that place if and only if the item is neither the parent itself nor a child already
      and, when appended behind others, its own next pointer was clear. */
  method InsertItem(parent: Item?, which: int, item: Item?, ghost items: seq<Item>) returns (ok: bool)
    requires parent != null ==> Children(parent, items)
    modifies parent, item, items
    ensures ok <==> which >= 0 && item != null && parent != null && (item != parent || which < |items|)
    ensures ok ==> var k := if which < |items| then which else |items|;
                   Children(parent, items[..k] + [item] + items[k..]) <==>
                     && item != parent && item !in items
                     && (which < |items| || items == [] || old(item.next) == null)
    ensures ok && item in items ==> forall xs: seq<Item> :: !Children(parent, xs)
    ensures !ok ==> (parent != null ==> unchanged(parent)) && (item != null ==> unchanged(item)) && unchanged(items)
  {
    hide Spliced, LinkedAt;
    if which < 0 || item == null {
      return false;
    }
    var after := GetItem(parent, which, items);
    if after == null {
      ok := AddItem(parent, item, items);
      assert items[..|items|] + [item] + items[|items|..] == items + [item];
      return;
    }
    InsertBefore(parent, item, after, items, which);
    ghost var all := items[..which] + [item] + items[which..];
    assert all[which] == item;
    if item in items {
      ghost var m :| 0 <= m < |items| && items[m] == item;
      ChildSpliced(parent, item, items, which, m);
    } else if item != parent {
      NewSpliced(parent, item, items, which);
    }
    return true;
  }

  /** Another item in the place of the first child. */
  method ReplaceFirst(parent: Item, item: Item, replacement: Item, ghost items: seq<Item>)
    requires Children(parent, items) && items != [] && items[0] == item && replacement != item
    modifies parent, item, replacement, items
    ensures Children(parent, items[0 := replacement]) <==> replacement !in items && replacement != parent
    ensures item.next == null && item.prev == null
  {
    assert LinkedAt(items, 0);
    assert |items| > 1 ==> LinkedAt(items, 1);
    replacement.next := item.next;
    replacement.prev := item.prev;
    if replacement.next != null {
      replacement.next.prev := replacement;
    }
    if parent.child.prev == parent.child {
      replacement.prev := replacement;
    }
    parent.child := replacement;
    item.next := null;
    item.prev := null;
    ghost var all := items[0 := replacement];
    assert all[0] == replacement;
    if replacement in items {
      Repeated(items, 0, replacement);
    } else if replacement != parent {
      forall i | 0 <= i < |all| ensures LinkedAt(all, i) {
        assert old(LinkedAt(items, i));
      }
    }
  }

  /** The links of the i-th element when another item stands in the place of the k-th. */
  ghost predicate Neighbours(list: seq<Item>, k: nat, v: Item, i: nat)
    requires i < |list|
    reads list[i]
  {
    && list[i].next == (if i + 1 == k then v else Next(list, i))
    && list[i].prev == (if i == k + 1 || (i == 0 && k == |list| - 1) then v else Prev(list, i))
  }

  lemma Swapped(list: seq<Item>, k: nat, v: Item, all: seq<Item>)
    requires 0 < k < |list| && forall i :: 0 <= i < |list| && i != k ==> Neighbours(list, k, v, i)
    requires v.next == Next(list, k) && v.prev == list[k - 1] && all == list[k := v]
    ensures forall i :: 0 <= i < |all| ==> LinkedAt(all, i)
  {
    forall i | 0 <= i < |all| ensures LinkedAt(all, i) {
      assert i != k ==> Neighbours(list, k, v, i);
    }
  }

  /** Gives the links of an item that is not the first child of the parent to another one. */
  method Relink(parent: Item, item: Item, replacement: Item, ghost items: seq<Item>, ghost owner: Item?,
                ghost list: seq<Item>, ghost k: nat)
    requires Children(parent, items) && items != [] && items[0] != item && replacement != item
    requires Placed(item, owner, list, k) && OneOrApart(parent, items, owner, list)
    modifies parent, item, replacement, items, list
    ensures item.next == null && item.prev == null && parent.child == items[0]
    ensures owner == null ==>
              items[0].prev == replacement && replacement.next == null && (replacement != items[0] ==>
                                                                             replacement.prev == null)
    ensures owner != null ==> owner.child == list[0]
    ensures owner != null && owner != parent && replacement !in list && 0 < k == |list| - 1 ==> list[0].prev == item
    ensures owner != null && replacement !in list && 0 < k && (owner == parent || k < |list| - 1) ==>
              && replacement.next == Next(list, k) && replacement.prev == list[k - 1]
              && (forall i :: 0 <= i < |list| && i != k ==> Neighbours(list, k, replacement, i))
    ensures owner != null && owner != parent && replacement !in list && k < |list| - 1 ==>
              forall i :: 0 <= i < |items| && items[i] != replacement ==> LinkedAt(items, i)
  {
    assert LinkedAt(items, 0);
    assert owner != null ==> LinkedAt(list, k) && LinkedAt(list, 0);
    assert owner != null && k > 0 ==> LinkedAt(list, k - 1);
    assert owner != null && k + 1 < |list| ==> LinkedAt(list, k + 1);
    replacement.next := item.next;
    replacement.prev := item.prev;
    if replacement.next != null {
      replacement.next.prev := replacement;
    }
    if replacement.prev != null {
      replacement.prev.next := replacement;
    }
    if replacement.next == null {
      parent.child.prev := replacement;
    }
    item.next := null;
    item.prev := null;
    if owner != null && replacement !in list {
      if 0 < k && (owner == parent || k < |list| - 1) {
        forall i | 0 <= i < |list| && i != k ensures Neighbours(list, k, replacement, i) {
          assert old(LinkedAt(list, i));
        }
      }
      if owner != parent && k < |list| - 1 {
        forall i | 0 <= i < |items| && items[i] != replacement ensures LinkedAt(items, i) {
          assert old(LinkedAt(items, i));
        }
      }
    }
  }

  /** Another item in the place of one that is not the first child of the parent. */
  method ReplaceLater(parent: Item, item: Item, replacement: Item, ghost items: seq<Item>, ghost owner: Item?,
                      ghost list: seq<Item>, ghost k: nat)
    requires Children(parent, items) && items != [] && items[0] != item && replacement != item
    requires Placed(item, owner, list, k) && OneOrApart(parent, items, owner, list)
    modifies parent, item, replacement, items, list
    ensures owner == null ==> (Children(parent, items) <==> items == [replacement])
    ensures owner == parent ==>
              (Children(parent, items[k := replacement]) <==> replacement !in items && replacement != parent)
    ensures owner != null && owner != parent ==>
              (Children(parent, items) && Children(owner, list[k := replacement]) <==>
               0 < k < |list| - 1 && replacement !in items && replacement !in list && replacement != owner)
    ensures item.next == null && item.prev == null
  {
    hide Prev, Neighbours;
    Relink(parent, item, replacement, items, owner, list, k);
    if owner == null {
      LooseReplaced(parent, items, replacement);
    } else {
      ghost var all := list[k := replacement];
      assert all[k] == replacement;
      if replacement in list {
        Repeated(list, k, replacement);
      } else if owner == parent || 0 < k < |list| - 1 {
        Swapped(list, k, replacement, all);
        if owner != parent && replacement in items {
          ghost var m :| 0 <= m < |items| && items[m] == replacement;
          LinkedAway(items, m, list[k + 1]);
        }
      } else if k > 0 {
        LastAway(all, item);
      }
    }
  }

  /** A child whose next is another parent's child. */
  lemma LinkedAway(items: seq<Item>, m: nat, x: Item)
    requires m < |items| && items[m].next == x && x !in items
    ensures !LinkedAt(items, m)
  {
  }

  lemma LastAway(items: seq<Item>, x: Item)
    requires items != [] && items[0].prev == x && x !in items
    ensures !LinkedAt(items, 0)
  {
  }

  /** Puts another item in an element's place: the list is one again if and only if the
      replacement was no part of it.  Through a parent that is not the owner of the element
      both lists come out right if and only if, besides, the element is neither first nor
      last; if nobody owns it, the list of the parent survives only if the replacement is
      its one element. */
  method ReplaceItem(parent: Item?, item: Item?, replacement: Item?, ghost items: seq<Item>, ghost owner: Item?,
                     ghost list: seq<Item>, ghost k: nat) returns (ok: bool)
    requires parent != null ==> Children(parent, items)
    requires item != null ==> Placed(item, owner, list, k)
    requires parent != null && item != null ==> OneOrApart(parent, items, owner, list)
    modifies parent, item, replacement, items, list
    ensures ok <==> parent != null && items != [] && item != null && replacement != null
    ensures ok && replacement != item && owner == parent ==>
              (Children(parent, items[k := replacement]) <==> replacement !in items && replacement != parent)
    ensures ok && replacement != item && owner == null ==>
              (Children(parent, items) <==> items == [replacement])
    ensures ok && replacement != item && owner != null && owner != parent ==>
              (Children(parent, items) && Children(owner, list[k := replacement]) <==>
               0 < k < |list| - 1 && replacement !in items && replacement !in list && replacement != owner)
    ensures ok && replacement != item ==> item.next == null && item.prev == null
    ensures !ok || replacement == item ==> (parent != null ==> unchanged(parent)) && (item != null ==> unchanged(item))
    ensures !ok || replacement == item ==> unchanged(items) && unchanged(list)
    ensures !ok && replacement != null ==> unchanged(replacement)
  {
    if parent == null || parent.child == null || replacement == null || item == null {
      return false;
    }
    if replacement == item {
      return true;
    }
    assert LinkedAt(items, 0);
    if parent.child == item {
      ReplaceFirst(parent, item, replacement, items);
    } else {
      ReplaceLater(parent, item, replacement, items, owner, list, k);
    }
    return true;
  }

  lemma Repeated(items: seq<Item>, k: nat, v: Item)
    requires k < |items| && v in items && v != items[k]
    ensures !Distinct(items[k := v])
  {
    var m :| 0 <= m < |items| && items[m] == v;
    assert items[k := v][m] == items[k := v][k];
  }

  lemma LooseReplaced(parent: Item, items: seq<Item>, v: Item)
    requires items != [] && parent.child == items[0] && items[0].prev == v && v.next == null
    requires v != items[0] ==> v.prev == null
    requires parent !in items && Distinct(items)
    ensures Children(parent, items) <==> items == [v]
  {
    if items == [v] {
      assert LinkedAt(items, 0);
    } else if v == items[|items| - 1] {
      assert !LinkedAt(items, |items| - 1);
    } else {
      assert !LinkedAt(items, 0);
    }
  }
}
