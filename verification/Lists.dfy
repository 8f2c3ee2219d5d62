/** The kernel's singly linked list, node by node. */
module Lists {
  import opened Common

  datatype Cell<T> = Cell(key: int, item: T)

  // ----- Lists as sequences -----

  function Items<T>(s: seq<Cell<T>>): (r: seq<T>)
    ensures |r| == |s|
    ensures forall i :: 0 <= i < |s| ==> r[i] == s[i].item
  {
    seq(|s|, i requires 0 <= i < |s| => s[i].item)
  }

  /** A list without the element at a position. */
  function Unlinked<T>(s: seq<T>, i: nat): (r: seq<T>)
    requires i < |s|
    ensures |r| == |s| - 1
    ensures forall j :: 0 <= j < |r| ==> r[j] == if j < i then s[j] else s[j + 1]
  {
    s[..i] + s[i + 1..]
  }

  /** Unlinking the first occurrence is removal of the item. */
  lemma {:induction false} UnlinkedIsWithout<T>(s: seq<T>, x: T, i: nat)
    requires i < |s| && s[i] == x && forall j :: 0 <= j < i ==> s[j] != x
    ensures Without(s, x) == Unlinked(s, i)
  {
    if i > 0 {
      UnlinkedIsWithout(s[1..], x, i - 1);
      assert Unlinked(s, i) == [s[0]] + Unlinked(s[1..], i - 1);
    }
  }

  /** Removal from a list of cells, seen through their items. */
  lemma ItemsUnlinked<T>(s: seq<Cell<T>>, i: nat)
    requires i < |s|
    ensures Items(Unlinked(s, i)) == Unlinked(Items(s), i)
  {
  }

  /** Where a sorted insertion goes: before the first larger key. */
  function Position<T>(s: seq<Cell<T>>, key: int): (p: nat)
    ensures p <= |s|
    ensures forall i :: 0 <= i < p ==> s[i].key <= key
    ensures p < |s| ==> key < s[p].key
  {
    if s == [] || key < s[0].key then 0 else 1 + Position(s[1..], key)
  }

  function Inserted<T>(s: seq<Cell<T>>, c: Cell<T>): (r: seq<Cell<T>>)
    ensures |r| == |s| + 1
  {
    var p := Position(s, c.key);
    s[..p] + [c] + s[p..]
  }

  ghost predicate Sorted<T>(s: seq<Cell<T>>) {
    forall i, j :: 0 <= i < j < |s| ==> s[i].key <= s[j].key
  }

  /** Insertion keeps a sorted list sorted. */
  lemma InsertedSorted<T>(s: seq<Cell<T>>, c: Cell<T>)
    requires Sorted(s)
    ensures Sorted(Inserted(s, c))
  {
    var p, r := Position(s, c.key), Inserted(s, c);
    assert forall i :: 0 <= i < |r| ==> r[i] == if i < p then s[i] else if i == p then c else s[i - 1];
  }

  /** It goes behind everything with a key that is not larger, and the others keep their order. */
  lemma InsertedPlace<T>(s: seq<Cell<T>>, c: Cell<T>) returns (p: nat)
    requires Sorted(s)
    ensures p <= |s| && Inserted(s, c) == s[..p] + [c] + s[p..]
    ensures forall i :: 0 <= i < |s| ==> (i < p <==> s[i].key <= c.key)
  {
    p := Position(s, c.key);
  }

  /** Insertion adds exactly one element. */
  lemma InsertedAdds<T>(s: seq<Cell<T>>, c: Cell<T>)
    ensures multiset(Inserted(s, c)) == multiset(s) + multiset{c}
  {
    var p := Position(s, c.key);
    assert s == s[..p] + s[p..];
  }

  /** Insertion keeps a lower bound on the keys. */
  lemma InsertedBounded<T>(s: seq<Cell<T>>, c: Cell<T>, bound: int)
    requires bound <= c.key && forall i :: 0 <= i < |s| ==> bound <= s[i].key
    ensures forall i :: 0 <= i < |Inserted(s, c)| ==> bound <= Inserted(s, c)[i].key
  {
    var p, r := Position(s, c.key), Inserted(s, c);
    assert forall i :: 0 <= i < |r| ==> r[i] == if i < p then s[i] else if i == p then c else s[i - 1];
  }

  /** The first position found by a scan is the position. */
  lemma {:induction false} PositionUnique<T>(s: seq<Cell<T>>, key: int, p: nat)
    requires p <= |s| && (forall i :: 0 <= i < p ==> s[i].key <= key) && (p < |s| ==> key < s[p].key)
    ensures Position(s, key) == p
  {
    if s != [] && !(key < s[0].key) {
      PositionUnique(s[1..], key, p - 1);
    }
  }

  // ----- The linked list -----

  class ListElement<T> {
    var next: ListElement?<T>
    const key: int
    const item: T

    constructor (item: T, key: int)
      ensures this.item == item && this.key == key && next == null
    {
      this.item, this.key, next := item, key, null;
    }
  }

  class List<T(==)> {
    var first: ListElement?<T>
    var last: ListElement?<T>
    /** The nodes in order. */
    ghost var spine: seq<ListElement<T>>
    /** What they carry. */
    ghost var cells: seq<Cell<T>>
    /** The list and all its nodes, past and present. */
    ghost var Repr: set<object>

    ghost predicate Valid()
      reads this, Repr
      ensures Valid() ==> this in Repr
    {
      && this in Repr && |cells| == |spine|
      && (forall i :: 0 <= i < |spine| ==> spine[i] in Repr && cells[i] == Cell(spine[i].key, spine[i].item))
      && (spine == [] ==> first == null && last == null)
      && (spine != [] ==> first == spine[0] && last == spine[|spine| - 1] && last.next == null)
      && (forall i {:trigger spine[i].next} :: 0 <= i < |spine| - 1 ==> spine[i].next == spine[i + 1])
      && (forall i, j :: 0 <= i < j < |spine| ==> spine[i] != spine[j])
    }

    constructor ()
      ensures Valid() && cells == [] && fresh(Repr)
    {
      first, last, spine, cells, Repr := null, null, [], [], {this};
    }

    predicate IsEmpty()
      reads this
    {
      first == null
    }

    method Append(item: T)
      requires Valid()
      modifies Repr
      ensures Valid() && cells == old(cells) + [Cell(0, item)] && fresh(Repr - old(Repr))
    {
      var element := new ListElement(item, 0);
      LinkLast(element);
    }

    method LinkLast(element: ListElement<T>)
      requires Valid() && element !in Repr && element.next == null
      modifies Repr
      ensures Valid() && cells == old(cells) + [Cell(element.key, element.item)]
      ensures Repr == old(Repr) + {element}
    {
      if IsEmpty() {
        first, last := element, element;
      } else {
        last.next := element;
        last := element;
      }
      spine, cells, Repr := spine + [element], cells + [Cell(element.key, element.item)], Repr + {element};
    }

    method LinkFirst(element: ListElement<T>)
      requires Valid() && element !in Repr && !IsEmpty()
      modifies this, element
      ensures Valid() && cells == [Cell(element.key, element.item)] + old(cells)
      ensures Repr == old(Repr) + {element}
    {
      element.next := first;
      first := element;
      spine, cells, Repr := [element] + spine, [Cell(element.key, element.item)] + cells, Repr + {element};
    }

    method LinkAfter(ptr: ListElement<T>, element: ListElement<T>, ghost i: nat)
      requires Valid() && element !in Repr && i < |spine| - 1 && ptr == spine[i]
      modifies this, ptr, element
      ensures Valid() && cells == old(cells)[..i + 1] + [Cell(element.key, element.item)] + old(cells)[i + 1..]
      ensures Repr == old(Repr) + {element}
    {
      element.next := ptr.next;
      ptr.next := element;
      spine := spine[..i + 1] + [element] + spine[i + 1..];
      cells := cells[..i + 1] + [Cell(element.key, element.item)] + cells[i + 1..];
      Repr := Repr + {element};
    }

    /** The node after which a key goes, when it does not go first. */
    method FindSlot(sortKey: int) returns (ptr: ListElement<T>, ghost i: nat)
      requires Valid() && !IsEmpty() && first.key <= sortKey
      ensures i < |spine| && ptr == spine[i] && Position(cells, sortKey) == i + 1
    {
      ptr, i := first, 0;
      ghost var s := cells;
      while ptr.next != null && ptr.next.key <= sortKey
        invariant i < |spine| && ptr == spine[i]
        invariant forall j :: 0 <= j <= i ==> s[j].key <= sortKey
        decreases |spine| - i
      {
        assert i < |spine| - 1;
        assert s[i + 1].key == ptr.next.key;
        ptr, i := ptr.next, i + 1;
      }
      if i < |spine| - 1 {
        assert ptr.next == spine[i + 1] && s[i + 1].key == ptr.next.key;
      }
      PositionUnique(s, sortKey, i + 1);
    }

    /** Inserts before the first element with a larger key, relinking one node. */
    method SortedInsert(item: T, sortKey: int)
      requires Valid()
      modifies Repr
      ensures Valid() && cells == Inserted(old(cells), Cell(sortKey, item)) && fresh(Repr - old(Repr))
    {
      ghost var s := cells;
      var element := new ListElement(item, sortKey);
      if IsEmpty() {
        LinkLast(element);
        assert cells == Inserted(s, Cell(sortKey, item));
      } else if sortKey < first.key {
        assert s[0].key == first.key;
        LinkFirst(element);
        assert cells == Inserted(s, Cell(sortKey, item));
      } else {
        var ptr, i := FindSlot(sortKey);
        if ptr.next != null {
          LinkAfter(ptr, element, i);
        } else {
          assert i == |spine| - 1;
          LinkLast(element);
          assert s == s[..i + 1];
        }
      }
    }

    /** Removes the first element and tells its key. */
    method SortedPop() returns (r: Option<Cell<T>>)
      requires Valid()
      modifies this
      ensures Valid() && Repr == old(Repr)
      ensures old(cells) == [] ==> r == None && cells == []
      ensures old(cells) != [] ==> r == Some(old(cells)[0]) && cells == old(cells)[1..]
    {
      if IsEmpty() {
        return None;
      }
      var element := first;
      if first == last {
        first, last := null, null;
      } else {
        first := element.next;
      }
      r := Some(Cell(element.key, element.item));
      spine, cells := spine[1..], cells[1..];
    }

    method Has(item: T) returns (b: bool)
      requires Valid()
      ensures b <==> item in Items(cells)
    {
      var ptr := first;
      ghost var i := 0;
      while ptr != null
        invariant 0 <= i <= |spine| && (ptr == null <==> i == |spine|) && (ptr != null ==> ptr == spine[i])
        invariant item !in Items(cells)[..i]
        decreases |spine| - i
      {
        assert Items(cells)[i] == ptr.item;
        if ptr.item == item {
          return true;
        }
        ptr, i := ptr.next, i + 1;
      }
      assert Items(cells)[..|spine|] == Items(cells);
      return false;
    }

    /** Unlinks the first node that carries an item, if there is one. */
    method Remove(item: T)
      requires Valid()
      modifies Repr
      ensures Valid() && Repr == old(Repr)
      ensures Items(cells) == Without(old(Items(cells)), item)
      ensures item !in old(Items(cells)) ==> cells == old(cells)
      ensures item in old(Items(cells)) ==>
                exists i :: 0 <= i < |old(cells)| && old(cells)[i].item == item && cells == Unlinked(old(cells), i)
    {
      ghost var s := cells;
      var ptr, prev := first, null;
      ghost var i := 0;
      while ptr != null
        invariant 0 <= i <= |spine| && (ptr == null <==> i == |spine|) && (ptr != null ==> ptr == spine[i])
        invariant if i == 0 then prev == null else prev == spine[i - 1]
        invariant forall j :: 0 <= j < i ==> Items(s)[j] != item
        decreases |spine| - i
      {
        assert s[i].item == ptr.item;
        if ptr.item == item {
          Unlink(prev, ptr, i);
          UnlinkedIsWithout(Items(s), item, i);
          ItemsUnlinked(s, i);
          return;
        }
        prev, ptr, i := ptr, ptr.next, i + 1;
      }
      WithoutAbsent(Items(s), item);
    }

    method Unlink(prev: ListElement?<T>, ptr: ListElement<T>, ghost i: nat)
      requires Valid() && i < |spine| && ptr == spine[i]
      requires if i == 0 then prev == null else prev == spine[i - 1]
      modifies Repr
      ensures Valid() && cells == Unlinked(old(cells), i) && Repr == old(Repr)
    {
      ghost var nodes := spine;
      assert first == ptr <==> i == 0;
      assert last == ptr <==> i == |nodes| - 1;
      assert ptr.next == if i < |nodes| - 1 then nodes[i + 1] else null;
      if prev != null {
        prev.next := ptr.next;
      }
      if first == ptr {
        first := ptr.next;
      }
      if last == ptr {
        last := prev;
      }
      spine, cells := Unlinked(nodes, i), Unlinked(cells, i);
    }
  }
}
