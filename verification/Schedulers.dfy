/** The scheduler's ready lists: one first-in first-out list per priority. */
module Schedulers {
  import opened Common
  import opened Lists

  const PRIORITY_SIZE := 5

  type ReadyLists = seq<seq<Tid>>

  function Enqueue(ready: ReadyLists, t: Tid, p: nat): ReadyLists
    requires p < |ready|
  {
    ready[p := ready[p] + [t]]
  }

  function Dequeue(ready: ReadyLists, p: nat): ReadyLists
    requires p < |ready| && ready[p] != []
  {
    ready[p := ready[p][1..]]
  }

  /** The highest priority below `n` that has a ready thread. */
  function Highest(ready: ReadyLists, n: nat): (r: Option<nat>)
    requires n <= |ready|
    ensures r.None? ==> forall p :: 0 <= p < n ==> ready[p] == []
    ensures r.Some? ==> r.value < n && ready[r.value] != [] && forall p :: r.value < p < n ==> ready[p] == []
  {
    if n == 0 then None else if ready[n - 1] != [] then Some(n - 1) else Highest(ready, n - 1)
  }

  /** The scheduler object: linked lists of threads.  Priorities out of range index outside the
      array, so callers must keep them in range; the kernel model treats the other case as a
      fault. */
  class Scheduler {
    const readyLists: seq<List<Tid>>
    /** What the lists hold. */
    ghost var ready: ReadyLists
    ghost var Repr: set<object>

    /** One of the lists: it is part of the scheduler and holds what `ready` says. */
    ghost predicate ListOk(p: nat)
      requires p < |readyLists| == |ready|
      reads this, Repr
    {
      && readyLists[p] in Repr && readyLists[p].Repr <= Repr && this !in readyLists[p].Repr
      && readyLists[p].Valid() && ready[p] == Items(readyLists[p].cells)
    }

    ghost predicate Valid()
      reads this, Repr
      ensures Valid() ==> this in Repr
    {
      && this in Repr && |readyLists| == |ready| == PRIORITY_SIZE
      && (forall p :: 0 <= p < PRIORITY_SIZE ==> ListOk(p))
      && (forall p, q :: 0 <= p < q < PRIORITY_SIZE ==> Apart(p, q))
    }

    ghost predicate Apart(p: nat, q: nat)
      requires p < |readyLists| && q < |readyLists|
      reads this, Repr
    {
      readyLists[p] in Repr && readyLists[q] in Repr && readyLists[p].Repr !! readyLists[q].Repr
    }

    constructor ()
      ensures Valid() && fresh(Repr) && ready == seq(PRIORITY_SIZE, _ => [])
    {
      var lists, repr := NewLists(PRIORITY_SIZE);
      readyLists, ready, Repr := lists, seq(PRIORITY_SIZE, _ => []), repr + {this};
      new;
      forall p | 0 <= p < PRIORITY_SIZE ensures ListOk(p) {
        assert readyLists[p].Valid();
      }
    }

    static method NewLists(n: nat) returns (lists: seq<List<Tid>>, ghost repr: set<object>)
      ensures |lists| == n && fresh(repr)
      ensures forall p :: 0 <= p < n ==>
                lists[p] in repr && lists[p].Repr <= repr && lists[p].Valid() && lists[p].cells == []
      ensures forall p, q :: 0 <= p < q < n ==> lists[p].Repr !! lists[q].Repr
    {
      lists, repr := [], {};
      for i := 0 to n
        invariant |lists| == i && fresh(repr)
        invariant forall p :: 0 <= p < i ==>
                    lists[p] in repr && lists[p].Repr <= repr && lists[p].Valid() && lists[p].cells == []
        invariant forall p, q :: 0 <= p < q < i ==> lists[p].Repr !! lists[q].Repr
      {
        var list := new List<Tid>();
        lists, repr := lists + [list], repr + list.Repr;
      }
    }

    /** Two different lists share nothing. */
    lemma Separate(p: nat, q: nat)
      requires Valid() && p < PRIORITY_SIZE && q < PRIORITY_SIZE && p != q
      ensures ListOk(q) && readyLists[p].Repr !! readyLists[q].Repr && readyLists[q] in readyLists[q].Repr
    {
      assert ListOk(q);
      assert if p < q then Apart(p, q) else Apart(q, p);
    }

    /** After a change of one list alone, the books are brought up to date. */
    ghost method Update(p: nat, list: seq<Tid>)
      requires this in Repr && |readyLists| == |ready| == PRIORITY_SIZE && p < PRIORITY_SIZE
      requires readyLists[p] in Repr && readyLists[p].Valid() && Items(readyLists[p].cells) == list && this !in readyLists[p].Repr
      requires forall q :: 0 <= q < PRIORITY_SIZE && q != p ==> ListOk(q) && readyLists[q].Repr !! readyLists[p].Repr
      requires forall q, r :: 0 <= q < r < PRIORITY_SIZE && q != p && r != p ==> Apart(q, r)
      modifies this
      ensures Valid() && Repr == old(Repr) + readyLists[p].Repr && ready == old(ready)[p := list]
    {
      ghost var old_ := ready;
      Repr, ready := Repr + readyLists[p].Repr, ready[p := list];
      forall q | 0 <= q < PRIORITY_SIZE ensures ListOk(q) {
        assert q != p ==> ready[q] == old_[q];
      }
      forall q, r | 0 <= q < r < PRIORITY_SIZE ensures Apart(q, r) {
        assert q != p && r != p ==> old(Apart(q, r));
      }
    }

    method IsReady(t: Tid, priority: int) returns (r: bool)
      requires Valid() && 0 <= priority < PRIORITY_SIZE
      ensures r <==> t in ready[priority]
    {
      assert ListOk(priority);
      r := readyLists[priority].Has(t);
    }

    method RemoveFromPriorityList(t: Tid, priority: int)
      requires Valid() && 0 <= priority < PRIORITY_SIZE
      modifies Repr
      ensures Valid() && Repr == old(Repr)
      ensures ready == old(ready)[priority := Without(old(ready)[priority], t)]
    {
      assert ListOk(priority);
      forall q | 0 <= q < PRIORITY_SIZE && q != priority { Separate(priority, q); }
      readyLists[priority].Remove(t);
      forall q, r | 0 <= q < r < PRIORITY_SIZE && q != priority && r != priority ensures Apart(q, r) {
        assert old(Apart(q, r));
      }
      Update(priority, Without(ready[priority], t));
    }

    /** Also the list part of ReadyToRun. */
    method AddToPriorityList(t: Tid, priority: int)
      requires Valid() && 0 <= priority < PRIORITY_SIZE
      modifies Repr
      ensures Valid() && fresh(Repr - old(Repr)) && ready == Enqueue(old(ready), t, priority)
    {
      assert ListOk(priority);
      forall q | 0 <= q < PRIORITY_SIZE && q != priority { Separate(priority, q); }
      readyLists[priority].Append(t);
      forall q, r | 0 <= q < r < PRIORITY_SIZE && q != priority && r != priority ensures Apart(q, r) {
        assert old(Apart(q, r));
      }
      Update(priority, ready[priority] + [t]);
    }

    /** The head of the highest non-empty list, removed from it. */
    method FindNextToRun() returns (next: Option<Tid>)
      requires Valid()
      modifies Repr
      ensures Valid() && Repr == old(Repr)
      ensures match Highest(old(ready), PRIORITY_SIZE)
              case None => next == None && ready == old(ready)
              case Some(p) => next == Some(old(ready)[p][0]) && ready == Dequeue(old(ready), p)
    {
      var i := PRIORITY_SIZE;
      while i > 0
        invariant 0 <= i <= PRIORITY_SIZE
        invariant Highest(ready, PRIORITY_SIZE) == Highest(ready, i)
      {
        assert ListOk(i - 1);
        if !readyLists[i - 1].IsEmpty() {
          forall q | 0 <= q < PRIORITY_SIZE && q != i - 1 { Separate(i - 1, q); }
          var cell := readyLists[i - 1].SortedPop();
          next := Some(cell.value.item);
          forall q, r | 0 <= q < r < PRIORITY_SIZE && q != i - 1 && r != i - 1 ensures Apart(q, r) {
            assert old(Apart(q, r));
          }
          Update(i - 1, ready[i - 1][1..]);
          return;
        }
        i := i - 1;
      }
      next := None;
    }
  }
}
