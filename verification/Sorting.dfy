/**
 Sorting a directory listing, as `std::sort` does it under a comparison, and the order that is meant for
 the replay, by file id.
 */
module Sorting {
  import opened Layout
  import opened Recovery

  type Comparison = (nat, nat) -> bool

  ghost predicate StrictOrder(before: Comparison)
  {
    && (forall a, b | before(a, b) :: !before(b, a))
    && (forall a, b | a != b :: before(a, b) || before(b, a))
    && (forall a, b, c | before(a, b) && before(b, c) :: before(a, c))
  }

  ghost predicate Sorted(before: Comparison, order: seq<nat>)
  {
    forall i, j | 0 <= i < j < |order| :: before(order[i], order[j])
  }

  function Insert(before: Comparison, id: nat, order: seq<nat>): (r: seq<nat>)
  {
    if order == [] || before(id, order[0]) then [id] + order
    else [order[0]] + Insert(before, id, order[1..])
  }

  function Sort(before: Comparison, listing: seq<nat>): (r: seq<nat>)
  {
    if listing == [] then [] else Insert(before, listing[0], Sort(before, listing[1..]))
  }

  lemma {:induction false} InsertSorts(before: Comparison, id: nat, order: seq<nat>)
    requires StrictOrder(before) && Sorted(before, order) && id !in order
    ensures Sorted(before, Insert(before, id, order))
    ensures IdsOf(Insert(before, id, order)) == IdsOf(order) + {id}
  {
    if order != [] && !before(id, order[0]) {
      var rest := Insert(before, id, order[1..]);
      InsertSorts(before, id, order[1..]);
      var r := [order[0]] + rest;
      forall j | 0 <= j < |rest| ensures before(order[0], rest[j]) {
        assert rest[j] in IdsOf(rest);
        if rest[j] != id {
          assert rest[j] in IdsOf(order[1..]);
          var m :| 0 <= m < |order[1..]| && order[1..][m] == rest[j];
          assert order[m + 1] == rest[j];
        }
      }
      assert order == [order[0]] + order[1..];
    }
  }

  /** Sorting a listing without duplicates gives a sorted order of the same files. */
  lemma {:induction false} SortSorts(before: Comparison, listing: seq<nat>)
    requires StrictOrder(before) && NoDup(listing)
    ensures Sorted(before, Sort(before, listing))
    ensures IdsOf(Sort(before, listing)) == IdsOf(listing)
  {
    if listing != [] {
      var rest := listing[1..];
      SortSorts(before, rest);
      assert forall m | 0 <= m < |rest| :: rest[m] == listing[m + 1];
      InIds(listing[0], rest);
      InIds(listing[0], Sort(before, rest));
      InsertSorts(before, listing[0], Sort(before, rest));
      assert listing == [listing[0]] + rest;
    }
  }

  lemma InIds(fd: nat, order: seq<nat>)
    ensures fd in order <==> fd in IdsOf(order)
  {
  }

  // ---------------------------------------------------------------- oldest first

  predicate ById(a: nat, b: nat)
  {
    a < b
  }

  lemma {:induction false} AtLeastIndex(order: seq<nat>, i: nat)
    requires Sorted(ById, order)
    requires i < |order|
    ensures i <= order[i]
  {
    if i > 0 {
      AtLeastIndex(order, i - 1);
    }
  }

  lemma {:induction false} AtMostIndex(order: seq<nat>, i: nat, n: nat)
    requires Sorted(ById, order)
    requires i < |order| && forall j | 0 <= j < |order| :: order[j] < n
    ensures order[i] <= n - |order| + i
    decreases |order| - i
  {
    if i < |order| - 1 {
      AtMostIndex(order, i + 1, n);
    }
  }

  lemma IncreasingIsAscending(order: seq<nat>, n: nat)
    requires Sorted(ById, order) && IdsOf(order) == UpTo(n)
    ensures order == Ascending(n)
  {
    NoDupSize(order);
    forall i | 0 <= i < |order| ensures order[i] < n {
      assert order[i] in IdsOf(order);
    }
    forall i | 0 <= i < n ensures order[i] == i {
      AtLeastIndex(order, i);
      AtMostIndex(order, i, n);
    }
  }

  /** Sorting any listing of the files 0 to n-1 by id puts the oldest first. */
  lemma SortIsOldestFirst(listing: seq<nat>, n: nat)
    requires NoDup(listing) && IdsOf(listing) == UpTo(n)
    ensures Sort(ById, listing) == Ascending(n)
  {
    hide Sort, IdsOf, NoDup;
    SortSorts(ById, listing);
    IncreasingIsAscending(Sort(ById, listing), n);
  }
}
