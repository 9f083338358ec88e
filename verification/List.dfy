/**
 The growable list of kernel/lib/list.h: a buffer with a length and a capacity.  Every operation is
 proved against its effect on the sequence of items.
 */
module Lists {
  import opened Outcomes

  const NOT_FOUND: nat := 0xFFFF_FFFF_FFFF_FFFF     // the unsigned value of -1

  /** A greater-than test whose negation is a total preorder. */
  ghost predicate Ordering<T(!new)>(gt: (T, T) -> bool) {
    && (forall x, y :: gt(x, y) ==> !gt(y, x))
    && (forall x, y, z :: !gt(x, y) && !gt(y, z) ==> !gt(x, z))
  }

  ghost predicate Sorted<T(!new)>(s: seq<T>, gt: (T, T) -> bool) {
    forall a, b :: 0 <= a < b < |s| ==> !gt(s[a], s[b])
  }

  /** Nothing in s[..n] is greater than anything in s[n..]. */
  ghost predicate Separated<T(!new)>(s: seq<T>, gt: (T, T) -> bool, n: nat)
    requires n <= |s|
  {
    forall a, b :: 0 <= a < n <= b < |s| ==> !gt(s[a], s[b])
  }

  function Without<T>(s: seq<T>, index: nat): seq<T> {
    if index < |s| then s[..index] + s[index + 1..] else s
  }

  /** Removal takes out one item: those before it stay where they are, those after it move down by one. */
  lemma WithoutElements<T>(s: seq<T>, index: nat)
    requires index < |s|
    ensures |Without(s, index)| == |s| - 1
    ensures forall k :: 0 <= k < index ==> Without(s, index)[k] == s[k]
    ensures forall k :: index < k < |s| ==> Without(s, index)[k - 1] == s[k]
    ensures multiset(Without(s, index)) == multiset(s) - multiset{s[index]}
  {
    assert s == s[..index] + [s[index]] + s[index + 1..];
  }

  lemma NothingToRemove<T>(s: seq<T>)
    ensures Without(s, |s|) == s
  {
  }

  /** The first position of an item, or the length. */
  function Find<T(==)>(s: seq<T>, item: T): (i: nat)
    ensures i <= |s|
    ensures forall j :: 0 <= j < i ==> s[j] != item
    ensures i < |s| ==> s[i] == item
  {
    if s == [] || s[0] == item then 0 else 1 + Find(s[1..], item)
  }

  function Backwards<T>(s: seq<T>): (r: seq<T>)
    ensures |r| == |s|
    ensures forall k :: 0 <= k < |s| ==> r[k] == s[|s| - 1 - k]
  {
    seq(|s|, k requires 0 <= k < |s| => s[|s| - 1 - k])
  }

  /** Reversing twice gives back the list. */
  lemma BackwardsTwice<T>(s: seq<T>)
    ensures Backwards(Backwards(s)) == s
  {
    assert forall k :: 0 <= k < |s| ==> Backwards(Backwards(s))[k] == s[k];
  }

  class List<T(0, ==, !new)> {
    var items: array<T>
    var length: nat
    var capacity: nat

    ghost predicate Valid()
      reads this
    {
      items.Length == capacity && length <= capacity
    }

    ghost function Contents(): seq<T>
      requires Valid()
      reads this, items
    {
      items[..length]
    }

    constructor (capacity: nat)
      ensures Valid() && fresh(items) && Contents() == [] && this.capacity == capacity
    {
      items := new T[capacity];
      length := 0;
      this.capacity := capacity;
    }

    /** Doubling a capacity of zero leaves no room, so growth needs one that is not zero. */
    method Add(item: T)
      requires Valid() && (length == capacity ==> capacity > 0)
      modifies this, items
      ensures Valid() && (items == old(items) || fresh(items))
      ensures Contents() == old(Contents()) + [item]
      ensures capacity == if old(length) == old(capacity) then 2 * old(capacity) else old(capacity)
    {
      if length == capacity {
        capacity := capacity * 2;
        var newItems := new T[capacity];
        for i := 0 to length
          invariant newItems[..i] == items[..i]
          modifies newItems
        {
          newItems[i] := items[i];
        }
        items := newItems;
      }
      items[length] := item;
      length := length + 1;
    }

    method RemoveAt(index: nat)
      requires Valid()
      modifies this`length, items
      ensures Valid() && Contents() == Without(old(Contents()), index)
    {
      if index >= length {
        return;
      }
      for i := index to length - 1
        invariant forall k :: 0 <= k < index ==> items[k] == old(items[k])
        invariant forall k :: index <= k < i ==> items[k] == old(items[k + 1])
        invariant forall k :: i <= k < length ==> items[k] == old(items[k])
        modifies items
      {
        items[i] := items[i + 1];
      }
      length := length - 1;
    }

    /** Removes the first occurrence, if there is one. */
    method RemoveItem(item: T)
      requires Valid()
      modifies this`length, items
      ensures Valid() && Contents() == Without(old(Contents()), Find(old(Contents()), item))
    {
      hide Find, Without;
      ghost var s := Contents();
      for i := 0 to length
        invariant length == old(length) && Contents() == s
        invariant forall k :: 0 <= k < i ==> s[k] != item
      {
        if items[i] == item {
          assert s[i] == item;
          RemoveAt(i);
          return;
        }
      }
      NothingToRemove(s);
    }

    method Clear()
      requires Valid()
      modifies this`length
      ensures Valid() && Contents() == []
    {
      length := 0;
    }

    /** An index past the end reads as nothing. */
    method Get(index: nat) returns (r: Option<T>)
      requires Valid()
      ensures r == if index < length then Some(Contents()[index]) else None
    {
      if index >= length {
        return None;
      }
      return Some(items[index]);
    }

    method Set(index: nat, item: T)
      requires Valid()
      modifies items
      ensures Contents() == if index < length then old(Contents())[index := item] else old(Contents())
    {
      if index >= length {
        return;
      }
      items[index] := item;
    }

    method Contains(item: T) returns (r: bool)
      requires Valid()
      ensures r <==> item in Contents()
    {
      for i := 0 to length
        invariant forall k :: 0 <= k < i ==> items[k] != item
      {
        if items[i] == item {
          assert Contents()[i] == item;
          return true;
        }
      }
      return false;
    }

    method IndexOf(item: T) returns (r: nat)
      requires Valid() && length < NOT_FOUND
      ensures item in Contents() ==> r == Find(Contents(), item) < length
      ensures item !in Contents() ==> r == NOT_FOUND
    {
      for i := 0 to length
        invariant forall k :: 0 <= k < i ==> Contents()[k] != item
      {
        if items[i] == item {
          assert Contents()[i] == item;
          return i;
        }
      }
      return NOT_FOUND;
    }

    method Swap(j: nat)
      requires Valid() && j + 1 < length
      modifies items
      ensures Contents() == old(Contents())[j := old(items[j + 1])][j + 1 := old(items[j])]
    {
      var temp := items[j];
      items[j] := items[j + 1];
      items[j + 1] := temp;
    }

    /** One pass of the bubble sort moves a greatest item of the first n to position n - 1. */
    method Bubble(gt: (T, T) -> bool, n: nat)
      requires Valid() && Ordering(gt) && 0 < n <= length
      modifies items
      ensures multiset(Contents()) == multiset(old(Contents()))
      ensures Contents()[n..] == old(Contents()[n..])
      ensures multiset(Contents()[..n]) == multiset(old(Contents()[..n]))
      ensures forall a :: 0 <= a < n ==> !gt(Contents()[a], Contents()[n - 1])
    {
      hide Ordering;
      ghost var start := Contents();
      CarryNothing(start, gt, n);
      for j := 0 to n - 1
        invariant Carried(start, Contents(), gt, n, j)
      {
        ghost var before := Contents();
        if gt(items[j], items[j + 1]) {
          Swap(j);
        }
        CarryOn(start, before, Contents(), gt, n, j);
      }
      assert Contents() == Contents()[..n] + Contents()[n..];
      assert start == start[..n] + start[n..];
    }

    /** The list becomes sorted and keeps its items. */
    method Sort(gt: (T, T) -> bool)
      requires Valid() && Ordering(gt)
      modifies items
      ensures Sorted(Contents(), gt) && multiset(Contents()) == multiset(old(Contents()))
    {
      hide Ordering, Sorted, Separated;
      NothingSettled(Contents(), gt);
      for i := 0 to length
        invariant multiset(Contents()) == multiset(old(Contents()))
        invariant Sorted(Contents()[length - i..], gt)
        invariant Separated(Contents(), gt, length - i)
      {
        ghost var before := Contents();
        Bubble(gt, length - i);
        PassSettlesOne(before, Contents(), gt, length - i);
      }
      assert Contents()[0..] == Contents();
    }

    /** Reverses the list in place. */
    method Reverse()
      requires Valid()
      modifies items
      ensures Contents() == Backwards(old(Contents()))
    {
      ghost var n := length;
      for i := 0 to length / 2
        invariant forall k :: 0 <= k < i ==>
                    items[k] == old(items[n - 1 - k]) && items[n - 1 - k] == old(items[k])
        invariant forall k :: i <= k < n - i ==> items[k] == old(items[k])
      {
        var temp := items[i];
        items[i] := items[length - i - 1];
        items[length - i - 1] := temp;
      }
    }
  }

  /** Within a pass: the first n items are permuted, the rest is untouched, and position j holds a greatest so far. */
  ghost predicate Carried<T(!new)>(start: seq<T>, s: seq<T>, gt: (T, T) -> bool, n: nat, j: nat) {
    && |s| == |start| && j < n <= |s|
    && multiset(s[..n]) == multiset(start[..n]) && s[n..] == start[n..]
    && forall a :: 0 <= a <= j ==> !gt(s[a], s[j])
  }

  lemma CarryNothing<T(!new)>(s: seq<T>, gt: (T, T) -> bool, n: nat)
    requires Ordering(gt) && 0 < n <= |s|
    ensures Carried(s, s, gt, n, 0)
  {
  }

  lemma CarryOn<T(!new)>(start: seq<T>, before: seq<T>, after: seq<T>, gt: (T, T) -> bool, n: nat, j: nat)
    requires Ordering(gt) && Carried(start, before, gt, n, j) && j + 1 < n
    requires after == if gt(before[j], before[j + 1]) then before[j := before[j + 1]][j + 1 := before[j]] else before
    ensures Carried(start, after, gt, n, j + 1)
  {
    if gt(before[j], before[j + 1]) {
      SwapKeepsItems(before[..n], j);
      assert after[..n] == before[..n][j := before[j + 1]][j + 1 := before[j]];
      assert after[n..] == before[n..];
    }
  }

  lemma SwapKeepsItems<T>(s: seq<T>, j: nat)
    requires j + 1 < |s|
    ensures multiset(s[j := s[j + 1]][j + 1 := s[j]]) == multiset(s)
  {
  }

  lemma NothingSettled<T(!new)>(s: seq<T>, gt: (T, T) -> bool)
    ensures Sorted(s[|s|..], gt) && Separated(s, gt, |s|)
  {
  }

  /** After a pass over the first n items the settled part at the end has grown by one. */
  lemma PassSettlesOne<T(!new)>(before: seq<T>, after: seq<T>, gt: (T, T) -> bool, n: nat)
    requires Ordering(gt) && 0 < n <= |before| == |after|
    requires Sorted(before[n..], gt) && Separated(before, gt, n)
    requires after[n..] == before[n..] && multiset(after[..n]) == multiset(before[..n])
    requires forall a :: 0 <= a < n ==> !gt(after[a], after[n - 1])
    ensures Sorted(after[n - 1..], gt) && Separated(after, gt, n - 1)
  {
    forall a, b | 0 <= a < n <= b < |after|
      ensures !gt(after[a], after[b])
    {
      assert after[..n][a] in multiset(after[..n]);
      assert after[a] in before[..n];
      var c :| 0 <= c < n && before[c] == after[a];
      assert after[b] == after[n..][b - n] == before[n..][b - n] == before[b];
    }
    var tail := after[n - 1..];
    forall a, b | 0 <= a < b < |tail|
      ensures !gt(tail[a], tail[b])
    {
      if a > 0 {
        assert tail[a] == before[n..][a - 1] && tail[b] == before[n..][b - 1];
      }
    }
  }
}
