/** The static mutators of the list: append, insert-at, remove-at, clear and
    set. Each works directly on the backing array and on the raw size
    counters of MyArrayList. */
module Actions {
  import opened Errors
  import opened ArrayList

  /** `s` with `x` placed at `index`; what was at `index` and after moves one
      position right. */
  function InsertAt<E>(s: seq<E>, index: nat, x: E): (r: seq<E>)
    requires index <= |s|
    ensures |r| == |s| + 1 && r[index] == x
    ensures forall k :: 0 <= k < index ==> r[k] == s[k]
    ensures forall k :: index <= k < |s| ==> r[k + 1] == s[k]
  {
    s[..index] + [x] + s[index..]
  }

  /** `s` without its element at `index`; what followed it moves one position
      left. */
  function RemoveAt<E>(s: seq<E>, index: nat): (r: seq<E>)
    requires index < |s|
    ensures |r| == |s| - 1
    ensures forall k :: 0 <= k < index ==> r[k] == s[k]
    ensures forall k :: index <= k < |r| ==> r[k] == s[k + 1]
  {
    s[..index] + s[index + 1..]
  }

  /** Removing what was just inserted gives back the original sequence. */
  lemma RemoveAtInsertAt<E>(s: seq<E>, index: nat, x: E)
    requires index <= |s|
    ensures RemoveAt(InsertAt(s, index, x), index) == s
  {
    var r := RemoveAt(InsertAt(s, index, x), index);
    assert forall k :: 0 <= k < |s| ==> r[k] == s[k];
  }

  /** Putting back what was just removed gives back the original sequence. */
  lemma InsertAtRemoveAt<E>(s: seq<E>, index: nat)
    requires index < |s|
    ensures InsertAt(RemoveAt(s, index), index, s[index]) == s
  {
    var r := InsertAt(RemoveAt(s, index), index, s[index]);
    assert forall k :: 0 <= k < |s| ==> r[k] == s[k];
  }

  /** Inserting at position `size` is appending. */
  lemma InsertAtEnd<E>(s: seq<E>, x: E)
    ensures InsertAt(s, |s|, x) == s + [x]
  {
  }

  /** The backing array after insert-at's shift and store, as a sequence:
      its first `size + 1` slots are the insertion, the slots after them are
      untouched. */
  lemma ShiftRightStore<E>(s: seq<E>, t: seq<E>, index: nat, size: nat, x: E)
    requires index <= size < |s|
    requires t == (s[..index + 1] + s[index..size] + s[size + 1..])[index := x]
    ensures t[..size + 1] == InsertAt(s[..size], index, x)
    ensures t[size + 1..] == s[size + 1..]
  {
    var ins := InsertAt(s[..size], index, x);
    forall k | 0 <= k < size + 1
      ensures t[k] == ins[k]
    {
      if k > index {
        assert ins[k] == s[k - 1];
      }
    }
  }

  /** The backing array after remove-at's shift and clearing of the last live
      slot, as a sequence. */
  lemma ShiftLeftClear<E>(s: seq<E>, t: seq<E>, index: nat, size: nat, blank: E)
    requires index < size <= |s|
    requires t == (s[..index] + s[index + 1..size] + s[size - 1..])[size - 1 := blank]
    ensures t[..size - 1] == RemoveAt(s[..size], index)
    ensures t[size - 1] == blank
    ensures t[size..] == s[size..]
  {
    var rem := RemoveAt(s[..size], index);
    forall k | 0 <= k < size - 1
      ensures t[k] == rem[k]
    {
      if k >= index {
        assert rem[k] == s[k + 1];
      }
    }
  }

  /** Append (`add(list, element)`). A full list is resized first; a list of
      capacity 0 stays at capacity 0, so the write of slot 0 then throws. */
  method Append<T>(list: MyArrayList<T>, element: Option<T>) returns (r: Outcome)
    requires list.Valid()
    modifies list, list.elements
    ensures list.Valid()
    ensures r.Pass? <==> old(list.Capacity()) > 0
    ensures r.Fail? ==> r.error == ArrayIndexOutOfBounds && list.Contents() == old(list.Contents()) == []
    ensures r.Pass? ==> list.Contents() == old(list.Contents()) + [element]
    // resized exactly when the list was full, and by doubling
    ensures list.elements != old(list.elements) <==> old(list.size) == old(list.Capacity())
    ensures list.elements != old(list.elements) ==> fresh(list.elements)
    ensures list.Capacity() ==
      if old(list.size) == old(list.Capacity()) then 2 * old(list.Capacity()) else old(list.Capacity())
    ensures forall k :: list.size <= k < list.Capacity() ==>
      list.elements[k] == if k < old(list.Capacity()) then old(list.elements[k]) else None
  {
    if list.size == list.elements.Length {
      list.Resize();
    }
    if list.size >= list.elements.Length {
      // capacity 0: the JVM rejects the store into slot 0 of an empty array
      return Fail(ArrayIndexOutOfBounds);
    }
    list.SetInternal(list.size, element);
    list.UpSize();
    r := Pass;
  }

  /** The capacity ResizeFixed gives a full list of capacity `capacity`. */
  function GrownCapacity(capacity: nat): (c: nat)
    ensures c > capacity
    ensures capacity > 0 ==> c == 2 * capacity
  {
    if capacity == 0 then 1 else 2 * capacity
  }

  /** Append as evidently intended: growth uses ResizeFixed, so it never
      fails. */
  method AppendFixed<T>(list: MyArrayList<T>, element: Option<T>)
    requires list.Valid()
    modifies list, list.elements
    ensures list.Valid()
    ensures list.Contents() == old(list.Contents()) + [element]
    ensures list.elements != old(list.elements) <==> old(list.size) == old(list.Capacity())
    ensures list.elements != old(list.elements) ==> fresh(list.elements)
    ensures list.Capacity() ==
      if old(list.size) == old(list.Capacity()) then GrownCapacity(old(list.Capacity())) else old(list.Capacity())
  {
    if list.size == list.elements.Length {
      list.ResizeFixed();
    }
    list.SetInternal(list.size, element);
    list.UpSize();
  }

  /** Insert-at (`add(list, index, element)`), as written. The index check
      comes first. The method then keeps a reference to the backing array
      BEFORE a full list is resized, so on a full list the shift runs on the
      old array, one slot too short, and System.arraycopy throws: the list is
      left with twice the capacity but the same elements. */
  method Insert<T>(list: MyArrayList<T>, index: int, element: Option<T>) returns (r: Outcome)
    requires list.Valid()
    modifies list, list.elements
    ensures list.Valid() && list.size <= old(list.size) + 1
    ensures !(0 <= index <= old(list.size)) ==>
      r == Fail(IndexOutOfBounds) && list.elements == old(list.elements)
      && list.size == old(list.size) && list.elements[..] == old(list.elements[..])
    ensures 0 <= index <= old(list.size) == old(list.Capacity()) ==>
      r == Fail(ArrayIndexOutOfBounds) && fresh(list.elements)
      && list.Capacity() == 2 * old(list.Capacity()) && list.Contents() == old(list.Contents())
      && forall k :: list.size <= k < list.Capacity() ==> list.elements[k] == None
    ensures 0 <= index <= old(list.size) < old(list.Capacity()) ==>
      r == Pass && list.elements == old(list.elements)
      && list.Contents() == InsertAt(old(list.Contents()), index, element)
    ensures r.Pass? ==> forall k :: list.size <= k < list.Capacity() ==> list.elements[k] == old(list.elements[k])
  {
    if index < 0 || index > list.size {
      return Fail(IndexOutOfBounds);
    }
    var elements := list.elements;
    ghost var s := elements[..];
    ghost var full := list.size == elements.Length;
    if list.size == elements.Length {
      list.Resize();
    }
    r := ArrayCopy(elements, index, elements, index + 1, list.size - index);
    if r.Fail? {
      // only the old array, one slot short, can make the shift fail
      assert full && elements[..] == s;
      return;
    }
    assert !full && list.elements == elements;
    ghost var n := list.size;
    ghost var shifted := elements[..];
    assert shifted == s[..index + 1] + s[index..n] + s[n + 1..];
    list.UpSize();
    elements[index] := element;
    ghost var t := elements[..];
    assert t == shifted[index := element];
    ShiftRightStore(s, t, index, n, element);
    assert list.Contents() == t[..n + 1];
    forall k | n + 1 <= k < elements.Length
      ensures elements[k] == old(elements[k])
    {
      assert elements[k] == t[k] && old(elements[k]) == s[k];
    }
  }

  /** Insert-at as evidently intended: the shift runs on the backing array as
      it is AFTER growth, and growth uses ResizeFixed, so a valid index always
      succeeds, even on a list of capacity 0. */
  method InsertFixed<T>(list: MyArrayList<T>, index: int, element: Option<T>) returns (r: Outcome)
    requires list.Valid()
    modifies list, list.elements
    ensures list.Valid()
    ensures r.Fail? <==> !(0 <= index <= old(list.size))
    ensures r.Fail? ==>
      r.error == IndexOutOfBounds && list.elements == old(list.elements)
      && list.size == old(list.size) && list.elements[..] == old(list.elements[..])
    ensures r.Pass? ==> list.Contents() == InsertAt(old(list.Contents()), index, element)
    ensures list.elements != old(list.elements) <==>
      0 <= index <= old(list.size) == old(list.Capacity())
    ensures list.elements != old(list.elements) ==> fresh(list.elements)
    ensures list.Capacity() ==
      if 0 <= index <= old(list.size) == old(list.Capacity()) then GrownCapacity(old(list.Capacity()))
      else old(list.Capacity())
  {
    if index < 0 || index > list.size {
      return Fail(IndexOutOfBounds);
    }
    if list.size == list.elements.Length {
      list.ResizeFixed();
    }
    ShiftIn(list, index, element);
    r := Pass;
  }

  /** The shift-and-store step of insert-at on a list with room for one more
      element: the arraycopy cannot fail here. */
  method ShiftIn<T>(list: MyArrayList<T>, index: int, element: Option<T>)
    requires list.Valid() && 0 <= index <= list.size < list.Capacity()
    modifies list`size, list.elements
    ensures list.Valid() && list.size == old(list.size) + 1
    ensures list.Contents() == InsertAt(old(list.Contents()), index, element)
    ensures forall k :: list.size <= k < list.Capacity() ==> list.elements[k] == old(list.elements[k])
  {
    var elements := list.elements;
    ghost var s := elements[..];
    ghost var n := list.size;
    var r := ArrayCopy(elements, index, elements, index + 1, list.size - index);
    assert r.Pass?;
    ghost var shifted := elements[..];
    assert shifted == s[..index + 1] + s[index..n] + s[n + 1..];
    list.UpSize();
    elements[index] := element;
    ghost var t := elements[..];
    assert t == shifted[index := element];
    ShiftRightStore(s, t, index, n, element);
    assert list.Contents() == t[..n + 1];
    forall k | n + 1 <= k < elements.Length
      ensures elements[k] == old(elements[k])
    {
      assert elements[k] == t[k] && old(elements[k]) == s[k];
    }
  }

  /** Remove-at (`remove(list, index)`): shifts the tail left by one, clears the
      slot that was the last live one, and shrinks the size. */
  method Remove<T>(list: MyArrayList<T>, index: int) returns (r: Outcome)
    requires list.Valid()
    modifies list, list.elements
    ensures list.Valid() && list.elements == old(list.elements)
    ensures r.Fail? <==> !(0 <= index < old(list.size))
    ensures r.Fail? ==> r.error == IndexOutOfBounds
    ensures r.Fail? ==> list.size == old(list.size) && list.elements[..] == old(list.elements[..])
    ensures r.Pass? ==> list.Contents() == RemoveAt(old(list.Contents()), index)
    ensures r.Pass? ==> list.elements[old(list.size) - 1] == None
    ensures r.Pass? ==> forall k :: old(list.size) <= k < list.Capacity() ==> list.elements[k] == old(list.elements[k])
  {
    if index < 0 || index >= list.size {
      return Fail(IndexOutOfBounds);
    }
    var elements := list.elements;
    ghost var s := elements[..];
    ghost var n := list.size;
    r := ArrayCopy(elements, index + 1, elements, index, list.size - index - 1);
    assert r.Pass?;
    ghost var shifted := elements[..];
    assert shifted == s[..index] + s[index + 1..n] + s[n - 1..];
    elements[list.size - 1] := None;
    ghost var t := elements[..];
    assert t == shifted[n - 1 := None];
    ShiftLeftClear(s, t, index, n, None);
    list.DownSize();
    assert list.Contents() == t[..n - 1];
    forall k | n <= k < elements.Length
      ensures elements[k] == old(elements[k])
    {
      assert elements[k] == t[k] && old(elements[k]) == s[k];
    }
  }

  /** Clear: nulls every live slot, then counts the size down to 0. The
      backing array and its capacity stay. */
  method Clear<T>(list: MyArrayList<T>)
    requires list.Valid()
    modifies list, list.elements
    ensures list.Valid() && list.elements == old(list.elements)
    ensures list.size == 0 && list.Contents() == []
    ensures forall k :: 0 <= k < old(list.size) ==> list.elements[k] == None
    ensures forall k :: old(list.size) <= k < list.Capacity() ==> list.elements[k] == old(list.elements[k])
  {
    var elements := list.elements;
    for i := 0 to list.size
      invariant list.elements == elements && list.size == old(list.size)
      invariant forall k :: 0 <= k < i ==> elements[k] == None
      invariant forall k :: i <= k < elements.Length ==> elements[k] == old(elements[k])
    {
      elements[i] := None;
    }
    while list.size > 0
      invariant list.elements == elements && list.Valid()
      invariant forall k :: 0 <= k < old(list.size) ==> elements[k] == None
      invariant forall k :: old(list.size) <= k < elements.Length ==> elements[k] == old(elements[k])
      decreases list.size
    {
      list.DownSize();
    }
  }

  /** Set (`set(list, index, element)`): checked overwrite of one live slot. */
  method Set<T>(list: MyArrayList<T>, index: int, element: Option<T>) returns (r: Outcome)
    requires list.Valid()
    modifies list.elements
    ensures r.Fail? <==> !(0 <= index < list.size)
    ensures r.Fail? ==> r.error == IndexOutOfBounds && list.elements[..] == old(list.elements[..])
    ensures r.Pass? ==> list.Contents() == old(list.Contents())[index := element]
    ensures forall k :: list.size <= k < list.Capacity() ==> list.elements[k] == old(list.elements[k])
  {
    if index < 0 || index >= list.size {
      return Fail(IndexOutOfBounds);
    }
    list.SetInternal(index, element);
    r := Pass;
  }
}
