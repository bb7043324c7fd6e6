/** The growable list: a backing array whose first `size` slots are live. */
module ArrayList {
  import opened Errors

  /** Capacity of a list made by the no-argument constructor. */
  const DefaultCapacity: nat := 10

  /** Every bound System.arraycopy checks before it copies anything. */
  predicate CopyInBounds(srcLength: nat, srcPos: int, destLength: nat, destPos: int, length: int) {
    0 <= srcPos && 0 <= destPos && 0 <= length
    && srcPos + length <= srcLength && destPos + length <= destLength
  }

  /** System.arraycopy: it throws without writing anything when a bound fails,
      and otherwise copies as if through a temporary array, so that a shift
      inside one array (src == dest) is safe in either direction. */
  method ArrayCopy<E>(src: array<E>, srcPos: int, dest: array<E>, destPos: int, length: int)
    returns (r: Outcome)
    modifies dest
    ensures r.Pass? <==> CopyInBounds(src.Length, srcPos, dest.Length, destPos, length)
    ensures r.Fail? ==> r.error == ArrayIndexOutOfBounds && dest[..] == old(dest[..])
    ensures r.Pass? ==>
      dest[..] == old(dest[..])[..destPos] + old(src[..])[srcPos..srcPos + length] + old(dest[..])[destPos + length..]
  {
    if !CopyInBounds(src.Length, srcPos, dest.Length, destPos, length) {
      return Fail(ArrayIndexOutOfBounds);
    }
    var buffer := src[..][srcPos..srcPos + length];
    ghost var before := dest[..];
    for k := 0 to length
      invariant forall m :: 0 <= m < dest.Length ==>
        dest[m] == if destPos <= m < destPos + k then buffer[m - destPos] else before[m]
    {
      dest[destPos + k] := buffer[k];
    }
    assert dest[..] == before[..destPos] + buffer + before[destPos + length..];
    r := Pass;
  }

  /** How `toString` renders one slot: a null slot prints as "null". */
  function ShowSlot<T>(x: Option<T>, show: T -> string): string {
    match x
    case None => "null"
    case Some(v) => show(v)
  }

  /** The rendered slots of `xs` in order, with ", " between neighbours. */
  function Joined<T>(xs: seq<Option<T>>, show: T -> string): string
    decreases |xs|
  {
    if |xs| == 0 then ""
    else if |xs| == 1 then ShowSlot(xs[0], show)
    else Joined(xs[..|xs| - 1], show) + ", " + ShowSlot(xs[|xs| - 1], show)
  }

  /** What `toString` produces for the live slots `xs`. */
  function Render<T>(xs: seq<Option<T>>, show: T -> string): (r: string)
    ensures |r| >= 2 && r[0] == '[' && r[|r| - 1] == ']'
    ensures xs == [] ==> r == "[]"
  {
    "[" + Joined(xs, show) + "]"
  }

  /** The separator sits exactly between two non-empty runs of elements: the
      rendering of a concatenation is the two renderings joined by ", ". */
  lemma {:induction false} JoinedConcat<T>(a: seq<Option<T>>, b: seq<Option<T>>, show: T -> string)
    requires a != [] && b != []
    ensures Joined(a + b, show) == Joined(a, show) + ", " + Joined(b, show)
    decreases |b|
  {
    var ab := a + b;
    if |b| == 1 {
      assert ab[..|ab| - 1] == a;
    } else {
      var front := b[..|b| - 1];
      assert ab[..|ab| - 1] == a + front;
      JoinedConcat(a, front, show);
    }
  }

  /** The text `toString` has built after the first `i` of the slots `xs`:
      the opening bracket, those slots, and a separator if more follow. */
  ghost function RenderedPrefix<T>(xs: seq<Option<T>>, i: nat, show: T -> string): string
    requires i <= |xs|
  {
    "[" + Joined(xs[..i], show) + (if 0 < i < |xs| then ", " else "")
  }

  /** One more slot extends the built text by that slot's rendering, then a
      separator unless it was the last. */
  lemma RenderedPrefixStep<T>(xs: seq<Option<T>>, i: nat, show: T -> string)
    requires i < |xs|
    ensures RenderedPrefix(xs, i + 1, show) ==
      RenderedPrefix(xs, i, show) + ShowSlot(xs[i], show) + (if i < |xs| - 1 then ", " else "")
  {
    assert xs[..i + 1][..i] == xs[..i];
  }

  class MyArrayList<T> {
    /** The backing array; its length is the capacity. */
    var elements: array<Option<T>>
    /** The number of live slots, `elements[0..size)`. */
    var size: nat

    ghost predicate Valid()
      reads this
    {
      size <= elements.Length
    }

    /** The live elements in index order. */
    ghost function Contents(): seq<Option<T>>
      reads this, elements
      requires Valid()
    {
      elements[..size]
    }

    function Capacity(): nat
      reads this
    {
      elements.Length
    }

    /** The no-argument constructor: capacity DefaultCapacity, no elements. */
    constructor ()
      ensures Valid() && fresh(elements)
      ensures elements.Length == DefaultCapacity && size == 0 && Contents() == []
      ensures forall k :: 0 <= k < elements.Length ==> elements[k] == None
    {
      elements := new Option<T>[DefaultCapacity](_ => None);
      size := 0;
    }

    /** The capacity constructor once its argument has passed the sign check
        (see NewWithCapacity). */
    constructor WithCapacity(initialCapacity: nat)
      ensures Valid() && fresh(elements)
      ensures elements.Length == initialCapacity && size == 0 && Contents() == []
      ensures forall k :: 0 <= k < elements.Length ==> elements[k] == None
    {
      elements := new Option<T>[initialCapacity](_ => None);
      size := 0;
    }

    /** Checked read of a live slot; a failed check changes nothing. */
    method Get(index: int) returns (r: Result<Option<T>>)
      requires Valid()
      ensures r.Success? <==> 0 <= index < size
      ensures r.Success? ==> r.value == elements[index]
      ensures r.Failure? ==> r.error == IndexOutOfBounds
    {
      if index < 0 || index >= size {
        return Failure(IndexOutOfBounds);
      }
      return Success(elements[index]);
    }

    /** The number of live elements. */
    function Size(): (n: nat)
      reads this, elements
      requires Valid()
      ensures n == |Contents()|
    {
      size
    }

    /** Unchecked write of any slot of the backing array, live or not; the JVM's
        own array bound is the caller's obligation. */
    method SetInternal(index: int, element: Option<T>)
      requires 0 <= index < elements.Length
      modifies elements
      ensures elements[..] == old(elements[..])[index := element]
    {
      elements[index] := element;
    }

    /** Replaces the backing array by one twice as long holding the live slots
        at the same positions. A capacity of 0 stays 0. */
    method Resize()
      requires Valid()
      modifies this
      ensures Valid() && fresh(elements) && size == old(size)
      ensures elements.Length == 2 * old(elements.Length)
      ensures Contents() == old(Contents())
      ensures forall k :: size <= k < elements.Length ==> elements[k] == None
    {
      var newElements := new Option<T>[elements.Length * 2](_ => None);
      var r := ArrayCopy(elements, 0, newElements, 0, size);
      assert r.Pass?;
      elements := newElements;
    }

    /** Resize with a growth policy that cannot stall: it doubles, except
        that an empty backing array grows to one slot. */
    method ResizeFixed()
      requires Valid()
      modifies this
      ensures Valid() && fresh(elements) && size == old(size)
      ensures elements.Length == if old(elements.Length) == 0 then 1 else 2 * old(elements.Length)
      ensures size < elements.Length
      ensures Contents() == old(Contents())
      ensures forall k :: size <= k < elements.Length ==> elements[k] == None
    {
      var newLength := if elements.Length == 0 then 1 else elements.Length * 2;
      var newElements := new Option<T>[newLength](_ => None);
      var r := ArrayCopy(elements, 0, newElements, 0, size);
      assert r.Pass?;
      elements := newElements;
    }

    /** Unchecked: makes one more slot live. */
    method UpSize()
      requires size < elements.Length
      modifies this`size
      ensures Valid() && size == old(size) + 1
    {
      size := size + 1;
    }

    /** Unchecked: makes the last live slot dead. */
    method DownSize()
      requires 0 < size
      modifies this`size
      ensures size == old(size) - 1
    {
      size := size - 1;
    }

    /** `toString`: "[", the live slots separated by ", ", then "]". */
    method ToString(show: T -> string) returns (s: string)
      requires Valid()
      ensures s == Render(Contents(), show)
    {
      var live := elements[..size];
      s := "[";
      for i := 0 to size
        invariant s == RenderedPrefix(live, i, show)
      {
        RenderedPrefixStep(live, i, show);
        s := s + ShowSlot(live[i], show);
        if i < size - 1 {
          s := s + ", ";
        }
      }
      assert live[..size] == live;
      s := s + "]";
    }
  }

  /** The capacity constructor: a negative capacity throws
      IllegalArgumentException and no list is made. */
  method NewWithCapacity<T>(initialCapacity: int) returns (r: Result<MyArrayList<T>>)
    ensures r.Failure? <==> initialCapacity < 0
    ensures r.Failure? ==> r.error == IllegalArgument
    ensures r.Success? ==> fresh(r.value) && fresh(r.value.elements) && r.value.Valid()
    ensures r.Success? ==> r.value.Capacity() == initialCapacity && r.value.Contents() == []
    ensures r.Success? ==> forall k :: 0 <= k < r.value.elements.Length ==> r.value.elements[k] == None
  {
    if initialCapacity < 0 {
      return Failure(IllegalArgument);
    }
    var list := new MyArrayList<T>.WithCapacity(initialCapacity);
    return Success(list);
  }
}
