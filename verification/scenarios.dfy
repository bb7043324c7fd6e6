/** Concrete runs of the list, replaying the demonstration program and the
    unit tests of the repository on the model. */
module Scenarios {
  import opened Errors
  import opened ArrayList
  import opened Actions
  import opened QuickSort

  /** `Integer.compareTo`, as Comparator.naturalOrder() uses it. Java throws
      on a null operand; the model orders null first instead. */
  function NaturalOrder(a: Option<int>, b: Option<int>): int {
    if a.None? then (if b.None? then 0 else -1)
    else if b.None? then 1
    else if a.value < b.value then -1
    else if a.value == b.value then 0
    else 1
  }

  /** Comparator.reverseOrder(): the natural order with its operands swapped. */
  function ReverseOrder(a: Option<int>, b: Option<int>): int {
    NaturalOrder(b, a)
  }

  lemma NaturalOrderIsTotal()
    ensures TotalPreorder(NaturalOrder)
  {
  }

  lemma ReverseOrderIsTotal()
    ensures TotalPreorder(ReverseOrder)
  {
  }

  lemma NaturalOrderIsAntisymmetric()
    ensures Antisymmetric(NaturalOrder)
  {
  }

  lemma ReverseOrderIsAntisymmetric()
    ensures Antisymmetric(ReverseOrder)
  {
  }

  /** The only arrangement of 30, 10, 20 in natural order. */
  lemma {:induction false} OnlyNaturalArrangement(s: seq<Option<int>>)
    requires Sorted(s, NaturalOrder) && multiset(s) == multiset([Some(30), Some(10), Some(20)])
    ensures s == [Some(10), Some(20), Some(30)]
  {
    var up := [Some(10), Some(20), Some(30)];
    assert Sorted(up, NaturalOrder);
    assert multiset(s) == multiset(up);
    NaturalOrderIsAntisymmetric();
    SortedUnique(s, up, NaturalOrder);
  }

  /** The only arrangement of 30, 10, 20 in reverse order. */
  lemma {:induction false} OnlyReverseArrangement(s: seq<Option<int>>)
    requires Sorted(s, ReverseOrder) && multiset(s) == multiset([Some(30), Some(10), Some(20)])
    ensures s == [Some(30), Some(20), Some(10)]
  {
    var down := [Some(30), Some(20), Some(10)];
    assert Sorted(down, ReverseOrder);
    assert multiset(s) == multiset(down);
    ReverseOrderIsAntisymmetric();
    SortedUnique(s, down, ReverseOrder);
  }

  /** 10, 15, 25, 40, 50 is already in natural order. */
  lemma DemoListInOrder()
    ensures Sorted([Some(10), Some(15), Some(25), Some(40), Some(50)], NaturalOrder)
  {
  }

  /** Decimal text of an integer, as Integer.toString writes it. */
  function Decimal(n: int): (r: string)
    ensures r != []
    decreases if n < 0 then 1 - n else n
  {
    if n < 0 then "-" + Decimal(-n)
    else if n < 10 then [Digit(n)]
    else Decimal(n / 10) + [Digit(n % 10)]
  }

  function Digit(d: int): char
    requires 0 <= d < 10
  {
    "0123456789"[d]
  }

  /** Append on a list with room, stated only as the scenarios need it. */
  method Push(list: MyArrayList<int>, x: int)
    requires list.Valid() && list.size < list.Capacity()
    modifies list, list.elements
    ensures list.Valid() && list.elements == old(list.elements)
    ensures list.Contents() == old(list.Contents()) + [Some(x)]
  {
    var r := Append(list, Some(x));
  }

  /** Builds the list of the demonstration program: capacity 5, then the five
      appends 10, 20, 30, 40, 50, which fill it exactly. */
  method FiveFull() returns (list: MyArrayList<int>)
    ensures fresh(list) && fresh(list.elements) && list.Valid()
    ensures list.Capacity() == 5
    ensures list.Contents() == [Some(10), Some(20), Some(30), Some(40), Some(50)]
  {
    list := new MyArrayList<int>.WithCapacity(5);
    Push(list, 10);
    assert list.Capacity() == 5 && list.Contents() == [Some(10)];
    Push(list, 20);
    assert list.Capacity() == 5 && list.Contents() == [Some(10), Some(20)];
    Push(list, 30);
    assert list.Capacity() == 5 && list.Contents() == [Some(10), Some(20), Some(30)];
    Push(list, 40);
    assert list.Capacity() == 5 && list.Contents() == [Some(10), Some(20), Some(30), Some(40)];
    Push(list, 50);
  }

  /** The demonstration program up to its insert-at call, as written: the list
      is full, so inserting 25 at index 2 throws ArrayIndexOutOfBounds. The
      elements are still the five appended ones, but the capacity has
      already doubled to 10. */
  method FullInsertAsWritten() returns (r: Outcome, contents: seq<Option<int>>, capacity: nat)
    ensures r == Fail(ArrayIndexOutOfBounds)
    ensures contents == [Some(10), Some(20), Some(30), Some(40), Some(50)]
    ensures capacity == 10
  {
    var list := FiveFull();
    r := Insert(list, 2, Some(25));
    contents := list.elements[..list.size];
    capacity := list.Capacity();
  }

  /** The whole demonstration program with the corrected insert-at: insert 25
      at 2 grows the full list, then remove index 3 and set index 1 to 15. */
  method DemoFixed() returns (afterInsert: seq<Option<int>>, afterRemove: seq<Option<int>>,
                              afterSet: seq<Option<int>>, capacity: nat)
    ensures afterInsert == [Some(10), Some(20), Some(25), Some(30), Some(40), Some(50)]
    ensures afterRemove == [Some(10), Some(20), Some(25), Some(40), Some(50)]
    ensures afterSet == [Some(10), Some(15), Some(25), Some(40), Some(50)]
    ensures capacity == 10
  {
    var list := FiveFull();
    var r := InsertFixed(list, 2, Some(25));
    afterInsert := list.elements[..list.size];
    r := Remove(list, 3);
    afterRemove := list.elements[..list.size];
    r := Set(list, 1, Some(15));
    afterSet := list.elements[..list.size];
    capacity := list.Capacity();
  }

  /** The list the corrected demonstration run has built by its sort call. */
  method DemoFixedList() returns (list: MyArrayList<int>)
    ensures fresh(list) && fresh(list.elements) && list.Valid()
    ensures list.Capacity() == 10
    ensures list.Contents() == [Some(10), Some(15), Some(25), Some(40), Some(50)]
  {
    list := FiveFull();
    var r := InsertFixed(list, 2, Some(25));
    assert list.Capacity() == 10 && list.Contents() == [Some(10), Some(20), Some(25), Some(30), Some(40), Some(50)];
    r := Remove(list, 3);
    assert list.Contents() == [Some(10), Some(20), Some(25), Some(40), Some(50)];
    r := Set(list, 1, Some(15));
  }

  /** The end of the demonstration program, continuing from the list the
      corrected run has built: 10, 15, 25, 40, 50 with capacity 10. Sorting it
      in natural order leaves it as it is, because it is already in order,
      and clear empties it without giving back capacity. */
  method DemoSortAndClear() returns (afterSort: seq<Option<int>>, afterClear: seq<Option<int>>, capacity: nat)
    ensures afterSort == [Some(10), Some(15), Some(25), Some(40), Some(50)]
    ensures afterClear == [] && capacity == 10
  {
    var list := DemoFixedList();
    NaturalOrderIsTotal();
    DemoListInOrder();
    Sort(list, NaturalOrder);
    afterSort := list.elements[..list.size];
    assert afterSort == [Some(10), Some(15), Some(25), Some(40), Some(50)];
    Clear(list);
    afterClear := list.elements[..list.size];
    capacity := list.Capacity();
  }

  /** Three appends in the order 30, 10, 20 on a default list. */
  method ThirtyTenTwenty() returns (list: MyArrayList<int>)
    ensures fresh(list) && fresh(list.elements) && list.Valid()
    ensures list.Contents() == [Some(30), Some(10), Some(20)]
  {
    list := new MyArrayList<int>();
    Push(list, 30);
    assert list.Contents() == [Some(30)];
    Push(list, 10);
    assert list.Contents() == [Some(30), Some(10)];
    Push(list, 20);
  }

  /** The natural-order sort test: 30, 10, 20 becomes 10, 20, 30. */
  method SortNaturalScenario() returns (sorted: seq<Option<int>>)
    ensures sorted == [Some(10), Some(20), Some(30)]
  {
    var list := ThirtyTenTwenty();
    NaturalOrderIsTotal();
    Sort(list, NaturalOrder);
    sorted := list.elements[..list.size];
    OnlyNaturalArrangement(sorted);
  }

  /** The reverse-order sort test: 30, 10, 20 becomes 30, 20, 10. */
  method SortReverseScenario() returns (sorted: seq<Option<int>>)
    ensures sorted == [Some(30), Some(20), Some(10)]
  {
    var list := ThirtyTenTwenty();
    ReverseOrderIsTotal();
    Sort(list, ReverseOrder);
    sorted := list.elements[..list.size];
    OnlyReverseArrangement(sorted);
  }

  /** How 10, 20, 30 render in decimal. */
  lemma RenderTenTwentyThirty()
    ensures Render([Some(10), Some(20), Some(30)], Decimal) == "[10, 20, 30]"
  {
    assert Decimal(10) == "10" && Decimal(20) == "20" && Decimal(30) == "30";
    var xs := [Some(10), Some(20), Some(30)];
    assert xs[..2][..1] == [Some(10)];
    assert Joined(xs[..2], Decimal) == "10, 20";
  }

  /** Three appends 10, 20, 30 on a default list. */
  method TenTwentyThirty() returns (list: MyArrayList<int>)
    ensures fresh(list) && fresh(list.elements) && list.Valid()
    ensures list.Capacity() == DefaultCapacity
    ensures list.Contents() == [Some(10), Some(20), Some(30)]
  {
    list := new MyArrayList<int>();
    Push(list, 10);
    assert list.Contents() == [Some(10)];
    Push(list, 20);
    assert list.Contents() == [Some(10), Some(20)];
    Push(list, 30);
  }

  /** The rendering tests: three appends print as "[10, 20, 30]", and a list
      emptied by clear prints as "[]". */
  method RenderScenario() returns (three: string, cleared: string)
    ensures three == "[10, 20, 30]"
    ensures cleared == "[]"
  {
    var list := TenTwentyThirty();
    three := list.ToString(Decimal);
    RenderTenTwentyThirty();
    Clear(list);
    cleared := list.ToString(Decimal);
  }

  /** The insert-at test on a list with room: 15 at index 1 of 10, 20, 30. */
  method InsertWithRoomScenario() returns (r: Outcome, contents: seq<Option<int>>)
    ensures r == Pass
    ensures contents == [Some(10), Some(15), Some(20), Some(30)]
  {
    var list := TenTwentyThirty();
    r := Insert(list, 1, Some(15));
    contents := list.elements[..list.size];
  }

  /** The remove and set tests: removing index 1 of 10, 20, 30 leaves 10, 30;
      setting index 1 of 10, 20 to 30 gives 10, 30. */
  method RemoveAndSetScenario() returns (removed: seq<Option<int>>, replaced: seq<Option<int>>)
    ensures removed == [Some(10), Some(30)]
    ensures replaced == [Some(10), Some(30)]
  {
    var list := TenTwentyThirty();
    var r := Remove(list, 1);
    removed := list.elements[..list.size];
    var other := new MyArrayList<int>();
    Push(other, 10);
    assert other.Contents() == [Some(10)];
    Push(other, 20);
    r := Set(other, 1, Some(30));
    replaced := other.elements[..other.size];
  }

  /** The out-of-range tests: on the one-element list 10, insert at 2, remove
      at 1 and set at 1 all throw IndexOutOfBounds and leave 10 in place; get
      on an empty list throws too, and a negative capacity is refused. */
  method OutOfRangeScenario() returns (inserted: Outcome, removed: Outcome, replaced: Outcome,
                                       get: Result<Option<int>>, contents: seq<Option<int>>,
                                       negative: Result<MyArrayList<int>>)
    ensures inserted == removed == replaced == Fail(IndexOutOfBounds)
    ensures get == Failure(IndexOutOfBounds)
    ensures contents == [Some(10)]
    ensures negative.Failure? && negative.error == IllegalArgument
  {
    var list := new MyArrayList<int>();
    Push(list, 10);
    inserted := Insert(list, 2, Some(20));
    removed := Remove(list, 1);
    replaced := Set(list, 1, Some(20));
    contents := list.elements[..list.size];
    var empty := new MyArrayList<int>();
    get := empty.Get(0);
    negative := NewWithCapacity(-5);
  }

  /** The raw-slot tests: two slots written through the backing array and made
      live, then resize doubles capacity 2 to 4 and keeps size 2; a slot
      written the same way reads back through get. */
  method RawSlotScenario() returns (size: nat, capacity: nat, first: Result<Option<int>>)
    ensures size == 2 && capacity == 4
    ensures first == Success(Some(10))
  {
    var list := new MyArrayList<int>.WithCapacity(2);
    list.SetInternal(0, Some(10));
    list.SetInternal(1, Some(20));
    list.UpSize();
    list.UpSize();
    list.Resize();
    size := list.Size();
    capacity := list.Capacity();
    first := list.Get(0);
  }

  /** Append on a list made with capacity 0, as written: doubling 0 leaves 0,
      so the store into slot 0 throws ArrayIndexOutOfBounds. */
  method ZeroCapacityAsWritten() returns (r: Outcome, contents: seq<Option<int>>, capacity: nat)
    ensures r == Fail(ArrayIndexOutOfBounds)
    ensures contents == [] && capacity == 0
  {
    var list := new MyArrayList<int>.WithCapacity(0);
    r := Append(list, Some(7));
    contents := list.elements[..list.size];
    capacity := list.Capacity();
  }

  /** The same append with the corrected growth: capacity 0 grows to 1. */
  method ZeroCapacityFixed() returns (contents: seq<Option<int>>, capacity: nat)
    ensures contents == [Some(7)] && capacity == 1
  {
    var list := new MyArrayList<int>.WithCapacity(0);
    AppendFixed(list, Some(7));
    contents := list.elements[..list.size];
    capacity := list.Capacity();
  }
}
