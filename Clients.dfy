/**
 * Client code that uses the list only through its specifications, one
 * method per usage scenario of the list's test suite. Each method states,
 * in its postcondition, the outcome those scenarios check.
 */
module Clients {
  import opened Sequences
  import opened LinkedList

  /** A list holding `xs`, built by inserting each value at the tail, as the scenarios do. */
  method FromSeq<T(0, ==)>(xs: seq<T>) returns (list: DoublyLinkedList<T>)
    ensures fresh(list) && fresh(list.Repr)
    ensures list.Valid() && list.Contents == xs
  {
    list := new DoublyLinkedList<T>();
    for k := 0 to |xs|
      invariant fresh(list) && fresh(list.Repr)
      invariant list.Valid() && list.Contents == xs[..k]
    {
      list.InsertAtTail(xs[k]);
      assert xs[..k + 1] == xs[..k] + [xs[k]];
    }
    assert xs[..|xs|] == xs;
  }

  /** Two insertions at the head leave the later one first. */
  method InsertAtHeadTwice() returns (size: nat, first: Result<int>, second: Result<int>)
    ensures size == 2 && first == Ok(1) && second == Ok(2)
  {
    var list := new DoublyLinkedList<int>();
    list.InsertAtHead(2);
    list.InsertAtHead(1);
    size := list.Size();
    first := list.Get(0);
    second := list.Get(1);
  }

  /** Two insertions at the tail keep their order. */
  method InsertAtTailTwice() returns (size: nat, first: Result<int>, second: Result<int>)
    ensures size == 2 && first == Ok(1) && second == Ok(2)
  {
    var list := new DoublyLinkedList<int>();
    list.InsertAtTail(1);
    list.InsertAtTail(2);
    size := list.Size();
    first := list.Get(0);
    second := list.Get(1);
  }

  /** Head and tail insertions interleave: 5, 6 at the tail, 4 at the head, 7 at the tail. */
  method AlternateHeadAndTail() returns (size: nat, first: Result<int>, last: Result<int>)
    ensures size == 4 && first == Ok(4) && last == Ok(7)
  {
    var list := new DoublyLinkedList<int>();
    list.InsertAtHead(5);
    list.InsertAtTail(6);
    list.InsertAtHead(4);
    list.InsertAtTail(7);
    size := list.Size();
    first := list.Get(0);
    last := list.Get(3);
  }

  /**
   * `insertAt` at index 0 of an empty list, at index 0 again, in the middle
   * and at index `size()`: the size and the element just placed, after each.
   */
  method InsertAtPositions() returns (sizes: seq<nat>, got: seq<Result<int>>)
    ensures sizes == [1, 2, 3, 4] && got == [Ok(10), Ok(5), Ok(7), Ok(12)]
  {
    var list := new DoublyLinkedList<int>();
    var r := list.InsertAt(0, 10);
    var size := list.Size();
    var g := list.Get(0);
    sizes, got := [size], [g];
    r := list.InsertAt(0, 5);
    size := list.Size();
    g := list.Get(0);
    sizes, got := sizes + [size], got + [g];
    var later, laterGot := InsertInMiddleThenAtEnd(list);
    sizes, got := sizes + later, got + laterGot;
  }

  /** The second half of `InsertAtPositions`: from [5, 10], insert 7 at index 1 and 12 at index 3. */
  method InsertInMiddleThenAtEnd(list: DoublyLinkedList<int>) returns (sizes: seq<nat>, got: seq<Result<int>>)
    requires list.Valid() && list.Contents == [5, 10]
    modifies list, list.Repr
    ensures sizes == [3, 4] && got == [Ok(7), Ok(12)]
  {
    var r := list.InsertAt(1, 7);
    var size := list.Size();
    var g := list.Get(1);
    sizes, got := [size], [g];
    r := list.InsertAt(3, 12);
    size := list.Size();
    g := list.Get(3);
    sizes, got := sizes + [size], got + [g];
  }

  /** Indices past the valid range fail, on an empty list and on a list of one element. */
  method IndicesOutOfRange() returns (
    insertEmpty: Result<()>, insertPast: Result<()>,
    deleteEmpty: Result<()>, deletePast: Result<()>, getEmpty: Result<int>)
    ensures insertEmpty == Err(OutOfRange) && insertPast == Err(OutOfRange)
    ensures deleteEmpty == Err(OutOfRange) && deletePast == Err(OutOfRange)
    ensures getEmpty == Err(OutOfRange)
  {
    var list := new DoublyLinkedList<int>();
    insertEmpty := list.InsertAt(1, 42);
    deleteEmpty := list.DeleteAt(0);
    getEmpty := list.Get(0);
    list.InsertAtHead(1);
    insertPast := list.InsertAt(3, 99);
    deletePast := list.DeleteAt(2);
  }

  /** Deleting the middle element of [1, 2, 3] leaves [1, 3]. */
  method DeleteMiddle() returns (size: nat, first: Result<int>, second: Result<int>)
    ensures size == 2 && first == Ok(1) && second == Ok(3)
  {
    var list := FromSeq([1, 2, 3]);
    var r := list.DeleteAt(1);
    size := list.Size();
    first := list.Get(0);
    second := list.Get(1);
  }

  /** Reversing [1, 2, 3] gives [3, 2, 1]. */
  method ReverseOdd() returns (first: Result<int>, last: Result<int>)
    ensures first == Ok(3) && last == Ok(1)
  {
    var list := FromSeq([1, 2, 3]);
    list.Reverse();
    ReversedAt([1, 2, 3], 0);
    ReversedAt([1, 2, 3], 2);
    first := list.Get(0);
    last := list.Get(2);
  }

  /** Reversing [1, 2, 3, 4] gives [4, 3, 2, 1]; reversing an empty list leaves it empty. */
  method ReverseEvenAndEmpty() returns (first: Result<int>, last: Result<int>, emptySize: nat)
    ensures first == Ok(4) && last == Ok(1) && emptySize == 0
  {
    var list := FromSeq([1, 2, 3, 4]);
    list.Reverse();
    ReversedAt([1, 2, 3, 4], 0);
    ReversedAt([1, 2, 3, 4], 3);
    first := list.Get(0);
    last := list.Get(3);
    var empty := new DoublyLinkedList<int>();
    empty.Reverse();
    emptySize := empty.Size();
  }

  /** A thousand elements 0 .. 999: the last is 999, and after reversal the ends swap. */
  method ReverseLarge() returns (size: nat, last: Result<int>, firstAfter: Result<int>, lastAfter: Result<int>)
    ensures size == 1000 && last == Ok(999) && firstAfter == Ok(999) && lastAfter == Ok(0)
  {
    ghost var xs := seq(1000, i => i);
    var list := FromSeq(seq(1000, i => i));
    size := list.Size();
    last := list.Get(999);
    list.Reverse();
    ReversedAt(xs, 0);
    ReversedAt(xs, 999);
    firstAfter := list.Get(0);
    lastAfter := list.Get(999);
  }

  /** After deleting 2 from [0, 1, 2, 3, 4], 2 is gone and 3 has moved to index 2. */
  method SearchAfterDelete() returns (has2: bool, at3: int)
    ensures !has2 && at3 == 2
  {
    var list := FromSeq([0, 1, 2, 3, 4]);
    var r := list.DeleteAt(2);
    assert list.Contents == [0, 1, 3, 4];
    FirstIndexUnique([0, 1, 3, 4], 3, 2);
    has2 := list.Contains(2);
    at3 := list.IndexOf(3);
  }

  /**
   * Deleting from [1, 2, 3, 4] at the head, at the tail, in the middle and
   * the last element: the size and a remaining element after each, and an
   * out-of-range `get` once the list is empty.
   */
  method DeleteToEmpty() returns (sizes: seq<nat>, got: seq<Result<int>>, last: Result<int>)
    ensures sizes == [3, 2, 1, 0] && got == [Ok(2), Ok(3), Ok(3)] && last == Err(OutOfRange)
  {
    var list := FromSeq([1, 2, 3, 4]);
    var r := list.DeleteAt(0);
    var size := list.Size();
    var g := list.Get(0);
    sizes, got := [size], [g];
    r := list.DeleteAt(list.Size() - 1);
    size := list.Size();
    g := list.Get(1);
    sizes, got := sizes + [size], got + [g];
    var later, laterGot;
    later, laterGot, last := DeleteLastTwo(list);
    sizes, got := sizes + later, got + laterGot;
  }

  /** The second half of `DeleteToEmpty`: from [2, 3], delete index 0 twice. */
  method DeleteLastTwo(list: DoublyLinkedList<int>) returns (sizes: seq<nat>, got: seq<Result<int>>, last: Result<int>)
    requires list.Valid() && list.Contents == [2, 3]
    modifies list, list.Repr
    ensures sizes == [1, 0] && got == [Ok(3)] && last == Err(OutOfRange)
  {
    var r := list.DeleteAt(0);
    var size := list.Size();
    var g := list.Get(0);
    sizes, got := [size], [g];
    r := list.DeleteAt(0);
    size := list.Size();
    sizes := sizes + [size];
    last := list.Get(0);
  }

  /** In [a, b, c, b] search finds 'a' at index 0 and 'c' at index 2. */
  method SearchCharacters() returns (a: int, c: int)
    ensures a == 0 && c == 2
  {
    var list := FromSeq(['a', 'b', 'c', 'b']);
    FirstIndexUnique(['a', 'b', 'c', 'b'], 'a', 0);
    FirstIndexUnique(['a', 'b', 'c', 'b'], 'c', 2);
    a := list.IndexOf('a');
    c := list.IndexOf('c');
  }

  /** In [a, b, c, b] search reports the first of two occurrences, and -1 for an absent value. */
  method SearchRepeatedAndAbsent() returns (b: int, x: int)
    ensures b == 1 && x == -1
  {
    var list := FromSeq(['a', 'b', 'c', 'b']);
    FirstIndexUnique(['a', 'b', 'c', 'b'], 'b', 1);
    b := list.IndexOf('b');
    x := list.IndexOf('x');
  }

  /** In [a, b, c, b] `contains` holds for 'c' and not for 'x'. */
  method ContainsCharacters() returns (hasC: bool, hasX: bool)
    ensures hasC && !hasX
  {
    var list := FromSeq(['a', 'b', 'c', 'b']);
    hasC := list.Contains('c');
    hasX := list.Contains('x');
  }

  /** Reversing twice gives back the text the list had before. */
  method ReverseTwiceKeepsText(text: int -> string) returns (before: string, after: string)
    ensures before == after == Render([2, 4, 6, 8], text)
  {
    var list := FromSeq([2, 4, 6, 8]);
    before := list.ToString(None, text);
    list.Reverse();
    list.Reverse();
    ReversedTwice([2, 4, 6, 8]);
    after := list.ToString(None, text);
  }

  /** A formatter, when given, is used instead of the default text of the elements. */
  method FormatterWins(format: int -> string, text: int -> string) returns (formatted: string, plain: string)
    ensures formatted == "[" + format(3) + ", " + format(4) + "]"
    ensures plain == "[" + text(3) + ", " + text(4) + "]"
  {
    var list := FromSeq([3, 4]);
    formatted := list.ToString(Some(format), text);
    plain := list.ToString(None, text);
    RenderThree(3, 4, 0, format);
    RenderThree(3, 4, 0, text);
  }

  /** On an empty list `begin() == end()`: iteration visits nothing and the text is "[]". */
  method EmptyIteration(text: int -> string) returns (same: bool, visited: seq<int>, rendered: string)
    ensures same && visited == [] && rendered == "[]"
  {
    var list := new DoublyLinkedList<int>();
    same := list.Begin() == list.End();
    visited := list.Elements();
    rendered := list.ToString(None, text);
  }

  /** Iterating forward visits [1, 2, 3, 4]; stepping back from `end()` visits them reversed. */
  method BothDirections() returns (forward: seq<int>, backward: seq<int>)
    ensures forward == [1, 2, 3, 4] && backward == [4, 3, 2, 1]
  {
    var list := FromSeq([1, 2, 3, 4]);
    forward := list.Elements();
    backward := list.ElementsBackward();
    forall k | 0 <= k < 4
      ensures backward[k] == [4, 3, 2, 1][k]
    {
      ReversedAt([1, 2, 3, 4], k);
    }
  }

  /**
   * An iterator on the first node of [1, 2, 3] is still on that node after
   * element 1 is deleted, and `++` then reaches the element that followed
   * the deleted one.
   */
  method IteratorSurvivesDelete() returns (before: int, after: int, atEnd: bool)
    ensures before == 1 && after == 3 && !atEnd
  {
    var list := new DoublyLinkedList<int>();
    list.InsertAtTail(1);
    list.InsertAtTail(2);
    list.InsertAtTail(3);
    var it := list.Begin();
    var r := list.DeleteAt(1);
    list.ValueAt(it, 1);
    before := it.Value();
    list.NextStep(it, 1);
    it := it.Next();
    list.IteratorsEqual(it, 2, list.End(), 3);
    atEnd := it == list.End();
    list.ValueAt(it, 2);
    after := it.Value();
  }

  /** Iterators on the same node are equal; one step apart they differ; `++` then `--` is identity. */
  method IteratorEquality() returns (sameStart: bool, afterNext: bool, afterPrev: bool)
    ensures sameStart && !afterNext && afterPrev
  {
    var list := new DoublyLinkedList<char>();
    list.InsertAtTail('A');
    list.InsertAtTail('B');
    var it1 := list.Begin();
    var it2 := list.Begin();
    sameStart := it1 == it2;
    list.NextStep(it2, 1);
    it2 := it2.Next();
    list.IteratorsEqual(it1, 1, it2, 2);
    afterNext := it1 == it2;
    list.PrevStep(it2, 2);
    it2 := it2.Prev();
    afterPrev := it1 == it2;
  }

  /** A copy keeps its elements when the original loses one. */
  method CopyIsIndependent() returns (copySize: nat, copyFirst: Result<int>)
    ensures copySize == 3 && copyFirst == Ok(1)
  {
    var src := FromSeq([1, 2, 3]);
    var copy := new DoublyLinkedList.Copy(src);
    var r := src.DeleteAt(0);
    copySize := copy.Size();
    copyFirst := copy.Get(0);
  }

  /** A list assigned from another keeps its elements when the other loses one. */
  method AssignedCopyIsIndependent() returns (dstSize: nat, dstSecond: Result<int>)
    ensures dstSize == 3 && dstSecond == Ok(2)
  {
    var copy := FromSeq([1, 2, 3]);
    var dst := new DoublyLinkedList<int>();
    dst.CopyFrom(copy);
    var r := copy.DeleteAt(1);
    dstSize := dst.Size();
    dstSecond := dst.Get(1);
  }

  /** Move construction hands the element over and leaves the source a usable empty list. */
  method MoveConstruction() returns (movedSize: nat, movedFirst: Result<int>, sourceSize: nat)
    ensures movedSize == 1 && movedFirst == Ok(99) && sourceSize == 0
  {
    var temp := new DoublyLinkedList<int>();
    temp.InsertAtTail(99);
    var moved := new DoublyLinkedList.Move(temp);
    movedSize := moved.Size();
    movedFirst := moved.Get(0);
    sourceSize := temp.Size();
  }

  /** Move assignment hands the element over and leaves the source a usable empty list. */
  method MoveAssignment() returns (targetSize: nat, targetFirst: Result<int>, sourceSize: nat)
    ensures targetSize == 1 && targetFirst == Ok(99) && sourceSize == 0
  {
    var moved := FromSeq([99]);
    var target := new DoublyLinkedList<int>();
    target.MoveFrom(moved);
    targetSize := target.Size();
    targetFirst := target.Get(0);
    sourceSize := moved.Size();
  }
}
