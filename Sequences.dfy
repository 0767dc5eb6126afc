/**
 * The abstract meaning of the list operations: each operation of the
 * doubly linked list is specified as a function on the sequence of its
 * elements, and the properties the list promises are proved here, once,
 * about those functions.
 */
module Sequences {

  /** The sequence `s` with `x` placed at index `i`; later elements move one place right. */
  function InsertedAt<X>(s: seq<X>, i: nat, x: X): seq<X>
    requires i <= |s|
  {
    s[..i] + [x] + s[i..]
  }

  /** The sequence `s` without its element at index `i`; later elements move one place left. */
  function RemovedAt<X>(s: seq<X>, i: nat): seq<X>
    requires i < |s|
  {
    s[..i] + s[i + 1..]
  }

  /** `s` read from back to front. */
  function Reversed<X>(s: seq<X>): (r: seq<X>)
    ensures |r| == |s|
  {
    if s == [] then [] else [s[|s| - 1]] + Reversed(s[..|s| - 1])
  }

  /** The index of the first element of `s` equal to `x`, or -1 when there is none. */
  function FirstIndex<X(==)>(s: seq<X>, x: X): (r: int)
    ensures -1 <= r < |s|
    ensures r == -1 <==> x !in s
    ensures 0 <= r ==> s[r] == x && x !in s[..r]
  {
    if s == [] then -1
    else if s[0] == x then 0
    else
      var k := FirstIndex(s[1..], x);
      assert s[1..] == s[..|s|][1..];
      if k == -1 then -1
      else
        assert s[..k + 1] == [s[0]] + s[1..][..k];
        k + 1
  }

  /** The elements of `s`, each turned into text by `f`. */
  function Formatted<X>(s: seq<X>, f: X -> string): seq<string>
  {
    seq(|s|, i requires 0 <= i < |s| => f(s[i]))
  }

  /** The parts written one after the other with `sep` between neighbours. */
  function Join(parts: seq<string>, sep: string): string
  {
    if parts == [] then ""
    else if |parts| == 1 then parts[0]
    else Join(parts[..|parts| - 1], sep) + sep + parts[|parts| - 1]
  }

  /** The text of a list: its formatted elements, comma-space separated, in brackets. */
  function Render<X>(s: seq<X>, f: X -> string): string
  {
    "[" + Join(Formatted(s, f), ", ") + "]"
  }

  // ---------------------------------------------------------------------
  // Insertion and deletion

  /** Inserting puts `x` at index `i`, keeps what came before and shifts what came after. */
  lemma InsertedAtPlaces<X>(s: seq<X>, i: nat, x: X)
    requires i <= |s|
    ensures |InsertedAt(s, i, x)| == |s| + 1
    ensures InsertedAt(s, i, x)[i] == x
    ensures forall j :: 0 <= j < i ==> InsertedAt(s, i, x)[j] == s[j]
    ensures forall j :: i < j <= |s| ==> InsertedAt(s, i, x)[j] == s[j - 1]
  {
  }

  /** Inserting at index 0 is inserting at the head; at index |s| it is inserting at the tail. */
  lemma InsertedAtEnds<X>(s: seq<X>, x: X)
    ensures InsertedAt(s, 0, x) == [x] + s
    ensures InsertedAt(s, |s|, x) == s + [x]
  {
    assert s[..0] == [] && s[0..] == s;
    assert s[..|s|] == s && s[|s|..] == [];
  }

  /** Deleting removes exactly element `i`; the others keep their relative order. */
  lemma RemovedAtPlaces<X>(s: seq<X>, i: nat)
    requires i < |s|
    ensures |RemovedAt(s, i)| == |s| - 1
    ensures forall j :: 0 <= j < i ==> RemovedAt(s, i)[j] == s[j]
    ensures forall j :: i <= j < |s| - 1 ==> RemovedAt(s, i)[j] == s[j + 1]
  {
  }

  /** Deleting at `i` undoes inserting at `i`. */
  lemma RemoveUndoesInsert<X>(s: seq<X>, i: nat, x: X)
    requires i <= |s|
    ensures RemovedAt(InsertedAt(s, i, x), i) == s
  {
    var t := InsertedAt(s, i, x);
    assert t[..i] == s[..i];
    assert t[i + 1..] == s[i..];
    assert s[..i] + s[i..] == s;
  }

  /** Inserting the deleted element back at `i` restores the sequence. */
  lemma InsertUndoesRemove<X>(s: seq<X>, i: nat)
    requires i < |s|
    ensures InsertedAt(RemovedAt(s, i), i, s[i]) == s
  {
    var t := RemovedAt(s, i);
    assert t[..i] == s[..i];
    assert t[i..] == s[i + 1..];
    assert s[..i] + [s[i]] + s[i + 1..] == s;
  }

  // ---------------------------------------------------------------------
  // Distinct elements

  /** No element occurs twice in `s`. */
  ghost predicate Distinct<X>(s: seq<X>)
  {
    forall i, j :: 0 <= i < j < |s| ==> s[i] != s[j]
  }

  /** Inserting an element not yet present keeps the elements distinct. */
  lemma DistinctInsertedAt<X>(s: seq<X>, i: nat, x: X)
    requires i <= |s| && Distinct(s) && x !in s
    ensures Distinct(InsertedAt(s, i, x))
  {
    var t := InsertedAt(s, i, x);
    forall a, b | 0 <= a < b < |t|
      ensures t[a] != t[b]
    {
      var a' := if a <= i then a else a - 1;
      var b' := if b <= i then b else b - 1;
      if a != i && b != i {
        assert t[a] == s[a'] && t[b] == s[b'] && a' < b';
      }
    }
  }

  /** Deleting an element keeps the elements distinct, and the deleted one is gone. */
  lemma DistinctRemovedAt<X>(s: seq<X>, i: nat)
    requires i < |s| && Distinct(s)
    ensures Distinct(RemovedAt(s, i)) && s[i] !in RemovedAt(s, i)
  {
    var t := RemovedAt(s, i);
    forall a, b | 0 <= a < b < |t|
      ensures t[a] != t[b]
    {
      var a' := if a < i then a else a + 1;
      var b' := if b < i then b else b + 1;
      assert t[a] == s[a'] && t[b] == s[b'] && a' < b';
    }
    forall a | 0 <= a < |t|
      ensures t[a] != s[i]
    {
      var a' := if a < i then a else a + 1;
      assert t[a] == s[a'] && a' != i;
    }
  }

  // ---------------------------------------------------------------------
  // Reversal

  /** Element `k` of the reversal is element `|s| - 1 - k` of the original. */
  lemma {:induction false} ReversedAt<X>(s: seq<X>, k: nat)
    requires k < |s|
    ensures Reversed(s)[k] == s[|s| - 1 - k]
  {
    if k > 0 {
      ReversedAt(s[..|s| - 1], k - 1);
    }
  }

  /** Reversing twice gives back the original sequence. */
  lemma {:induction false} ReversedTwice<X>(s: seq<X>)
    ensures Reversed(Reversed(s)) == s
  {
    forall k | 0 <= k < |s|
      ensures Reversed(Reversed(s))[k] == s[k]
    {
      ReversedAt(Reversed(s), k);
      ReversedAt(s, |s| - 1 - k);
    }
  }

  /** Reversing keeps the elements distinct. */
  lemma DistinctReversed<X>(s: seq<X>)
    requires Distinct(s)
    ensures Distinct(Reversed(s))
  {
    forall a, b | 0 <= a < b < |s|
      ensures Reversed(s)[a] != Reversed(s)[b]
    {
      ReversedAt(s, a);
      ReversedAt(s, b);
    }
  }

  /** A sequence of at most one element is its own reversal. */
  lemma ReversedShort<X>(s: seq<X>)
    requires |s| <= 1
    ensures Reversed(s) == s
  {
    if |s| == 1 {
      assert s[..0] == [];
    }
  }

  // ---------------------------------------------------------------------
  // Search

  /** `FirstIndex` is the only index that holds `x` with no `x` before it. */
  lemma FirstIndexUnique<X>(s: seq<X>, x: X, k: nat)
    requires k < |s| && s[k] == x && x !in s[..k]
    ensures FirstIndex(s, x) == k
  {
  }

  // ---------------------------------------------------------------------
  // Rendering

  /** Appending one part adds the separator and that part (when there was a part before). */
  lemma JoinSnoc(parts: seq<string>, sep: string, p: string)
    ensures Join(parts + [p], sep) == if parts == [] then p else Join(parts, sep) + sep + p
  {
    assert (parts + [p])[..|parts|] == parts;
  }

  /** Formatting a longer prefix formats one more element. */
  lemma FormattedSnoc<X>(s: seq<X>, k: nat, f: X -> string)
    requires k < |s|
    ensures Formatted(s[..k + 1], f) == Formatted(s[..k], f) + [f(s[k])]
  {
  }

  /** An empty list renders as "[]". */
  lemma RenderEmpty<X>(f: X -> string)
    ensures Render([], f) == "[]"
  {
  }

  /** A list renders as its elements' texts, in order, comma-space separated inside brackets. */
  lemma RenderThree<X>(a: X, b: X, c: X, f: X -> string)
    ensures Render([a], f) == "[" + f(a) + "]"
    ensures Render([a, b], f) == "[" + f(a) + ", " + f(b) + "]"
    ensures Render([a, b, c], f) == "[" + f(a) + ", " + f(b) + ", " + f(c) + "]"
  {
    assert Formatted([a], f) == [f(a)];
    assert Formatted([a, b], f) == [f(a), f(b)];
    assert Formatted([a, b, c], f) == [f(a), f(b), f(c)];
    JoinSnoc([f(a)], ", ", f(b));
    assert [f(a)] + [f(b)] == [f(a), f(b)];
    JoinSnoc([f(a), f(b)], ", ", f(c));
    assert [f(a), f(b)] + [f(c)] == [f(a), f(b), f(c)];
  }
}
