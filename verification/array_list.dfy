/** The growable array list: a backing buffer whose length is the capacity and
    a count of the live elements at its front. Elements may be null (`None`). */
module ArrayLists {
  import opened Wrappers
  import opened JavaArrays
  import SortUtil

  /** The capacity an empty buffer grows to on the first append. */
  const DEFAULT_CAPACITY: nat := 10

  // ---------------------------------------------------------------------------
  // Capacity arithmetic
  // ---------------------------------------------------------------------------

  /** `(int) Math.ceil(c * 1.5) + 1`, in integers: one more than the
      smallest integer that is at least one and a half times `c`. */
  function MovingCapacity(c: nat): (r: nat)
    ensures 3 * c <= 2 * (r - 1) < 3 * c + 2
    ensures r > c
  {
    (3 * c + 1) / 2 + 1
  }

  /** The capacity an append grows a full buffer to: the default from an empty
      buffer, `ceil(1.5 c) + 1` otherwise. Either way there is room for one more. */
  function GrowCapacity(c: nat): (r: nat)
    ensures c == 0 ==> r == DEFAULT_CAPACITY
    ensures c > 0 ==> 3 * c <= 2 * (r - 1) < 3 * c + 2
    ensures r > c
  {
    if c == 0 then DEFAULT_CAPACITY else MovingCapacity(c)
  }

  // ---------------------------------------------------------------------------
  // The scan of remove(Object)
  // ---------------------------------------------------------------------------

  /** Where the forward scan for a value stops: at the first slot that equals
      it, at the end, or at a null slot whose `equals` it tries to call. */
  datatype Scan = Match(index: nat) | NoMatch | NullDereference(index: nat)

  /** The scan of `s` from slot `from` on for `target`. A null target matches
      only a null slot; a non-null target is compared with `equals`, which
      fails on a null slot met before a match. */
  function ScanFrom<T(==)>(s: seq<Option<T>>, target: Option<T>, from: nat): (r: Scan)
    requires from <= |s|
    ensures r.Match? ==>
              from <= r.index < |s| && s[r.index] == target &&
              forall k :: from <= k < r.index ==> s[k] != target && (target.Some? ==> s[k].Some?)
    ensures r.NoMatch? ==>
              forall k :: from <= k < |s| ==> s[k] != target && (target.Some? ==> s[k].Some?)
    ensures r.NullDereference? ==>
              target.Some? && from <= r.index < |s| && s[r.index] == None &&
              forall k :: from <= k < r.index ==> s[k] != target && s[k].Some?
    decreases |s| - from
  {
    if from == |s| then NoMatch
    else if target == None then
      (if s[from] == None then Match(from) else ScanFrom(s, target, from + 1))
    else if s[from] == None then NullDereference(from)
    else if s[from] == target then Match(from)
    else ScanFrom(s, target, from + 1)
  }

  /** Removing the first match takes exactly one copy of the target out of the
      list's multiset of elements. */
  lemma {:induction false} RemoveFirstMatch<T>(s: seq<Option<T>>, target: Option<T>)
    requires ScanFrom(s, target, 0).Match?
    ensures var i := ScanFrom(s, target, 0).index;
            multiset(s[..i] + s[i + 1..]) == multiset(s) - multiset{target} &&
            target in s
  {
    var i := ScanFrom(s, target, 0).index;
    assert s == s[..i] + [s[i]] + s[i + 1..];
    assert multiset(s) == multiset(s[..i]) + multiset{target} + multiset(s[i + 1..]);
  }

  /** A scan that finds nothing proves the target absent, and a null target is
      never dereferenced. */
  lemma {:induction false} NoMatchMeansAbsent<T>(s: seq<Option<T>>, target: Option<T>)
    ensures ScanFrom(s, target, 0).NoMatch? ==> target !in s
    ensures target == None ==> !ScanFrom(s, target, 0).NullDereference?
    ensures target == None ==> (ScanFrom(s, target, 0).Match? <==> None in s)
  {
  }

  // ---------------------------------------------------------------------------
  // The rendering of toString()
  // ---------------------------------------------------------------------------

  /** StringBuilder.append(Object): a null slot is written as "null". */
  function RenderSlot<T>(x: Option<T>, render: T -> string): string {
    match x
    case None => "null"
    case Some(v) => render(v)
  }

  /** The renderings of `s` separated by ", ", built from the left as the
      loop of toString() builds it. */
  function Joined<T>(s: seq<Option<T>>, render: T -> string): string {
    if |s| == 0 then ""
    else if |s| == 1 then RenderSlot(s[0], render)
    else Joined(s[..|s| - 1], render) + ", " + RenderSlot(s[|s| - 1], render)
  }

  /** The same list read from the front: first element, then ", " and the rest. */
  function JoinedFromFront<T>(s: seq<Option<T>>, render: T -> string): string {
    if |s| == 0 then ""
    else if |s| == 1 then RenderSlot(s[0], render)
    else RenderSlot(s[0], render) + ", " + JoinedFromFront(s[1..], render)
  }

  /** The two readings of "joined by ', '" agree. */
  lemma {:induction false} JoinedAgree<T>(s: seq<Option<T>>, render: T -> string)
    ensures Joined(s, render) == JoinedFromFront(s, render)
    decreases |s|
  {
    if |s| > 2 {
      var n := |s|;
      JoinedAgree(s[..n - 1], render);
      JoinedAgree(s[1..], render);
      JoinedAgree(s[1..][..n - 2], render);
      assert s[..n - 1][1..] == s[1..][..n - 2];
      assert s[..n - 1][0] == s[0];
      assert s[1..][n - 2] == s[n - 1];
    } else if |s| == 2 {
      assert s[..1] == [s[0]];
      assert s[1..] == [s[1]];
    }
  }

  /** What toString() returns: the elements in brackets, "[]" for none. */
  function Show<T>(s: seq<Option<T>>, render: T -> string): (r: string)
    ensures |s| == 0 ==> r == "[]"
    ensures |r| >= 2 && r[0] == '[' && r[|r| - 1] == ']'
    ensures r[1..|r| - 1] == JoinedFromFront(s, render)
  {
    JoinedAgree(s, render);
    "[" + Joined(s, render) + "]"
  }

  // ---------------------------------------------------------------------------
  // The list
  // ---------------------------------------------------------------------------

  /** Moving the slots after `index` one left and nulling the slot that falls
      out of the list closes the gap at `index`. */
  lemma ClosedGap<T>(buffer: seq<Option<T>>, shifted: seq<Option<T>>, final: seq<Option<T>>,
                     index: nat, size: nat)
    requires index < size <= |buffer|
    requires shifted == buffer[..index] + buffer[index + 1..size] + buffer[size - 1..]
    requires final == shifted[size - 1 := None]
    ensures final == buffer[..index] + buffer[index + 1..size] + [None] + buffer[size..]
    ensures final[..size - 1] == buffer[..size][..index] + buffer[..size][index + 1..]
  {
  }

  /** The two copies into a fresh null-filled buffer of `capacity` slots leave
      the prefix, a null gap at `index`, the moved suffix, then nulls. */
  lemma ShiftedIntoNulls<T>(buffer: seq<Option<T>>, prefixCopied: seq<Option<T>>, final: seq<Option<T>>,
                            index: nat, size: nat)
    requires index < size <= |buffer| && size < |prefixCopied|
    requires prefixCopied == buffer[0..index] + Nulls(|prefixCopied|)[index..]
    requires final == prefixCopied[..index + 1] + buffer[index..size] + prefixCopied[size + 1..]
    ensures final == buffer[..index] + [None] + buffer[index..size] + Nulls(|prefixCopied| - size - 1)
  {
  }

  class ArrayList<T(==,!new)> {
    /** The backing buffer; its length is the capacity. */
    var elements: array<Option<T>>
    /** The number of live elements, at the front of the buffer. */
    var size: nat

    ghost predicate Valid()
      reads this
    {
      size <= elements.Length
    }

    /** The list as its users see it. */
    ghost function Contents(): (s: seq<Option<T>>)
      reads this, elements
      requires Valid()
    {
      elements[..size]
    }

    /** An empty list with an empty buffer (the shared empty array in the
        source). */
    constructor ()
      ensures Valid() && fresh(elements)
      ensures Contents() == [] && elements.Length == 0
    {
      elements := new Option<T>[0];
      size := 0;
    }

    /** An empty list with a buffer of `initialCapacity` null slots. */
    constructor WithCapacity(initialCapacity: nat)
      ensures Valid() && fresh(elements)
      ensures Contents() == [] && elements[..] == Nulls(initialCapacity)
    {
      elements := new Option<T>[initialCapacity](_ => None);
      size := 0;
    }

    /** The number of elements. */
    function Size(): (n: nat)
      reads this, elements
      requires Valid()
      ensures n == |Contents()|
    {
      size
    }

    /** The element at `index`; out of range unless `0 <= index < size`. */
    function Get(index: int): (r: Result<Option<T>>)
      reads this, elements
      requires Valid()
      ensures r.Ok? <==> 0 <= index < |Contents()|
      ensures r.Ok? ==> r.value == Contents()[index]
      ensures r.Err? ==> r.error == IndexOutOfBounds
    {
      if 0 <= index < size then Ok(elements[index]) else Err(IndexOutOfBounds)
    }

    /** A larger buffer holding the current one followed by nulls. */
    method Grow() returns (grown: array<Option<T>>)
      requires Valid()
      ensures fresh(grown)
      ensures grown.Length == GrowCapacity(elements.Length)
      ensures grown[..] == elements[..] + Nulls(grown.Length - elements.Length)
    {
      var currentCapacity := elements.Length;
      if currentCapacity == 0 {
        grown := new Option<T>[DEFAULT_CAPACITY](_ => None);
        return;
      }
      var newCapacity := MovingCapacity(currentCapacity);
      grown := CopyOf(elements, newCapacity);
    }

    /** Appends `element`, first growing a full buffer. */
    method Add(element: Option<T>)
      requires Valid()
      modifies this, elements
      ensures Valid()
      ensures Contents() == old(Contents()) + [element]
      ensures old(size) < old(elements.Length) ==>
                elements == old(elements) && elements[size..] == old(elements[..])[size..]
      ensures old(size) == old(elements.Length) ==>
                fresh(elements) && elements.Length == GrowCapacity(old(elements.Length)) &&
                elements[size..] == Nulls(elements.Length - size)
    {
      if size == elements.Length {
        elements := Grow();
      }
      elements[size] := element;
      size := size + 1;
    }

    /** Makes room at `index` by moving `index..size-1` one slot right. A full
        buffer is replaced by a larger one, filled in a single pass: the prefix,
        a null at `index`, then the moved suffix. */
    method MoveElementsRightFromIndex(index: nat)
      requires Valid() && index < size
      modifies this, elements
      ensures size == old(size) && size < elements.Length
      ensures old(size) == old(elements.Length) ==>
                fresh(elements) && elements.Length == MovingCapacity(old(elements.Length)) &&
                elements[..] == old(elements[..index]) + [None] + old(elements[index..size]) +
                                Nulls(elements.Length - size - 1)
      ensures old(size) < old(elements.Length) ==>
                elements == old(elements) &&
                elements[..] == old(elements[..index + 1]) + old(elements[index..size]) +
                                old(elements[size + 1..])
    {
      ghost var buffer := elements[..];
      if size == elements.Length {
        var newArray := new Option<T>[MovingCapacity(elements.Length)](_ => None);
        assert newArray[..] == Nulls(newArray.Length);
        ArrayCopy(elements, 0, newArray, 0, index);
        ghost var prefixCopied := newArray[..];
        ArrayCopy(elements, index, newArray, index + 1, size - index);
        ShiftedIntoNulls(buffer, prefixCopied, newArray[..], index, size);
        assert newArray[..] == buffer[..index] + [None] + buffer[index..size] + Nulls(newArray.Length - size - 1);
        elements := newArray;
      } else {
        ArrayCopy(elements, index, elements, index + 1, size - index);
        assert elements[..] == buffer[..index + 1] + buffer[index..size] + buffer[size + 1..];
      }
    }

    /** Inserts `element` at `index`, which must lie in `0..size-1`: the end
        position is rejected, so nothing can be inserted into an empty list. */
    method AddAt(index: int, element: Option<T>) returns (outcome: Outcome)
      requires Valid()
      modifies this, elements
      ensures Valid()
      ensures outcome.Fail? <==> !(0 <= index < old(size))
      ensures outcome.Fail? ==>
                outcome.error == IndexOutOfBounds &&
                size == old(size) && elements == old(elements) && elements[..] == old(elements[..])
      ensures outcome == Done ==>
                Contents() == old(Contents())[..index] + [element] + old(Contents())[index..]
      ensures outcome == Done && old(size) == old(elements.Length) ==>
                fresh(elements) && elements.Length == MovingCapacity(old(elements.Length)) &&
                elements[size..] == Nulls(elements.Length - size)
      ensures outcome == Done && old(size) < old(elements.Length) ==>
                elements == old(elements) && elements[size..] == old(elements[..])[size..]
    {
      if !(0 <= index < size) {
        return Fail(IndexOutOfBounds);
      }
      MoveElementsRightFromIndex(index);
      elements[index] := element;
      size := size + 1;
      outcome := Done;
    }

    /** Empties the list and drops the buffer. */
    method Clear()
      requires Valid()
      modifies this
      ensures Valid() && fresh(elements)
      ensures Contents() == [] && elements.Length == 0
    {
      elements := new Option<T>[0];
      size := 0;
    }

    /** Takes slot `index` out: the slots after it move one left and the slot
        that falls out of the list is set to null. */
    method SimpleRemoveElement(index: nat)
      requires Valid() && index < size
      modifies this, elements
      ensures Valid() && elements == old(elements) && size == old(size) - 1
      ensures elements[..] == old(elements[..index]) + old(elements[index + 1..size]) + [None] +
                              old(elements[size..])
      ensures Contents() == old(Contents()[..index] + Contents()[index + 1..])
    {
      ghost var buffer := elements[..];
      if index != size - 1 {
        ArrayCopy(elements, index + 1, elements, index, size - index - 1);
      }
      ghost var shifted := elements[..];
      size := size - 1;
      elements[size] := None;
      ClosedGap(buffer, shifted, elements[..], index, size + 1);
    }

    /** Removes the first element equal to `element` (a null target matches
        only a null slot) and reports whether there was one. A non-null target
        that meets a null slot first fails, as `null.equals` would. */
    method Remove(element: Option<T>) returns (result: Result<bool>)
      requires Valid()
      modifies this, elements
      ensures Valid() && elements == old(elements)
      ensures match ScanFrom(old(Contents()), element, 0)
              case Match(i) =>
                result == Ok(true) && size == old(size) - 1 &&
                Contents() == old(Contents()[..i] + Contents()[i + 1..]) &&
                elements[..] == old(elements[..i]) + old(elements[i + 1..size]) + [None] +
                                old(elements[size..])
              case NoMatch =>
                result == Ok(false) && size == old(size) && elements[..] == old(elements[..])
              case NullDereference(_) =>
                result == Err(NullPointer) && size == old(size) && elements[..] == old(elements[..])
    {
      var index := 0;
      while index < size
        invariant 0 <= index <= size
        invariant ScanFrom(Contents(), element, index) == ScanFrom(Contents(), element, 0)
      {
        var currentElement := elements[index];
        if element == None {
          if currentElement == None {
            SimpleRemoveElement(index);
            return Ok(true);
          }
        } else if currentElement == None {
          return Err(NullPointer);
        } else if currentElement == element {
          SimpleRemoveElement(index);
          return Ok(true);
        }
        index := index + 1;
      }
      return Ok(false);
    }

    /** Removes and returns the element at `index`; out of range unless
        `0 <= index < size`. */
    method RemoveAt(index: int) returns (result: Result<Option<T>>)
      requires Valid()
      modifies this, elements
      ensures Valid() && elements == old(elements)
      ensures result.Err? <==> !(0 <= index < old(size))
      ensures result.Err? ==>
                result.error == IndexOutOfBounds && size == old(size) && elements[..] == old(elements[..])
      ensures result.Ok? ==>
                result.value == old(Contents())[index] && size == old(size) - 1 &&
                Contents() == old(Contents()[..index] + Contents()[index + 1..]) &&
                elements[..] == old(elements[..index]) + old(elements[index + 1..size]) + [None] +
                                old(elements[size..])
    {
      if !(0 <= index < size) {
        return Err(IndexOutOfBounds);
      }
      var removingElement := elements[index];
      SimpleRemoveElement(index);
      return Ok(removingElement);
    }

    /** Replaces the element at `index` and returns the one it replaced; out of
        range unless `0 <= index < size`. */
    method Set(index: int, element: Option<T>) returns (result: Result<Option<T>>)
      requires Valid()
      modifies elements
      ensures Valid()
      ensures result.Err? <==> !(0 <= index < size)
      ensures result.Err? ==> result.error == IndexOutOfBounds && elements[..] == old(elements[..])
      ensures result.Ok? ==>
                result.value == old(Contents())[index] &&
                elements[..] == old(elements[..])[index := element] &&
                Contents() == old(Contents())[index := element]
    {
      if !(0 <= index < size) {
        return Err(IndexOutOfBounds);
      }
      var replacingElement := elements[index];
      elements[index] := element;
      return Ok(replacingElement);
    }

    /** Sorts the live elements with the comparator, or by natural order when
        none is given. Lists of fewer than two elements are left alone; the
        slots beyond `size` are never touched. */
    method Sort(comparator: Option<(Option<T>, Option<T>) -> int>, natural: (Option<T>, Option<T>) -> int)
      requires Valid()
      requires SortUtil.TotalPreorder(SortUtil.Resolve(comparator, natural))
      modifies elements
      ensures Valid()
      ensures size <= 1 ==> elements[..] == old(elements[..])
      ensures SortUtil.SortedBetween(Contents(), 0, size, SortUtil.Resolve(comparator, natural))
      ensures multiset(Contents()) == old(multiset(Contents()))
      ensures elements[size..] == old(elements[size..])
    {
      if size > 1 {
        var outcome := SortUtil.Quicksort(elements, comparator, natural, size - 1);
        assert outcome == Done;
        SortUtil.SegmentPermutation(elements[..], old(elements[..]), 0, size);
        assert elements[..][0..size] == Contents();
        assert old(elements[..])[0..size] == old(Contents());
        ghost var cmp := SortUtil.Resolve(comparator, natural);
        forall i, j | 0 <= i < j < size
          ensures cmp(Contents()[i], Contents()[j]) <= 0
        {
          assert Contents()[i] == elements[..][i] && Contents()[j] == elements[..][j];
        }
      }
    }

    /** The elements rendered in brackets and separated by ", ". The loop walks
        the buffer and stops at the last live element. */
    method ToString(render: T -> string) returns (r: string)
      requires Valid()
      ensures r == Show(Contents(), render)
    {
      if size == 0 {
        return "[]";
      }
      ghost var s := Contents();
      var builder := "[";
      var currentElementIndex := 0;
      while currentElementIndex < elements.Length
        invariant 0 <= currentElementIndex <= size
        invariant currentElementIndex < size || currentElementIndex == elements.Length
        invariant currentElementIndex < size ==>
                    builder == "[" + Joined(s[..currentElementIndex], render) +
                               (if currentElementIndex == 0 then "" else ", ")
        invariant currentElementIndex == size ==> builder == "[" + Joined(s, render) + "]"
      {
        var element := elements[currentElementIndex];
        ghost var done := s[..currentElementIndex + 1];
        assert done[..currentElementIndex] == s[..currentElementIndex] && done[currentElementIndex] == element;
        builder := builder + RenderSlot(element, render);
        assert builder == "[" + Joined(done, render);
        if currentElementIndex != size - 1 {
          builder := builder + ", ";
        } else {
          builder := builder + "]";
          assert done == s;
          break;
        }
        currentElementIndex := currentElementIndex + 1;
      }
      return builder;
    }
  }

  /** A client: what callers can conclude from the contracts alone. */
  method ListClient(x: int, y: int, z: int)
  {
    var list := new ArrayList<int>();
    list.Add(Some(x));
    list.Add(Some(y));
    list.Add(Some(z));
    assert list.Contents() == [Some(x), Some(y), Some(z)];
    assert list.Get(1) == Ok(Some(y));
    var failed := list.AddAt(3, Some(x));
    assert failed == Fail(IndexOutOfBounds);
    var inserted := list.AddAt(0, None);
    assert list.Contents() == [None, Some(x), Some(y), Some(z)];
    var removed := list.Remove(Some(y));
    assert removed == Err(NullPointer);
    removed := list.Remove(None);
    assert removed == Ok(true) && list.Contents() == [Some(x), Some(y), Some(z)];
    list.Clear();
    assert list.Get(0) == Err(IndexOutOfBounds);
  }
}
