/** The array-backed stack of StackUtil: a growable array of slots holding
    the stack from bottom (index 0) to top (index size-1). */
module StackUtil {
  import opened Wrappers
  import JavaArrays

  /** Capacity allocated by the first push onto the shared empty array. */
  const DEFAULT_CAPACITY: nat := 10

  datatype StackError = IllegalCapacity | IndexOutOfBounds | OutOfMemory

  /** The length a full backing array grows to: the default capacity when it is
      shorter than that, otherwise `(int)(1.5 * len)`; Java's double-to-int
      cast saturates at INT_MAX. */
  function GrownLength(len: nat): (n: nat)
    requires len < INT_MAX
    ensures len < n <= INT_MAX
    ensures len < DEFAULT_CAPACITY ==> n == DEFAULT_CAPACITY
    ensures len >= DEFAULT_CAPACITY && 3 * len / 2 <= INT_MAX ==> n == 3 * len / 2
    ensures len >= DEFAULT_CAPACITY && 3 * len / 2 > INT_MAX ==> n == INT_MAX
  {
    if len < DEFAULT_CAPACITY then DEFAULT_CAPACITY
    else if len + len / 2 <= INT_MAX then len + len / 2
    else INT_MAX
  }

  /** Elements are Java references: `None` is a pushed or vacated `null`. */
  class Stack<E> {
    var objects: array<Option<E>>
    /** True while `objects` is the shared DEFAULT_OBJECTS array. */
    var shared: bool
    var size: nat

    ghost predicate Valid()
      reads this, objects
    {
      && size <= objects.Length <= INT_MAX
      && (shared ==> objects.Length == 0)
      && forall i :: size <= i < objects.Length ==> objects[i] == None
    }

    /** The live slots, bottom first. */
    ghost function Contents(): (s: seq<Option<E>>)
      reads this, objects
      requires Valid()
      ensures |s| == size
    {
      objects[..size]
    }

    /** The no-argument constructor: the stack starts on the shared empty array. */
    constructor ()
      ensures Valid() && shared && size == 0 && objects.Length == 0
    {
      objects := new Option<E>[0];
      shared := true;
      size := 0;
    }

    /** The capacity constructor for a capacity it accepts; `NewStack` adds the
        rejection of a negative capacity. */
    constructor WithCapacity(capacity: nat)
      requires capacity <= INT_MAX
      ensures Valid() && fresh(objects) && size == 0 && Contents() == []
      ensures objects.Length == capacity && shared == (capacity == 0)
    {
      objects := new Option<E>[capacity](_ => None);
      shared := capacity == 0;
      size := 0;
    }

    /** Pushes e on top, growing the array first when it is full. */
    method Push(e: Option<E>) returns (r: Result<bool, StackError>)
      requires Valid()
      modifies this, objects
      ensures Valid()
      ensures r.Failure? <==> !old(shared) && old(size) == old(objects.Length) && old(size) + 1 >= INT_MAX
      ensures r.Failure? ==> r.error == OutOfMemory && size == old(size) && shared == old(shared)
                             && objects == old(objects) && Contents() == old(Contents())
      ensures r.Success? ==> r == Success(true) && !shared && Contents() == old(Contents()) + [e]
      ensures r.Success? && old(shared) ==> fresh(objects) && objects.Length == DEFAULT_CAPACITY
      ensures r.Success? && !old(shared) && old(size) < old(objects.Length) ==> objects == old(objects)
      ensures r.Success? && !old(shared) && old(size) == old(objects.Length) ==>
                fresh(objects) && objects.Length == GrownLength(old(objects.Length))
    {
      if shared {
        objects := new Option<E>[DEFAULT_CAPACITY](_ => None);
        shared := false;
      } else if size + 1 > objects.Length {
        if size + 1 >= INT_MAX {
          return Failure(OutOfMemory);
        }
        objects := JavaArrays.CopyOf(objects, GrownLength(objects.Length), None);
      }
      objects[size] := e;
      size := size + 1;
      r := Success(true);
    }

    /** get(index) after valid(index): negative indices are always rejected,
        indices past the top only when the stack is non-empty; an empty stack
        reads its (null) slot, or fails with ArrayIndexOutOfBoundsException,
        itself an IndexOutOfBoundsException, past the array's end. */
    function Get(index: int): (r: Result<Option<E>, StackError>)
      reads this, objects
      requires Valid()
      ensures r.Success? <==> 0 <= index < size || (size == 0 && 0 <= index < objects.Length)
      ensures r.Failure? ==> r.error == IndexOutOfBounds
      ensures r.Success? && size > 0 ==> r.value == Contents()[index]
      ensures r.Success? && size == 0 ==> r.value == None
    {
      if index < 0 || (size > 0 && index > size - 1) then Failure(IndexOutOfBounds)
      else if index >= objects.Length then Failure(IndexOutOfBounds)
      else Success(objects[index])
    }

    /** Removes and returns the top; an empty stack fails in valid(-1). */
    method Pop() returns (r: Result<Option<E>, StackError>)
      requires Valid()
      modifies this, objects
      ensures Valid() && objects == old(objects) && shared == old(shared)
      ensures old(size) == 0 ==> r == Failure(IndexOutOfBounds) && size == 0
      ensures old(size) > 0 ==> r == Success(old(Contents())[old(size) - 1])
                                && size == old(size) - 1
                                && Contents() == old(Contents())[..old(size) - 1]
                                && objects[size] == None
    {
      r := Get(size - 1);
      if r.Failure? {
        return;
      }
      size := size - 1;
      objects[size] := None;
    }

    /** Overwrites the top slot; on an empty stack `objects[-1]` throws. */
    method ModPop(e: Option<E>) returns (r: Result<bool, StackError>)
      requires Valid()
      modifies objects
      ensures Valid()
      ensures r.Failure? <==> size == 0
      ensures r.Failure? ==> r.error == IndexOutOfBounds && Contents() == old(Contents())
      ensures r.Success? ==> r == Success(true) && Contents() == old(Contents())[size - 1 := e]
    {
      if size == 0 {
        return Failure(IndexOutOfBounds);
      }
      objects[size - 1] := e;
      r := Success(true);
    }
  }

  /** The capacity constructor, including its IllegalArgumentException. */
  method NewStack<E>(capacity: int) returns (r: Result<Stack<E>, StackError>)
    requires capacity <= INT_MAX
    ensures r.Failure? <==> capacity < 0
    ensures r.Failure? ==> r.error == IllegalCapacity
    ensures r.Success? ==> fresh(r.value) && r.value.Valid() && r.value.size == 0
                           && r.value.objects.Length == capacity
                           && r.value.shared == (capacity == 0)
  {
    if capacity < 0 {
      return Failure(IllegalCapacity);
    }
    var s := new Stack<E>.WithCapacity(capacity);
    r := Success(s);
  }

  /** The round-trip law: a push followed by a pop returns the pushed element
      and restores the size and the live slots. */
  method PushPopRoundTrip<E>(s: Stack<E>, e: Option<E>) returns (popped: Result<Option<E>, StackError>)
    requires s.Valid()
    requires s.shared || s.size < s.objects.Length || s.size + 1 < INT_MAX
    modifies s, s.objects
    ensures popped == Success(e)
    ensures s.Valid() && s.size == old(s.size) && s.Contents() == old(s.Contents())
  {
    var pushed := s.Push(e);
    popped := s.Pop();
  }
}
