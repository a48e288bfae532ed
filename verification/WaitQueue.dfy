/** The queue of waiting threads of the Win32 lock: a ring buffer that grows, and is rotated when it does. */
module WaitQueue {
  /** An event stands for the thread that waits for it. */
  type Event = nat

  class Queue {
    var array_: array<Event>
    var count: nat
    var alloc: nat
    var offset: nat

    ghost predicate Valid()
      reads this
    {
      array_.Length == alloc && count <= alloc && (offset == 0 || offset < alloc)
    }

    /** The place of the element number i. */
    function Index(i: nat): (r: nat)
      requires i < alloc && (offset == 0 || offset < alloc)
      reads this
      ensures r < alloc
    {
      if offset + i >= alloc then offset + i - alloc else offset + i
    }

    /** The waiting events, first come first. */
    ghost function Contents(): (s: seq<Event>)
      requires Valid()
      reads this, array_
      ensures |s| == count && forall i :: 0 <= i < count ==> s[i] == array_[Index(i)]
    {
      seq(count, i requires 0 <= i < count && Valid() reads this, array_ => array_[Index(i)])
    }

    constructor ()
      ensures Valid() && Contents() == [] && fresh(array_)
    {
      array_ := new Event[0];
      count, alloc, offset := 0, 0, 0;
    }

    /** The part of gl_waitqueue_add that enlarges a full array, and rotates it to start at offset 0. */
    method Grow()
      requires Valid() && count == alloc
      modifies this
      ensures Valid() && fresh(array_) && count == old(count) < alloc && Contents() == old(Contents())
    {
      var newAlloc := 2 * alloc + 1;
      var newArray := Realloc(array_, newAlloc);
      ghost var s := Contents();
      if offset > 0 {
        Rotate(newArray, count, alloc, offset, s);
        offset := 0;
      }
      array_ := newArray;
      alloc := newAlloc;
      assert Contents() == s;
    }

    /**
     * gl_waitqueue_add: puts an event behind the others.  It fails, and leaves the queue's contents alone, if there
     * is no memory for a larger array or no event can be made.
     */
    method Add(event: Event, memory: bool, created: bool) returns (ok: bool)
      requires Valid()
      modifies this, array_
      ensures Valid() && (array_ == old(array_) || fresh(array_))
      ensures Contents() == if ok then old(Contents()) + [event] else old(Contents())
      ensures memory && created ==> ok
    {
      if count == alloc {
        if !memory {
          return false;
        }
        Grow();
      }
      if !created {
        return false;
      }
      ghost var s := Contents();
      var index := offset + count;
      if index >= alloc {
        index := index - alloc;
      }
      assert forall i :: 0 <= i < count ==> Index(i) != index;
      array_[index] := event;
      count := count + 1;
      assert Contents() == s + [event];
      ok := true;
    }

    /** gl_waitqueue_notify_first: sets the first event and takes it out. */
    method NotifyFirst() returns (event: Event)
      requires Valid() && count > 0
      modifies this
      ensures Valid() && array_ == old(array_)
      ensures event == old(Contents())[0] && Contents() == old(Contents())[1..]
    {
      ghost var s := Contents();
      event := array_[offset + 0];
      offset := offset + 1;
      count := count - 1;
      if count == 0 || offset == alloc {
        offset := 0;
      }
      assert Contents() == s[1..];
    }

    /** gl_waitqueue_notify_all: sets all events in order and empties the queue. */
    method NotifyAll() returns (events: seq<Event>)
      requires Valid()
      modifies this
      ensures Valid() && array_ == old(array_)
      ensures events == old(Contents()) && Contents() == []
    {
      events := [];
      var i := 0;
      while i < count
        invariant i <= count && events == Contents()[..i]
        invariant unchanged(this)
      {
        var index := offset + i;
        if index >= alloc {
          index := index - alloc;
        }
        events := events + [array_[index]];
        i := i + 1;
      }
      count := 0;
      offset := 0;
    }
  }

  /** Moves the contents s of a full ring of oldAlloc elements that starts at oldOffset to the start of the array. */
  method Rotate(newArray: array<Event>, oldCount: nat, oldAlloc: nat, oldOffset: nat, ghost s: seq<Event>)
    requires oldCount == oldAlloc == |s| && oldOffset < oldAlloc && newArray.Length == 2 * oldAlloc + 1
    requires forall j :: 0 <= j < oldCount ==>
      newArray[if oldOffset + j >= oldAlloc then oldOffset + j - oldAlloc else oldOffset + j] == s[j]
    modifies newArray
    ensures newArray[..oldCount] == s
  {
    var i := 0;
    if oldOffset + oldCount > oldAlloc {
      var limit := oldOffset + oldCount - oldAlloc;
      while i < limit
        invariant i <= limit
        invariant forall j :: 0 <= j < oldAlloc ==> newArray[j] == old(newArray[j])
        invariant forall j :: oldAlloc <= j < oldAlloc + i ==> newArray[j] == old(newArray[j - oldAlloc])
      {
        newArray[oldAlloc + i] := newArray[i];
        i := i + 1;
      }
    }
    Unrolled(old(newArray[..]), newArray[..], oldAlloc, oldOffset, s);
    MoveToFront(newArray, oldOffset, oldCount, s);
  }

  /** The second copy loop: s, which starts at the offset, moves to index 0, over its own first elements. */
  method MoveToFront(newArray: array<Event>, oldOffset: nat, oldCount: nat, ghost s: seq<Event>)
    requires oldCount == |s| && oldOffset + oldCount <= newArray.Length
    requires forall j :: oldOffset <= j < oldOffset + oldCount ==> newArray[j] == s[j - oldOffset]
    modifies newArray
    ensures newArray[..oldCount] == s
  {
    var i := 0;
    while i < oldCount
      invariant i <= oldCount
      invariant forall j :: 0 <= j < i ==> newArray[j] == s[j]
      invariant forall j :: oldOffset + i <= j < oldOffset + oldCount ==> newArray[j] == s[j - oldOffset]
    {
      newArray[i] := newArray[oldOffset + i];
      i := i + 1;
    }
  }

  /** Once the wrapped part is copied behind the rest, the contents lie in one piece. */
  lemma Unrolled(before: seq<Event>, after: seq<Event>, alloc: nat, offset: nat, s: seq<Event>)
    requires |before| == |after| == 2 * alloc + 1 && alloc == |s| && offset < alloc
    requires forall j :: 0 <= j < alloc ==>
      before[if offset + j >= alloc then offset + j - alloc else offset + j] == s[j]
    requires forall j :: 0 <= j < alloc ==> after[j] == before[j]
    requires forall j :: alloc <= j < alloc + offset ==> after[j] == before[j - alloc]
    ensures forall j :: offset <= j < offset + alloc ==> after[j] == s[j - offset]
  {
    forall j | offset <= j < offset + alloc
      ensures after[j] == s[j - offset]
    {
      assert s[j - offset] == before[if j >= alloc then j - alloc else j];
    }
  }

  /** realloc to a larger size. */
  method Realloc(a: array<Event>, size: nat) returns (b: array<Event>)
    requires a.Length < size
    ensures fresh(b) && b.Length == size && forall i :: 0 <= i < a.Length ==> b[i] == a[i]
  {
    b := new Event[size](_ => 0);
    var i := 0;
    while i < a.Length
      invariant i <= a.Length && forall j :: 0 <= j < i ==> b[j] == a[j]
    {
      b[i] := a[i];
      i := i + 1;
    }
  }
}
