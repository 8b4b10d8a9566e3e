/** The ring buffer behind the queue of AT commands. */
module Fifo {

  /** n elements of a ring from position `out` on. */
  function Ring<T>(raw: seq<T>, out: nat, n: nat): (s: seq<T>)
    requires out < |raw| && n <= |raw|
    ensures |s| == n
  {
    if out + n <= |raw| then raw[out..out + n] else raw[out..] + raw[..out + n - |raw|]
  }

  function Wrap(i: nat, size: nat): nat {
    if i < size then i else i - size
  }

  lemma RingAt<T>(raw: seq<T>, out: nat, n: nat, i: nat)
    requires out < |raw| && n <= |raw| && i < n
    ensures Ring(raw, out, n)[i] == raw[Wrap(out + i, |raw|)]
  {
  }

  lemma RingFirst<T>(raw: seq<T>, out: nat, n: nat)
    requires out < |raw| && 0 < n <= |raw|
    ensures Wrap(out + 1, |raw|) < |raw| && Ring(raw, out, n) == [raw[out]] + Ring(raw, Wrap(out + 1, |raw|), n - 1)
  {
    hide Ring;
    var next := Wrap(out + 1, |raw|);
    var a, b := Ring(raw, out, n), Ring(raw, next, n - 1);
    forall i | 0 <= i < n
      ensures a[i] == ([raw[out]] + b)[i]
    {
      RingAt(raw, out, n, i);
      if i > 0 {
        RingAt(raw, next, n - 1, i - 1);
      }
    }
  }

  lemma RingLast<T>(raw: seq<T>, out: nat, n: nat, x: T)
    requires out < |raw| && n < |raw|
    ensures Ring(raw[Wrap(out + n, |raw|) := x], out, n + 1) == Ring(raw, out, n) + [x]
  {
  }

  class Queue<T(0)> {
    const raw: array<T>
    var numberOfElements: nat
    var nextIn: nat
    var nextOut: nat

    ghost predicate Valid()
      reads this
    {
      && raw.Length > 0
      && nextIn < raw.Length && nextOut < raw.Length
      && numberOfElements <= raw.Length
      && nextIn == Wrap(nextOut + numberOfElements, raw.Length)
    }

    /** The queued elements, oldest first. */
    ghost function Contents(): (s: seq<T>)
      requires Valid()
      reads this, raw
      ensures |s| == numberOfElements
    {
      Ring(raw[..], nextOut, numberOfElements)
    }

    constructor (rawSize: nat)
      requires rawSize > 0
      ensures Valid() && Contents() == [] && raw.Length == rawSize && fresh(raw)
    {
      raw := new T[rawSize];
      nextIn, nextOut, numberOfElements := 0, 0, 0;
    }

    method Flush()
      requires Valid()
      modifies this
      ensures Valid() && Contents() == []
    {
      nextIn, nextOut, numberOfElements := 0, 0, 0;
    }

    method Enqueue(element: T) returns (ok: bool)
      requires Valid()
      modifies this, raw
      ensures Valid() && ok == (|old(Contents())| < raw.Length)
      ensures Contents() == if ok then old(Contents()) + [element] else old(Contents())
    {
      if numberOfElements >= raw.Length {
        return false;
      }
      RingLast(raw[..], nextOut, numberOfElements, element);
      numberOfElements := numberOfElements + 1;
      raw[nextIn] := element;
      assert raw[..] == old(raw[..])[nextIn := element];
      nextIn := nextIn + 1;
      if nextIn >= raw.Length {
        nextIn := 0;
      }
      ok := true;
    }

    method Dequeue() returns (item: T)
      requires Valid() && numberOfElements > 0
      modifies this
      ensures Valid() && old(Contents()) == [item] + Contents()
    {
      RingFirst(raw[..], nextOut, numberOfElements);
      numberOfElements := numberOfElements - 1;
      item := raw[nextOut];
      nextOut := nextOut + 1;
      if nextOut >= raw.Length {
        nextOut := 0;
      }
    }
  }
}
