/** The circular buffer behind the event log: -1/-1 for empty, two indices otherwise. */
module SafeQueues {

  const ENOMEM := 12
  const ETIMEDOUT := 110

  /** The `%` of C++: the quotient is truncated, so the remainder takes the dividend's sign. */
  function TruncatedRemainder(a: int, b: int): int
    requires b != 0
  {
    if 0 <= a then a % b else -((-a) % b)
  }

  predicate IndicesOk(capacity: int, front: int, rear: int) {
    || front == rear == -1
    || (0 <= front < capacity && 0 <= rear < capacity)
  }

  /** The number of elements that a pair of indices stands for. */
  function Length(capacity: int, front: int, rear: int): int {
    if front == -1 then 0
    else if front <= rear then rear - front + 1
    else capacity - front + rear + 1
  }

  /** Evaluating the full test divides by `capacity - 1` unless its first clause already holds. */
  predicate FullTestDefined(capacity: int, front: int, rear: int) {
    (front == 0 && rear == capacity - 1) || capacity != 1
  }

  predicate FullTest(capacity: int, front: int, rear: int)
    requires FullTestDefined(capacity, front, rear)
  {
    || (front == 0 && rear == capacity - 1)
    || TruncatedRemainder(front - 1, capacity - 1) == rear
  }

  /**
   Where the full test is defined everywhere, it reports exactly the full states iff there are at
   least three cells.
   */
  lemma FullTestIsExactFromThree(capacity: int)
    requires 2 <= capacity
    ensures (forall front, rear | IndicesOk(capacity, front, rear) ::
               FullTest(capacity, front, rear) <==> Length(capacity, front, rear) == capacity)
            <==> 3 <= capacity
  {
    if 3 <= capacity {
      forall front, rear | IndicesOk(capacity, front, rear)
        ensures FullTest(capacity, front, rear) <==> Length(capacity, front, rear) == capacity
      {
        if 1 <= front {
          SmallRemainder(front - 1, capacity - 1);
        } else if front == 0 {
          SmallRemainder(1, capacity - 1);
        } else if capacity == 3 {
          assert TruncatedRemainder(-2, 2) == 0;
        } else {
          SmallRemainder(2, capacity - 1);
        }
      }
    } else {
      assert IndicesOk(2, 0, 0) && FullTest(2, 0, 0) && Length(2, 0, 0) == 1;
    }
  }

  /** The empty queue's full test divides by zero exactly when there is a single cell. */
  lemma FullTestUndefinedForOneCell(capacity: int)
    requires 1 <= capacity
    ensures !FullTestDefined(capacity, -1, -1) <==> capacity == 1
  {
  }

  lemma SmallRemainder(a: int, b: int)
    requires 0 <= a < b
    ensures a % b == a
  {
  }

  /** How many elements the full test lets in: all the cells, but only one of two. */
  function Limit(capacity: nat): nat {
    if capacity == 2 then 1 else capacity
  }

  // The sequence operations that the circular buffer implements.

  predicate HasRoom<T>(q: seq<T>, capacity: nat) {
    |q| < Limit(capacity)
  }

  function Shoved<T>(q: seq<T>, x: T): seq<T> {
    if q == [] then [x] else q[0 := x]
  }

  class SafeQueue<T(0)> {
    const capacity: nat
    const cells: array<T>
    var front: int
    var rear: int

    ghost predicate Valid()
      reads this
    {
      && 2 <= capacity == cells.Length
      && IndicesOk(capacity, front, rear)
      && (capacity == 2 ==> front == rear && front != 1)
    }

    ghost function Contents(): (q: seq<T>)
      requires Valid()
      reads this, cells
      ensures |q| == Length(capacity, front, rear) <= Limit(capacity)
    {
      if front == -1 then []
      else if front <= rear then cells[front..rear + 1]
      else cells[front..] + cells[..rear + 1]
    }

    constructor (n: nat)
      requires 2 <= n
      ensures Valid() && fresh(cells)
      ensures capacity == n && Contents() == []
    {
      capacity := n;
      cells := new T[n];
      front, rear := -1, -1;
    }

    predicate IsEmpty()
      requires Valid()
      reads this, cells
      ensures IsEmpty() <==> Contents() == []
    {
      front == -1
    }

    predicate IsFull()
      requires Valid()
      reads this, cells
      ensures IsFull() <==> !HasRoom(Contents(), capacity)
    {
      FullTestFor(capacity, front, rear);
      FullTest(capacity, front, rear)
    }

    static lemma FullTestFor(capacity: int, front: int, rear: int)
      requires 2 <= capacity && IndicesOk(capacity, front, rear)
      requires capacity == 2 ==> front == rear && front != 1
      ensures FullTest(capacity, front, rear) <==> Length(capacity, front, rear) >= Limit(capacity)
    {
      FullTestIsExactFromThree(capacity);
    }

    method Enqueue(x: T)
      requires Valid() && !IsFull()
      modifies cells, `front, `rear
      ensures Valid() && Contents() == old(Contents()) + [x]
    {
      FullTestFor(capacity, front, rear);
      if front == -1 {
        front, rear := 0, 0;
      } else if rear == capacity - 1 && front != 0 {
        rear := 0;
      } else {
        rear := rear + 1;
      }
      cells[rear] := x;
    }

    method Dequeue() returns (x: T)
      requires Valid() && !IsEmpty()
      modifies `front, `rear
      ensures Valid() && [x] + Contents() == old(Contents())
    {
      x := cells[front];
      if front == rear {
        front, rear := -1, -1;
      } else if front == capacity - 1 {
        front := 0;
      } else {
        front := front + 1;
      }
    }

    /** A put that does not wait. */
    method Put(x: T) returns (status: int)
      requires Valid()
      modifies cells, `front, `rear
      ensures Valid()
      ensures status == if HasRoom(old(Contents()), capacity) then 0 else -12
      ensures Contents() == if status == 0 then old(Contents()) + [x] else old(Contents())
    {
      status := 0;
      if IsFull() {
        status := -ENOMEM;
      } else {
        Enqueue(x);
      }
    }

    /** Overwrites the next element to be delivered, or enqueues when there is none. */
    method ShoveFront(x: T) returns (status: int)
      requires Valid()
      modifies cells, `front, `rear
      ensures Valid() && status == 0
      ensures Contents() == Shoved(old(Contents()), x)
    {
      status := 0;
      if IsEmpty() {
        Enqueue(x);
      } else {
        cells[front] := x;
      }
    }

    /** The part of the timed put that follows its wait, run under the mutex. */
    method PutAfterWait(x: T) returns (status: int)
      requires Valid()
      modifies cells, `front, `rear
      ensures Valid()
      ensures status == if HasRoom(old(Contents()), capacity) then 0 else -110
      ensures Contents() == if status == 0 then old(Contents()) + [x] else old(Contents())
    {
      status := 0;
      var hasRoom := !IsFull();
      if !hasRoom {
        status := -ETIMEDOUT;
      } else {
        Enqueue(x);
      }
    }

    /** The part of get that follows its wait, run under the mutex; `x` is untouched on a timeout. */
    method GetAfterWait(unset: T) returns (status: int, x: T)
      requires Valid()
      modifies `front, `rear
      ensures Valid()
      ensures status == if old(Contents()) == [] then -110 else 0
      ensures status == 0 ==> [x] + Contents() == old(Contents())
      ensures status != 0 ==> x == unset && Contents() == old(Contents())
    {
      status, x := 0, unset;
      var hasElement := !IsEmpty();
      if !hasElement {
        status := -ETIMEDOUT;
      } else {
        x := Dequeue();
      }
    }
  }
}
