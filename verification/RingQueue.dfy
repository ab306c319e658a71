/** The circular queue of lab4/lab4/queue.c: an array with a front and a rear index that hold a
    sequence. */
module RingQueue {
  import Ring

  const MAX_QUEUE_SIZE: nat := 100

  class Queue {
    const items: array<int>
    var front: int
    var rear: int
    var size: int

    ghost predicate Valid()
      reads this
    {
      && items.Length == MAX_QUEUE_SIZE
      && 0 <= front < MAX_QUEUE_SIZE && -1 <= rear < MAX_QUEUE_SIZE && 0 <= size <= MAX_QUEUE_SIZE
      && (|| rear + 1 == front + size
          || rear + 1 == front + size - MAX_QUEUE_SIZE
          || rear + 1 == front + size + MAX_QUEUE_SIZE)
    }

    /** The queue from front to back. */
    ghost function Contents(): (s: seq<int>)
      requires Valid()
      reads this, items
      ensures |s| == size
    {
      (items[front..] + items[..front])[..size]
    }

    constructor ()
      ensures Valid() && Contents() == []
      ensures fresh(items)
    {
      items := new int[MAX_QUEUE_SIZE];
      front, rear, size := 0, -1, 0;
    }

    method InitQueue()
      requires items.Length == MAX_QUEUE_SIZE
      modifies this
      ensures Valid() && Contents() == []
    {
      front := 0;
      rear := -1;
      size := 0;
    }

    predicate IsFull()
      reads this
    {
      size == MAX_QUEUE_SIZE
    }

    predicate IsEmpty()
      reads this
    {
      size == 0
    }

    /** Appends, or reports an error and changes nothing when the queue is full. */
    method Enqueue(value: int) returns (error: bool)
      requires Valid()
      modifies this, items
      ensures Valid()
      ensures error <==> |old(Contents())| == 100
      ensures Contents() == if error then old(Contents()) else old(Contents()) + [value]
    {
      if IsFull() {
        error := true;
        return;
      }
      error := false;
      ghost var was := Contents();
      forall k | 0 <= k < size
        ensures was[k] == items[Ring.Slot(front, MAX_QUEUE_SIZE, k)]
      {
      }
      rear := (rear + 1) % MAX_QUEUE_SIZE;
      assert rear == Ring.Slot(front, MAX_QUEUE_SIZE, size);
      items[rear] := value;
      size := size + 1;
      forall k | 0 <= k < |was|
        ensures Contents()[k] == was[k]
      {
        assert Contents()[k] == items[Ring.Slot(front, MAX_QUEUE_SIZE, k)];
      }
      assert Contents()[|was|] == items[Ring.Slot(front, MAX_QUEUE_SIZE, |was|)];
      assert Contents() == was + [value];
    }

    /** Removes the front element; -1 when there is none. */
    method Dequeue() returns (value: int)
      requires Valid()
      modifies this
      ensures Valid()
      ensures old(Contents()) == [] ==> value == -1 && Contents() == []
      ensures old(Contents()) != [] ==> value == old(Contents())[0] && Contents() == old(Contents())[1..]
    {
      if IsEmpty() {
        return -1;
      }
      ghost var was, f := Contents(), front;
      forall k | 0 <= k < size
        ensures was[k] == items[Ring.Slot(f, MAX_QUEUE_SIZE, k)]
      {
      }
      value := items[front];
      front := (front + 1) % MAX_QUEUE_SIZE;
      size := size - 1;
      forall k | 0 <= k < size
        ensures Contents()[k] == was[1..][k]
      {
        assert Contents()[k] == items[Ring.Slot(front, MAX_QUEUE_SIZE, k)];
        assert Ring.Slot(front, MAX_QUEUE_SIZE, k) == Ring.Slot(f, MAX_QUEUE_SIZE, k + 1);
      }
      assert Contents() == was[1..];
    }

    method Peek() returns (value: int)
      requires Valid()
      ensures value == if Contents() == [] then -1 else Contents()[0]
    {
      if IsEmpty() {
        return -1;
      }
      value := items[front];
    }
  }
}
