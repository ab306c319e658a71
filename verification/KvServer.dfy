/** The bounded queue of Project2/Proj02-starter/kvserver.c over its ring of descriptors, and the
    stretches that its two operations run under the mutex. */
module KvServer {
  import opened WorkQueue
  import Ring

  class FdQueue {
    const fds: array<int>
    var count: nat
    var head: nat
    var tail: nat

    ghost predicate Valid()
      reads this
    {
      && 0 < fds.Length && count <= fds.Length && head < fds.Length && tail < fds.Length
      && (tail == head + count || tail == head + count - fds.Length)
    }

    /** The descriptors from head to tail. */
    ghost function Contents(): (s: seq<int>)
      requires Valid()
      reads this, fds
      ensures |s| == count
      ensures forall k :: 0 <= k < count ==> s[k] == fds[Ring.Slot(head, fds.Length, k)]
    {
      seq(count, k requires 0 <= k < count && Valid() reads this, fds => fds[Ring.Slot(head, fds.Length, k)])
    }

    constructor (capacity: nat)
      requires capacity > 0
      ensures Valid() && Contents() == [] && fds.Length == capacity && fresh(fds)
    {
      fds := new int[capacity];
      count, head, tail := 0, 0, 0;
    }

    method Put(fd: int)
      requires Valid() && count < fds.Length
      modifies this, fds
      ensures Valid() && Contents() == old(Contents()) + [fd]
    {
      ghost var was := Contents();
      Ring.Advance(tail, fds.Length);
      assert tail == Ring.Slot(head, fds.Length, count);
      fds[tail] := fd;
      tail := (tail + 1) % fds.Length;
      count := count + 1;
      forall k | 0 <= k < |was|
        ensures Contents()[k] == was[k]
      {
        assert Ring.Slot(head, fds.Length, k) != Ring.Slot(head, fds.Length, |was|);
      }
    }

    method Take() returns (fd: int)
      requires Valid() && Contents() != []
      modifies this
      ensures Valid() && [fd] + Contents() == old(Contents())
    {
      ghost var was, h := Contents(), head;
      Ring.Advance(head, fds.Length);
      fd := fds[head];
      head := (head + 1) % fds.Length;
      count := count - 1;
      forall k | 0 <= k < count
        ensures Contents()[k] == was[1..][k]
      {
        assert Ring.Slot(head, fds.Length, k) == Ring.Slot(h, fds.Length, k + 1);
      }
      assert Contents() == was[1..];
    }
  }

  class Server {
    const q: FdQueue
    var shutdown: bool
    var producer: Producer
    var workers: seq<Worker>
    ghost var enqueued: seq<int>
    ghost var dequeued: seq<int>
    ghost var served: seq<int>
    ghost var early: nat

    ghost predicate Valid()
      reads this, q
    {
      q.Valid()
    }

    ghost function View(): State
      requires Valid()
      reads this, q, q.fds
    {
      State(q.fds.Length, q.Contents(), shutdown, producer, workers, enqueued, dequeued, served, early)
    }

    constructor (numWorkers: nat)
      requires numWorkers >= 1
      ensures Valid() && View() == Initial(numWorkers)
    {
      q := new FdQueue(numWorkers * 2);
      shutdown := false;
      producer := Testing;
      workers := seq(numWorkers, _ => Ready);
      enqueued, dequeued, served, early := [], [], [], 0;
    }

    method SignalNotEmptyCondition()
      modifies `workers
      ensures SignalNotEmpty(old(workers), workers)
    {
      if Asleep in workers {
        var j :| 0 <= j < |workers| && workers[j] == Asleep;
        workers := workers[j := Notified];
      }
    }

    /** `queue_enqueue` up to its return or its next wait. */
    method QueueEnqueue() returns (done: bool)
      requires Valid() && LockFree(View()) && (producer.Holding? || producer.NotifiedFull?)
      modifies this, q, q.fds
      ensures Valid() && Enqueue(old(View()), View())
      ensures done <==> |old(q.Contents())| < q.fds.Length
    {
      var fd := producer.fd;
      if q.count == q.fds.Length {
        producer := AsleepFull(fd);
        return false;
      }
      q.Put(fd);
      enqueued := enqueued + [fd];
      SignalNotEmptyCondition();
      producer := Testing;
      done := true;
    }

    /** `queue_dequeue` of worker `i` up to its return or its next wait; the result is the
        descriptor, -1 at the end of the worker, or none while it must wait. */
    method QueueDequeue(i: nat) returns (fd: int, waits: bool)
      requires Valid() && LockFree(View()) && (Is(View(), i, Ready) || Is(View(), i, Notified))
      modifies this, q
      ensures Valid() && Dequeue(old(View()), View(), i)
      ensures waits <==> old(q.Contents()) == [] && !shutdown
      ensures !waits ==> fd == if old(q.Contents()) == [] then -1 else old(q.Contents())[0]
    {
      fd, waits := -1, false;
      if q.count == 0 && !shutdown {
        workers := workers[i := Deciding];
        waits := true;
        return;
      }
      if q.count == 0 && shutdown {
        workers := workers[i := Exited];
        return;
      }
      fd := q.Take();
      workers := workers[i := Busy(fd)];
      dequeued := dequeued + [fd];
      if producer.AsleepFull? {
        producer := NotifiedFull(producer.fd);
      }
    }

    method BroadcastNotEmpty()
      requires Valid() && LockFree(View()) && producer == Finishing
      modifies this
      ensures Valid() && Broadcast(old(View()), View())
    {
      var w := workers;
      workers := seq(|w|, i requires 0 <= i < |w| => if w[i] == Asleep then Notified else w[i]);
      producer := Joining;
    }
  }
}
