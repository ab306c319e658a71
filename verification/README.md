# Verified models of the operating-systems labs

Four programs of this repository are modelled and proved here.

* **Page replacement** (`Lab7/pagesim.c`). The three simulators run over their frame arrays, exactly as the C
  loops do, and return the fault count together with what `print_step` shows after every reference.
  `PageModel` says what any schedule of a bounded memory is; `Belady`, `LruModel` and `FifoModel` give each policy
  without frames (next use, reuse distance, list of loads); `Phases` and `PageSim` compare whole runs: OPT is
  beaten by no schedule, LRU has the inclusion property, LRU and FIFO stay within a factor of any schedule, also of
  one with fewer frames; `Anomaly` settles for which frame counts FIFO can get worse when frames are added.
* **CPU scheduling** (`lab4/lab4/scheduling.c`, `queue.c`). The ring queue, the four schedulers and the simulation
  loop, for any processes up to the queue size. `SchedModel` defines schedules and turnaround independently of any
  policy; `SrtOptimal` and `WorkConservation` prove that shortest remaining time has the least total turnaround of
  all preemptive schedules and that all four policies do the same work at every moment; `RoundRobin`,
  `PriorityRobin` and `FirstCome` prove what each policy promises its processes; `ShortJobs` shows what the quantum of
  50 does: the runtimes that `main` draws are below it, and then round robin is first come first served.
* **Key-value store** (`Project2/Proj02-starter/hash.c`, `kvserver.c`). Linked chains that are changed in place hold
  a timed map (`HashTable` over `HashSlots` and `KvModel`); workers and sweeper under the read/write lock are
  linearizable (`KvConcurrent`); the work queue and the shutdown protocol lose no
  wakeup and no early descriptor (`WorkQueue`, with the ring and the lock stretches in `KvServer`).
* **Readers-writers monitor** (`Lab6/ex3_starving_writer.c`). The writer-priority monitor for any number of threads:
  exclusion, no lost wakeup, priority, and draining (`RwMonitor`).

Concurrent code is modelled as steps. A step is what one thread does between taking a mutex (or reading shared
state) and letting it go; sleepers may wake spuriously; the clock never goes back. In the work queue the test of the
shutdown flag and the going to sleep are two steps with the mutex held between them, because the signal handler
takes no lock. In the table a GET reads the clock, searches, counts and unlocks in four steps.

No lemma relies on the verifier's automatic induction (`{:induction false}` throughout): where a proof is by induction,
the recursive call or the loop is written out.

Where comments and code disagree the code is followed: the comments of `Lab6/ex3_starving_writer.c` (lines 5-13 and
57-64) describe readers that overtake waiting writers, while line 65 tests `AW + WW`.

Results that are not what one might hope for, each with the exact condition:

* FIFO can fault more often with more frames. Going from n to m frames is free of that risk, for every string, if and
  only if m = n or m >= 2n - 1; for every other pair there is a string (`Anomaly.FifoAnomaly`).
* DEL answers differently when sweeps are run, if and only if since the last write of its key a sweep came at a clock
  past the expiry (`KvModel.SweepIsInvisible`, with an instance in `KvModel.DelSeesSweeps`).
* A connection accepted around the shutdown can be left in the queue for ever: it is, if and only if all workers had
  exited before it was enqueued (`WorkQueue.LeftBehindIff`, with an instance in `WorkQueue.OneCanBeLeft`).
* The FIFO simulator takes page -1 for an empty frame: it is FIFO at every step if and only if -1 comes up only after
  as many different pages as there are frames (`PageSim.RingIsFifo`).

## Model

| member | source | states |
|---|---|---|
| PageModel.MinFaultsMonotone | Lab7/pagesim.c:140-192 | the optimum never gets worse when frames are added |
| Belady.BeladyOptimal | Lab7/pagesim.c:157-187 | whatever it does with ties, evicting a page whose next use is farthest faults, on every prefix, no more often than any schedule with as many frames, even one that drops pages at will |
| Belady.AheadAlways | Lab7/pagesim.c:170-187 | the invariant behind it: for every horizon, what a rival holds beyond ours with a use before that horizon has been paid for by faults |
| Belady.BeladyMinFaults | Lab7/pagesim.c:140-192 | a Belady run attains the minimum over all schedules, and by demand paging |
| LruModel.ResidentStep | Lab7/pagesim.c:114-129 | keeping the pages with fewer than n distinct others since their last use is LRU: nothing leaves while a frame is free, otherwise exactly the least recently used page |
| LruModel.LruInclusion | Lab7/pagesim.c:89-134 | what n frames hold, more frames hold too, at every step; so LRU never faults more with more frames |
| LruModel.LruIsDemand | Lab7/pagesim.c:89-134 | LRU is a demand-paging schedule and its faults are the references that are new or at reuse distance n or more |
| FifoModel.FifoIsDemand | Lab7/pagesim.c:54-83 | keeping the last n loads is demand paging: no eviction while a frame is free, and each fault is a load |
| FifoModel.NeverTwice | Lab7/pagesim.c:65-78 | FIFO never holds a page twice |
| FifoModel.WindowStep | Lab7/pagesim.c:73-78 | a load evicts nothing while there is room, and then exactly the page loaded longest ago |
| Anomaly.NoAnomaly | Lab7/pagesim.c:54-83 | with 2n - 1 frames or more FIFO never faults more often than with n, on any string |
| Anomaly.FifoAnomaly | Lab7/pagesim.c:54-83 | exactly for m = n and m >= 2n - 1 do m frames never fault more than n do, over all strings; otherwise a string with 2m + 1 faults in n frames and 2m + 2 in m |
| Anomaly.RoomForAll | Lab7/pagesim.c:54-83 | on one string: a memory with room for all its pages faults once for each, and no other number of frames gives fewer faults |
| Phases.EveryPhaseCosts | Lab7/pagesim.c:54-192 | every schedule with h frames pays k - h + 1 faults for each run of k distinct pages, and for what exceeds its frames in the open run |
| Phases.LruCompetitive | Lab7/pagesim.c:89-134 | (k - h + 1) times the faults of LRU with k frames are at most k times those of any schedule with h frames, plus (h - 1)(k - h); with h = k a factor of k and no constant |
| Phases.FifoCompetitive | Lab7/pagesim.c:54-83 | the same for FIFO |
| PageSim.FindPage | Lab7/pagesim.c:103-108 | the hit test finds the first frame with the page, or reports that no frame has it |
| PageSim.RingIsFifo | Lab7/pagesim.c:54-83 | what the ring loads is what FIFO loads, at every step, exactly when page -1 comes up only after as many different pages as frames |
| PageSim.FifoReference | Lab7/pagesim.c:61-81 | one reference to any page: the frames read round from `next_replace` are the ring of the newest loads before and after, and a fault is reported exactly when the page is not among them (an empty frame counting as page -1) |
| PageSim.SimulateFifo | Lab7/pagesim.c:54-83 | for any string the result is the number of loads of the ring and every shown frame list is the ring of the last loads; these are the loads of FIFO while page -1 does not come up, or only when no frame is free any more; the first loads fill the frames from frame 0 on |
| PageSim.LruFrame | Lab7/pagesim.c:117-126 | the scan takes the first empty frame after frame 0, and otherwise the oldest stamp |
| PageSim.EmptyFirst | Lab7/pagesim.c:117-126 | with true stamps that means an empty frame whenever there is one, frame 0 last of all |
| PageSim.LruReference | Lab7/pagesim.c:99-131 | one reference changes at most one frame, on a fault, which is reported exactly when no frame shows the page; an empty frame after frame 0 is taken first, the least of them, and frame 0 only when it alone is empty; for a page other than -1 it keeps frames and stamps those of the reuse-distance rule |
| PageSim.SimulateLru | Lab7/pagesim.c:89-134 | every string is replayed from empty frames as shown; without page -1 faults, flags and frames are those of the reuse-distance rule, and in every step the first f loads (f at most the frames) stand in frames 1, 2, ... in order, frame 0 being filled last |
| PageSim.LruFills | Lab7/pagesim.c:117-127 | while memory fills up a fault loads into the next frame, frame 0 being the last |
| PageSim.NextUse | Lab7/pagesim.c:173-179 | the forward search gives the first later use, or the constant for never |
| PageSim.FarthestFrame | Lab7/pagesim.c:170-185 | the victim scan returns the first frame whose page is next used farthest away; the pages in the frames before it all come up again |
| PageSim.OptReference | Lab7/pagesim.c:146-189 | a fault loads into the first empty frame, or into the first of those whose page is next used farthest away; for a page other than -1 this is Belady's rule on the pages held |
| PageSim.SimulateOpt | Lab7/pagesim.c:140-192 | every string is replayed from empty frames as shown; without page -1 the result is the minimum of faults over all schedules with that many frames, the shown frames are a Belady run, and the first loads fill the frames from frame 0 on |
| PageSim.PoliciesCompared | Lab7/pagesim.c:54-192 | OPT is at most FIFO and LRU, which are at most the frame count times OPT |
| SchedModel.TurnaroundIsPendingSteps | lab4/lab4/scheduling.c:161-169 | end minus arrival, summed, is the number of (step, arrived but unfinished process) pairs |
| SrtOptimal.StepKeepsDominance | lab4/lab4/scheduling.c:209-228 | for every number j, the least work left in j arrived processes stays at most the rival's after a step of each |
| SrtOptimal.ArrivalKeepsDominance | lab4/lab4/scheduling.c:209-228 | and after arrivals |
| SrtOptimal.SrtFewestPending | lab4/lab4/scheduling.c:209-228 | so up to every moment shortest remaining time has accumulated the fewest pending steps |
| WorkConservation.SrtIsOptimal | lab4/lab4/scheduling.c:116-170 | no complete preemptive schedule, idling or not, has a smaller total turnaround than shortest remaining time |
| WorkConservation.LeastLeft | lab4/lab4/scheduling.c:116-170 | no schedule is ever ahead of a work-conserving one in work done |
| WorkConservation.SameWork | lab4/lab4/scheduling.c:116-170 | two work-conserving schedules have the same work left at every moment and idle at the same moments |
| WorkConservation.FinishesFirst | lab4/lab4/scheduling.c:116-170 | a work-conserving run ends no later than any complete schedule |
| WorkConservation.SameFinish | lab4/lab4/scheduling.c:116-170 | all work-conserving runs end at the same time |
| RoundRobin.RrInvariant | lab4/lab4/scheduling.c:231-268 | at every call the queue and the processor together hold each arrived unfinished process exactly once |
| RoundRobin.RrWorkConserving | lab4/lab4/scheduling.c:231-268 | round robin runs only ready processes and returns -1 only when there is none |
| RoundRobin.SliceLength | lab4/lab4/scheduling.c:244-264 | every dispatch lasts exactly min(quantum, remaining) consecutive steps |
| RoundRobin.BoundedWait | lab4/lab4/scheduling.c:231-268 | a process at place k of the queue is dispatched after at most the rest of the slice and k quanta, whatever arrives |
| ShortJobs.ShortJobsInOrder | lab4/lab4/scheduling.c:231-268 | when no process needs more than 50 steps, round robin is first come first served: each process runs as one block, in (arrival, index) order |
| ShortJobs.LongJobGivesWay | lab4/lab4/scheduling.c:244-264 | a process with more than 50 steps left at its dispatch runs for exactly 50, and goes on then if and only if no other is ready |
| ShortJobs.OthersFirst | lab4/lab4/scheduling.c:231-268 | an interrupted process runs again only after every process that was ready at that moment, newcomers included |
| ShortJobs.OneFirstCome | lab4/lab4/scheduling.c:189-207 | there is only one first-come schedule of a given length |
| PriorityRobin.RrpWorkConserving | lab4/lab4/scheduling.c:270-301 | priority round robin runs only ready processes and idles only when there is none |
| PriorityRobin.HighestPriorityRuns | lab4/lab4/scheduling.c:286-298 | no process runs while one of higher priority is ready |
| PriorityRobin.FairTurns | lab4/lab4/scheduling.c:270-301 | between two consecutive steps of a process, every process of its priority that was ready at the first runs exactly once, across interruptions by higher levels |
| FirstCome.FcfsWorkConserving | lab4/lab4/scheduling.c:189-207 | first come first served runs only ready processes and idles only when there is none |
| FirstCome.FcfsOrder | lab4/lab4/scheduling.c:189-207 | who comes earlier in (arrival, index) order is finished before a later one runs |
| FirstCome.FcfsBlock | lab4/lab4/scheduling.c:189-207 | a process that starts runs in every step until it is finished |
| FirstCome.FcfsEndTime | lab4/lab4/scheduling.c:161-166 | its end time is its start time plus its runtime |
| RingQueue.Queue.InitQueue | lab4/lab4/queue.c:6-12 | the queue is empty |
| RingQueue.Queue.Enqueue | lab4/lab4/queue.c:27-38 | appends at the back, or reports an error and changes nothing exactly when full |
| RingQueue.Queue.Dequeue | lab4/lab4/queue.c:41-52 | removes the front element, or returns -1 from an empty queue |
| RingQueue.Queue.Peek | lab4/lab4/queue.c:55-60 | the front element or -1 |
| Schedulers.FirstComeFirstServed | lab4/lab4/scheduling.c:189-207 | the scan returns the ready process that arrived first, of several the lowest index, or -1 exactly when none is ready |
| Schedulers.ShortestRemainingTime | lab4/lab4/scheduling.c:209-228 | the scan returns the ready process with the least remaining time, of several the lowest index, or -1 exactly when none is ready |
| Schedulers.RoundRobinScheduler.RoundRobin | lab4/lab4/scheduling.c:231-268 | queue, static variables and result are those of the round-robin rule with quantum 50; no enqueue finds the queue full |
| Schedulers.PriorityScheduler.RoundRobinPriority | lab4/lab4/scheduling.c:270-301 | queues and result are those of the priority rule; no enqueue finds a queue full |
| Schedulers.RotateQueue | lab4/lab4/scheduling.c:289-297 | finished processes are discarded from the front, the first unfinished one goes to the back and is returned |
| ProcessTable.RecordsStep | lab4/lab4/scheduling.c:131-169 | start, end, remaining time and flags in the records are those of the schedule so far |
| ProcessTable.RecordedTimes | lab4/lab4/scheduling.c:131-169 | in the records of a complete run the start time is the first step of the process and the end time the one after its last |
| ProcessTable.AllWorkConserving | lab4/lab4/scheduling.c:189-301 | all four schedulers are work-conserving |
| SchedSim.RunProcess | lab4/lab4/scheduling.c:131-169 | the bookkeeping of one step changes exactly the records of the chosen and the previous process |
| SchedSim.Simulate | lab4/lab4/scheduling.c:98-170 | the loop ends with every process finished, start and end times are the first and the last step, the records and the total are those of the schedule it ran, and under shortest remaining time no complete schedule has less total turnaround |
| SchedSim.CompareSchedulers | lab4/lab4/scheduling.c:95-174 | all four simulations end at the same time, shortest remaining time has the least total turnaround, and round robin has the same total as first come first served when no runtime is over 50 |
| KvModel.PresentIff | Project2/Proj02-starter/hash.c:33-151 | the table holds a key exactly when its last write was a PUT and no sweep has come since at a clock past the expiry, and then it holds what was written |
| KvModel.GetIsLastPut | Project2/Proj02-starter/hash.c:69-95 | GET answers with the value of the last PUT of its key, if no DEL followed and its time has not run out, however often the sweeper ran |
| KvModel.GetAfterPut | Project2/Proj02-starter/hash.c:33-95 | after a PUT of a key that nothing else has written since, GET answers its first 256 characters at every later clock if the ttl is 0 or less, and otherwise exactly while the clock is before put time plus ttl; sweeps do not matter |
| KvModel.GetWithoutPut | Project2/Proj02-starter/hash.c:69-119 | without such a PUT, GET and DEL find nothing |
| KvModel.DelAfterPut | Project2/Proj02-starter/hash.c:97-148 | the entry of such a PUT is in the table, and DEL finds it, if and only if the ttl is 0 or less or no later sweep came after put time plus ttl |
| KvModel.Tallies | Project2/Proj02-starter/hash.c:33-119 | hits, misses, puts and dels count the GETs with and without an answer, the PUTs, and the DELs that found their key |
| KvModel.SweepIsInvisible | Project2/Proj02-starter/hash.c:69-151 | inserting sweeps changes no GET answer and neither hits, misses nor puts; keys and dels can only be lower; DEL differs if and only if, since the last write of its key, a sweep came at a clock past the expiry |
| KvModel.DelSeesSweeps | Project2/Proj02-starter/hash.c:97-119 | an expired entry is deleted with OK before a sweep and is NOT_FOUND after it |
| KvModel.AfterSound | Project2/Proj02-starter/hash.c:33-151 | `keys` is the number of entries after any operations |
| HashSlots.HashFunction | Project2/Proj02-starter/hash.c:8-15 | the word-wise hash is the polynomial in 33 over the signed characters, modulo 2 to the 64 |
| HashSlots.HashOfTwo | Project2/Proj02-starter/hash.c:8-15 | two signed characters a and b hash to 5859909 + 33 a + b, and the bucket is that modulo the number of buckets |
| HashSlots.WalkEnds | Project2/Proj02-starter/hash.c:76-90 | a walk along the bucket of a key finds it exactly when the map has it |
| HashSlots.Overwritten | Project2/Proj02-starter/hash.c:41-51 | overwriting one slot keeps every key once and in its bucket |
| HashSlots.Inserted | Project2/Proj02-starter/hash.c:53-63 | so does a new head, and the total chain length grows by one |
| HashSlots.Removed | Project2/Proj02-starter/hash.c:103-112 | so does taking one slot out, and the length drops by one |
| HashTable.UnlinkNode | Project2/Proj02-starter/hash.c:104-109 | bending one pointer removes exactly one node from its chain |
| HashTable.Table.constructor | Project2/Proj02-starter/hash.c:17-31 | an empty table with all counters zero |
| HashTable.Table.Put | Project2/Proj02-starter/hash.c:33-67 | the table holds the old map with the key set to the first 256 characters and the expiry now plus ttl, or 0 for none; `keys` grows only for a new key, `puts` always; contents and counters stay those of the calls so far |
| HashTable.Table.Get | Project2/Proj02-starter/hash.c:69-95 | the answer is the value of the last PUT of the key while its time to live lasts, and only hits or misses change |
| HashTable.Table.Del | Project2/Proj02-starter/hash.c:97-119 | removes the key if present, expired or not, and reports whether it was: exactly if its last PUT was spared by all later sweeps |
| HashTable.Table.Sweep | Project2/Proj02-starter/hash.c:133-148 | removes exactly the entries whose expiry is before the clock, and lowers `keys` by their number |
| KvConcurrent.Linearizable | Project2/Proj02-starter/hash.c:33-151 | every interleaving under the lock gives the answers of the timed map with each operation at its own place between its start and end, in clock order |
| KvConcurrent.RealTimeOrder | Project2/Proj02-starter/hash.c:33-151 | in any run, what had returned before the step in which an operation begins comes before that operation in the order |
| KvConcurrent.CountersAddUp | Project2/Proj02-starter/hash.c:69-95 | hits plus misses are the GETs so far, less those still to be counted |
| WorkQueue.FifoDelivery | Project2/Proj02-starter/kvserver.c:204-256 | in every reachable state the descriptors taken out are a prefix of those put in, and the rest is queued; each one taken out has been served once or is with one worker |
| WorkQueue.WorkIsServed | Project2/Proj02-starter/kvserver.c:220-241 | while a worker sleeps, every queued descriptor has a notified worker coming |
| WorkQueue.ProducerIsServed | Project2/Proj02-starter/kvserver.c:204-218 | the accepting thread sleeps only while twice as many descriptors as workers are queued, and then no worker has exited and one is awake |
| WorkQueue.NothingEarlyIsDropped | Project2/Proj02-starter/kvserver.c:158-185 | when a worker has exited, all descriptors enqueued before the flag was set have been taken, and at most one later one exists |
| WorkQueue.EarlyIsFixed | Project2/Proj02-starter/kvserver.c:28-33 | the flag is never taken back, and what counts as early is settled when it is set |
| WorkQueue.NobodySleepsAfterBroadcast | Project2/Proj02-starter/kvserver.c:177-180 | after the broadcast no worker is or becomes asleep |
| WorkQueue.WorkersFinish | Project2/Proj02-starter/kvserver.c:182-185 | after the broadcast every worker step brings the end nearer, and some step is possible until all have exited |
| WorkQueue.LeftBehindIff | Project2/Proj02-starter/kvserver.c:158-185 | when all workers have exited, a descriptor is still in the queue if and only if they all had exited before it was enqueued; all others have been served |
| WorkQueue.OneCanBeLeft | Project2/Proj02-starter/kvserver.c:158-172 | a run in which one accepted descriptor is never served |
| KvServer.FdQueue.Put | Project2/Proj02-starter/kvserver.c:211-213 | the ring appends at the tail |
| KvServer.FdQueue.Take | Project2/Proj02-starter/kvserver.c:232-234 | the ring gives up its head |
| KvServer.Server.QueueEnqueue | Project2/Proj02-starter/kvserver.c:204-218 | one stretch under the mutex is the enqueue step: wait on a full queue, else append and signal |
| KvServer.Server.QueueDequeue | Project2/Proj02-starter/kvserver.c:220-241 | one stretch under the mutex is the dequeue step: decide to wait, end with -1, or take the head and signal |
| RwMonitor.RunInv | Lab6/ex3_starving_writer.c:55-103 | in every reachable state the counters count the threads, writers exclude, and no wakeup is lost |
| RwMonitor.WriterIsAlone | Lab6/ex3_starving_writer.c:55-103 | beside a writing thread no other thread reads or writes |
| RwMonitor.SleepersHaveWakers | Lab6/ex3_starving_writer.c:55-103 | beside a sleeping reader there is a writer inside or waiting; beside a sleeping writer a thread inside or a notified writer |
| RwMonitor.NeverAllAsleep | Lab6/ex3_starving_writer.c:55-103 | the threads are never all asleep |
| RwMonitor.WriterPriority | Lab6/ex3_starving_writer.c:55-72 | as long as a writer waits no reader gets in |
| RwMonitor.Drains | Lab6/ex3_starving_writer.c:55-103 | without newcomers only boundedly many steps are possible |
| RwMonitor.StuckIsEmpty | Lab6/ex3_starving_writer.c:55-103 | when no such step is left everybody is outside: nobody is stranded in a wait |
| RwMonitor.Monitor.ReadLockStretch | Lab6/ex3_starving_writer.c:55-72 | keeps the invariant; the reader is let in exactly when no thread writes or waits to write, and then reads beside no writer; otherwise it alone goes to sleep |
| RwMonitor.Monitor.ReadUnlockStretch | Lab6/ex3_starving_writer.c:74-81 | keeps the invariant; the last reader to leave wakes exactly one sleeping writer if there is one, and otherwise no other thread is moved |
| RwMonitor.Monitor.WriteLockStretch | Lab6/ex3_starving_writer.c:83-92 | keeps the invariant; the writer is let in exactly when no thread is inside, and is then alone; otherwise it alone goes to sleep |
| RwMonitor.Monitor.WriteUnlockStretch | Lab6/ex3_starving_writer.c:94-103 | keeps the invariant; nobody is left inside; one sleeping writer is woken if there is one and no reader is moved while a writer waits; otherwise no reader stays asleep |

## Left out

- PageSim.SimulateOpt: -1 marks an empty frame in the source and is no page number; for a string that contains it, or one longer than 1000000 references (the constant that stands for "never"; `main` stops at 1000), only `Replays` is promised, not the minimum.
- PageSim.OptReference: Belady's rule is promised for pages other than -1 and strings up to that constant; `FarthestFrame` likewise.
- PageSim.SimulateLru: for a string that contains -1 only `Replays` is promised; a page -1 in a frame is later taken for an empty frame.
- PageSim.LruReference: the reuse-distance rule is promised for pages other than -1.
- SchedSim.Simulate: `current_pid` and `time_on_cpu` of `round_robin` are never reset in the source, so its round-robin result is stated for the first round-robin run, which is the only one `main` makes; the process count is a parameter up to the queue size 100, runtimes are at least 1.
- HashTable.Table.Put: keys are at most 256 characters, as `handle_client.c` reads them; longer keys would be stored cut and never found again. Values of any length are cut to 256.
- KvConcurrent.Linearizable: the walk along a chain is one step, since no writer can be inside while a reader is; the STATS command is not among the operations; fairness of the lock is not modelled.
- WorkQueue.WorkersFinish: `handle_client` is one step that ends; a client that never closes its connection is not modelled.
- RwMonitor.WriterPriority: readers may starve under writer priority, so nothing is claimed about their progress beyond RwMonitor.Drains.
- Sockets, signals as such, argument parsing, protocol parsing, printing, reading of files and random process generation.
- `malloc` failure, freeing of memory, the sweeper's interval and `kv_destroy`.
- `bench_client.c`, and the demonstration programs of Lab 3, Lab 6 (exercises 1 and 2), Lab 7 (timing), `lab1`, `lab2` and `hw1`.
