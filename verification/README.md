# File backup and recovery, verified

A Dafny model of a backup-and-recover system. A preloaded hook copies every
file opened under a watched directory to shared memory; a client splits the
copy into blocks and sends each block on a connection of its own; a server
writes the blocks at their offsets and later streams the file back. The project
models the protocols and the arithmetic of that path and proves what they do
for all inputs and all interleavings, including exactly when a file does not
come back.

Each concurrent part is a step machine: one constructor of `Step` for each
critical section or kernel operation, `Enabled`, `Next`, and `Exec` over a
sequence of steps. A statement about `Exec` for an arbitrary sequence of steps
is a statement about every reachable state. Beside the machine stands the
object with its fields; its methods are the source's code pieces, proved to
make exactly those steps.

| file | what it models |
|---|---|
| `Counting.dfy` | counting over sequences, shared by the accounting proofs |
| `RequestPool.dfy` | the server's worker pool: request list, semaphore, workers |
| `Dispatch.dfy` | the server's event loop on top of that pool |
| `ClientPool.dfy` | the client's pool: condition variable, idle counter, stop |
| `BlockQueue.dfy` | the circular blocking queue of the logger |
| `LogPipeline.dfy` | producers, queue and flush thread of the logger |
| `LogRotation.dfy`, `LogFiles.dfy` | log files by day and size, which files get which lines |
| `LogWriters.dfy`, `LogTexts.dfy` | several threads in write_log: lengths of the files, and their texts |
| `Bytes.dfy`, `CStrings.dfy`, `Reading.dfy` | bytes and C strings, the `readn` loop |
| `ShmCopy.dfy`, `Split.dfy` | the copy to shared memory and the block split |
| `Store.dfy`, `Names.dfy`, `Server.dfy` | writing blocks, stored names, the server's store |
| `Arrival.dfy` | what the server holds when some of a file's blocks arrive |
| `Delivery.dfy` | from accepted connections to stored files |
| `Recovery.dfy`, `RoundTrip.dfy`, `Sessions.dfy` | streaming back, the whole way of a file, several recoveries in a row |
| `Heartbeat.dfy` | the heartbeat detector |
| `Config.dfy`, `ConfigPrint.dfy` | the configuration scanners of client and hook, printed configurations |

## What holds and what does not

- The server hands every connection to a worker at most once, and never again:
  a one-shot registration is not renewed and a served connection is not closed.
  So no monitor is ever shared, no request is refused with the default limit of
  10000, and at most 1024 connections are served in the life of the process.
- A connection is served exactly if the one event that reports it is readable
  and carries no hang-up flag. A client that sends and closes at once can be
  closed unread; its block is then missing at the server. So a new file of at
  most 1023 bytes is stored exactly if its one connection is served.
- Stored names replace '/' by '@', so `a/b` and `a@b` of one client share one
  stored file and overwrite each other; files of other clients never do. A file
  with an '@' in its name comes back under another name.
- The semaphore accounting is exact, interrupted waits included.
- A worker of the client's pool can miss the stop notification, but at most one
  can, and only the one that held the mutex between its test and its sleep.
- The copy loses each byte at an offset congruent to 1023 modulo 1024, and the
  split then cuts block `t` to `(t + 1023) mod 1024` bytes. A file survives
  copy and split exactly when it has at most 1023 bytes. The exact condition
  for the whole way of such a file, whatever bytes the previous copy holds, is
  `RoundTrip.ComesBack`. A server that starts empty never stores a longer file
  whole, whatever was backed up before.
- What a recovery leaves in the local file is known for every stored file, NULs
  included: the packets replace the file while the running total is at most
  4096 bytes and are appended afterwards. Over no previous copy a file comes
  back exactly when it has at most 1023 bytes and a packet replaces the local
  file, or when the old local contents supply what the packets lack.
- The running total is never reset. Of several small files recovered over
  decoys in one session those come back up to which the lengths add up to at
  most 4096; all later ones are appended to their decoys.
- Recovering a file that the server does not have never ends, and empties the
  local file while the total is within the window.
- The split alone is complete exactly when `L/4096 + L%4096 <= 4095`.
- A logger drops a line only when it is asynchronous and at least two threads
  write; then some interleaving does drop one, whatever the queue size.
- The client ends a configured value at the first line feed, carriage return or
  tab, the hook at the first line feed only (`src/client/get_message.h:34`,
  `src/hook/hook.c:63`). With lines that end in "\r\n", as in the repository's
  own `etc/init.conf`, the hook's path therefore has a carriage return behind
  it that the client's has not.
- The comment in `src/client/inotify.cpp:11` speaks of five missed heartbeats;
  the code declares the server offline at the fourth tick. The model follows
  the code.
- `m_today` is a day of the month, so a month between two writes is not seen as
  a new day (`LogFiles.MonthUnseen`). A line carries the date of its file
  exactly when the write that opened the file has the line's month and year. A
  log file is opened twice exactly when two writes at a multiple of the line
  limit have the same date and the same number of writes behind them since the
  day changed. The model follows the code.
- The line limit of a log file is exact for one thread only. With `P` threads a
  period can get, and at most gets, `P - 1` lines more.

## Assumptions

- Kernel: epoll reports an armed one-shot descriptor at most once per call and
  disarms it; accept returns a descriptor that is not an open connection and is
  below MAX_FD (the source indexes an array with it unchecked); close removes
  the registration. Shared memory starts zeroed. A write at an offset beyond
  the end leaves zeros in the gap.
- Each connection carries one block. In `Arrival` and `RoundTrip` any selection
  of a file's non-empty blocks arrives, in any order, each at most once;
  `Delivery` derives that selection from a run of the event loop.
- A block reaches the server as a backup message (`sign` 0) and packets arrive
  whole: the byte framing of the sockets is not modelled.
- Contents are free of NUL bytes, as everything here is measured by `strlen`.
- Lengths fit the fixed buffers; the receiver's total does not overflow.

## Model

| member | source | states |
|---|---|---|
| RequestPool.SemaphoreAccounting | src/server/threadpool/threadpool.h:76-121 | in every run with any number of appenders and workers, semaphore value plus pending posts plus woken workers exceeds the list length by exactly the interrupted waits not absorbed by an empty pass; without interrupts they are equal |
| RequestPool.EmptyBranchUnreachable | src/server/threadpool/threadpool.h:105-111 | without interrupted waits a woken worker always finds a request |
| RequestPool.NeverStranded | src/server/threadpool/threadpool.h:86-114 | while the list is not empty there is a permit for it, and once a worker is not inside process() at most three steps take the oldest request |
| RequestPool.TakenIsProcessed | src/server/threadpool/threadpool.h:103-119 | in every run of a pool of n workers each worker is inside process() on exactly the job it took last and has not finished, and the jobs taken number the finished ones plus the busy workers |
| RequestPool.AllCanBeProcessed | src/server/threadpool/threadpool.h:86-119 | from every reachable state some run without new requests and interrupts takes and finishes every accepted request |
| RequestPool.PoolBoundAndOrder | src/server/threadpool/threadpool.h:77-90 | a pool used alone never holds more than max_requests + 1 requests and hands them out in the order accepted |
| RequestPool.BoundIsTight | src/server/threadpool/threadpool.h:81 | every length up to max_requests + 1 is reached, because the test is `>` |
| RequestPool.ThreadPool.Create | src/server/threadpool/threadpool.h:42-49 | a pool exists exactly for positive sizes, empty at first |
| RequestPool.ThreadPool.Append | src/server/threadpool/threadpool.h:77-90 | append is refused exactly above the limit and then changes nothing; otherwise it is a push followed by a post |
| RequestPool.ThreadPool.SemWait | src/server/threadpool/threadpool.h:105 | an interrupted wait lets the worker pass without a token |
| RequestPool.ThreadPool.TakeFront | src/server/threadpool/threadpool.h:106-119 | the worker gets the oldest request and goes into process() on it, or gets nothing from an empty list and waits again; the accounting is kept |
| Dispatch.MonitorExclusive | src/server/ser.cpp:103-152 | in every interleaving of accepts, events, hang-ups and worker steps a monitor is queued or under process() at most once in total |
| Dispatch.InitOnlyUnused | src/server/ser.cpp:117-130 | a monitor is initialised only when it is neither queued nor running, in fact only if it was never handed to the pool |
| Dispatch.AppendNeverRefuses | src/server/ser.cpp:139-144 | with a limit of at least MAX_FD the list is never longer than the open connections and no append is refused in any reachable state |
| Dispatch.LifetimeBound | src/server/ser.cpp:131-144 | accepted requests only accumulate, at most MAX_FD in all, and each keeps its descriptor open and disarmed for ever |
| Dispatch.OpenAccounted | src/server/ser.cpp:114-152 | every connection that is still open is armed, in the current batch, or was handed to the pool |
| Dispatch.ServedExactly | src/server/ser.cpp:117-145 | over every run with a limit of at least MAX_FD, a descriptor is handed to the pool if and only if one of its accepted connections, necessarily the last, was reported readable and without a hang-up; one without a verdict is armed or in the current batch; every earlier one was hung up |
| Dispatch.ReadableButClosed | src/server/ser.cpp:131-138 | a readable connection whose one event also carries a hang-up is closed unread |
| Dispatch.EventLoop.HandleEvent | src/server/ser.cpp:116-151 | one pass of the event loop body makes exactly the accept, hang-up, or push-and-post step its branch order selects, with the stated effect on the open and armed descriptors and on the accepted requests |
| Dispatch.EventLoop.HandleBatch | src/server/ser.cpp:114-152 | the loop over a batch is a run of the machine in which each accept has the given result, failing only where that is missing or no new descriptor; if all are new, they are open and armed at the end, the hung-up descriptors are closed and nothing else changes; with a limit of at least MAX_FD the jobs of the readable events are accepted in order |
| ClientPool.WorkConservation | src/client/threadpool.hpp:38-88 | before stop either no worker sleeps or the queued tasks are at most the workers awake without a task plus the committers between push and notify |
| ClientPool.TakeIsSafe | src/client/threadpool.hpp:45-50 | a worker past the wait finds a task or the pool is stopped |
| ClientPool.TaskAccounting | src/client/threadpool.hpp:37-51 | tasks are taken at most once and in commit order, no two workers have the same one, and the idle counter is the pool size minus the workers between decrement and increment |
| ClientPool.TakenIsRun | src/client/threadpool.hpp:39-52 | in every run of a pool of max(1, size) workers a worker that took a task holds it until it starts it and runs it until it finishes it |
| ClientPool.AllCanRun | src/client/threadpool.hpp:38-88 | from every reachable state before stop some run without new commits and spurious wake-ups takes, starts and finishes every committed task |
| ClientPool.AtMostOneLateStart | src/client/threadpool.hpp:40-51 | in every run each worker makes at most one start step after the stop flag was raised |
| ClientPool.AtMostOneMissesStop | src/client/threadpool.hpp:56-62 | after notify_all at most one worker sleeps, the one caught between its test and its sleep |
| ClientPool.MissedStopExactly | src/client/threadpool.hpp:56-62 | a later state with a sleeping worker exists if and only if some worker was about to fall asleep at notify_all |
| ClientPool.MissedStopWitness | src/client/threadpool.hpp:45-62 | a pool of one can end in a state where only a spurious wake-up is possible |
| ClientPool.TaskPool.Commit | src/client/threadpool.hpp:71-88 | commit fails exactly after stop, otherwise queues the task last and leaves the chosen sleeper awake |
| ClientPool.TaskPool.RunWorker | src/client/threadpool.hpp:39-52 | a worker left alone drains the queue in order and sleeps, or leaves at once when stopped |
| ClientPool.TaskPool.Shutdown | src/client/threadpool.hpp:56-58 | raising the flag and notifying wakes every sleeper and drops no task |
| BlockQueue.QueueRefinesFifo | src/server/log/block_queue.h:131-199 | for every run of push, both pops and clear by any number of threads the slots (m_front + 1 + i) % m_max_size are the FIFO reference and the accepted, not yet removed items; m_back is congruent to m_front + m_size; nobody sleeps while items are there |
| BlockQueue.StepRefines | src/server/log/block_queue.h:131-199 | each step of the circular queue is the step of the bounded FIFO |
| BlockQueue.PopReturns | src/server/log/block_queue.h:151-199 | a thread comes out of a pop only with the oldest item, by giving up, or, if timed, having found the queue empty after its wait |
| BlockQueue.BackAndFront | src/server/log/block_queue.h:85-109 | back() reads the newest item; the slot front() reads is no live item, or the newest, and is the oldest only for capacity one |
| BlockQueue.Queue.PushBack | src/server/log/block_queue.h:131-149 | push appends exactly when there is room |
| BlockQueue.Queue.BlockingPop | src/server/log/block_queue.h:151-169 | the wait loop returns the oldest item after any sequence of wake-ups and pushes, or the wait error |
| BlockQueue.BlockingPopExactly | src/server/log/block_queue.h:151-169 | a blocking pop on an empty queue is decided by the first wake-up that failed or found items: the error, or the first of the items, what else fits staying queued; without one it keeps waiting |
| BlockQueue.Queue.TimedPop | src/server/log/block_queue.h:172-199 | one wait at most, then the oldest item or failure; a timeout fails even if items were pushed before the mutex was taken again |
| BlockQueue.Queue.Clear | src/server/log/block_queue.h:38-45 | clear leaves an empty queue |
| BlockQueue.Queue.Back | src/server/log/block_queue.h:98-109 | back yields the newest item exactly when there is one |
| LogPipeline.LogConservation | src/server/log/log.cpp:151-160 | in every interleaving each line has as many submitted copies as in file, queue, flush thread, producers and drops together; queued lines reach the file in push order |
| LogPipeline.LinesOfSteps | src/server/log/log.cpp:149-160 | the lines written directly, queued and dropped are those their threads submitted last, in the order of the write and push steps |
| LogPipeline.DropExactly | src/server/log/log.cpp:151-154 | some run drops a line if and only if the logger is asynchronous and two threads write |
| LogPipeline.OneProducerDropsNothing | src/server/log/log.cpp:151-154 | room seen by full() is still there at push() when only one thread produces |
| LogPipeline.AsyncLog.Put | src/server/log/log.cpp:151-160 | a line is queued exactly when asynchronous and not full, otherwise written |
| LogPipeline.AsyncLog.AsyncWriteLog | src/server/log/log.h:36-46 | the flush loop writes everything queued, in order, before it waits |
| LogRotation.RotationInvariant | src/server/log/log.cpp:102-129 | the open file is the one for m_today with suffix m_count / m_split_lines, and a period takes at most m_split_lines lines, the first one fewer |
| LogRotation.LinesInOrder | src/server/log/log.cpp:102-160 | rotation loses, doubles and reorders no line |
| LogFiles.ClosedForm | src/server/log/log.cpp:102-127 | after every sequence of writes the counter, the day, and the name and lines of every period in closed form: a file is opened at init and at each write whose number since the day last changed is a multiple of the limit |
| LogFiles.ReopensExactly | src/server/log/log.cpp:106-127 | some file is opened twice if and only if two such writes have the same date and the same number since the day changed |
| LogFiles.LandsIn | src/server/log/log.cpp:106-127 | each line is in the file named by its opener, which has the same day of the month and the date of the opener |
| LogFiles.MonthUnseen | src/server/log/log.cpp:106 | with any limit above one, a write on the same day of another month goes to the old file |
| LogFiles.NoFileReopened | src/server/log/log.cpp:106-127 | with a clock that never goes back the file names increase, so no file is opened twice and the bound is one per file |
| LogFiles.BackwardClockReopens | src/server/log/log.cpp:106-127 | for every limit, a clock that goes to another day and back opens the first file again |
| LogWriters.PeriodBound | src/server/log/log.cpp:103-160 | in every interleaving of any number of threads P a period gets at most m_split_lines + P - 1 lines, the first at most m_split_lines - 1 |
| LogWriters.PeriodBoundReached | src/server/log/log.cpp:103-160 | for every limit and every P some run reaches that bound |
| LogWriters.FilesOfCounts | src/server/log/log.cpp:103-129 | every interleaving opens the files that the sequential logger opens for the lines in the order of the first critical section, and one of them twice under the same condition |
| LogTexts.TextsWritten | src/server/log/log.cpp:149-160 | in every interleaving the files together hold exactly the lines written, in the order of the writes, each the line its thread entered with last |
| LogTexts.ThreadInOrder | src/server/log/log.cpp:85-160 | what a thread has written, followed by the line it still has to write, is what it entered with, in that order |
| LogTexts.LinesConserved | src/server/log/log.cpp:102-160 | in every interleaving each line is in the files as often as it was counted, less the threads that still hold it |
| LogRotation.Logger.WriteLog | src/server/log/log.cpp:102-159 | write_log makes exactly the specified change and keeps the invariant |
| Reading.ReadN | src/hook/hook.c:320-347 | readn returns the same bytes however the kernel cuts the stream, and -1 exactly when an error comes before completion |
| Reading.FailsExactly | src/hook/hook.c:329-338 | an error is reported if and only if some read fails before the request is complete and before a read of zero bytes has shown the end |
| ShmCopy.SetMap | src/hook/hook.c:155-175 | the copy leaves the file except the bytes at offsets 1023 modulo 1024 |
| Split.GetShm | src/client/main.hpp:241-258 | the filled array and the send test yield exactly the non-empty blocks, in ascending order |
| Split.SentOnce | src/client/main.hpp:199-208 | each block is sent as often as it occurs if it is not empty, and never otherwise |
| Split.SplitCoverage | src/client/main.hpp:241-254 | on a NUL-free image all blocks but the last are full, none is empty, ranges are contiguous from 0, the uncovered tail is max(0, L/4096 + L%4096 - 4095), and each block carries its piece |
| Split.CompleteExactly | src/client/main.hpp:241-254 | the split covers the file if and only if L/4096 + L%4096 <= 4095 |
| Split.CopyThenSplit | src/client/main.hpp:241-254 | after the hook's copy block t carries exactly min((t + 1023) mod 1024, L - 4095t) bytes of the file |
| Split.SurvivorsExactly | src/client/main.hpp:241-254 | which offsets survive copy and split |
| Split.SurvivesWholeExactly | src/hook/hook.c:164-175 | every byte survives if and only if the file has at most 1023 bytes |
| Store.Backup | src/server/monitor/monitor.cpp:133-142 | lseek and write without truncation, byte by byte |
| Store.OrderIndependence | src/server/monitor/monitor.cpp:122-145 | every permutation of blocks that agree on overlaps stores the same file |
| Store.CompleteStore | src/server/monitor/monitor.cpp:133-142 | a completely covered content over a previous copy gives the content followed by the copy's tail |
| Store.StoredExactly | src/server/monitor/monitor.cpp:133-142 | the content itself is stored if and only if the copy is not longer and has the bytes that did not arrive |
| Names.TransfFileName | src/server/monitor/monitor.cpp:184-193 | in the buffer after the loop no character is a '/', every '/' and '@' is an '@', and all others are unchanged |
| Names.RecoverFileName | src/server/monitor/monitor.cpp:194-203 | the reverse loop leaves no '@', turns every '@' and '/' into '/' and keeps the others |
| Names.SentNameExactly | src/server/monitor/monitor.cpp:164-178 | every packet carries the original name if and only if it has no '@' |
| Names.SentNameChars | src/server/monitor/monitor.cpp:164-178 | every packet's name is the file's with each '@' turned into '/' |
| Names.PathBuilt | src/server/monitor/monitor.cpp:128-132 | for a 17-character MAC the buffer holds mac/escaped-name whatever it held before |
| Names.PathsExactly | src/server/monitor/monitor.cpp:148-151 | two files share a path if and only if MACs are equal and names differ at most in '/' against '@' |
| Names.PathIsFlat | src/server/monitor/monitor.cpp:128-132 | a stored path is the 17 characters of the MAC, one '/' at index 17, and the name with every '/' turned into '@', so it never names a deeper directory |
| Server.FileShaped | src/server/monitor/monitor.cpp:122-145 | in any interleaving of all clients' requests a stored file is its previous copy with exactly those blocks written over it, in order, that the same client sent under a name equal up to '/' against '@' |
| Server.FilesIsolated | src/server/monitor/monitor.cpp:122-145 | if the same client has backed up no other name at its path, a file is shaped by its own blocks only, whatever other clients send |
| Server.NoAtSignAlone | src/server/monitor/monitor.cpp:184-193 | that condition holds for every file of a store whose names have no '@' |
| Server.SharedPathOverwrites | src/server/monitor/monitor.cpp:122-145 | two names of one client that differ in '/' against '@' overwrite each other from offset 0 |
| Server.Monitor.BuildPath | src/server/monitor/monitor.cpp:128-151 | the reused path buffer yields the path of this request, with its only separator behind the MAC at index 17 |
| Server.Monitor.Backup | src/server/monitor/monitor.cpp:122-145 | one backup request creates or changes exactly its own stored file |
| Server.Monitor.Recover | src/server/monitor/monitor.cpp:146-183 | a recovery streams the stored file under the restored name; if there is none it sends empty packets and does not end |
| Server.Process | src/server/monitor/monitor.cpp:94-121 | the message loop serves each recovery from the store as the backups before it left it, up to the first recovery of a file that is not there |
| Server.RecoveriesOnlyRead | src/server/monitor/monitor.cpp:114-119 | the final store is what the backups alone make of it |
| Recovery.Recover | src/server/monitor/monitor.cpp:164-180 | the send loop emits the file in 4095-byte packets and stops at its end |
| Recovery.PacketAt | src/server/monitor/monitor.cpp:164-180 | packet k carries the bytes from 4095k on, at most 4095 of them, padded with zeros to 4096, and there is one for every started 4095 bytes |
| Recovery.Receiver.RecvFile | src/client/inotify.cpp:47-77 | the receive loop is the fold of the packets with the running total |
| Recovery.HeartbeatsInvisible | src/client/inotify.cpp:60-62 | heartbeats between packets change no file and no total |
| Recovery.RecoveryFold | src/client/inotify.cpp:60-76 | for every stored contents, NULs included, every total, old contents and interleaving with heartbeats: the local file is the last replacing piece and all later ones, or the old contents and all pieces; total and other files as specified |
| Recovery.ReplacingMeans | src/client/inotify.cpp:63-70 | the pieces that replace are those up to which the total stays within 4096 bytes |
| Recovery.NulFreeRecovery | src/client/inotify.cpp:60-76 | for NUL-free contents c the local file becomes old ++ c, the last byte of c, or c, by the three cases of the running total |
| Recovery.MissingFileErases | src/server/monitor/monitor.cpp:164-178 | the recovery of a missing file empties the local file if the total is within the window and otherwise changes nothing |
| Recovery.RecoveredExactly | src/client/inotify.cpp:63-75 | the local file is the stored one if and only if a packet replaced it and the stored file is NUL-free and not 4096 bytes from total 0, or none did and the old contents followed by the pieces are the stored file |
| Arrival.ArrivalOrderIrrelevant | src/server/monitor/monitor.cpp:122-145 | the blocks of a split file that arrive may do so in any order |
| Arrival.StoredExactly | src/server/monitor/monitor.cpp:133-142 | whichever blocks arrive, the server has the file if and only if the previous copy is not longer and supplies every byte that no arrived block covers |
| Arrival.HitExactly | src/client/main.hpp:241-254 | an offset is covered if and only if its block arrived and it is below (t + 1023) mod 1024 in block t |
| Arrival.StoredFreshExactly | src/server/monitor/monitor.cpp:133-142 | with no previous copy, the server has the file if and only if it has at most 1023 bytes and its block arrived |
| RoundTrip.LocalFile | src/client/inotify.cpp:42-79 | for every name, requests of all clients, previous copy, total and old contents: one local file changes, to the recovery of the previous copy with the blocks at its path written over it; it is the file itself if and only if the name has no '@' |
| RoundTrip.FreshRoundTripExactly | src/client/inotify.cpp:42-79 | over no previous copy the local file is the fold of the arrived blocks' bytes; it is the file if and only if a packet replaced it and it has at most 1023 bytes, or none did and old contents and packets spell it |
| RoundTrip.SmallFileRoundTrip | src/client/inotify.cpp:42-79 | a file of at most 1023 bytes whose block arrived comes back byte for byte if and only if ComesBack holds, for every previous copy, running total and old contents, in every interleaving with heartbeats and other clients |
| Delivery.JobsAreServed | src/server/ser.cpp:117-145 | in every run the jobs handed to the pool are the served connections, each once |
| Delivery.ServedArrive | src/server/ser.cpp:117-145 | at every moment of every run the blocks stored at a file's path are some of its sent blocks, each from a connection reported readable and without a hang-up |
| Delivery.StoredIffServed | src/server/monitor/monitor.cpp:94-145 | once all requests handed over are carried out, in any order and with any other traffic, the server has the file if and only if the previous copy is not longer and has every byte that no served connection carried |
| Delivery.SmallFileServed | src/server/ser.cpp:131-145 | a new file of at most 1023 bytes is stored if and only if its connection was reported readable and without a hang-up |
| Arrival.LostForEver | src/client/main.hpp:241-254 | in the whole history of a server that starts empty, whoever backs up what, a lost offset of a stored file never holds a byte |
| Arrival.LargeFileNeverStored | src/hook/hook.c:164-175 | such a server never holds a NUL-free file of more than 1023 bytes |
| RoundTrip.LargeFileNeverReturns | src/client/inotify.cpp:42-79 | a file of more than 1023 bytes over a previous copy that is not longer and lacks byte 1023 comes back shorter, whichever blocks arrive, unless its packets are appended to a local file with contents |
| RoundTrip.DecoyRoundTrip | src/hook/hook.c:178-189 | over the decoy the hook leaves, the file comes back exactly within the session window and is appended to the decoy beyond it |
| Sessions.SessionFold | src/client/inotify.cpp:47-76 | for any number of recoveries of different files in one session, with heartbeats anywhere, each local file is its own recovery from the total the earlier ones left |
| Sessions.SessionExactly | src/client/inotify.cpp:63-75 | of files of at most 1023 bytes over decoys the k-th comes back if and only if the starting total plus the lengths up to it is at most 4096, and is appended to its decoy otherwise |
| Sessions.OnceLostAlwaysLost | src/client/inotify.cpp:63-75 | once such a file has not come back, no later one of the session does |
| Heartbeat.DetectorExactly | src/client/inotify.cpp:7-39 | the counter is still before the first packet and then '0' plus ticks since the last; offline iff some packet was followed by four ticks in a row |
| Heartbeat.DeclaredAtFourthTick | src/client/inotify.cpp:11-36 | the declaration falls on the fourth tick and no packet triggers it |
| Heartbeat.Detector.HeartTick | src/client/inotify.cpp:9-36 | one tick keeps counter and declaration in step with the history |
| Config.GetIpAddr | src/client/get_message.h:31-50 | for every buffer, address, port and path are what follows the last "addr:", "port:" and "path:" up to the first line feed, carriage return or tab, or unchanged where there is none |
| Config.HookExactly | src/hook/hook.c:60-71 | for every text the hook's path is what follows the last "path:" up to the first line feed |
| Config.SamePathExactly | src/hook/hook.c:60-71 | the client's path is a prefix of the hook's, and they agree if and only if the hook's has no carriage return and no tab |
| Config.CrLfPaths | src/hook/hook.c:60-71 | for texts whose lines end in carriage return and line feed the hook's path is the client's followed by a carriage return |
| ConfigPrint.ScanUndoesPrint | src/client/get_message.h:31-50 | the client reads a printed configuration back, the last repeated key winning, whatever non-empty string of line feeds, carriage returns and tabs ends each line |
| ConfigPrint.HookReadsSamePath | src/hook/hook.c:60-71 | the hook gets the same path if every line ends in a line feed first |
| Config.SamePath | src/hook/hook.c:60-71 | client and hook get the same path from every text without tab, carriage return and NUL |
| Config.AtoiDecimal | src/client/get_message.h:43 | a port printed in decimal is read back |
| Config.AtoiReads | src/client/get_message.h:43 | after any blanks and at most one sign the decimal number is read, whatever non-digit follows |

## Left out

- Sockets, epoll, inotify, shared memory, message queues and symbol lookup: only their effects appear, as listed under Assumptions.
- Message framing: a close request is sent with one struct size and read with another (src/client/main.hpp:298, src/server/monitor/monitor.cpp:100); requests are decoded messages here.
- Termination of the client pool's destructor: not claimed, since a worker can miss the notification; MissedStopExactly says when.
- ClientPool.TaskPool.Commit: the interleaving of its three steps with other threads is covered by the machine's runs, not by this method, which runs them alone.
- Dispatch.EventLoop.HandleBatch: runs the batch with no worker step in between and takes an accepted descriptor that is open or not below MAX_FD for a failed accept; the interleavings are covered by the machine's runs.
- Heartbeat thread cancellation and the restart of the detector after a declared loss: the source stores the thread id in a local variable (src/server/monitor/monitor.cpp:86-87) and shadows the socket (src/client/inotify.cpp:27).
- Server.Process: the store belongs to one monitor while the loop runs, so no other connection writes between its messages; what other clients do to the store is covered by FileShaped.
- Read errors and files that change size during the copy: the copy loop would not end.
- Clock arithmetic of the timed pop: only its outcomes, a wake-up or a timeout, appear.
- Rotation under the asynchronous logger: LogWriters covers threads that write their lines themselves; LogPipeline treats the file as one.
- A log file name without a directory: the source then leaves dir_name unset (src/server/log/log.cpp:59-62).
- RoundTrip.LargeFileNeverReturns: does not cover packets appended to a local file with contents, nor previous copies that are longer or hold byte 1023, because these can supply the missing bytes by coincidence; LocalFile and FreshRoundTripExactly say what the local file then is.
- Config.SamePath: buffer capacities are not bounded here; texts are taken to fit both buffers.
- Interface and MAC lookup, directory walking, scripts and headers without logic: plumbing.
