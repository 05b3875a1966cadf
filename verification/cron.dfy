/** The cron entry script (`aiseo-cron.php`): a transient lock around the
    queue drain. The lock is a WordPress transient, held for fifteen minutes
    from the moment a run takes it; a transient whose expiry has passed reads
    as absent. Each run is one atomic step here, so two runs never interleave
    between the read and the write of the transient. The clock is a
    parameter. */
module Cron {
  import opened Queue

  const LockSeconds: int := 15 * 60

  datatype Lock = Free | HeldUntil(expiry: int)

  /** `get_transient` is truthy: the lock is set and has not expired. */
  predicate IsHeld(lock: Lock, now: int) {
    lock.HeldUntil? && now <= lock.expiry
  }

  datatype Run =
    | Skipped
    | Ran(lockDuring: Lock, drained: bool)

  /** One execution of the script at time `now`. A held lock means the run
      does nothing at all. Otherwise the lock is taken before anything else,
      the queue is drained only when it holds items, and the lock is dropped
      at the end. */
  method RunCron(lock: Lock, queue: seq<Item>, now: int, env: Env) returns (run: Run, lockAfter: Lock, queueAfter: seq<Item>)
    ensures IsHeld(lock, now) ==> run == Skipped && lockAfter == lock && queueAfter == queue
    ensures !IsHeld(lock, now) ==> run.Ran? && run.lockDuring == HeldUntil(now + LockSeconds) && lockAfter == Free
    ensures run.Ran? ==> (run.drained <==> queue != [])
    ensures run.Ran? && queue != [] ==> queueAfter == Survivors(queue, CreatedMask(Outcomes(queue, env)))
    ensures queue == [] ==> queueAfter == []
  {
    if IsHeld(lock, now) {
      return Skipped, lock, queue;
    }
    var held := HeldUntil(now + LockSeconds);
    var drained := false;
    queueAfter := queue;
    if queue != [] {
      var posts, requests;
      queueAfter, posts, requests := Drain(queue, env);
      drained := true;
    }
    run := Ran(held, drained);
    lockAfter := Free;
  }

  /** A second run that starts while the first run still holds the lock,
      within fifteen minutes of the first run taking it, sees that lock and
      is skipped, leaving the queue alone. */
  method OverlappingRuns(lock: Lock, queue: seq<Item>, now: int, later: int, env: Env)
    returns (first: Run, second: Run, queueAfterSecond: seq<Item>)
    requires !IsHeld(lock, now)
    requires now <= later <= now + LockSeconds
    ensures first.Ran? && second == Skipped && queueAfterSecond == queue
  {
    var lockAfter, queueAfter;
    first, lockAfter, queueAfter := RunCron(lock, queue, now, env);
    var lockAfterSecond;
    second, lockAfterSecond, queueAfterSecond := RunCron(first.lockDuring, queue, later, env);
  }
}
