/**
  The `JobQueue` of api/job_queue.py: publish, claim with recovery, acknowledge and reject, as one consumer
  executes them, and the order in which claims drain the streams.
  */
module JobQueues {
  import opened Options
  import opened DateTimes
  import opened JobDispatches
  import opened RedisStreams
  import opened JobClaims
  import QueueRuns

  datatype Mode = DatabaseOnly | RedisOnly | Hybrid

  // ---------- What the operations mean ----------

  /** A publish: the dispatch goes to the end of its priority's stream. */
  function Published(s: Server, job: Dispatch, now: Timestamp, maxLen: nat, drop: nat): Server {
    var l := LevelOf(job.priority);
    s.With(l, XAdd(s.At(l), ToStreamDict(job, now), maxLen, drop))
  }

  function Acked(s: Server, m: Message): Server {
    s.With(m.level, XAck(s.At(m.level), m.id).(acked := s.At(m.level).acked + {m.id}))
  }

  /** The dead-letter entry of a rejected job. */
  function LetterFor(d: Delivery, now: Timestamp, error: string): DeadLetter {
    DeadLetter(d.m, ToStreamDict(d.job, now), QueueRuns.Shortened(error), now)
  }

  function Copied(s: Server, letter: DeadLetter, drop: nat): Server {
    var t := s.At(letter.original.level);
    XAddLetter(s, letter, drop)
     .With(letter.original.level, t.(dead := t.dead + {letter.original.id}))
  }

  function Settled(s: Server, m: Message): Server {
    s.With(m.level, XAck(s.At(m.level), m.id))
  }

  // ---------- The operations ----------

  const ABANDONED_CHECK_INTERVAL := 30

  predicate Due(clock: int, lastCheck: int) {
    clock - lastCheck >= ABANDONED_CHECK_INTERVAL
  }

  /** The shared Redis, reached by every queue object. */
  class Redis {
    var s: Server
    const config: Config

    constructor (config: Config)
      ensures s == EMPTY_SERVER && this.config == config
    {
      s := EMPTY_SERVER;
      this.config := config;
    }
  }

  /** Where a rejection is cut short, if it is. */
  datatype Cut = Complete | BeforeCopy | BetweenCopyAndAck

  class JobQueue {
    const mode: Mode
    const redis: Redis
    var available: bool
    var consumer: Option<Consumer>
    var lastAbandonedCheck: int

    constructor (mode: Mode, redis: Redis)
      ensures this.mode == mode && this.redis == redis && !available && consumer.None? && lastAbandonedCheck == 0
    {
      this.mode, this.redis := mode, redis;
      available, consumer, lastAbandonedCheck := false, None, 0;
    }

    /** `connected`: a client could be had; `groupsReady`: the consumer groups exist or could be created. */
    method Initialize(name: Consumer, connected: bool, groupsReady: bool)
      modifies this
      ensures consumer == Some(name) && lastAbandonedCheck == old(lastAbandonedCheck)
      ensures available == (old(available) || (mode != DatabaseOnly && connected && groupsReady))
    {
      consumer := Some(name);
      if mode == DatabaseOnly || !connected {
        return;
      }
      if groupsReady {
        available := true;
      }
    }

    predicate Enabled()
      reads this
    {
      available && mode != DatabaseOnly
    }

    /** The stream is chosen by the text of the priority; anything but "high" and "low" is normal. */
    method PublishJob(job: Dispatch, now: Timestamp, connected: bool, raises: bool, drop: nat) returns (published: bool)
      modifies redis`s
      ensures published <==> mode != DatabaseOnly && connected && !raises
      ensures !published ==> redis.s == old(redis.s)
      ensures published ==> redis.s == Published(old(redis.s), job, now, redis.config.maxLen, drop)
      ensures published && job.priority == "high" ==>
                && redis.s.high.log == old(redis.s.high.log) + [ToStreamDict(job, now)]
                && redis.s.normal == old(redis.s.normal) && redis.s.low == old(redis.s.low)
      ensures published && job.priority == "low" ==>
                && redis.s.low.log == old(redis.s.low.log) + [ToStreamDict(job, now)]
                && redis.s.high == old(redis.s.high) && redis.s.normal == old(redis.s.normal)
      ensures published && job.priority != "high" && job.priority != "low" ==>
                && redis.s.normal.log == old(redis.s.normal.log) + [ToStreamDict(job, now)]
                && redis.s.high == old(redis.s.high) && redis.s.low == old(redis.s.low)
    {
      hide ToStreamDict;
      if mode == DatabaseOnly || !connected || raises {
        return false;
      }
      var l := LevelOf(job.priority);
      redis.s := redis.s.With(l, XAdd(redis.s.At(l), ToStreamDict(job, now), redis.config.maxLen, drop));
      return true;
    }

    method ReadFromStream(l: Level, raises: bool) returns (job: Option<Delivery>)
      requires consumer.Some?
      modifies redis`s
      ensures raises ==> job.None? && redis.s == old(redis.s)
      ensures !raises ==> (job, redis.s) == ReadOne(old(redis.s), consumer.value, l)
    {
      if raises {
        return None;
      }
      var s := redis.s;
      var (id, t) := XReadGroup(s.At(l), consumer.value, s.now);
      if id.None? {
        return None;
      }
      redis.s := s.With(l, t);
      job := Parsed(s, Message(l, id.value));
    }

    method RecoverAbandoned(down: set<Level>) returns (job: Option<Delivery>)
      requires consumer.Some?
      modifies redis`s
      ensures (job, redis.s) == RecoverFirst(old(redis.s), consumer.value, PRIORITIES, down, redis.config.pendingTimeout)
    {
      hide FromStreamDict;
      var timeout := redis.config.pendingTimeout;
      var i := 0;
      while i < |PRIORITIES|
        invariant 0 <= i <= |PRIORITIES|
        invariant RecoverFirst(redis.s, consumer.value, PRIORITIES[i..], down, timeout)
               == RecoverFirst(old(redis.s), consumer.value, PRIORITIES, down, timeout)
      {
        var l := PRIORITIES[i];
        assert PRIORITIES[i..][1..] == PRIORITIES[i + 1..];
        if l !in down {
          ghost var entry := redis.s;
          var listing := XPendingRange(redis.s.At(l), 0, QueueRuns.LISTING, redis.s.now);
          var k := 0;
          while k < |listing|
            invariant 0 <= k <= |listing| && redis.s == entry
            invariant RecoverFrom(entry, consumer.value, l, listing[k..], timeout)
                   == RecoverFrom(entry, consumer.value, l, listing, timeout)
          {
            assert listing[k..][1..] == listing[k + 1..];
            if listing[k].idle > timeout {
              var s := redis.s;
              var (ok, t) := XClaim(s.At(l), consumer.value, timeout, listing[k].id, s.now);
              if ok {
                redis.s := s.With(l, t);
                job := Parsed(s, Message(l, listing[k].id));
                if job.Some? {
                  return;
                }
                break;  // the entry does not parse: the exception ends this stream's turn
              }
            }
            k := k + 1;
          }
          assert redis.s == RecoverFrom(entry, consumer.value, l, listing, timeout).1;
        }
        i := i + 1;
      }
      job := None;
    }

    /**
      `clock` is the monotonic clock in seconds; `down` are the streams whose Redis calls raise. Every 30 seconds the
      claim first looks for a message to recover; what it returns otherwise was never delivered before.
      */
    method ClaimJob(clock: int, connected: bool, down: set<Level>) returns (job: Option<Delivery>)
      modifies this`lastAbandonedCheck, redis`s
      ensures !available || mode == DatabaseOnly || consumer.None? || !connected ==>
                job.None? && redis.s == old(redis.s) && lastAbandonedCheck == old(lastAbandonedCheck)
      ensures available && mode != DatabaseOnly && consumer.Some? && connected ==>
                (job, redis.s) == Claimed(old(redis.s), consumer.value, Due(clock, old(lastAbandonedCheck)), down,
                                          redis.config.pendingTimeout)
      ensures available && mode != DatabaseOnly && consumer.Some? && connected ==>
                lastAbandonedCheck == if clock - old(lastAbandonedCheck) >= 30 then clock else old(lastAbandonedCheck)
      ensures available && mode != DatabaseOnly && consumer.Some? && connected && PendingIsDelivered(old(redis.s)) ==>
                && (job.Some? ==> OwnedNow(redis.s, job.value.m, consumer.value))
                && if clock - old(lastAbandonedCheck) >= 30
                      && !NothingRecoverable(old(redis.s), down, redis.config.pendingTimeout)
                   then job.Some? && IsRecovery(old(redis.s), job.value, down, redis.config.pendingTimeout)
                   else if NothingReadable(old(redis.s), down) then job.None?
                   else job.Some? && IsRead(old(redis.s), job.value, down)
    {
      hide FromStreamDict, ReadFirst, RecoverFirst, OwnedNow, NothingRecoverable, IsRecovery, NothingReadable, IsRead;
      if PendingIsDelivered(redis.s) && consumer.Some? {
        ClaimFinds(redis.s, consumer.value, Due(clock, lastAbandonedCheck), down, redis.config.pendingTimeout);
      }
      if !Enabled() || consumer.None? || !connected {
        return None;
      }
      if Due(clock, lastAbandonedCheck) {
        lastAbandonedCheck := clock;
        job := RecoverAbandoned(down);
        if job.Some? {
          return;
        }
      }
      job := ReadInOrder(down);
    }

    /** The last part of a claim: each stream in turn. */
    method ReadInOrder(down: set<Level>) returns (job: Option<Delivery>)
      requires consumer.Some?
      modifies redis`s
      ensures (job, redis.s) == ReadFirst(old(redis.s), consumer.value, PRIORITIES, down)
    {
      hide FromStreamDict;
      var i := 0;
      while i < |PRIORITIES|
        invariant 0 <= i <= |PRIORITIES|
        invariant ReadFirst(redis.s, consumer.value, PRIORITIES[i..], down)
               == ReadFirst(old(redis.s), consumer.value, PRIORITIES, down)
      {
        assert PRIORITIES[i..][1..] == PRIORITIES[i + 1..];
        job := ReadFromStream(PRIORITIES[i], PRIORITIES[i] in down);
        if job.Some? {
          return;
        }
        i := i + 1;
      }
      job := None;
    }

    /** Success means the acknowledgment reached Redis; nothing else changes either way. */
    method AcknowledgeJob(job: Delivery, connected: bool, raises: bool) returns (done: bool)
      modifies redis`s
      ensures done <==> connected && !raises
      ensures redis.s == if done then Acked(old(redis.s), job.m) else old(redis.s)
    {
      if !connected || raises {
        return false;
      }
      redis.s := Acked(redis.s, job.m);
      return true;
    }

    /** The dead-letter copy is written before the message is acknowledged, so a cut in between leaves both. */
    method RejectJob(job: Delivery, error: string, now: Timestamp, connected: bool, cut: Cut, drop: nat)
        returns (moved: bool)
      modifies redis`s
      ensures moved <==> connected && cut.Complete?
      ensures redis.s == if !connected || cut.BeforeCopy? then old(redis.s)
                         else if cut.BetweenCopyAndAck? then Copied(old(redis.s), LetterFor(job, now, error), drop)
                         else Settled(Copied(old(redis.s), LetterFor(job, now, error), drop), job.m)
    {
      if !connected {
        return false;
      }
      if cut == BeforeCopy {
        return false;
      }
      redis.s := Copied(redis.s, LetterFor(job, now, error), drop);
      if cut == BetweenCopyAndAck {
        return false;
      }
      redis.s := Settled(redis.s, job.m);
      return true;
    }
  }
}
