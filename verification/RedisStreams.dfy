/**
  The three priority streams with their consumer group, and the dead-letter stream. Each Redis command
  of api/job_queue.py is one atomic function. A message's id is its place in the order of publication.
  */
module RedisStreams {
  import opened Options
  import opened DateTimes
  import opened JobDispatches

  type Consumer = string

  datatype Level = High | Normal | Low

  /** The order in which streams are checked. */
  const PRIORITIES := [High, Normal, Low]

  function LevelOf(priority: string): Level {
    if priority == "high" then High
    else if priority == "low" then Low
    else Normal
  }

  /** An entry of the group's pending list: delivered, not yet acknowledged. */
  datatype Pending = Pending(owner: Consumer, deliveredAt: int)

  /**
    `log` is everything ever published, of which the first `trimmed` entries are gone; `delivered` is one
    past the last delivered id. `acked` and `dead` are history: what a worker acknowledged, and what was
    copied to the dead-letter stream.
    */
  datatype Stream = Stream(log: seq<Fields>, trimmed: nat, delivered: nat, pending: map<nat, Pending>,
                           acked: set<nat>, dead: set<nat>)

  const EMPTY_STREAM := Stream([], 0, 0, map[], {}, {})

  datatype Message = Message(level: Level, id: nat)

  /** The rewritten dispatch fields, and the three a rejection adds: error, failed_at, original_stream. */
  datatype DeadLetter = DeadLetter(original: Message, fields: Fields, error: string, failedAt: Timestamp)

  /** `deadLetters` is every letter ever written, of which the first `lettersTrimmed` are gone. */
  datatype Server = Server(high: Stream, normal: Stream, low: Stream, deadLetters: seq<DeadLetter>, lettersTrimmed: nat,
                           now: int) {

    /** What the dead-letter stream holds. */
    function Letters(): seq<DeadLetter> {
      if lettersTrimmed <= |deadLetters| then deadLetters[lettersTrimmed..] else []
    }

    function At(l: Level): Stream {
      match l
      case High => high
      case Normal => normal
      case Low => low
    }

    function With(l: Level, s: Stream): (r: Server)
      ensures r.At(l) == s && r.now == now
      ensures r.deadLetters == deadLetters && r.lettersTrimmed == lettersTrimmed
      ensures forall k :: k != l ==> r.At(k) == At(k)
    {
      match l
      case High => this.(high := s)
      case Normal => this.(normal := s)
      case Low => this.(low := s)
    }
  }

  const EMPTY_SERVER := Server(EMPTY_STREAM, EMPTY_STREAM, EMPTY_STREAM, [], 0, 0)

  /** REDIS_STREAM_MAX_LEN and REDIS_PENDING_TIMEOUT_MS. */
  datatype Config = Config(maxLen: nat, pendingTimeout: nat)

  /** XADD with an approximate MAXLEN: past the limit, Redis may drop up to the excess from the old end. */
  function XAdd(s: Stream, fields: Fields, maxLen: nat, drop: nat): Stream {
    var kept := |s.log| + 1 - s.trimmed;
    var excess := if kept > maxLen then kept - maxLen else 0;
    s.(log := s.log + [fields], trimmed := s.trimmed + if drop < excess then drop else excess)
  }

  const DEAD_LETTER_LIMIT := 1000

  /** How many letters a further one may push out. */
  function LetterExcess(s: Server): nat {
    if s.lettersTrimmed + DEAD_LETTER_LIMIT <= |s.deadLetters|
    then |s.deadLetters| + 1 - s.lettersTrimmed - DEAD_LETTER_LIMIT else 0
  }

  /** XADD to the dead-letter stream, which is trimmed at 1000 in the same approximate way. */
  function XAddLetter(s: Server, letter: DeadLetter, drop: nat): Server {
    s.(deadLetters := s.deadLetters + [letter],
       lettersTrimmed := s.lettersTrimmed + if drop < LetterExcess(s) then drop else LetterExcess(s))
  }

  function NextNew(s: Stream): nat {
    if s.delivered < s.trimmed then s.trimmed else s.delivered
  }

  /** XREADGROUP with `>` and COUNT 1: deliver the oldest entry never delivered to the group. */
  function XReadGroup(s: Stream, c: Consumer, now: int): (r: (Option<nat>, Stream)) {
    var id := NextNew(s);
    if id < |s.log| then (Some(id), s.(delivered := id + 1, pending := s.pending[id := Pending(c, now)]))
    else (None, s)
  }

  datatype Candidate = Candidate(id: nat, idle: int)

  /** XPENDING over the whole range: the `count` lowest pending ids with their idle times. */
  function XPendingRange(s: Stream, from: nat, count: nat, now: int): (r: seq<Candidate>)
    ensures |r| <= count
    ensures forall k :: 0 <= k < |r| ==>
              r[k].id in s.pending && r[k].id >= from && r[k].idle == now - s.pending[r[k].id].deliveredAt
    decreases s.delivered - from
  {
    if from >= s.delivered || count == 0 then []
    else if from in s.pending then
      [Candidate(from, now - s.pending[from].deliveredAt)] + XPendingRange(s, from + 1, count - 1, now)
    else XPendingRange(s, from + 1, count, now)
  }

  /** XCLAIM of one id with a minimum idle time. */
  function XClaim(s: Stream, c: Consumer, minIdle: int, id: nat, now: int): (r: (bool, Stream)) {
    if id in s.pending && now - s.pending[id].deliveredAt >= minIdle && s.trimmed <= id < |s.log|
    then (true, s.(pending := s.pending[id := Pending(c, now)]))
    else (false, s)
  }

  /** XACK by any consumer. */
  function XAck(s: Stream, id: nat): Stream {
    s.(pending := s.pending - {id})
  }

  /** The listing is complete when it is shorter than asked for, and in id order always. */
  lemma {:induction false} XPendingRangeIsTheLowest(s: Stream, from: nat, count: nat, now: int, id: nat)
    requires from <= id < s.delivered && id in s.pending
    ensures var r := XPendingRange(s, from, count, now);
            || Candidate(id, now - s.pending[id].deliveredAt) in r
            || (|r| == count && forall k :: 0 <= k < |r| ==> r[k].id < id)
    decreases s.delivered - from
  {
    if count == 0 {
    } else if from in s.pending {
      if from < id {
        XPendingRangeIsTheLowest(s, from + 1, count - 1, now, id);
      }
    } else {
      XPendingRangeIsTheLowest(s, from + 1, count, now, id);
    }
  }
}
