/** Two runs that write two dead letters for one message. */
module DeadLetterRuns {
  import opened Options
  import opened DateTimes
  import opened JobDispatches
  import opened RedisStreams
  import opened QueueRuns
  import opened QueueSafety
  import opened DeadLetters

  lemma StartIsWellFormed()
    ensures WellFormed(START)
  {}

  /** One job published and read by `c`. */
  function PublishAndRead(d: Dispatch, at: Timestamp, c: Consumer): seq<Step> {
    [Publish(ToStreamDict(d, at), Normal, 0), Read(c, Normal)]
  }

  lemma ReadOnce(d: Dispatch, at: Timestamp, c: Consumer, cfg: Config)
    ensures var w := Run(START, PublishAndRead(d, at, c), cfg);
            && w.At(Normal) == Stream([ToStreamDict(d, at)], 0, 1, map[0 := Pending(c, 0)], {}, {})
            && w.server.now == 0 && w.server.deadLetters == [] && Message(Normal, 0) in w.Of(c).held
  {
    DispatchRoundTrip(d, at);
    hide FromStreamDict, ToStreamDict, Normalized;
    var publish, read := Publish(ToStreamDict(d, at), Normal, 0), Read(c, Normal);
    assert [] + [publish] == [publish] && [publish] + [read] == PublishAndRead(d, at, c);
    OneMore(START, [], publish, cfg);
    assert Run(START, [publish], cfg).At(Normal) == Stream([ToStreamDict(d, at)], 0, 0, map[], {}, {});
    OneMore(START, [publish], read, cfg);
  }

  function ListLater(other: Consumer, cfg: Config): seq<Step> {
    [Tick(cfg.pendingTimeout + 1), List(other, Normal)]
  }

  lemma ListedAgain(w: World, c: Consumer, other: Consumer, cfg: Config)
    requires WellFormed(w) && w.server.now == 0 && w.At(Normal).delivered == 1
    requires w.At(Normal).pending == map[0 := Pending(c, 0)]
    ensures var v := Run(w, ListLater(other, cfg), cfg);
            && v.server == w.server.(now := cfg.pendingTimeout + 1)
            && (forall c :: c != other ==> v.Of(c) == w.Of(c))
            && v.Of(other).level == Normal && v.Of(other).candidates == [Candidate(0, cfg.pendingTimeout + 1)]
  {
    hide FromStreamDict, ToStreamDict, WellFormed;
    var tick, list := Tick(cfg.pendingTimeout + 1), List(other, Normal);
    assert [] + [tick] == [tick] && [tick] + [list] == ListLater(other, cfg);
    OneMore(w, [], tick, cfg);
    OneMore(w, [tick], list, cfg);
    assert XPendingRange(w.At(Normal), 1, LISTING - 1, cfg.pendingTimeout + 1) == [];
  }

  /** The message of the listing, idle over the timeout, is recovered into `other`'s hands as well. */
  lemma RecoveredByOther(w: World, other: Consumer, d: Dispatch, at: Timestamp, cfg: Config)
    requires WellFormed(w) && w.server.now == cfg.pendingTimeout + 1
    requires w.At(Normal).log == [ToStreamDict(d, at)] && w.At(Normal).trimmed == 0
    requires 0 in w.At(Normal).pending && w.At(Normal).pending[0].deliveredAt == 0
    requires w.Of(other).level == Normal && w.Of(other).candidates == [Candidate(0, cfg.pendingTimeout + 1)]
    ensures var v := Run(w, [Recover(other)], cfg);
            && Message(Normal, 0) in v.Of(other).held
            && (forall c :: c != other ==> v.Of(c) == w.Of(c))
            && v.server.deadLetters == w.server.deadLetters
  {
    DispatchRoundTrip(d, at);
    hide FromStreamDict, ToStreamDict, Normalized, WellFormed;
    assert [] + [Recover(other)] == [Recover(other)];
    OneMore(w, [], Recover(other), cfg);
  }

  /** After the timeout `other` lists the stream and recovers its oldest pending message. */
  function RecoverLater(other: Consumer, cfg: Config): seq<Step> {
    ListLater(other, cfg) + [Recover(other)]
  }

  lemma RecoveredLater(w: World, c: Consumer, other: Consumer, d: Dispatch, at: Timestamp, cfg: Config)
    requires WellFormed(w) && w.server.now == 0 && w.At(Normal).delivered == 1
    requires w.At(Normal).log == [ToStreamDict(d, at)] && w.At(Normal).trimmed == 0
    requires w.At(Normal).pending == map[0 := Pending(c, 0)]
    ensures var v := Run(w, RecoverLater(other, cfg), cfg);
            && Message(Normal, 0) in v.Of(other).held
            && (forall k :: k != other ==> v.Of(k) == w.Of(k))
            && v.server.deadLetters == w.server.deadLetters
  {
    RunAppend(w, ListLater(other, cfg), [Recover(other)], cfg);
    ListedAgain(w, c, other, cfg);
    hide FromStreamDict, ToStreamDict, Run, ListLater, WellFormed;
    RecoveredByOther(Run(w, ListLater(other, cfg), cfg), other, d, at, cfg);
  }

  /** A rejection in full: the copy, then the acknowledgment. */
  function RejectInFull(c: Consumer, m: Message, at: Timestamp): seq<Step> {
    [RejectCopy(c, m, "", at, 0), RejectAck(c, m)]
  }

  lemma KeepsHolding(w: World, step: Step, cfg: Config, c: Consumer, m: Message)
    requires WellFormed(w) && m in w.Of(c).held && (step.RejectCopy? || step.RejectAck?)
    ensures m in Next(w, step, cfg).Of(c).held
  {
    hide FromStreamDict, ToStreamDict;
    if step.RejectCopy? && step.m in w.Of(step.who).held {
      CopyIsWellFormed(w, step.who, step.m, step.error, step.at, step.drop);
    }
  }

  lemma RejectingWrites(w: World, c: Consumer, m: Message, at: Timestamp, other: Consumer, cfg: Config)
    requires WellFormed(w) && m in w.Of(c).held && m in w.Of(other).held
    ensures var v := Run(w, RejectInFull(c, m, at), cfg);
            Written(v, m) == Written(w, m) + 1 && m in v.Of(other).held
  {
    var copy, ack := RejectCopy(c, m, "", at, 0), RejectAck(c, m);
    assert [] + [copy] == [copy] && [copy] + [ack] == RejectInFull(c, m, at);
    OneMore(w, [], copy, cfg);
    OneMore(w, [copy], ack, cfg);
    NextIsWellFormed(w, copy, cfg);
    NextWrites(w, copy, cfg, m);
    NextWrites(Next(w, copy, cfg), ack, cfg, m);
    KeepsHolding(w, copy, cfg, other, m);
    KeepsHolding(Next(w, copy, cfg), ack, cfg, other, m);
  }

  /** Published, read by `c`, and recovered by `other` while `c` still works on it. */
  function HandToBoth(d: Dispatch, at: Timestamp, c: Consumer, other: Consumer, cfg: Config): seq<Step> {
    PublishAndRead(d, at, c) + RecoverLater(other, cfg)
  }

  lemma HandedToBoth(d: Dispatch, at: Timestamp, c: Consumer, other: Consumer, cfg: Config)
    requires c != other
    ensures var u := Run(START, HandToBoth(d, at, c, other, cfg), cfg);
            var m := Message(Normal, 0);
            m in u.Of(c).held && m in u.Of(other).held && Written(u, m) == 0
  {
    var first := PublishAndRead(d, at, c);
    RunAppend(START, first, RecoverLater(other, cfg), cfg);
    ReadOnce(d, at, c, cfg);
    hide FromStreamDict, ToStreamDict, Run, PublishAndRead, RecoverLater, WellFormed;
    RecoveredLater(Run(START, first, cfg), c, other, d, at, cfg);
  }

  function RejectedByBoth(w: World, c: Consumer, other: Consumer, m: Message, at: Timestamp, cfg: Config): World
    requires WellFormed(w)
  {
    Run(Run(w, RejectInFull(other, m, at), cfg), RejectInFull(c, m, at), cfg)
  }

  lemma TwoRejections(w: World, c: Consumer, other: Consumer, m: Message, at: Timestamp, cfg: Config)
    requires WellFormed(w) && m in w.Of(c).held && m in w.Of(other).held
    ensures Written(RejectedByBoth(w, c, other, m, at, cfg), m) == Written(w, m) + 2
  {
    var u := Run(w, RejectInFull(other, m, at), cfg);
    assert RejectedByBoth(w, c, other, m, at, cfg) == Run(u, RejectInFull(c, m, at), cfg);
    hide *;
    RejectingWrites(w, other, m, at, c, cfg);
    RejectingWrites(u, c, m, at, c, cfg);
  }

  /** A slow holder whose message was recovered and rejected by another rejects it as well: no crash is needed. */
  lemma SlowHolderDuplicates(d: Dispatch, at: Timestamp, c: Consumer, other: Consumer, cfg: Config)
    requires c != other
    ensures var m := Message(Normal, 0);
            var w := Run(START, HandToBoth(d, at, c, other, cfg), cfg);
            Written(RejectedByBoth(w, c, other, m, at, cfg), m) == 2
  {
    hide *;
    StartIsWellFormed();
    HandedToBoth(d, at, c, other, cfg);
    TwoRejections(Run(START, HandToBoth(d, at, c, other, cfg), cfg), c, other, Message(Normal, 0), at, cfg);
  }

  /** A rejection cut short by a crash: the copy is there, and the message is as pending as before. */
  function RejectAndCrash(c: Consumer, m: Message, at: Timestamp): seq<Step> {
    [RejectCopy(c, m, "", at, 0), Crash(c)]
  }

  lemma CrashLeavesPending(w: World, c: Consumer, m: Message, at: Timestamp, cfg: Config)
    requires WellFormed(w) && m in w.Of(c).held
    ensures var v := Run(w, RejectAndCrash(c, m, at), cfg);
            && Written(v, m) == Written(w, m) + 1
            && v.At(m.level) == w.At(m.level).(dead := w.At(m.level).dead + {m.id})
            && v.server.now == w.server.now
  {
    var copy := RejectCopy(c, m, "", at, 0);
    assert [] + [copy] == [copy] && [copy] + [Crash(c)] == RejectAndCrash(c, m, at);
    OneMore(w, [], copy, cfg);
    OneMore(w, [copy], Crash(c), cfg);
    hide *;
    CopyOnlyMarksDead(w, c, m, at, cfg);
    CrashOnlyForgets(Next(w, copy, cfg), c, cfg, m);
  }

  lemma CopyOnlyMarksDead(w: World, c: Consumer, m: Message, at: Timestamp, cfg: Config)
    requires WellFormed(w) && m in w.Of(c).held
    ensures var v := Next(w, RejectCopy(c, m, "", at, 0), cfg);
            && WellFormed(v) && Written(v, m) == Written(w, m) + 1
            && v.At(m.level) == w.At(m.level).(dead := w.At(m.level).dead + {m.id})
            && v.server.now == w.server.now
  {
    hide FromStreamDict, ToStreamDict, Written;
    NextIsWellFormed(w, RejectCopy(c, m, "", at, 0), cfg);
    NextWrites(w, RejectCopy(c, m, "", at, 0), cfg, m);
    CopyIsWellFormed(w, c, m, "", at, 0);
  }

  lemma CrashOnlyForgets(w: World, c: Consumer, cfg: Config, m: Message)
    requires WellFormed(w)
    ensures Next(w, Crash(c), cfg).server == w.server && Written(Next(w, Crash(c), cfg), m) == Written(w, m)
    ensures forall l :: Next(w, Crash(c), cfg).At(l) == w.At(l)
  {
  }

  /** Published, read and copied by `c`, which then crashes before it acknowledges. */
  function CrashAfterCopy(d: Dispatch, at: Timestamp, c: Consumer): seq<Step> {
    PublishAndRead(d, at, c) + RejectAndCrash(c, Message(Normal, 0), at)
  }

  lemma CrashedOnce(d: Dispatch, at: Timestamp, c: Consumer, cfg: Config)
    ensures var w := Run(START, CrashAfterCopy(d, at, c), cfg);
            && Written(w, Message(Normal, 0)) == 1 && w.server.now == 0 && w.At(Normal).delivered == 1
            && w.At(Normal).log == [ToStreamDict(d, at)] && w.At(Normal).trimmed == 0
            && w.At(Normal).pending == map[0 := Pending(c, 0)]
  {
    RunAppend(START, PublishAndRead(d, at, c), RejectAndCrash(c, Message(Normal, 0), at), cfg);
    ReadOnce(d, at, c, cfg);
    assert WellFormed(START);
    hide FromStreamDict, ToStreamDict, Run, PublishAndRead, RejectAndCrash, WellFormed;
    CrashLeavesPending(Run(START, PublishAndRead(d, at, c), cfg), c, Message(Normal, 0), at, cfg);
  }

  lemma RecoveredAndRejected(w: World, c: Consumer, other: Consumer, d: Dispatch, at: Timestamp, cfg: Config)
    requires WellFormed(w) && w.server.now == 0 && w.At(Normal).delivered == 1
    requires w.At(Normal).log == [ToStreamDict(d, at)] && w.At(Normal).trimmed == 0
    requires w.At(Normal).pending == map[0 := Pending(c, 0)]
    ensures var m := Message(Normal, 0);
            var v := Run(Run(w, RecoverLater(other, cfg), cfg), RejectInFull(other, m, at), cfg);
            Written(v, m) == Written(w, m) + 1
  {
    var m := Message(Normal, 0);
    var v := Run(w, RecoverLater(other, cfg), cfg);
    RecoveredLater(w, c, other, d, at, cfg);
    assert Written(v, m) == Written(w, m);
    hide *;
    RejectingWrites(v, other, m, at, other, cfg);
  }

  /**
    The price of copying first: after such a crash another consumer may recover the message after the timeout
    and reject it as well.
    */
  lemma CrashCanDuplicate(d: Dispatch, at: Timestamp, c: Consumer, other: Consumer, cfg: Config)
    ensures var m := Message(Normal, 0);
            var w := Run(START, CrashAfterCopy(d, at, c), cfg);
            Written(Run(Run(w, RecoverLater(other, cfg), cfg), RejectInFull(other, m, at), cfg), m) == 2
  {
    hide *;
    StartIsWellFormed();
    CrashedOnce(d, at, c, cfg);
    RecoveredAndRejected(Run(START, CrashAfterCopy(d, at, c), cfg), c, other, d, at, cfg);
  }
}
