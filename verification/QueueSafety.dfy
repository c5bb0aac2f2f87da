/** What every interleaving of QueueRuns keeps: nothing is lost, and recovery is exclusive. */
module QueueSafety {
  import opened Options
  import opened DateTimes
  import opened JobDispatches
  import opened RedisStreams
  import opened QueueRuns

  // ---------- No job is lost ----------

  /**
    As long as the stream has not reached its trim length, each published message is still to be delivered,
    or pending, or was acknowledged by a worker, or has its copy in the dead-letter stream. Pending is a map
    to one owner, so a pending message has exactly one.
    */
  ghost predicate NothingLost(s: Stream, maxLen: nat) {
    |s.log| <= maxLen ==>
      && s.trimmed == 0
      && forall id :: 0 <= id < |s.log| ==> id >= s.delivered || id in s.pending || id in s.acked || id in s.dead
  }

  /**
    `dead` is exactly what was written to the dead-letter stream, each letter rewrites the dispatch of its
    message, and none is gone before 1000 were written.
    */
  ghost predicate LettersMatch(w: World) {
    && (forall l, id :: id in w.At(l).dead ==>
          exists letter :: letter in w.server.deadLetters && letter.original == Message(l, id))
    && (forall letter :: letter in w.server.deadLetters ==> LetterMatches(w, letter))
    && w.server.lettersTrimmed <= |w.server.deadLetters|
    && (|w.server.deadLetters| <= 1000 ==> w.server.lettersTrimmed == 0)
  }

  ghost predicate LetterMatches(w: World, letter: DeadLetter) {
    var s := w.At(letter.original.level);
    var id := letter.original.id;
    && id in s.dead && id < |s.log| && FromStreamDict(s.log[id]).Some?
    && letter.fields == ToStreamDict(FromStreamDict(s.log[id]).value, letter.failedAt)
  }

  /** For a message published from a dispatch, the letter carries the very fields that were published. */
  lemma LetterCarriesWhatWasPublished(w: World, letter: DeadLetter, d: Dispatch, at: Timestamp)
    requires LetterMatches(w, letter)
    requires w.At(letter.original.level).log[letter.original.id] == ToStreamDict(d, at)
    ensures letter.fields == ToStreamDict(d, at)
  {
    DispatchRoundTrip(d, at);
    RewritingChangesNothing(d, at, letter.failedAt);
  }

  /** The error of a letter is the reported one, cut after 500 characters. */
  lemma LetterKeepsTheError(s: Stream, m: Message, error: string, at: Timestamp)
    requires m.id < |s.log| && FromStreamDict(s.log[m.id]).Some?
    ensures var kept := LetterOf(s, m, error, at).error;
            kept <= error && |kept| == if |error| > 500 then 500 else |error|
  {
    hide FromStreamDict, ToStreamDict;
  }

  lemma NextLosesNothing(w: World, step: Step, cfg: Config)
    requires WellFormed(w)
    requires forall l :: NothingLost(w.At(l), cfg.maxLen)
    ensures forall l :: NothingLost(Next(w, step, cfg).At(l), cfg.maxLen)
  {
    hide FromStreamDict, ToStreamDict;
    var v := Next(w, step, cfg);
    forall l
      ensures NothingLost(v.At(l), cfg.maxLen)
    {
      assert NothingLost(w.At(l), cfg.maxLen);
      match step
      case Tick(_) => assert v.At(l) == w.At(l);
      case Publish(_, k, _) =>
      case Read(_, k) =>
      case List(_, _) =>
      case Recover(c) => assert LocalOk(w, w.Of(c));
      case Acknowledge(c, m) =>
      case RejectCopy(c, m, _, _, _) => OfIsOk(w, c);
      case RejectAck(c, m) => OfIsOk(w, c);
      case Crash(_) =>
    }
  }

  lemma LettersSurvive(w: World, v: World)
    requires LettersMatch(w) && forall l :: Grows(w.At(l), v.At(l))
    ensures forall letter :: letter in w.server.deadLetters ==> LetterMatches(v, letter)
  {
    hide FromStreamDict, ToStreamDict;
    forall letter | letter in w.server.deadLetters
      ensures LetterMatches(v, letter)
    {
      assert LetterMatches(w, letter);
      assert Grows(w.At(letter.original.level), v.At(letter.original.level));
    }
  }

  lemma CopyKeepsLetters(w: World, c: Consumer, m: Message, error: string, at: Timestamp, drop: nat)
    requires WellFormed(w) && LettersMatch(w) && m in w.Of(c).held
    requires m.id < |w.At(m.level).log| && FromStreamDict(w.At(m.level).log[m.id]).Some?
    ensures LettersMatch(DoCopy(w, c, m, error, at, drop))
  {
    hide FromStreamDict, ToStreamDict;
    CopyIsWellFormed(w, c, m, error, at, drop);
    var v := DoCopy(w, c, m, error, at, drop);
    LettersSurvive(w, v);
    var added := LetterOf(w.At(m.level), m, error, at);
    assert v.server.deadLetters == w.server.deadLetters + [added];
    assert added in v.server.deadLetters;
    assert LetterMatches(v, added);
    forall l, id | id in v.At(l).dead
      ensures exists letter :: letter in v.server.deadLetters && letter.original == Message(l, id)
    {
      if Message(l, id) == m {
        assert added.original == m;
      } else {
        assert id in w.At(l).dead;
        var letter :| letter in w.server.deadLetters && letter.original == Message(l, id);
        assert letter in v.server.deadLetters;
      }
    }
  }

  lemma NextKeepsLetters(w: World, step: Step, cfg: Config)
    requires WellFormed(w) && LettersMatch(w)
    ensures LettersMatch(Next(w, step, cfg))
  {
    hide FromStreamDict, ToStreamDict;
    NextIsWellFormed(w, step, cfg);
    var v := Next(w, step, cfg);
    if step.RejectCopy? && step.m in w.Of(step.who).held {
      CopyIsWellFormed(w, step.who, step.m, step.error, step.at, step.drop);
      CopyKeepsLetters(w, step.who, step.m, step.error, step.at, step.drop);
    } else {
      LettersSurvive(w, v);
      assert v.server.deadLetters == w.server.deadLetters;
      assert forall l :: v.At(l).dead == w.At(l).dead;
    }
  }

  lemma {:induction false} RunKeepsSafety(w: World, steps: seq<Step>, cfg: Config)
    requires WellFormed(w) && LettersMatch(w)
    requires forall l :: NothingLost(w.At(l), cfg.maxLen)
    ensures LettersMatch(Run(w, steps, cfg))
    ensures forall l :: NothingLost(Run(w, steps, cfg).At(l), cfg.maxLen)
    decreases steps
  {
    if steps != [] {
      NextIsWellFormed(w, steps[0], cfg);
      NextLosesNothing(w, steps[0], cfg);
      NextKeepsLetters(w, steps[0], cfg);
      RunKeepsSafety(Next(w, steps[0], cfg), steps[1..], cfg);
    }
  }

  /** Still to be delivered, or pending, or acknowledged by a worker, or there is a dead letter for it. */
  ghost predicate Saved(w: World, m: Message) {
    var s := w.At(m.level);
    || m.id >= s.delivered || m.id in s.pending || m.id in s.acked
    || exists k :: 0 <= k < |w.server.Letters()| && w.server.Letters()[k].original == m
  }

  lemma SafeIsSaved(w: World, m: Message, maxLen: nat)
    requires LettersMatch(w) && NothingLost(w.At(m.level), maxLen)
    requires |w.At(m.level).log| <= maxLen && |w.server.deadLetters| <= 1000 && m.id < |w.At(m.level).log|
    ensures Saved(w, m)
  {
    hide FromStreamDict, ToStreamDict, LetterMatches;
    assert w.server.Letters() == w.server.deadLetters;
    if m.id in w.At(m.level).dead {
      var letter :| letter in w.server.deadLetters && letter.original == Message(m.level, m.id);
      var k :| 0 <= k < |w.server.deadLetters| && w.server.deadLetters[k] == letter;
      assert w.server.Letters()[k].original == m;
    }
  }

  lemma LetterThereMatches(w: World, k: nat)
    requires LettersMatch(w) && k < |w.server.Letters()|
    ensures LetterMatches(w, w.server.Letters()[k])
  {
    hide LetterMatches;
    assert w.server.Letters()[k] == w.server.deadLetters[w.server.lettersTrimmed + k];
    assert w.server.Letters()[k] in w.server.deadLetters;
  }

  /**
    No interleaving of publishing, claiming, recovering, acknowledging, rejecting and crashing loses a job: while
    its stream has not passed the trim length, and no more than 1000 letters were ever written, every published
    message is saved. Every letter that is there is right, however many were written.
    */
  lemma NoJobIsLost(steps: seq<Step>, cfg: Config, m: Message)
    ensures var w := Run(START, steps, cfg);
            m.id < |w.At(m.level).log| <= cfg.maxLen && |w.server.deadLetters| <= 1000 ==> Saved(w, m)
    ensures var w := Run(START, steps, cfg);
            forall k :: 0 <= k < |w.server.Letters()| ==> LetterMatches(w, w.server.Letters()[k])
  {
    RunKeepsSafety(START, steps, cfg);
    var w := Run(START, steps, cfg);
    hide *;
    if |w.At(m.level).log| <= cfg.maxLen && |w.server.deadLetters| <= 1000 && m.id < |w.At(m.level).log| {
      SafeIsSaved(w, m, cfg.maxLen);
    }
    forall k | 0 <= k < |w.server.Letters()|
      ensures LetterMatches(w, w.server.Letters()[k])
    {
      LetterThereMatches(w, k);
    }
  }

  /**
    The trim length is what the promise rests on: publishing may destroy the oldest undelivered job exactly once
    the stream is full.
    */
  lemma TrimmingLosesExactlyWhenFull(s: Stream, fields: Fields, maxLen: nat)
    requires s.trimmed <= |s.log|
    ensures (exists drop: nat :: s.delivered <= s.trimmed < XAdd(s, fields, maxLen, drop).trimmed) <==>
            s.delivered <= s.trimmed && |s.log| - s.trimmed >= maxLen
  {
    if s.delivered <= s.trimmed && |s.log| - s.trimmed >= maxLen {
      assert s.trimmed < XAdd(s, fields, maxLen, 1).trimmed;
    }
  }

  // ---------- Points of a run ----------

  lemma {:induction false} RunAppend(w: World, steps: seq<Step>, more: seq<Step>, cfg: Config)
    requires WellFormed(w)
    ensures Run(w, steps + more, cfg) == Run(Run(w, steps, cfg), more, cfg)
    decreases steps
  {
    if steps == [] {
      assert steps + more == more;
    } else {
      assert (steps + more)[1..] == steps[1..] + more;
      NextIsWellFormed(w, steps[0], cfg);
      RunAppend(Next(w, steps[0], cfg), steps[1..], more, cfg);
    }
  }

  lemma OneMore(w: World, steps: seq<Step>, step: Step, cfg: Config)
    requires WellFormed(w)
    ensures Run(w, steps + [step], cfg) == Next(Run(w, steps, cfg), step, cfg)
  {
    hide FromStreamDict, ToStreamDict, Next;
    RunAppend(w, steps, [step], cfg);
    var v := Run(w, steps, cfg);
    NextIsWellFormed(v, step, cfg);
    assert Run(v, [step], cfg) == Run(Next(v, step, cfg), [], cfg);
  }

  /** The world before step `i`. */
  function Before(w: World, steps: seq<Step>, cfg: Config, i: nat): (v: World)
    requires WellFormed(w) && i <= |steps|
    ensures WellFormed(v)
  {
    Run(w, steps[..i], cfg)
  }

  lemma BeforeNext(w: World, steps: seq<Step>, cfg: Config, i: nat)
    requires WellFormed(w) && i < |steps|
    ensures Before(w, steps, cfg, i + 1) == Next(Before(w, steps, cfg, i), steps[i], cfg)
  {
    assert steps[..i + 1] == steps[..i] + [steps[i]];
    RunAppend(w, steps[..i], [steps[i]], cfg);
    var v := Before(w, steps, cfg, i);
    NextIsWellFormed(v, steps[i], cfg);
    assert Run(v, [steps[i]], cfg) == Run(Next(v, steps[i], cfg), [], cfg);
  }

  // ---------- Recovery is exclusive ----------

  /** The message this step puts into a consumer's hands, by a first read or by a recovery. */
  function Delivers(w: World, step: Step, cfg: Config): Option<Message> {
    match step
    case Read(_, l) => if NextNew(w.At(l)) < |w.At(l).log| then Some(Message(l, NextNew(w.At(l)))) else None
    case Recover(c) =>
      var l := w.Of(c);
      if l.candidates != [] && l.candidates[0].idle > cfg.pendingTimeout
         && XClaim(w.At(l.level), c, cfg.pendingTimeout, l.candidates[0].id, w.server.now).0
      then Some(Message(l.level, l.candidates[0].id)) else None
    case _ => None
  }

  /** A delivery makes its consumer the owner from now on. A recovered message was pending, and idle for the timeout. */
  lemma DeliveryTakesOwnership(w: World, step: Step, cfg: Config)
    requires WellFormed(w) && Delivers(w, step, cfg).Some?
    ensures var m := Delivers(w, step, cfg).value;
            && m.id in Next(w, step, cfg).At(m.level).pending
            && Next(w, step, cfg).At(m.level).pending[m.id] == Pending(step.who, w.server.now)
            && (step.Recover? ==>
                  && m.id in w.At(m.level).pending
                  && w.server.now - w.At(m.level).pending[m.id].deliveredAt >= cfg.pendingTimeout)
            && (step.Read? ==> m.id >= w.At(m.level).delivered)
  {
    hide FromStreamDict, ToStreamDict;
  }

  /** The message was delivered at or after `since`, and is either settled or pending since then. */
  ghost predicate HeldSince(w: World, m: Message, since: int) {
    && m.id < w.At(m.level).delivered
    && since <= w.server.now
    && (m.id in w.At(m.level).pending ==> w.At(m.level).pending[m.id].deliveredAt >= since)
  }

  lemma NextKeepsHeld(w: World, step: Step, cfg: Config, m: Message, since: int)
    requires WellFormed(w) && HeldSince(w, m, since)
    ensures HeldSince(Next(w, step, cfg), m, since)
  {
    hide FromStreamDict, ToStreamDict;
    NextIsWellFormed(w, step, cfg);
    var v := Next(w, step, cfg);
    assert Grows(w.At(m.level), v.At(m.level));
    match step
    case Read(_, k) =>
    case Recover(c) =>
    case Acknowledge(_, _) =>
    case RejectCopy(_, _, _, _, _) =>
    case RejectAck(_, _) =>
    case _ =>
  }

  lemma {:induction false} StaysHeld(w: World, steps: seq<Step>, cfg: Config, i: nat, j: nat, m: Message, since: int)
    requires WellFormed(w) && i <= j <= |steps|
    requires HeldSince(Before(w, steps, cfg, i), m, since)
    ensures HeldSince(Before(w, steps, cfg, j), m, since)
  {
    if i < j {
      StaysHeld(w, steps, cfg, i, j - 1, m, since);
      BeforeNext(w, steps, cfg, j - 1);
      NextKeepsHeld(Before(w, steps, cfg, j - 1), steps[j - 1], cfg, m, since);
    }
  }

  /**
    If one message is delivered twice, in whatever interleaving and to whatever consumers, the second
    delivery is a recovery, and at least the pending timeout lies between the two.
    */
  lemma RedeliveryWaitsForTheTimeout(w: World, steps: seq<Step>, cfg: Config, i: nat, j: nat)
    requires WellFormed(w) && i < j < |steps|
    requires Delivers(Before(w, steps, cfg, i), steps[i], cfg).Some?
    requires Delivers(Before(w, steps, cfg, j), steps[j], cfg) == Delivers(Before(w, steps, cfg, i), steps[i], cfg)
    ensures steps[j].Recover?
    ensures Before(w, steps, cfg, j).server.now - Before(w, steps, cfg, i).server.now >= cfg.pendingTimeout
  {
    var a, b := Before(w, steps, cfg, i), Before(w, steps, cfg, j);
    var m := Delivers(a, steps[i], cfg).value;
    DeliveryTakesOwnership(a, steps[i], cfg);
    BeforeNext(w, steps, cfg, i);
    var c := Before(w, steps, cfg, i + 1);
    assert StreamOk(c.At(m.level));
    assert c.server.now == a.server.now by {
      hide FromStreamDict, ToStreamDict;
    }
    StaysHeld(w, steps, cfg, i + 1, j, m, a.server.now);
    DeliveryTakesOwnership(b, steps[j], cfg);
  }
}
