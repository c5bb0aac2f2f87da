/** The dead-letter stream: when it loses a letter, and when a message gets two. */
module DeadLetters {
  import opened Options
  import opened DateTimes
  import opened JobDispatches
  import opened RedisStreams
  import opened QueueRuns
  import opened QueueSafety

  // ---------- A full stream ----------

  lemma LastStays(letters: seq<DeadLetter>, other: Message, last: nat, gone: nat)
    requires last < |letters| && letters[last].original == other && gone <= |letters|
    requires forall k :: last < k < |letters| ==> letters[k].original != other
    ensures (exists k :: 0 <= k < |letters[gone..]| && letters[gone..][k].original == other) <==> gone <= last
  {
    if gone <= last {
      assert letters[gone..][last - gone] == letters[last];
    } else {
      assert forall k :: 0 <= k < |letters[gone..]| ==> letters[gone..][k] == letters[gone + k];
    }
  }

  lemma LettersAfterCopy(w: World, c: Consumer, m: Message, error: string, at: Timestamp, other: Message, drop: nat)
    requires WellFormed(w) && LettersMatch(w) && other != m
    requires m.id < |w.At(m.level).log| && FromStreamDict(w.At(m.level).log[m.id]).Some?
    ensures var v := DoCopy(w, c, m, error, at, drop);
            var gone := if drop < LetterExcess(w.server) then drop else LetterExcess(w.server);
            && gone <= |w.server.Letters()| + 1
            && v.server.Letters() == (w.server.Letters() + [LetterOf(w.At(m.level), m, error, at)])[gone..]
            && v.At(other.level).delivered == w.At(other.level).delivered
            && v.At(other.level).pending == w.At(other.level).pending
            && v.At(other.level).acked == w.At(other.level).acked
  {
    hide FromStreamDict, ToStreamDict, LetterMatches;
  }

  lemma SavedAfterCopy(w: World, c: Consumer, m: Message, error: string, at: Timestamp, other: Message, last: nat, drop: nat)
    requires WellFormed(w) && LettersMatch(w) && m in w.Of(c).held && other != m
    requires m.id < |w.At(m.level).log| && FromStreamDict(w.At(m.level).log[m.id]).Some?
    requires var s := w.At(other.level);
             other.id < s.delivered && other.id !in s.pending && other.id !in s.acked
    requires last < |w.server.Letters()| && w.server.Letters()[last].original == other
    requires forall k :: last < k < |w.server.Letters()| ==> w.server.Letters()[k].original != other
    ensures Saved(DoCopy(w, c, m, error, at, drop), other) <==>
            (if drop < LetterExcess(w.server) then drop else LetterExcess(w.server)) <= last
  {
    hide FromStreamDict, ToStreamDict;
    var gone := if drop < LetterExcess(w.server) then drop else LetterExcess(w.server);
    var letters := w.server.Letters() + [LetterOf(w.At(m.level), m, error, at)];
    LettersAfterCopy(w, c, m, error, at, other, drop);
    assert LetterOf(w.At(m.level), m, error, at).original == m;
    hide DoCopy, LettersMatch, WellFormed, LetterExcess;
    LastStays(letters, other, last, gone);
  }

  /**
    What the 1000 letters mean for a settled message: copying another one can push out the last letter it has
    exactly when that letter is among the oldest, as many as the stream is over its limit.
    */
  lemma CopyingLosesLettersExactly(w: World, c: Consumer, m: Message, error: string, at: Timestamp, other: Message, last: nat)
    requires WellFormed(w) && LettersMatch(w) && m in w.Of(c).held && other != m
    requires m.id < |w.At(m.level).log| && FromStreamDict(w.At(m.level).log[m.id]).Some?
    requires var s := w.At(other.level);
             other.id < s.delivered && other.id !in s.pending && other.id !in s.acked
    requires last < |w.server.Letters()| && w.server.Letters()[last].original == other
    requires forall k :: last < k < |w.server.Letters()| ==> w.server.Letters()[k].original != other
    ensures (exists drop: nat :: !Saved(DoCopy(w, c, m, error, at, drop), other)) <==>
            last + 1000 <= |w.server.Letters()|
  {
    hide FromStreamDict, ToStreamDict;
    forall drop: nat
      ensures Saved(DoCopy(w, c, m, error, at, drop), other) <==>
              (if drop < LetterExcess(w.server) then drop else LetterExcess(w.server)) <= last
    {
      SavedAfterCopy(w, c, m, error, at, other, last, drop);
    }
    if last + 1000 <= |w.server.Letters()| {
      assert !Saved(DoCopy(w, c, m, error, at, last + 1), other);
    }
  }

  // ---------- One letter or two ----------

  function LetterCount(letters: seq<DeadLetter>, m: Message): nat
    decreases |letters|
  {
    if letters == [] then 0
    else LetterCount(letters[..|letters| - 1], m) + if letters[|letters| - 1].original == m then 1 else 0
  }

  lemma {:induction false} CountIsPositive(letters: seq<DeadLetter>, m: Message)
    ensures LetterCount(letters, m) >= 1 <==> exists k :: 0 <= k < |letters| && letters[k].original == m
    decreases |letters|
  {
    if letters != [] {
      var front := letters[..|letters| - 1];
      CountIsPositive(front, m);
      if k :| 0 <= k < |letters| && letters[k].original == m {
        assert k < |front| ==> front[k].original == m;
      }
      if k :| 0 <= k < |front| && front[k].original == m {
        assert letters[k].original == m;
      }
    }
  }

  lemma CountAppend(letters: seq<DeadLetter>, letter: DeadLetter, m: Message)
    ensures LetterCount(letters + [letter], m) == LetterCount(letters, m) + if letter.original == m then 1 else 0
  {
    assert (letters + [letter])[..|letters|] == letters;
  }

  /** How often a message was written to the dead-letter stream. */
  function Written(w: World, m: Message): nat {
    LetterCount(w.server.deadLetters, m)
  }

  /** This step writes a letter for `m`. */
  predicate Copies(w: World, step: Step, m: Message) {
    step.RejectCopy? && step.m == m && m in w.Of(step.who).held
  }

  /** A message is dead exactly if a letter was written for it. */
  lemma DeadIsWritten(w: World, m: Message)
    requires LettersMatch(w)
    ensures Written(w, m) >= 1 <==> m.id in w.At(m.level).dead
  {
    hide FromStreamDict, ToStreamDict;
    CountIsPositive(w.server.deadLetters, m);
    if m.id in w.At(m.level).dead {
      var letter :| letter in w.server.deadLetters && letter.original == Message(m.level, m.id);
      var k :| 0 <= k < |w.server.deadLetters| && w.server.deadLetters[k] == letter;
    }
    if k :| 0 <= k < |w.server.deadLetters| && w.server.deadLetters[k].original == m {
      assert w.server.deadLetters[k] in w.server.deadLetters;
      assert LetterMatches(w, w.server.deadLetters[k]);
    }
  }

  lemma NextWrites(w: World, step: Step, cfg: Config, m: Message)
    requires WellFormed(w)
    ensures Written(Next(w, step, cfg), m) == Written(w, m) + if Copies(w, step, m) then 1 else 0
  {
    hide FromStreamDict, ToStreamDict, LetterCount;
    if step.RejectCopy? && step.m in w.Of(step.who).held {
      CopyIsWellFormed(w, step.who, step.m, step.error, step.at, step.drop);
      var letter := LetterOf(w.At(step.m.level), step.m, step.error, step.at);
      assert Next(w, step, cfg).server.deadLetters == w.server.deadLetters + [letter];
      CountAppend(w.server.deadLetters, letter, m);
    }
  }

  /** A rejection writes a second letter, or a further one, if and only if its message is already dead. */
  lemma SecondLetterExactly(w: World, step: Step, cfg: Config, m: Message)
    requires WellFormed(w) && LettersMatch(w) && Copies(w, step, m)
    ensures Written(Next(w, step, cfg), m) == Written(w, m) + 1
    ensures Written(Next(w, step, cfg), m) >= 2 <==> m.id in w.At(m.level).dead
  {
    NextWrites(w, step, cfg, m);
    DeadIsWritten(w, m);
  }

  lemma BeforeIsSafe(steps: seq<Step>, cfg: Config, k: nat)
    requires k <= |steps|
    ensures LettersMatch(Before(START, steps, cfg, k))
  {
    RunKeepsSafety(START, steps[..k], cfg);
  }

  /** Step `k` copies `m`, which is dead already. */
  predicate CopiesAgain(steps: seq<Step>, cfg: Config, m: Message, k: nat) {
    k < |steps| &&
    var w := Before(START, steps, cfg, k);
    Copies(w, steps[k], m) && m.id in w.At(m.level).dead
  }

  lemma OneMoreStepWrites(steps: seq<Step>, cfg: Config, m: Message, n: nat)
    requires n < |steps|
    ensures var was, now := Written(Before(START, steps, cfg, n), m), Written(Before(START, steps, cfg, n + 1), m);
            now >= was && (now >= 2 <==> was >= 2 || CopiesAgain(steps, cfg, m, n))
  {
    var w := Before(START, steps, cfg, n);
    BeforeNext(START, steps, cfg, n);
    BeforeIsSafe(steps, cfg, n);
    NextWrites(w, steps[n], cfg, m);
    DeadIsWritten(w, m);
    hide Before, Written, LettersMatch, Next, Copies;
  }

  lemma NothingWrittenAtStart(steps: seq<Step>, cfg: Config, m: Message)
    ensures Written(Before(START, steps, cfg, 0), m) == 0
  {
    assert Before(START, steps, cfg, 0) == START;
  }

  /** Over a run: a message gets two letters if and only if some rejection copies it when it is already dead. */
  lemma {:induction false} TwoLettersExactly(steps: seq<Step>, cfg: Config, m: Message, n: nat)
    requires n <= |steps|
    ensures Written(Before(START, steps, cfg, n), m) >= 2 <==> exists k :: 0 <= k < n && CopiesAgain(steps, cfg, m, k)
    decreases n
  {
    hide CopiesAgain, Run;
    if n == 0 {
      NothingWrittenAtStart(steps, cfg, m);
    } else {
      hide *;
      TwoLettersExactly(steps, cfg, m, n - 1);
      OneMoreStepWrites(steps, cfg, m, n - 1);
    }
  }

  /** Every copy is followed at once by the acknowledgment of its rejection, or is the last step. */
  ghost predicate Prompt(steps: seq<Step>, cfg: Config) {
    forall k, m :: 0 <= k < |steps| - 1 && Copies(Before(START, steps, cfg, k), steps[k], m) ==>
                     steps[k + 1] == RejectAck(steps[k].who, m)
  }

  /** Nobody rejects a message that was recovered from it, or that is settled: it is pending for whoever rejects it. */
  ghost predicate OwnersReject(steps: seq<Step>, cfg: Config) {
    forall k, m :: 0 <= k < |steps| && Copies(Before(START, steps, cfg, k), steps[k], m) ==>
                     && m.id in Before(START, steps, cfg, k).At(m.level).pending
                     && Before(START, steps, cfg, k).At(m.level).pending[m.id].owner == steps[k].who
  }

  lemma NewlyDeadOrPending(w: World, step: Step, cfg: Config, m: Message)
    requires WellFormed(w)
    ensures m.id in Next(w, step, cfg).At(m.level).dead && m.id !in w.At(m.level).dead ==> Copies(w, step, m)
    ensures m.id in w.At(m.level).dead && m.id in Next(w, step, cfg).At(m.level).pending ==> m.id in w.At(m.level).pending
  {
    hide FromStreamDict, ToStreamDict;
    assert StreamOk(w.At(m.level));
  }

  lemma CopyIsRemembered(w: World, step: Step, cfg: Config, m: Message)
    requires WellFormed(w) && Copies(w, step, m)
    ensures m in Next(w, step, cfg).Of(step.who).copied
  {
    hide FromStreamDict, ToStreamDict;
    CopyIsWellFormed(w, step.who, m, step.error, step.at, step.drop);
  }

  lemma AckSettles(w: World, c: Consumer, cfg: Config, m: Message)
    requires WellFormed(w) && m in w.Of(c).copied
    ensures m.id !in Next(w, RejectAck(c, m), cfg).At(m.level).pending
  {
    hide FromStreamDict, ToStreamDict;
  }

  lemma PromptAckSettles(steps: seq<Step>, cfg: Config, m: Message, n: nat)
    requires 2 <= n <= |steps| && Copies(Before(START, steps, cfg, n - 2), steps[n - 2], m)
    requires steps[n - 1] == RejectAck(steps[n - 2].who, m)
    ensures m.id !in Before(START, steps, cfg, n).At(m.level).pending
  {
    BeforeNext(START, steps, cfg, n - 2);
    BeforeNext(START, steps, cfg, n - 1);
    hide Before, Copies;
    CopyIsRemembered(Before(START, steps, cfg, n - 2), steps[n - 2], cfg, m);
    AckSettles(Before(START, steps, cfg, n - 1), steps[n - 2].who, cfg, m);
  }

  /** Only right after its copy is a dead message still pending. */
  lemma {:induction false} DeadIsSettled(steps: seq<Step>, cfg: Config, m: Message, n: nat)
    requires Prompt(steps, cfg) && n <= |steps|
    ensures var w := Before(START, steps, cfg, n);
            m.id in w.At(m.level).dead && m.id in w.At(m.level).pending ==>
              n > 0 && Copies(Before(START, steps, cfg, n - 1), steps[n - 1], m)
    decreases n
  {
    if n == 0 {
      assert Before(START, steps, cfg, 0) == START;
    } else {
      DeadIsSettled(steps, cfg, m, n - 1);
      BeforeNext(START, steps, cfg, n - 1);
      NewlyDeadOrPending(Before(START, steps, cfg, n - 1), steps[n - 1], cfg, m);
      if n >= 2 && Copies(Before(START, steps, cfg, n - 2), steps[n - 2], m) {
        assert steps[n - 2 + 1] == RejectAck(steps[n - 2].who, m);
        PromptAckSettles(steps, cfg, m, n);
      }
      hide Before, Next, Copies, Prompt;
    }
  }

  /** Rejections that are not cut short, by the owner of the message each, write at most one letter per message. */
  lemma AtMostOneLetter(steps: seq<Step>, cfg: Config, m: Message)
    requires Prompt(steps, cfg) && OwnersReject(steps, cfg)
    ensures Written(Run(START, steps, cfg), m) <= 1
  {
    assert steps[..|steps|] == steps;
    TwoLettersExactly(steps, cfg, m, |steps|);
    forall k | 0 <= k < |steps|
      ensures !CopiesAgain(steps, cfg, m, k)
    {
      if Copies(Before(START, steps, cfg, k), steps[k], m) {
        DeadIsSettled(steps, cfg, m, k);
        assert m.id in Before(START, steps, cfg, k).At(m.level).pending;
      }
    }
  }
}
