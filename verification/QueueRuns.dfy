/**
  Every interleaving of publishers and consumers over the job streams. A consumer's coroutine is cut at
  each await: one step is one Redis command of one consumer, and a crash (or an exception that unwinds the
  coroutine) may fall between any two steps.
  */
module QueueRuns {
  import opened Options
  import opened DateTimes
  import opened JobDispatches
  import opened RedisStreams

  /**
    What a consumer remembers between awaits: the dispatches it was handed, the rejections whose copy is
    written, and the listing its recovery loop is walking through.
    */
  datatype Local = Local(held: set<Message>, copied: set<Message>, level: Level, candidates: seq<Candidate>)

  const FRESH := Local({}, {}, High, [])

  datatype World = World(server: Server, locals: map<Consumer, Local>) {

    function Of(c: Consumer): Local {
      if c in locals then locals[c] else FRESH
    }

    function Put(c: Consumer, l: Local): World {
      this.(locals := locals[c := l])
    }

    function At(l: Level): Stream {
      server.At(l)
    }

    function Set(l: Level, s: Stream): World {
      this.(server := server.With(l, s))
    }
  }

  const START := World(EMPTY_SERVER, map[])

  const LISTING := 10

  datatype Step =
    | Tick(ms: nat)
    | Publish(fields: Fields, to: Level, drop: nat)
    | Read(who: Consumer, from: Level)
    | List(who: Consumer, from: Level)
    | Recover(who: Consumer)
    | Acknowledge(who: Consumer, m: Message)
    | RejectCopy(who: Consumer, m: Message, error: string, at: Timestamp, drop: nat)
    | RejectAck(who: Consumer, m: Message)
    | Crash(who: Consumer)

  function Handed(l: Local, m: Message, fields: Fields): Local {
    if FromStreamDict(fields).Some? then l.(held := l.held + {m}) else l
  }

  function DoRead(w: World, c: Consumer, l: Level): World {
    var (id, s) := XReadGroup(w.At(l), c, w.server.now);
    if id.None? then w
    else w.Set(l, s).Put(c, Handed(w.Of(c), Message(l, id.value), s.log[id.value]))
  }

  /** The next turn of the loop over a listing: skip a young entry, claim an old one and leave the loop. */
  function DoRecover(w: World, c: Consumer, cfg: Config): World {
    var l := w.Of(c);
    if l.candidates == [] then w
    else
      var next := l.candidates[0];
      var rest := l.(candidates := l.candidates[1..]);
      if next.idle <= cfg.pendingTimeout then w.Put(c, rest)
      else
        var (ok, s) := XClaim(w.At(l.level), c, cfg.pendingTimeout, next.id, w.server.now);
        if ok
        then w.Set(l.level, s).Put(c, Handed(l.(candidates := []), Message(l.level, next.id), s.log[next.id]))
        else w.Put(c, rest)
  }

  function Shortened(error: string): string {
    if |error| > 500 then error[..500] else error
  }

  /** The dead letter for a held message: its dispatch, written again. */
  function LetterOf(s: Stream, m: Message, error: string, at: Timestamp): DeadLetter
    requires m.id < |s.log| && FromStreamDict(s.log[m.id]).Some?
  {
    DeadLetter(m, ToStreamDict(FromStreamDict(s.log[m.id]).value, at), Shortened(error), at)
  }

  function DoCopy(w: World, c: Consumer, m: Message, error: string, at: Timestamp, drop: nat): World
    requires m.id < |w.At(m.level).log| && FromStreamDict(w.At(m.level).log[m.id]).Some?
  {
    var s := w.At(m.level);
    var server := XAddLetter(w.server, LetterOf(s, m, error, at), drop);
    World(server.With(m.level, s.(dead := s.dead + {m.id})), w.locals)
      .Put(c, w.Of(c).(copied := w.Of(c).copied + {m}))
  }

  function Next(w: World, step: Step, cfg: Config): World
    requires WellFormed(w)
  {
    match step
    case Tick(ms) => w.(server := w.server.(now := w.server.now + ms))
    case Publish(fields, l, drop) => w.Set(l, XAdd(w.At(l), fields, cfg.maxLen, drop))
    case Read(c, l) => DoRead(w, c, l)
    case List(c, l) =>
      w.Put(c, w.Of(c).(level := l, candidates := XPendingRange(w.At(l), 0, LISTING, w.server.now)))
    case Recover(c) => DoRecover(w, c, cfg)
    case Acknowledge(c, m) =>
      if m in w.Of(c).held
      then w.Set(m.level, XAck(w.At(m.level), m.id).(acked := w.At(m.level).acked + {m.id}))
      else w
    case RejectCopy(c, m, error, at, drop) => if m in w.Of(c).held then DoCopy(w, c, m, error, at, drop) else w
    case RejectAck(c, m) =>
      if m in w.Of(c).copied then w.Set(m.level, XAck(w.At(m.level), m.id)) else w
    case Crash(c) => w.Put(c, FRESH)
  }

  // ---------- Invariant ----------

  /** Delivered ids are real, and nothing is pending, acknowledged or dead before it is delivered. */
  ghost predicate StreamOk(s: Stream) {
    && s.delivered <= |s.log| && s.trimmed <= |s.log|
    && (forall id :: id in s.pending ==> id < s.delivered)
    && (forall id :: id in s.acked || id in s.dead ==> id < s.delivered)
    && (forall id :: id in s.acked ==> id !in s.pending)
  }

  ghost predicate LocalOk(w: World, l: Local) {
    && (forall m :: m in l.held ==>
          && m.id < w.At(m.level).delivered <= |w.At(m.level).log|
          && FromStreamDict(w.At(m.level).log[m.id]).Some?)
    && (forall m :: m in l.copied ==> m.id in w.At(m.level).dead)
    && (forall k :: 0 <= k < |l.candidates| ==> l.candidates[k].id < w.At(l.level).delivered)
  }

  ghost predicate WellFormed(w: World) {
    && (forall l :: StreamOk(w.At(l)))
    && (forall c :: c in w.locals ==> LocalOk(w, w.locals[c]))
  }

  /** Streams only move forward, so what a consumer remembers stays true while others act. */
  ghost predicate Grows(s: Stream, t: Stream) {
    && s.log <= t.log && s.delivered <= t.delivered && s.dead <= t.dead && s.acked <= t.acked
    && s.trimmed <= t.trimmed
  }

  /** A step that moves one stream forward and touches one consumer's memory keeps everything well-formed. */
  lemma Moved(w: World, v: World, l: Level, c: Consumer)
    requires WellFormed(w)
    requires Grows(w.At(l), v.At(l)) && StreamOk(v.At(l))
    requires forall k :: k != l ==> v.At(k) == w.At(k)
    requires forall d :: d in v.locals && d != c ==> d in w.locals && v.locals[d] == w.locals[d]
    requires c in v.locals ==> LocalOk(v, v.locals[c])
    ensures WellFormed(v) && forall k :: Grows(w.At(k), v.At(k))
  {
    forall k
      ensures Grows(w.At(k), v.At(k)) && StreamOk(v.At(k))
    {
      assert StreamOk(w.At(k));
    }
    forall d | d in v.locals && d != c
      ensures LocalOk(v, v.locals[d])
    {
      LocalSurvives(w, v, w.locals[d]);
    }
  }

  lemma LocalSurvives(w: World, v: World, l: Local)
    requires LocalOk(w, l)
    requires forall k :: Grows(w.At(k), v.At(k)) && StreamOk(v.At(k))
    ensures LocalOk(v, l)
  {
    hide FromStreamDict;
    forall m | m in l.held
      ensures m.id < v.At(m.level).delivered <= |v.At(m.level).log|
      ensures FromStreamDict(v.At(m.level).log[m.id]).Some?
    {
      assert Grows(w.At(m.level), v.At(m.level));
      assert v.At(m.level).log[m.id] == w.At(m.level).log[m.id];
    }
    forall m | m in l.copied
      ensures m.id in v.At(m.level).dead
    {
      assert Grows(w.At(m.level), v.At(m.level));
    }
    assert Grows(w.At(l.level), v.At(l.level));
  }

  lemma OfIsOk(w: World, c: Consumer)
    requires WellFormed(w)
    ensures LocalOk(w, w.Of(c))
  {
  }

  /** One stream replaced by a later one: what anyone remembers still holds. */
  lemma SetMoves(w: World, l: Level, s: Stream)
    requires WellFormed(w) && Grows(w.At(l), s) && StreamOk(s)
    ensures WellFormed(w.Set(l, s)) && forall k :: Grows(w.At(k), w.Set(l, s).At(k))
  {
    var v := w.Set(l, s);
    if c :| c in v.locals {
      assert LocalOk(w, w.locals[c]);
      forall k
        ensures Grows(w.At(k), v.At(k))
      {
        assert StreamOk(w.At(k));
      }
      LocalSurvives(w, v, w.locals[c]);
      Moved(w, v, l, c);
    } else {
      Moved(w, v, l, "");
    }
  }

  /** One consumer's memory replaced by one that is true. */
  lemma PutKeeps(w: World, c: Consumer, l: Local)
    requires WellFormed(w) && LocalOk(w, l)
    ensures WellFormed(w.Put(c, l)) && forall k :: Grows(w.At(k), w.Put(c, l).At(k))
  {
    var v := w.Put(c, l);
    assert StreamOk(w.At(High));
    LocalSurvives(w, v, l);
    Moved(w, v, High, c);
  }

  lemma ReadIsWellFormed(w: World, c: Consumer, l: Level)
    requires WellFormed(w)
    ensures WellFormed(DoRead(w, c, l)) && forall k :: Grows(w.At(k), DoRead(w, c, l).At(k))
  {
    hide FromStreamDict;
    assert StreamOk(w.At(l));
    var (id, s) := XReadGroup(w.At(l), c, w.server.now);
    if id.Some? {
      SetMoves(w, l, s);
      var v := w.Set(l, s);
      OfIsOk(v, c);
      PutKeeps(v, c, Handed(v.Of(c), Message(l, id.value), s.log[id.value]));
    }
  }

  lemma RecoverIsWellFormed(w: World, c: Consumer, cfg: Config)
    requires WellFormed(w)
    ensures WellFormed(DoRecover(w, c, cfg)) && forall k :: Grows(w.At(k), DoRecover(w, c, cfg).At(k))
  {
    hide FromStreamDict;
    var l := w.Of(c);
    OfIsOk(w, c);
    if l.candidates != [] {
      var next := l.candidates[0];
      var rest := l.(candidates := l.candidates[1..]);
      PutKeeps(w, c, rest);
      var (ok, s) := XClaim(w.At(l.level), c, cfg.pendingTimeout, next.id, w.server.now);
      if next.idle > cfg.pendingTimeout && ok {
        assert StreamOk(w.At(l.level));
        SetMoves(w, l.level, s);
        var v := w.Set(l.level, s);
        OfIsOk(v, c);
        PutKeeps(v, c, Handed(l.(candidates := []), Message(l.level, next.id), s.log[next.id]));
      }
    }
  }

  lemma CopyIsWellFormed(w: World, c: Consumer, m: Message, error: string, at: Timestamp, drop: nat)
    requires WellFormed(w) && m in w.Of(c).held
    ensures m.id < |w.At(m.level).log| && FromStreamDict(w.At(m.level).log[m.id]).Some?
    ensures WellFormed(DoCopy(w, c, m, error, at, drop))
    ensures forall k :: Grows(w.At(k), DoCopy(w, c, m, error, at, drop).At(k))
  {
    hide FromStreamDict, ToStreamDict;
    OfIsOk(w, c);
    var s := w.At(m.level);
    assert StreamOk(s);
    var u := World(XAddLetter(w.server, LetterOf(s, m, error, at), drop), w.locals);
    forall c | c in u.locals
      ensures LocalOk(u, u.locals[c])
    {
      assert LocalOk(w, w.locals[c]);
    }
    assert WellFormed(u) by {
      forall k ensures StreamOk(u.At(k)) { assert StreamOk(w.At(k)); }
    }
    SetMoves(u, m.level, s.(dead := s.dead + {m.id}));
    var v := u.Set(m.level, s.(dead := s.dead + {m.id}));
    OfIsOk(v, c);
    PutKeeps(v, c, w.Of(c).(copied := w.Of(c).copied + {m}));
  }

  lemma NextIsWellFormed(w: World, step: Step, cfg: Config)
    requires WellFormed(w)
    ensures WellFormed(Next(w, step, cfg))
    ensures forall l :: Grows(w.At(l), Next(w, step, cfg).At(l))
  {
    hide FromStreamDict, DoRead, DoRecover, DoCopy;
    var v := Next(w, step, cfg);
    match step
    case Tick(_) =>
      forall k ensures Grows(w.At(k), v.At(k)) { assert StreamOk(w.At(k)); }
      forall c | c in v.locals ensures LocalOk(v, v.locals[c]) { LocalSurvives(w, v, w.locals[c]); }
    case Publish(_, l, _) =>
      assert StreamOk(w.At(l));
      SetMoves(w, l, v.At(l));
    case Read(c, l) => ReadIsWellFormed(w, c, l);
    case List(c, l) =>
      OfIsOk(w, c);
      assert StreamOk(w.At(l));
      PutKeeps(w, c, v.Of(c));
    case Recover(c) => RecoverIsWellFormed(w, c, cfg);
    case Acknowledge(c, m) =>
      OfIsOk(w, c);
      assert StreamOk(w.At(m.level));
      SetMoves(w, m.level, v.At(m.level));
    case RejectCopy(c, m, error, at, drop) =>
      if m in w.Of(c).held {
        CopyIsWellFormed(w, c, m, error, at, drop);
      }
    case RejectAck(c, m) =>
      assert StreamOk(w.At(m.level));
      SetMoves(w, m.level, v.At(m.level));
    case Crash(c) => PutKeeps(w, c, FRESH);
  }

  function Run(w: World, steps: seq<Step>, cfg: Config): (v: World)
    requires WellFormed(w)
    ensures WellFormed(v)
    decreases steps
  {
    if steps == [] then w
    else
      NextIsWellFormed(w, steps[0], cfg);
      Run(Next(w, steps[0], cfg), steps[1..], cfg)
  }
}
