/** From publishing to draining: in which order jobs of all priorities come out of the queue. */
module QueuePriorities {
  import opened Options
  import opened DateTimes
  import opened JobDispatches
  import opened RedisStreams
  import opened Sorting
  import opened JobClaims
  import opened JobQueues
  import opened QueueDrain

  /** A dispatch with the time of its publishing; `drop` is what the trim of its stream may drop. */
  datatype Publication = Publication(job: Dispatch, at: Timestamp, drop: nat)

  /** The dispatches are published one after the other. */
  function PublishAll(s: Server, jobs: seq<Publication>, maxLen: nat): Server
    decreases |jobs|
  {
    if jobs == [] then s
    else
      var last := jobs[|jobs| - 1];
      Published(PublishAll(s, jobs[..|jobs| - 1], maxLen), last.job, last.at, maxLen, last.drop)
  }

  function WithPriority(l: Level): Publication -> bool {
    match l
    case High => (p: Publication) => p.job.priority == "high"
    case Normal => (p: Publication) => p.job.priority != "high" && p.job.priority != "low"
    case Low => (p: Publication) => p.job.priority == "low"
  }

  function OfLevel(jobs: seq<Publication>, l: Level): seq<Publication> {
    Filter(jobs, WithPriority(l))
  }

  /** All jobs of priority "high", then all that are neither, then all of priority "low". */
  function InPriorityOrder(jobs: seq<Publication>): seq<Publication> {
    Filter(jobs, (p: Publication) => p.job.priority == "high")
    + Filter(jobs, (p: Publication) => p.job.priority != "high" && p.job.priority != "low")
    + Filter(jobs, (p: Publication) => p.job.priority == "low")
  }

  /** A stream written from these publications and never read. */
  ghost predicate WrittenFrom(s: Stream, jobs: seq<Publication>) {
    && s.trimmed == 0 && s.delivered == 0 && s.pending == map[] && |s.log| == |jobs|
    && forall i :: 0 <= i < |jobs| ==> s.log[i] == ToStreamDict(jobs[i].job, jobs[i].at)
  }

  lemma WrittenOneMore(s: Stream, jobs: seq<Publication>, p: Publication, maxLen: nat)
    requires WrittenFrom(s, jobs) && |jobs| < maxLen
    ensures WrittenFrom(XAdd(s, ToStreamDict(p.job, p.at), maxLen, p.drop), jobs + [p])
  {
    hide ToStreamDict;
  }

  lemma LevelOfLast(front: seq<Publication>, p: Publication, l: Level)
    ensures OfLevel(front + [p], l) == OfLevel(front, l) + if WithPriority(l)(p) then [p] else []
    ensures WithPriority(l)(p) <==> LevelOf(p.job.priority) == l
  {
    FilterConcat(front, [p], WithPriority(l));
    assert [p][1..] == [];
    assert Filter([p], WithPriority(l)) == if WithPriority(l)(p) then [p] else [];
  }

  lemma {:induction false} PublishedLogs(jobs: seq<Publication>, maxLen: nat)
    requires |jobs| <= maxLen
    ensures var s := PublishAll(EMPTY_SERVER, jobs, maxLen);
            s.now == 0 && forall l :: WrittenFrom(s.At(l), OfLevel(jobs, l))
    decreases |jobs|
  {
    hide ToStreamDict;
    if jobs != [] {
      var front, p := jobs[..|jobs| - 1], jobs[|jobs| - 1];
      PublishedLogs(front, maxLen);
      var s := PublishAll(EMPTY_SERVER, front, maxLen);
      assert jobs == front + [p];
      forall l
        ensures WrittenFrom(PublishAll(EMPTY_SERVER, jobs, maxLen).At(l), OfLevel(jobs, l))
      {
        LevelOfLast(front, p, l);
        if LevelOf(p.job.priority) == l {
          WrittenOneMore(s.At(l), OfLevel(front, l), p, maxLen);
        }
      }
    }
  }

  ghost function Pairs(jobs: seq<Publication>): (r: seq<(Dispatch, Timestamp)>)
    ensures |r| == |jobs| && forall i :: 0 <= i < |r| ==> r[i] == (jobs[i].job, jobs[i].at)
  {
    seq(|jobs|, i requires 0 <= i < |jobs| => (jobs[i].job, jobs[i].at))
  }

  ghost function Sources(jobs: seq<Publication>): Level -> seq<(Dispatch, Timestamp)> {
    l => Pairs(OfLevel(jobs, l))
  }

  lemma WaitingAll(s: Server, l: Level, jobs: seq<Publication>, k: nat)
    requires WrittenFrom(s.At(l), jobs)
    ensures |WaitingIn(s, l)| == |jobs|
    ensures k < |jobs| ==> WaitingIn(s, l)[k] == Message(l, k)
  {
    WaitingIsExact(l, 0, |jobs|, k);
  }

  /** The backlog holds a message for each job, in priority order. */
  lemma BacklogInOrder(s: Server, jobs: seq<Publication>, k: nat)
    requires forall l :: WrittenFrom(s.At(l), OfLevel(jobs, l))
    ensures |Backlog(s)| == |InPriorityOrder(jobs)|
    ensures k < |Backlog(s)| ==>
              var p := InPriorityOrder(jobs)[k];
              Original(Sources(jobs), Backlog(s)[k]) == Some(Delivery(Normalized(p.job, p.at), Backlog(s)[k]))
  {
    hide ToStreamDict, Normalized, Filter;
    var high, normal, low := OfLevel(jobs, High), OfLevel(jobs, Normal), OfLevel(jobs, Low);
    assert InPriorityOrder(jobs) == high + normal + low;
    WaitingAll(s, High, high, k);
    WaitingAll(s, Normal, normal, if k >= |high| then k - |high| else 0);
    WaitingAll(s, Low, low, if k >= |high| + |normal| then k - |high| - |normal| else 0);
    hide WaitingIn, OfLevel, WrittenFrom, InPriorityOrder;
    if k < |Backlog(s)| {
      var m := Backlog(s)[k];
      assert m == if k < |high| then Message(High, k)
                  else if k < |high| + |normal| then Message(Normal, k - |high|)
                  else Message(Low, k - |high| - |normal|);
    }
  }

  lemma EveryJobOnce(jobs: seq<Publication>)
    ensures |InPriorityOrder(jobs)| == |jobs|
    ensures multiset(InPriorityOrder(jobs)) == multiset(jobs)
    decreases |jobs|
  {
    if jobs != [] {
      var front, p := jobs[..|jobs| - 1], jobs[|jobs| - 1];
      EveryJobOnce(front);
      assert jobs == front + [p];
      LevelOfLast(front, p, High);
      LevelOfLast(front, p, Normal);
      LevelOfLast(front, p, Low);
      OrderIsByLevel(front);
      OrderIsByLevel(jobs);
    }
  }

  lemma OrderIsByLevel(jobs: seq<Publication>)
    ensures InPriorityOrder(jobs) == OfLevel(jobs, High) + OfLevel(jobs, Normal) + OfLevel(jobs, Low)
  {
    hide Filter;
  }

  /**
    From an empty server: publish any list of dispatches within the trim length, then let any consumers claim. All
    jobs of priority "high" come out first, then those that are neither, then those of priority "low", each group in
    the order of publishing, each job once and normalised, and then nothing.
    */
  lemma PublishedThenDrained(jobs: seq<Publication>, maxLen: nat, calls: seq<Call>, timeout: nat, k: nat)
    requires |jobs| <= maxLen && k < |calls| && EndOf(0, calls) <= timeout
    ensures |InPriorityOrder(jobs)| == |jobs| && multiset(InPriorityOrder(jobs)) == multiset(jobs)
    ensures var r := Drain(PublishAll(EMPTY_SERVER, jobs, maxLen), calls, timeout)[k];
            if k >= |jobs| then r == None
            else r.Some? && var p := InPriorityOrder(jobs)[k]; r.value.job == Normalized(p.job, p.at)
  {
    var s := PublishAll(EMPTY_SERVER, jobs, maxLen);
    PublishedLogs(jobs, maxLen);
    EveryJobOnce(jobs);
    BacklogInOrder(s, jobs, k);
    hide ToStreamDict, Normalized, PublishAll, OfLevel, InPriorityOrder, Backlog, Drain;
    assert PublishedAs(s, Sources(jobs)) && FreshUntil(s, EndOf(0, calls), timeout);
    hide PublishedAs, FreshUntil, Sources, Original, EndOf;
    DrainIsAStablePrioritySort(s, calls, Sources(jobs), timeout, k);
  }
}
