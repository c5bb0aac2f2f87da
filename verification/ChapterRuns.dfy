/** Any sequence of chapter requests on one video, on either kind of database. */
module ChapterRuns {
  import opened Options
  import opened Positions
  import opened ChapterDetection
  import opened Chapters
  import Sorting

  /** The database's sequence gives new ids, and an UPDATE visits the rows it has to. */
  ghost predicate Possible(v: Video, r: Request) {
    match r
    case Creation(_, _, id) => id !in v.order
    case Deletion(id, visit) => id in v.order ==> NoRepeats(visit) && Ids(visit) == Ids(Behind(v.order, id))
    case Reordering(_, visit) => NoRepeats(visit) && Ids(visit) == Ids(v.order)
    case Detection(detected, minLength, _, _, ids) =>
      NoRepeats(ids) && |ids| == |Stored(detected, minLength, OrZero(v.duration))|
  }

  /** One request at a time: the count read before the transaction is still true in it. */
  predicate CountsAreCurrent(v: Video, r: Request) {
    match r
    case Creation(_, counted, _) => counted == |v.order|
    case Detection(_, _, _, counted, _) => counted == |v.order|
    case _ => true
  }

  /** One id and one chapter for each place, and has_chapters says whether there are any. */
  ghost predicate Sound(v: Video) {
    |v.chapters| == |v.order| && NoRepeats(v.order) && (v.hasChapters <==> v.order != [])
  }

  ghost predicate PossibleRun(v: Video, requests: seq<Request>, dialect: Dialect)
    decreases requests
  {
    requests == [] ||
    (&& |v.chapters| == |v.order| && Possible(v, requests[0])
     && PossibleRun(After(v, requests[0], dialect), requests[1..], dialect))
  }

  /** The video after the requests. */
  ghost function Run(v: Video, requests: seq<Request>, dialect: Dialect): Video
    requires PossibleRun(v, requests, dialect)
    decreases requests
  {
    if requests == [] then v else Run(After(v, requests[0], dialect), requests[1..], dialect)
  }

  ghost predicate CountsStayCurrent(v: Video, requests: seq<Request>, dialect: Dialect)
    requires PossibleRun(v, requests, dialect)
    decreases requests
  {
    requests == [] ||
    (CountsAreCurrent(v, requests[0]) && CountsStayCurrent(After(v, requests[0], dialect), requests[1..], dialect))
  }

  lemma CreationIsSound(v: Video, r: Request, dialect: Dialect)
    requires r.Creation? && Sound(v) && Possible(v, r) && Outcome(v, r, dialect) == None
    ensures Sound(After(v, r, dialect))
  {}

  lemma DeletionIsSound(v: Video, r: Request, dialect: Dialect)
    requires r.Deletion? && Sound(v) && Outcome(v, r, dialect) == None
    ensures Sound(After(v, r, dialect))
  {
    RemovedIds(v.order, IndexOf(v.order, r.id));
    hide Ids, Remove, Outcome;
  }

  lemma ReorderingIsSound(v: Video, r: Request, dialect: Dialect)
    requires r.Reordering? && Sound(v) && Outcome(v, r, dialect) == None
    ensures Sound(After(v, r, dialect))
  {
    SameLength(v.order, r.request);
    hide Ids;
  }

  lemma DetectionIsSound(v: Video, r: Request, dialect: Dialect)
    requires r.Detection? && Possible(v, r) && |v.chapters| == |v.order| && Outcome(v, r, dialect) == None
    ensures Sound(After(v, r, dialect))
  {
    StoredIsEmptyOnlyIfNoneDetected(r.detected, r.minLength, OrZero(v.duration));
    hide Stored;
  }

  lemma StepIsSound(v: Video, r: Request, dialect: Dialect)
    requires Sound(v) && Possible(v, r)
    ensures Sound(After(v, r, dialect))
  {
    if Outcome(v, r, dialect) == None {
      hide Sound, Possible, Outcome, After;
      match r
      case Creation(_, _, _) => CreationIsSound(v, r, dialect);
      case Deletion(_, _) => DeletionIsSound(v, r, dialect);
      case Reordering(_, _) => ReorderingIsSound(v, r, dialect);
      case Detection(_, _, _, _, _) => DetectionIsSound(v, r, dialect);
    }
  }

  /** has_chapters stays true exactly while there are chapters, whatever counts the requests have read. */
  lemma {:induction false} RunIsSound(v: Video, requests: seq<Request>, dialect: Dialect)
    requires Sound(v) && PossibleRun(v, requests, dialect)
    ensures Sound(Run(v, requests, dialect))
    decreases requests
  {
    if requests != [] {
      StepIsSound(v, requests[0], dialect);
      hide Sound, Possible, After;
      RunIsSound(After(v, requests[0], dialect), requests[1..], dialect);
    }
  }

  /**
    One request exceeds the limit if and only if it is a creation that goes through on a full video: its count,
    read before the transaction, was outdated.
    */
  lemma LimitIsExceededExactly(v: Video, r: Request, dialect: Dialect)
    requires Sound(v) && Possible(v, r) && |v.order| <= MAX_CHAPTERS_PER_VIDEO
    ensures |After(v, r, dialect).order| > MAX_CHAPTERS_PER_VIDEO
       <==> r.Creation? && |v.order| == MAX_CHAPTERS_PER_VIDEO && Outcome(v, r, dialect) == None
    ensures |After(v, r, dialect).order| > MAX_CHAPTERS_PER_VIDEO ==> !CountsAreCurrent(v, r)
  {
    if Outcome(v, r, dialect) == None {
      match r
      case Deletion(id, _) => RemovedIds(v.order, IndexOf(v.order, id));
      case Reordering(request, _) => SameLength(v.order, request);
      case _ =>
    }
  }

  /** Requests one at a time never take a video past 50 chapters. */
  lemma {:induction false} RunStaysWithinTheLimit(v: Video, requests: seq<Request>, dialect: Dialect)
    requires Sound(v) && PossibleRun(v, requests, dialect) && CountsStayCurrent(v, requests, dialect)
    requires |v.order| <= MAX_CHAPTERS_PER_VIDEO
    ensures |Run(v, requests, dialect).order| <= MAX_CHAPTERS_PER_VIDEO
    decreases requests
  {
    if requests != [] {
      StepIsSound(v, requests[0], dialect);
      LimitIsExceededExactly(v, requests[0], dialect);
      hide Sound, Possible, After, CountsAreCurrent;
      RunStaysWithinTheLimit(After(v, requests[0], dialect), requests[1..], dialect);
    }
  }

  // ---------- PostgreSQL ----------

  ghost predicate WithoutDetection(requests: seq<Request>) {
    forall i :: 0 <= i < |requests| ==> !requests[i].Detection?
  }

  function IsIn(s: seq<Id>): Id -> bool {
    (k: Id) => k in s
  }

  lemma {:induction false} RemovingFilters(s: seq<Id>, i: nat)
    requires NoRepeats(s) && i < |s|
    ensures Remove(s, i) == Sorting.Filter(s, IsIn(Remove(s, i)))
  {
    var p := IsIn(Remove(s, i));
    RemovedIds(s, i);
    var front, back := s[..i], s[i + 1..];
    assert s == front + ([s[i]] + back) && Remove(s, i) == front + back;
    assert s[i] !in front && s[i] !in back;
    Sorting.FilterConcat(front, [s[i]] + back, p);
    Sorting.FilterAll(front, p);
    Sorting.FilterAll(back, p);
    assert ([s[i]] + back)[1..] == back;
  }

  /** On PostgreSQL, a request that is not a detection only leaves out ids. */
  lemma StepLeavesOut(v: Video, r: Request)
    requires Sound(v) && Possible(v, r) && !r.Detection?
    ensures var t := After(v, r, PostgreSQL).order;
            t == Sorting.Filter(v.order, IsIn(t))
  {
    Sorting.FilterAll(v.order, IsIn(v.order));
    if r.Deletion? && Outcome(v, r, PostgreSQL) == None {
      RemovingFilters(v.order, IndexOf(v.order, r.id));
    }
  }

  /**
    On PostgreSQL no sequence of creations, deletions and reorderings adds a chapter or changes the order of two:
    the chapters left are the old list with some left out. Only a detection brings chapters in.
    */
  lemma {:induction false} PostgreSQLOnlyLeavesOut(v: Video, requests: seq<Request>)
    requires Sound(v) && PossibleRun(v, requests, PostgreSQL) && WithoutDetection(requests)
    ensures var t := Run(v, requests, PostgreSQL).order;
            t == Sorting.Filter(v.order, IsIn(t))
    decreases requests
  {
    if requests == [] {
      Sorting.FilterAll(v.order, IsIn(v.order));
    } else {
      var next := After(v, requests[0], PostgreSQL);
      StepIsSound(v, requests[0], PostgreSQL);
      StepLeavesOut(v, requests[0]);
      assert WithoutDetection(requests[1..]);
      hide Sound, Possible, After, WithoutDetection;
      PostgreSQLOnlyLeavesOut(next, requests[1..]);
      var t := Run(v, requests, PostgreSQL).order;
      Sorting.FilterTwice(v.order, IsIn(next.order), IsIn(t), IsIn(t));
    }
  }

  // ---------- Two creations at once ----------

  /** Two creations that both counted 49 take an idealised database's video to 51. */
  lemma OutdatedCountExceedsTheLimit(v: Video, chapter: Chapter, first: Id, second: Id)
    requires Sound(v) && |v.order| == MAX_CHAPTERS_PER_VIDEO - 1 && v.live && v.duration == None
    requires first !in v.order && second !in v.order && first != second
    ensures var requests := [Creation(chapter, 49, first), Creation(chapter, 49, second)];
            && PossibleRun(v, requests, Idealised)
            && |Run(v, requests, Idealised).order| == MAX_CHAPTERS_PER_VIDEO + 1
  {
    var a, b := Creation(chapter, 49, first), Creation(chapter, 49, second);
    var next := After(v, a, Idealised);
    assert [a, b][1..] == [b] && [b][1..] == [];
    assert Possible(next, b);
    var last := After(next, b, Idealised);
    assert PossibleRun(last, [], Idealised) && PossibleRun(next, [b], Idealised);
    assert Run(next, [b], Idealised) == Run(last, [], Idealised) == last;
  }
}
