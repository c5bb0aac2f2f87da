/**
  Soft delete and restore with rollback (api/admin.py): the database row is changed first, then the files are
  moved one by one, and a failing move undoes the moves made so far and the row change.
  */
module VideoArchive {
  import opened Options

  /** A video directory or an uploaded source, in its live or its archived place. The slug "uploads" is not used. */
  datatype Path =
    | VideoDir(slug: string)
    | ArchivedDir(slug: string)
    | Upload(id: int, ext: string)
    | ArchivedUpload(id: int, ext: string)

  type Content = string

  type Files = map<Path, Content>

  datatype Video = Video(slug: string, deletedAt: Option<int>)

  datatype Move = Move(src: Path, dst: Path)

  // ---------- Moving files ----------

  /** `shutil.move` to a free target. */
  function Moved(f: Files, m: Move): Files
    requires m.src in f
  {
    (f - {m.src})[m.dst := f[m.src]]
  }

  function Flip(m: Move): Move {
    Move(m.dst, m.src)
  }

  function FlipAll(moves: seq<Move>): seq<Move> {
    seq(|moves|, i requires 0 <= i < |moves| => Flip(moves[i]))
  }

  /** Perform the moves whose source exists, in order. */
  function MoveExisting(f: Files, moves: seq<Move>): Files
    decreases moves
  {
    if moves == [] then f
    else MoveExisting(if moves[0].src in f then Moved(f, moves[0]) else f, moves[1..])
  }

  /** How many of the sources exist. */
  function Present(f: Files, moves: seq<Move>): nat
    decreases moves
  {
    if moves == [] then 0 else (if moves[0].src in f then 1 else 0) + Present(f, moves[1..])
  }

  lemma {:induction false} NothingPresent(f: Files, moves: seq<Move>)
    requires forall i :: 0 <= i < |moves| ==> moves[i].src !in f
    ensures Present(f, moves) == 0
    decreases moves
  {
    if moves != [] {
      NothingPresent(f, moves[1..]);
    }
  }

  /** No two of the moves share a path. */
  ghost predicate Separate(moves: seq<Move>) {
    && (forall i, j :: 0 <= i < |moves| && 0 <= j < |moves| ==> moves[i].src != moves[j].dst)
    && (forall i, j :: 0 <= i < j < |moves| ==> moves[i].src != moves[j].src && moves[i].dst != moves[j].dst)
  }

  /** Whatever is to be moved finds its target free. */
  ghost predicate Clear(f: Files, moves: seq<Move>) {
    forall i :: 0 <= i < |moves| && moves[i].src in f ==> moves[i].dst !in f
  }

  function MoveFirst(f: Files, moves: seq<Move>): Files
    requires moves != []
  {
    if moves[0].src in f then Moved(f, moves[0]) else f
  }

  ghost predicate Touches(m: Move, p: Path) {
    m.src == p || m.dst == p
  }

  lemma {:induction false} Untouched(f: Files, moves: seq<Move>, p: Path)
    requires forall i :: 0 <= i < |moves| ==> !Touches(moves[i], p)
    ensures var g := MoveExisting(f, moves);
            (p in g <==> p in f) && (p in f ==> g[p] == f[p])
    decreases moves
  {
    if moves != [] {
      assert !Touches(moves[0], p);
      Untouched(MoveFirst(f, moves), moves[1..], p);
    }
  }

  /** Afterwards nothing is left at a source. */
  lemma {:induction false} SourceIsGone(f: Files, moves: seq<Move>, i: nat)
    requires Separate(moves) && i < |moves|
    ensures moves[i].src !in MoveExisting(f, moves)
    decreases moves
  {
    RestIsSeparate(moves);
    if i > 0 {
      SourceIsGone(MoveFirst(f, moves), moves[1..], i - 1);
    } else {
      Untouched(MoveFirst(f, moves), moves[1..], moves[0].src);
    }
  }

  /** A target holds the moved file, or what it held before when there was nothing to move. */
  lemma {:induction false} TargetHolds(f: Files, moves: seq<Move>, i: nat)
    requires Separate(moves) && i < |moves|
    ensures var g := MoveExisting(f, moves);
            if moves[i].src in f then moves[i].dst in g && g[moves[i].dst] == f[moves[i].src]
            else (moves[i].dst in g <==> moves[i].dst in f) && (moves[i].dst in f ==> g[moves[i].dst] == f[moves[i].dst])
    decreases moves
  {
    RestIsSeparate(moves);
    if i > 0 {
      TargetHolds(MoveFirst(f, moves), moves[1..], i - 1);
    } else {
      Untouched(MoveFirst(f, moves), moves[1..], moves[0].dst);
    }
  }

  lemma RestIsSeparate(moves: seq<Move>)
    requires Separate(moves) && moves != []
    ensures Separate(moves[1..])
    ensures forall i :: 0 <= i < |moves[1..]| ==>
            !Touches(moves[1..][i], moves[0].src) && !Touches(moves[1..][i], moves[0].dst)
    ensures forall i :: 0 < i < |moves| ==> !Touches(moves[0], moves[i].src) && !Touches(moves[0], moves[i].dst)
  {
  }

  lemma BackIsSeparate(moves: seq<Move>)
    requires Separate(moves)
    ensures |FlipAll(moves)| == |moves| && forall i :: 0 <= i < |moves| ==> FlipAll(moves)[i] == Flip(moves[i])
    ensures Separate(FlipAll(moves))
  {
    var back := FlipAll(moves);
    assert forall i :: 0 <= i < |moves| ==> back[i] == Flip(moves[i]);
  }

  lemma BackAt(f: Files, moves: seq<Move>, p: Path)
    requires Separate(moves)
    requires forall i :: 0 <= i < |moves| ==> moves[i].dst !in f
    ensures var h := MoveExisting(MoveExisting(f, moves), FlipAll(moves));
            (p in h <==> p in f) && (p in f ==> h[p] == f[p])
  {
    var back, g := FlipAll(moves), MoveExisting(f, moves);
    BackIsSeparate(moves);
    hide MoveExisting, Separate, FlipAll;
    if i :| 0 <= i < |moves| && p == moves[i].src {
      assert back[i] == Flip(moves[i]) && moves[i].dst !in f;
      SourceIsGone(f, moves, i);
      TargetHolds(f, moves, i);
      TargetHolds(g, back, i);
    } else if i :| 0 <= i < |moves| && p == moves[i].dst {
      assert back[i] == Flip(moves[i]) && moves[i].dst !in f;
      SourceIsGone(g, back, i);
    } else {
      assert forall i :: 0 <= i < |moves| ==> !Touches(moves[i], p);
      Untouched(f, moves, p);
      forall i | 0 <= i < |back|
        ensures !Touches(back[i], p)
      {
        assert back[i] == Flip(moves[i]) && !Touches(moves[i], p);
      }
      Untouched(g, back, p);
    }
  }

  /** Moving what exists there and back is the identity, if no target was taken. */
  lemma MoveThereAndBack(f: Files, moves: seq<Move>)
    requires Separate(moves)
    requires forall i :: 0 <= i < |moves| ==> moves[i].dst !in f
    ensures MoveExisting(MoveExisting(f, moves), FlipAll(moves)) == f
  {
    forall p
      ensures var h := MoveExisting(MoveExisting(f, moves), FlipAll(moves));
              (p in h <==> p in f) && (p in f ==> h[p] == f[p])
    {
      BackAt(f, moves, p);
    }
  }

  // ---------- The library ----------

  /** The moves of an archiving, for a fixed enumeration of the supported extensions. */
  function Archiving(id: int, slug: string, exts: seq<string>): seq<Move> {
    [Move(VideoDir(slug), ArchivedDir(slug))]
    + seq(|exts|, i requires 0 <= i < |exts| => Move(Upload(id, exts[i]), ArchivedUpload(id, exts[i])))
  }

  function Restoring(id: int, slug: string, exts: seq<string>): seq<Move> {
    FlipAll(Archiving(id, slug, exts))
  }

  predicate NoRepeats(exts: seq<string>) {
    forall i, j :: 0 <= i < j < |exts| ==> exts[i] != exts[j]
  }

  lemma ArchivingIsSeparate(id: int, slug: string, exts: seq<string>)
    requires NoRepeats(exts)
    ensures Separate(Archiving(id, slug, exts)) && Separate(Restoring(id, slug, exts))
  {
  }

  /** All files of a live video are live, all files of a deleted one are archived, and no two videos share a slug. */
  ghost predicate Consistent(videos: map<int, Video>, f: Files, exts: seq<string>) {
    && (forall v, w :: v in videos && w in videos && v != w ==> videos[v].slug != videos[w].slug)
    && (forall v :: v in videos && videos[v].deletedAt.None? ==>
          ArchivedDir(videos[v].slug) !in f && forall e :: e in exts ==> ArchivedUpload(v, e) !in f)
    && (forall v :: v in videos && videos[v].deletedAt.Some? ==>
          VideoDir(videos[v].slug) !in f && forall e :: e in exts ==> Upload(v, e) !in f)
  }

  datatype Outcome = Done | NotFound | NotDeleted | MoveFailed

  /** The rows and the files. */
  datatype Shelves = Shelves(videos: map<int, Video>, files: Files)

  /** Move number `fault` raises, if it comes to it. */
  datatype Request =
    | Deletion(id: int, now: int, fault: Option<nat>)
    | Restoration(id: int, fault: Option<nat>)

  function MovesFor(s: Shelves, r: Request, exts: seq<string>): seq<Move>
    requires r.id in s.videos
  {
    if r.Deletion? then Archiving(r.id, s.videos[r.id].slug, exts) else Restoring(r.id, s.videos[r.id].slug, exts)
  }

  function OutcomeOf(s: Shelves, r: Request, exts: seq<string>): Outcome {
    if r.id !in s.videos then NotFound
    else if r.Restoration? && s.videos[r.id].deletedAt.None? then NotDeleted
    else if r.fault.Some? && r.fault.value < Present(s.files, MovesFor(s, r, exts)) then MoveFailed
    else Done
  }

  /** Rows and files change together or not at all. */
  function After(s: Shelves, r: Request, exts: seq<string>): Shelves {
    if OutcomeOf(s, r, exts) != Done then s
    else
      var deletedAt := if r.Deletion? then Some(r.now) else None;
      Shelves(s.videos[r.id := s.videos[r.id].(deletedAt := deletedAt)], MoveExisting(s.files, MovesFor(s, r, exts)))
  }

  class Library {
    const exts: seq<string>
    var videos: map<int, Video>
    var files: Files

    constructor (exts: seq<string>, videos: map<int, Video>, files: Files)
      ensures this.exts == exts && this.videos == videos && this.files == files
    {
      this.exts, this.videos, this.files := exts, videos, files;
    }

    /**
      Move what exists; the move number `fault` raises, if it comes to it, and all moves made are undone in
      reverse.
      */
    method MoveAll(moves: seq<Move>, fault: Option<nat>) returns (ok: bool)
      requires Separate(moves) && Clear(files, moves)
      modifies this`files
      ensures files == if ok then MoveExisting(old(files), moves) else old(files)
      ensures !ok <==> fault.Some? && fault.value < Present(old(files), moves)
    {
      var moved: seq<Move> := [];
      ghost var trail := [files];
      var i := 0;
      while i < |moves|
        invariant 0 <= i <= |moves|
        invariant MoveExisting(files, moves[i..]) == MoveExisting(old(files), moves)
        invariant |moved| + Present(old(files), moves[i..]) == Present(old(files), moves)
        invariant fault.None? || |moved| <= fault.value
        invariant |trail| == |moved| + 1 && trail[0] == old(files) && trail[|moved|] == files
        invariant forall k :: 0 <= k < |moved| ==> Step(trail[k], moved[k], trail[k + 1])
        invariant forall k :: i <= k < |moves| ==>
                    (moves[k].src in files <==> moves[k].src in old(files))
                    && (moves[k].dst in files <==> moves[k].dst in old(files))
      {
        assert moves[i..][1..] == moves[i + 1..];
        if moves[i].src in files {
          if fault == Some(|moved|) {
            Undo(moved, trail);
            return false;
          }
          ghost var before := files;
          files := Moved(files, moves[i]);
          moved := moved + [moves[i]];
          trail := trail + [files];
          assert Step(before, moves[i], files);
        }
        i := i + 1;
      }
      return true;
    }

    /** The rollback loop: move everything back, last first. */
    method Undo(moved: seq<Move>, ghost trail: seq<Files>)
      requires |trail| == |moved| + 1 && trail[|moved|] == files
      requires forall k :: 0 <= k < |moved| ==> Step(trail[k], moved[k], trail[k + 1])
      modifies this`files
      ensures files == trail[0]
    {
      var i := |moved|;
      while i > 0
        invariant 0 <= i <= |moved| && files == trail[i]
      {
        i := i - 1;
        assert Step(trail[i], moved[i], trail[i + 1]);
        files := Moved(files, Flip(moved[i]));
      }
    }

    method SoftDelete(id: int, now: int, fault: Option<nat>) returns (outcome: Outcome)
      requires NoRepeats(exts) && Consistent(videos, files, exts)
      modifies this
      ensures Consistent(videos, files, exts)
      ensures outcome == OutcomeOf(old(Shelves(videos, files)), Deletion(id, now, fault), exts)
      ensures Shelves(videos, files) == After(old(Shelves(videos, files)), Deletion(id, now, fault), exts)
    {
      if id !in videos {
        return NotFound;
      }
      var row := videos[id];
      var moves := Archiving(id, row.slug, exts);
      ArchivingIsSeparate(id, row.slug, exts);
      ArchivingKeepsConsistency(videos, files, exts, id, now);
      if row.deletedAt.Some? {
        NothingPresent(files, moves);
      }
      videos := videos[id := row.(deletedAt := Some(now))];
      var ok := MoveAll(moves, fault);
      if !ok {
        videos := videos[id := videos[id].(deletedAt := None)];
        return MoveFailed;
      }
      return Done;
    }

    method Restore(id: int, fault: Option<nat>) returns (outcome: Outcome)
      requires NoRepeats(exts) && Consistent(videos, files, exts)
      modifies this
      ensures Consistent(videos, files, exts)
      ensures outcome == OutcomeOf(old(Shelves(videos, files)), Restoration(id, fault), exts)
      ensures Shelves(videos, files) == After(old(Shelves(videos, files)), Restoration(id, fault), exts)
    {
      if id !in videos {
        return NotFound;
      }
      var row := videos[id];
      if row.deletedAt.None? {
        return NotDeleted;
      }
      var moves := Restoring(id, row.slug, exts);
      ArchivingIsSeparate(id, row.slug, exts);
      RestoringKeepsConsistency(videos, files, exts, id);
      videos := videos[id := row.(deletedAt := None)];
      var ok := MoveAll(moves, fault);
      if !ok {
        videos := videos[id := videos[id].(deletedAt := row.deletedAt)];
        return MoveFailed;
      }
      return Done;
    }
  }

  /** One performed move that can be taken back. */
  ghost predicate Step(f: Files, m: Move, g: Files) {
    m.src in f && m.dst !in f && m.src != m.dst && g == Moved(f, m)
  }

  lemma ArchivingKeepsConsistency(videos: map<int, Video>, f: Files, exts: seq<string>, id: int, now: int)
    requires NoRepeats(exts) && Consistent(videos, f, exts) && id in videos
    ensures var moves := Archiving(id, videos[id].slug, exts);
            && Clear(f, moves)
            && Consistent(videos[id := videos[id].(deletedAt := Some(now))], MoveExisting(f, moves), exts)
            && (videos[id].deletedAt.Some? ==> forall i :: 0 <= i < |moves| ==> moves[i].src !in f)
  {
    var moves := Archiving(id, videos[id].slug, exts);
    ArchivingIsSeparate(id, videos[id].slug, exts);
    var g := MoveExisting(f, moves);
    OthersUntouched(videos, f, moves, exts, id);
    forall e | e in exts
      ensures Upload(id, e) !in g
    {
      var i :| 0 <= i < |exts| && exts[i] == e;
      assert moves[i + 1].src == Upload(id, e);
      SourceIsGone(f, moves, i + 1);
    }
    SourceIsGone(f, moves, 0);
  }

  lemma RestoringKeepsConsistency(videos: map<int, Video>, f: Files, exts: seq<string>, id: int)
    requires NoRepeats(exts) && Consistent(videos, f, exts) && id in videos && videos[id].deletedAt.Some?
    ensures var moves := Restoring(id, videos[id].slug, exts);
            && Clear(f, moves)
            && Consistent(videos[id := videos[id].(deletedAt := None)], MoveExisting(f, moves), exts)
  {
    var moves := Restoring(id, videos[id].slug, exts);
    ArchivingIsSeparate(id, videos[id].slug, exts);
    var g := MoveExisting(f, moves);
    OthersUntouched(videos, f, moves, exts, id);
    forall e | e in exts
      ensures ArchivedUpload(id, e) !in g
    {
      var i :| 0 <= i < |exts| && exts[i] == e;
      assert moves[i + 1].src == ArchivedUpload(id, e);
      SourceIsGone(f, moves, i + 1);
    }
    SourceIsGone(f, moves, 0);
  }

  /** Paths of other videos are not among the moves. */
  lemma OthersUntouched(videos: map<int, Video>, f: Files, moves: seq<Move>, exts: seq<string>, id: int)
    requires NoRepeats(exts) && Consistent(videos, f, exts) && id in videos
    requires moves == Archiving(id, videos[id].slug, exts) || moves == Restoring(id, videos[id].slug, exts)
    ensures var g := MoveExisting(f, moves);
            forall v :: v in videos && v != id ==>
              && (VideoDir(videos[v].slug) in g <==> VideoDir(videos[v].slug) in f)
              && (ArchivedDir(videos[v].slug) in g <==> ArchivedDir(videos[v].slug) in f)
              && forall e :: (Upload(v, e) in g <==> Upload(v, e) in f)
                             && (ArchivedUpload(v, e) in g <==> ArchivedUpload(v, e) in f)
  {
    hide MoveExisting;
    forall v | v in videos && v != id
      ensures var g := MoveExisting(f, moves);
              && (VideoDir(videos[v].slug) in g <==> VideoDir(videos[v].slug) in f)
              && (ArchivedDir(videos[v].slug) in g <==> ArchivedDir(videos[v].slug) in f)
              && forall e :: (Upload(v, e) in g <==> Upload(v, e) in f)
                             && (ArchivedUpload(v, e) in g <==> ArchivedUpload(v, e) in f)
    {
      Untouched(f, moves, VideoDir(videos[v].slug));
      Untouched(f, moves, ArchivedDir(videos[v].slug));
      forall e
        ensures var g := MoveExisting(f, moves);
                (Upload(v, e) in g <==> Upload(v, e) in f) && (ArchivedUpload(v, e) in g <==> ArchivedUpload(v, e) in f)
      {
        Untouched(f, moves, Upload(v, e));
        Untouched(f, moves, ArchivedUpload(v, e));
      }
    }
  }

  /** Deleting a live video and restoring it gives back the exact file map and row. */
  lemma DeleteThenRestoreIsIdentity(videos: map<int, Video>, f: Files, exts: seq<string>, id: int)
    requires NoRepeats(exts) && Consistent(videos, f, exts) && id in videos && videos[id].deletedAt.None?
    ensures MoveExisting(MoveExisting(f, Archiving(id, videos[id].slug, exts)), Restoring(id, videos[id].slug, exts)) == f
  {
    var moves := Archiving(id, videos[id].slug, exts);
    ArchivingIsSeparate(id, videos[id].slug, exts);
    forall i | 0 <= i < |moves|
      ensures moves[i].dst !in f
    {
      if i > 0 {
        assert exts[i - 1] in exts;
      }
    }
    MoveThereAndBack(f, moves);
  }

  // ---------- Runs of requests ----------

  function Run(s: Shelves, requests: seq<Request>, exts: seq<string>): Shelves
    decreases requests
  {
    if requests == [] then s else Run(After(s, requests[0], exts), requests[1..], exts)
  }

  ghost predicate AllConsistent(s: Shelves, exts: seq<string>) {
    NoRepeats(exts) && Consistent(s.videos, s.files, exts)
  }

  /** Where a video's directory and its upload of an extension belong. */
  function DirPlace(v: Video): Path {
    if v.deletedAt.None? then VideoDir(v.slug) else ArchivedDir(v.slug)
  }

  function UploadPlace(v: Video, id: int, ext: string): Path {
    if v.deletedAt.None? then Upload(id, ext) else ArchivedUpload(id, ext)
  }

  function At(f: Files, p: Path): Option<Content> {
    if p in f then Some(f[p]) else None
  }

  /** Every video keeps its slug, its directory and its uploads, each in the place its row gives. */
  ghost predicate KeepsFiles(s: Shelves, t: Shelves, exts: seq<string>) {
    && t.videos.Keys == s.videos.Keys
    && forall v :: v in s.videos ==>
         && t.videos[v].slug == s.videos[v].slug
         && At(t.files, DirPlace(t.videos[v])) == At(s.files, DirPlace(s.videos[v]))
         && forall e :: e in exts ==>
              At(t.files, UploadPlace(t.videos[v], v, e)) == At(s.files, UploadPlace(s.videos[v], v, e))
  }

  lemma StepIsConsistent(s: Shelves, r: Request, exts: seq<string>)
    requires AllConsistent(s, exts)
    ensures AllConsistent(After(s, r, exts), exts)
  {
    if OutcomeOf(s, r, exts) == Done {
      if r.Deletion? {
        ArchivingKeepsConsistency(s.videos, s.files, exts, r.id, r.now);
      } else {
        RestoringKeepsConsistency(s.videos, s.files, exts, r.id);
      }
    }
  }

  /** A move takes what it finds to its target, and finds the target free. */
  lemma OwnFiles(s: Shelves, r: Request, exts: seq<string>, i: nat)
    requires AllConsistent(s, exts) && OutcomeOf(s, r, exts) == Done && i <= |exts|
    ensures var v, w := s.videos[r.id], After(s, r, exts).videos[r.id];
            var g := After(s, r, exts).files;
            if i == 0 then At(g, DirPlace(w)) == At(s.files, DirPlace(v))
            else At(g, UploadPlace(w, r.id, exts[i - 1])) == At(s.files, UploadPlace(v, r.id, exts[i - 1]))
  {
    var moves := MovesFor(s, r, exts);
    ArchivingIsSeparate(r.id, s.videos[r.id].slug, exts);
    hide MoveExisting, Separate, NoRepeats, Present;
    TargetHolds(s.files, moves, i);
    assert i > 0 ==> exts[i - 1] in exts;
  }

  lemma OthersFiles(s: Shelves, r: Request, exts: seq<string>, v: int)
    requires AllConsistent(s, exts) && OutcomeOf(s, r, exts) == Done && v in s.videos && v != r.id
    ensures var row, g := s.videos[v], After(s, r, exts).files;
            && At(g, DirPlace(row)) == At(s.files, DirPlace(row))
            && forall e :: At(g, UploadPlace(row, v, e)) == At(s.files, UploadPlace(row, v, e))
  {
    var moves, row := MovesFor(s, r, exts), s.videos[v];
    hide MoveExisting, NoRepeats, Present;
    Untouched(s.files, moves, DirPlace(row));
    forall e
      ensures At(MoveExisting(s.files, moves), UploadPlace(row, v, e)) == At(s.files, UploadPlace(row, v, e))
    {
      Untouched(s.files, moves, UploadPlace(row, v, e));
    }
  }

  lemma StepKeepsFiles(s: Shelves, r: Request, exts: seq<string>)
    requires AllConsistent(s, exts)
    ensures KeepsFiles(s, After(s, r, exts), exts)
  {
    if OutcomeOf(s, r, exts) == Done {
      var t := After(s, r, exts);
      forall v | v in s.videos
        ensures At(t.files, DirPlace(t.videos[v])) == At(s.files, DirPlace(s.videos[v]))
        ensures forall e :: e in exts ==>
                  At(t.files, UploadPlace(t.videos[v], v, e)) == At(s.files, UploadPlace(s.videos[v], v, e))
      {
        if v != r.id {
          OthersFiles(s, r, exts, v);
        } else {
          OwnFiles(s, r, exts, 0);
          forall e | e in exts
            ensures At(t.files, UploadPlace(t.videos[v], v, e)) == At(s.files, UploadPlace(s.videos[v], v, e))
          {
            var i :| 0 <= i < |exts| && exts[i] == e;
            OwnFiles(s, r, exts, i + 1);
          }
        }
      }
    }
  }

  /**
    Over every sequence of deletions and restorations, failing ones included, all files of a video are live or
    all are archived, as its row says, and no video's directory or upload is lost or changed.
    */
  lemma {:induction false} RunKeepsEveryFile(s: Shelves, requests: seq<Request>, exts: seq<string>)
    requires AllConsistent(s, exts)
    ensures AllConsistent(Run(s, requests, exts), exts)
    ensures KeepsFiles(s, Run(s, requests, exts), exts)
    decreases requests
  {
    if requests != [] {
      var next := After(s, requests[0], exts);
      StepIsConsistent(s, requests[0], exts);
      StepKeepsFiles(s, requests[0], exts);
      hide AllConsistent, After;
      RunKeepsEveryFile(next, requests[1..], exts);
    }
  }
}
