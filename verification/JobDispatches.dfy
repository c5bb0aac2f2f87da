/** The dispatch message of api/job_queue.py and its all-strings Redis form. */
module JobDispatches {
  import opened Options
  import opened Decimals
  import opened DateTimes

  /** A Python float, identified with its `repr` text, from which `float` gives it back. */
  type Float = s: string | s != "" witness "0.0"

  predicate IsZero(f: Float) {
    f in {"0", "0.0", "-0.0"}
  }

  datatype Dispatch = Dispatch(
    jobId: int,
    videoId: int,
    videoSlug: string,
    sourceFilename: Option<string>,
    sourceWidth: Option<int>,
    sourceHeight: Option<int>,
    duration: Option<Float>,
    priority: string,
    createdAt: Option<Timestamp>)

  /** The field names of a stream entry. */
  datatype Key =
    | JobIdKey | VideoIdKey | VideoSlugKey | SourceFilenameKey | SourceWidthKey | SourceHeightKey
    | DurationKey | PriorityKey | CreatedAtKey

  type Fields = map<Key, string>

  function OrZero(n: Option<int>): int {
    if n.Some? then n.value else 0
  }

  /** `now` is the clock read by the default of `created_at`. */
  function ToStreamDict(d: Dispatch, now: Timestamp): Fields {
    map[
      JobIdKey := Str(d.jobId),
      VideoIdKey := Str(d.videoId),
      VideoSlugKey := d.videoSlug,
      SourceFilenameKey := if d.sourceFilename.Some? then d.sourceFilename.value else "",
      SourceWidthKey := Str(OrZero(d.sourceWidth)),
      SourceHeightKey := Str(OrZero(d.sourceHeight)),
      DurationKey := if d.duration.Some? && !IsZero(d.duration.value) then d.duration.value else "0",
      PriorityKey := d.priority,
      CreatedAtKey := IsoFormat(if d.createdAt.Some? then d.createdAt.value else now)
    ]
  }

  function Lookup(data: Fields, key: Key, default: string): string {
    if key in data then data[key] else default
  }

  function NonZero(n: int): Option<int> {
    if n == 0 then None else Some(n)
  }

  /** `None` when the source raises: a missing key, or a number that does not parse. */
  function FromStreamDict(data: Fields): Option<Dispatch> {
    if JobIdKey !in data || VideoIdKey !in data || VideoSlugKey !in data then None
    else
      var jobId :- ParseInt(data[JobIdKey]);
      var videoId :- ParseInt(data[VideoIdKey]);
      var width :- ParseInt(Lookup(data, SourceWidthKey, "0"));
      var height :- ParseInt(Lookup(data, SourceHeightKey, "0"));
      var filename := Lookup(data, SourceFilenameKey, "");
      var duration := Lookup(data, DurationKey, "0");
      if duration == "" then None
      else
        Some(Dispatch(jobId, videoId, data[VideoSlugKey],
                      if filename == "" then None else Some(filename),
                      NonZero(width), NonZero(height),
                      if IsZero(duration) then None else Some(duration),
                      Lookup(data, PriorityKey, "normal"),
                      FromIsoFormat(Lookup(data, CreatedAtKey, ""))))
  }

  /** Job, video and slug are required; the other fields default to nothing, and the priority to normal. */
  lemma MissingFields(data: Fields)
    ensures JobIdKey !in data || VideoIdKey !in data || VideoSlugKey !in data ==> FromStreamDict(data) == None
    ensures data.Keys == {JobIdKey, VideoIdKey, VideoSlugKey}
            && ParseInt(data[JobIdKey]).Some? && ParseInt(data[VideoIdKey]).Some? ==>
              FromStreamDict(data) == Some(Dispatch(ParseInt(data[JobIdKey]).value, ParseInt(data[VideoIdKey]).value,
                                                    data[VideoSlugKey], None, None, None, None, "normal", None))
  {
    hide FromIsoFormat;
    NoTime();
    assert ParseInt("0") == Some(0) by {
      assert "0"[..0] == "" && "0"[|"0"| - 1] == '0' && Value("0") == 0;
    }
  }

  lemma NoTime()
    ensures FromIsoFormat("") == None
  {}

  /**
    What the wire form does not tell apart: "" and 0 from a missing value, and no creation time from the
    publishing time.
    */
  function Normalized(d: Dispatch, now: Timestamp): Dispatch {
    d.(sourceFilename := if d.sourceFilename == Some("") then None else d.sourceFilename,
       sourceWidth := NonZero(OrZero(d.sourceWidth)),
       sourceHeight := NonZero(OrZero(d.sourceHeight)),
       duration := if d.duration.Some? && IsZero(d.duration.value) then None else d.duration,
       createdAt := if d.createdAt.Some? then d.createdAt else Some(now))
  }

  lemma DispatchRoundTrip(d: Dispatch, now: Timestamp)
    ensures FromStreamDict(ToStreamDict(d, now)) == Some(Normalized(d, now))
  {
    hide IsoFormat, FromIsoFormat, Str, ParseInt;
    ParseStr(d.jobId);
    ParseStr(d.videoId);
    ParseStr(OrZero(d.sourceWidth));
    ParseStr(OrZero(d.sourceHeight));
    var created := if d.createdAt.Some? then d.createdAt.value else now;
    IsoRoundTrip(created);
    var data := ToStreamDict(d, now);
    assert data[CreatedAtKey] == IsoFormat(created);
  }

  /** Writing a received dispatch again gives the same fields, so a dead-letter copy says what was published. */
  lemma RewritingChangesNothing(d: Dispatch, now: Timestamp, later: Timestamp)
    ensures ToStreamDict(Normalized(d, now), later) == ToStreamDict(d, now)
  {
    hide IsoFormat, FromIsoFormat, FromStreamDict, Str, ParseInt;
    assert OrZero(NonZero(OrZero(d.sourceWidth))) == OrZero(d.sourceWidth);
    assert OrZero(NonZero(OrZero(d.sourceHeight))) == OrZero(d.sourceHeight);
  }
}
