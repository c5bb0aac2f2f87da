/**
  Chapter detection (api/chapter_detection.py): the length filter and the transcript segmentation. Times are real
  seconds.
  */
module ChapterDetection {
  import opened Options
  import opened Sorting
  import opened Decimals

  datatype Chapter = Chapter(title: string, start: real, end: Option<real>, source: string)

  predicate ByStart(a: Chapter, b: Chapter) {
    a.start <= b.start
  }

  // ---------- The length filter ----------

  /** Too close to the chapter kept last, or to the end of the video; the first chapter is always kept. */
  predicate Keeps(c: Chapter, last: Option<real>, minLength: int, duration: real) {
    last.None? || (c.start - last.value >= minLength as real && duration - c.start >= minLength as real)
  }

  /** The greedy choice, as places in the sorted list from `i` on. */
  function Picks(s: seq<Chapter>, i: nat, last: Option<real>, minLength: int, duration: real): seq<nat>
    requires i <= |s|
    decreases |s| - i
  {
    if i == |s| then []
    else if Keeps(s[i], last, minLength, duration)
    then [i] + Picks(s, i + 1, Some(s[i].start), minLength, duration)
    else Picks(s, i + 1, last, minLength, duration)
  }

  predicate Places(s: seq<Chapter>, places: seq<nat>) {
    && (forall k :: 0 <= k < |places| ==> places[k] < |s|)
    && (forall j, k :: 0 <= j < k < |places| ==> places[j] < places[k])
  }

  function At(s: seq<Chapter>, places: seq<nat>): seq<Chapter>
    requires forall k :: 0 <= k < |places| ==> places[k] < |s|
  {
    seq(|places|, k requires 0 <= k < |places| => s[places[k]])
  }

  /**
    Consecutive starts lie at least the minimum apart, and all but an unconstrained first one that far from the
    end.
    */
  predicate Spaced(s: seq<Chapter>, last: Option<real>, minLength: int, duration: real)
    decreases s
  {
    s == [] || (Keeps(s[0], last, minLength, duration) && Spaced(s[1..], Some(s[0].start), minLength, duration))
  }

  /** The same, said of every neighbouring pair. */
  lemma {:induction false} SpacedPairwise(s: seq<Chapter>, last: Option<real>, minLength: int, duration: real, k: nat)
    requires Spaced(s, last, minLength, duration) && k < |s|
    ensures Keeps(s[k], if k == 0 then last else Some(s[k - 1].start), minLength, duration)
    decreases s
  {
    if k > 0 {
      SpacedPairwise(s[1..], Some(s[0].start), minLength, duration, k - 1);
    }
  }

  /** Choosing place `i` before places behind it. */
  lemma OneMorePlace(s: seq<Chapter>, i: nat, rest: seq<nat>, last: Option<real>, minLength: int, duration: real)
    requires i < |s| && Places(s, rest) && forall k :: 0 <= k < |rest| ==> rest[k] > i
    requires Keeps(s[i], last, minLength, duration) && Spaced(At(s, rest), Some(s[i].start), minLength, duration)
    ensures Places(s, [i] + rest) && (forall k :: 0 <= k < |[i] + rest| ==> ([i] + rest)[k] >= i)
    ensures Spaced(At(s, [i] + rest), last, minLength, duration)
  {
    hide Keeps;
    var all := [i] + rest;
    assert Places(s, all);
    assert At(s, all) == [s[i]] + At(s, rest);
    assert At(s, all)[1..] == At(s, rest);
  }

  lemma {:induction false} PicksAreSpaced(s: seq<Chapter>, i: nat, last: Option<real>, minLength: int, duration: real)
    requires i <= |s|
    ensures var places := Picks(s, i, last, minLength, duration);
            && Places(s, places) && (forall k :: 0 <= k < |places| ==> places[k] >= i)
            && Spaced(At(s, places), last, minLength, duration)
    decreases |s| - i
  {
    hide Keeps, Places;
    if i == |s| {
      NoPlaces(s, last, minLength, duration);
    } else if Keeps(s[i], last, minLength, duration) {
      PicksAreSpaced(s, i + 1, Some(s[i].start), minLength, duration);
      OneMorePlace(s, i, Picks(s, i + 1, Some(s[i].start), minLength, duration), last, minLength, duration);
    } else {
      PicksAreSpaced(s, i + 1, last, minLength, duration);
    }
  }

  lemma NoPlaces(s: seq<Chapter>, last: Option<real>, minLength: int, duration: real)
    ensures Places(s, []) && Spaced(At(s, []), last, minLength, duration)
  {}

  /** Greedy stays ahead: no choice of places that keeps the spacing is longer. */
  lemma {:induction false} PicksAreMost(
      s: seq<Chapter>, i: nat, last: Option<real>, minLength: int, duration: real, other: seq<nat>)
    requires i <= |s| && Sorted(s, ByStart)
    requires Places(s, other) && (forall k :: 0 <= k < |other| ==> other[k] >= i)
    requires Spaced(At(s, other), last, minLength, duration)
    ensures |other| <= |Picks(s, i, last, minLength, duration)|
    decreases |s| - i
  {
    if other != [] {
      var tail := other[1..];
      var all := At(s, other);
      assert all[0] == s[other[0]] && all[1..] == At(s, tail);
      if Keeps(s[i], last, minLength, duration) {
        assert other[0] > i ==> ByStart(s[i], s[other[0]]);
        assert Spaced(At(s, tail), Some(s[i].start), minLength, duration);
        PicksAreMost(s, i + 1, Some(s[i].start), minLength, duration, tail);
      } else {
        assert other[0] != i;
        PicksAreMost(s, i + 1, last, minLength, duration, other);
      }
    }
  }

  function Filtered(chapters: seq<Chapter>, minLength: int, duration: real): seq<Chapter> {
    Rest(Sort(chapters, ByStart), 0, None, minLength, duration)
  }

  method FilterChaptersByLength(chapters: seq<Chapter>, minLength: int, duration: real) returns (filtered: seq<Chapter>)
    ensures filtered == Filtered(chapters, minLength, duration)
  {
    if chapters == [] {
      return [];
    }
    var sorted := Sort(chapters, ByStart);
    filtered := [];
    var last: Option<real> := None;
    var i := 0;
    while i < |sorted|
      invariant 0 <= i <= |sorted|
      invariant filtered + Rest(sorted, i, last, minLength, duration) == Rest(sorted, 0, None, minLength, duration)
    {
      var chapter := sorted[i];
      if Keeps(chapter, last, minLength, duration) {
        RestKeeps(sorted, i, last, minLength, duration);
        filtered := filtered + [chapter];
        last := Some(chapter.start);
      }
      i := i + 1;
    }
  }

  /** The chapters the greedy choice takes from place `i` on. */
  function Rest(s: seq<Chapter>, i: nat, last: Option<real>, minLength: int, duration: real): seq<Chapter>
    requires i <= |s|
  {
    PicksAreSpaced(s, i, last, minLength, duration);
    At(s, Picks(s, i, last, minLength, duration))
  }

  lemma RestKeeps(s: seq<Chapter>, i: nat, last: Option<real>, minLength: int, duration: real)
    requires i < |s| && Keeps(s[i], last, minLength, duration)
    ensures Rest(s, i, last, minLength, duration) == [s[i]] + Rest(s, i + 1, Some(s[i].start), minLength, duration)
  {
  }

  /** Chapter `i` starts at least the minimum behind chapter `p` and at least that long before the end. */
  predicate Far(s: seq<Chapter>, p: int, i: int, minLength: int, duration: real) {
    && 0 <= p < |s| && 0 <= i < |s|
    && s[i].start - s[p].start >= minLength as real && duration - s[i].start >= minLength as real
  }

  function NextPlace(s: seq<Chapter>, places: seq<nat>, k: nat): nat {
    if k + 1 < |places| then places[k + 1] else |s|
  }

  /** Each place is the first one far enough from the place before it, and behind the last none is. */
  ghost predicate Greedy(s: seq<Chapter>, places: seq<nat>, minLength: int, duration: real) {
    && (forall k :: 0 <= k < |places| ==> places[k] < |s|)
    && (forall j, k :: 0 <= j < k < |places| ==> places[j] < places[k])
    && (forall k :: 0 < k < |places| ==> Far(s, places[k - 1], places[k], minLength, duration))
    && (forall k, i :: 0 <= k < |places| && places[k] < i < NextPlace(s, places, k) ==>
          !Far(s, places[k], i, minLength, duration))
  }

  lemma {:induction false} PicksAreGreedy(s: seq<Chapter>, p: nat, i: nat, minLength: int, duration: real)
    requires p < i <= |s|
    requires forall j :: p < j < i ==> !Far(s, p, j, minLength, duration)
    ensures Greedy(s, [p] + Picks(s, i, Some(s[p].start), minLength, duration), minLength, duration)
    decreases |s| - i
  {
    if i < |s| {
      if Far(s, p, i, minLength, duration) {
        assert Keeps(s[i], Some(s[p].start), minLength, duration);
        PicksAreGreedy(s, i, i + 1, minLength, duration);
        var rest := Picks(s, i + 1, Some(s[i].start), minLength, duration);
        GreedyPrepends(s, p, [i] + rest, minLength, duration);
      } else {
        assert !Keeps(s[i], Some(s[p].start), minLength, duration);
        PicksAreGreedy(s, p, i + 1, minLength, duration);
      }
    }
  }

  lemma GreedyPrepends(s: seq<Chapter>, p: nat, rest: seq<nat>, minLength: int, duration: real)
    requires rest != [] && p < rest[0] && Greedy(s, rest, minLength, duration)
    requires Far(s, p, rest[0], minLength, duration)
    requires forall j :: p < j < rest[0] ==> !Far(s, p, j, minLength, duration)
    ensures Greedy(s, [p] + rest, minLength, duration)
  {
    hide Far;
    var all := [p] + rest;
    assert forall k {:trigger all[k]} :: 0 < k < |all| ==> all[k] == rest[k - 1];
    forall k | 0 < k < |all|
      ensures Far(s, all[k - 1], all[k], minLength, duration)
    {
      assert k > 1 ==> all[k - 1] == rest[k - 2];
    }
    forall k, i | 0 <= k < |all| && all[k] < i < NextPlace(s, all, k)
      ensures !Far(s, all[k], i, minLength, duration)
    {
      if k > 0 {
        assert NextPlace(s, all, k) == NextPlace(s, rest, k - 1);
      }
    }
  }

  /** Places far enough from each other are a spaced choice. */
  lemma {:induction false} FarIsSpaced(s: seq<Chapter>, places: seq<nat>, last: Option<real>, minLength: int, duration: real)
    requires Places(s, places)
    requires forall k :: 0 < k < |places| ==> Far(s, places[k - 1], places[k], minLength, duration)
    requires places != [] ==> Keeps(s[places[0]], last, minLength, duration)
    ensures Spaced(At(s, places), last, minLength, duration)
    decreases places
  {
    if places != [] {
      var rest := places[1..];
      assert At(s, places)[1..] == At(s, rest) && At(s, places)[0] == s[places[0]];
      forall k | 0 < k < |rest|
        ensures Far(s, rest[k - 1], rest[k], minLength, duration)
      {
        assert rest[k] == places[k + 1] && rest[k - 1] == places[k];
      }
      if rest != [] {
        assert Far(s, places[0], places[1], minLength, duration) && rest[0] == places[1];
      }
      FarIsSpaced(s, rest, Some(s[places[0]].start), minLength, duration);
    }
  }

  /** The filter takes the first chapter by start, and then greedily the next one that is far enough. */
  lemma FilterIsGreedy(chapters: seq<Chapter>, minLength: int, duration: real) returns (places: seq<nat>)
    ensures var s := Sort(chapters, ByStart);
            && (forall i, j :: 0 <= i < j < |s| ==> s[i].start <= s[j].start)
            && (s == [] <==> places == []) && (s != [] ==> places[0] == 0)
            && Greedy(s, places, minLength, duration)
            && Filtered(chapters, minLength, duration) == At(s, places)
  {
    var s := Sort(chapters, ByStart);
    SortedByStart(chapters);
    places := Picks(s, 0, None, minLength, duration);
    if s != [] {
      PicksAreGreedy(s, 0, 1, minLength, duration);
    }
    hide Sort, Greedy;
  }

  lemma SortedByStart(chapters: seq<Chapter>)
    ensures var s := Sort(chapters, ByStart);
            Sorted(s, ByStart) && forall i, j :: 0 <= i < j < |s| ==> s[i].start <= s[j].start
  {
    SortSorts(chapters, ByStart);
    hide Sort;
    var s := Sort(chapters, ByStart);
    forall i, j | 0 <= i < j < |s|
      ensures s[i].start <= s[j].start
    {
      assert ByStart(s[i], s[j]);
    }
  }

  /**
    The filter is optimal: the starts it keeps lie the minimum apart, all but the first that far from the end,
    and no choice from the sorted chapters with these distances is longer.
    */
  lemma FilterIsOptimal(chapters: seq<Chapter>, minLength: int, duration: real, other: seq<nat>)
    requires var s := Sort(chapters, ByStart);
             && (forall k :: 0 <= k < |other| ==> other[k] < |s|)
             && (forall j, k :: 0 <= j < k < |other| ==> other[j] < other[k])
             && (forall k :: 0 < k < |other| ==> Far(s, other[k - 1], other[k], minLength, duration))
    ensures var r := Filtered(chapters, minLength, duration);
            && |r| >= |other|
            && (forall k :: 0 < k < |r| ==>
                  && r[k].start - r[k - 1].start >= minLength as real
                  && duration - r[k].start >= minLength as real)
            && (forall c :: c in r ==> c in chapters)
  {
    var s := Sort(chapters, ByStart);
    var places := FilterIsGreedy(chapters, minLength, duration);
    SortedByStart(chapters);
    SameElements(s, chapters);
    FarIsSpaced(s, other, None, minLength, duration);
    PicksAreMost(s, 0, None, minLength, duration, other);
    FilterKeepsFar(chapters, minLength, duration, places);
  }

  lemma FilterKeepsFar(chapters: seq<Chapter>, minLength: int, duration: real, places: seq<nat>)
    requires Greedy(Sort(chapters, ByStart), places, minLength, duration)
    ensures var r := At(Sort(chapters, ByStart), places);
            && (forall k :: 0 < k < |r| ==>
                  && r[k].start - r[k - 1].start >= minLength as real
                  && duration - r[k].start >= minLength as real)
            && (forall c :: c in r ==> c in chapters)
  {
    var s := Sort(chapters, ByStart);
    SameElements(s, chapters);
    hide Sort;
    var r := At(s, places);
    forall k | 0 < k < |r|
      ensures r[k].start - r[k - 1].start >= minLength as real && duration - r[k].start >= minLength as real
    {
      assert Far(s, places[k - 1], places[k], minLength, duration);
    }
    forall c | c in r
      ensures c in chapters
    {
      var k :| 0 <= k < |places| && r[k] == c;
      assert s[places[k]] in s;
    }
  }

  /** The filter's result, as the spacing its own test sees. */
  lemma FilterIsSpaced(chapters: seq<Chapter>, minLength: int, duration: real)
    ensures var r := Filtered(chapters, minLength, duration);
            Sorted(r, ByStart) && Spaced(r, None, minLength, duration)
  {
    SortSorts(chapters, ByStart);
    PicksAreSpaced(Sort(chapters, ByStart), 0, None, minLength, duration);
  }

  lemma {:induction false} SpacedIsAllPicked(s: seq<Chapter>, i: nat, last: Option<real>, minLength: int,
        duration: real)
    requires i <= |s| && Spaced(s, None, minLength, duration)
    requires last == if i == 0 then None else Some(s[i - 1].start)
    ensures Picks(s, i, last, minLength, duration) == seq(|s| - i, k => i + k)
    decreases |s| - i
  {
    if i < |s| {
      SpacedPairwise(s, None, minLength, duration, i);
      SpacedIsAllPicked(s, i + 1, Some(s[i].start), minLength, duration);
    }
  }

  /** A sorted, spaced list passes unchanged. */
  lemma SpacedPasses(s: seq<Chapter>, minLength: int, duration: real)
    requires Sorted(s, ByStart) && Spaced(s, None, minLength, duration)
    ensures Filtered(s, minLength, duration) == s
  {
    SortedIsItsOwnSort(s, ByStart);
    SpacedIsAllPicked(s, 0, None, minLength, duration);
  }

  lemma FilterIsIdempotent(chapters: seq<Chapter>, minLength: int, duration: real)
    ensures var once := Filtered(chapters, minLength, duration);
            Filtered(once, minLength, duration) == once
  {
    FilterIsSpaced(chapters, minLength, duration);
    SpacedPasses(Filtered(chapters, minLength, duration), minLength, duration);
  }

  // ---------- Transcript segmentation ----------

  const MAX_AUTO_GENERATED_CHAPTERS := 10

  /** Nearest integer, a tie going to the even one. */
  function HalfEven(y: real): int {
    var f := y.Floor;
    var d := y - f as real;
    if d < 0.5 || (d == 0.5 && f % 2 == 0) then f else f + 1
  }

  /** `round(x, 2)`. */
  function Round2(x: real): real {
    HalfEven(x * 100.0) as real / 100.0
  }

  lemma HalfEvenIsMonotone(x: real, y: real)
    requires x <= y
    ensures HalfEven(x) <= HalfEven(y)
  {
  }

  lemma RoundIsMonotone(x: real, y: real)
    requires x <= y
    ensures Round2(x) <= Round2(y)
  {
    HalfEvenIsMonotone(x * 100.0, y * 100.0);
  }

  lemma HalfEvenShifts(y: real, n: int)
    ensures HalfEven(y + (2 * n) as real) == HalfEven(y) + 2 * n
  {
    var z := y + (2 * n) as real;
    assert z.Floor == y.Floor + 2 * n;
  }

  /** Rounding to hundredths commutes with a shift by whole seconds, ties included. */
  lemma RoundCommutesWithSeconds(x: real, k: int)
    ensures Round2(x + k as real) == Round2(x) + k as real
  {
    HalfEvenShifts(x * 100.0, 50 * k);
    assert (x + k as real) * 100.0 == x * 100.0 + (2 * (50 * k)) as real;
  }

  lemma RoundIsNear(x: real)
    ensures -0.005 <= Round2(x) - x <= 0.005
  {
  }

  /** Halfway between two hundredths, rounding goes to the even one. */
  lemma TiesGoToEven(n: int)
    ensures Round2((n as real + 0.5) / 100.0) == (if n % 2 == 0 then n else n + 1) as real / 100.0
  {
    var y := n as real + 0.5;
    assert y / 100.0 * 100.0 == y && y.Floor == n;
  }

  /** How many chapters a transcript is cut into: none when two would not fit. */
  function ChapterCount(duration: real, minLength: int): (n: nat)
    requires minLength >= 1
    ensures n == 0 || 2 <= n <= MAX_AUTO_GENERATED_CHAPTERS
  {
    if duration < minLength as real then 0
    else
      var fitting := (duration / minLength as real).Floor;
      if fitting < 2 then 0
      else if fitting < MAX_AUTO_GENERATED_CHAPTERS then fitting
      else MAX_AUTO_GENERATED_CHAPTERS
  }

  /** The unrounded start of chapter `i`, or the end of the last one. */
  function Boundary(i: nat, n: nat, duration: real): real
    requires n >= 1
  {
    if i == n then duration else i as real * (duration / n as real)
  }

  /** Chapter `i` of `n`; `title` makes a title from a sentence and the chapter's number. */
  function Segment(i: nat, n: nat, sentences: seq<string>, duration: real, title: (string, nat) -> string): Chapter
    requires i < n
  {
    var each := if |sentences| / n > 1 then |sentences| / n else 1;
    Chapter(if i * each < |sentences| then title(sentences[i * each], i + 1) else "Section " + Str(i + 1),
            Round2(Boundary(i, n, duration)), Some(Round2(Boundary(i + 1, n, duration))), "transcription")
  }

  function Segments(sentences: seq<string>, duration: real, minLength: int,
        title: (string, nat) -> string): seq<Chapter>
    requires minLength >= 1
  {
    var n := ChapterCount(duration, minLength);
    seq(n, i requires 0 <= i < n => Segment(i, n, sentences, duration, title))
  }

  method AnalyzeTranscript(sentences: seq<string>, duration: real, minLength: int, title: (string, nat) -> string)
      returns (chapters: seq<Chapter>)
    requires minLength >= 1
    ensures chapters == Segments(sentences, duration, minLength, title)
  {
    hide Segment;
    chapters := [];
    if duration < minLength as real {
      return;
    }
    var maxChapters := (duration / minLength as real).Floor;
    if maxChapters < 2 {
      return;
    }
    var n := if maxChapters < MAX_AUTO_GENERATED_CHAPTERS then maxChapters else MAX_AUTO_GENERATED_CHAPTERS;
    var i := 0;
    while i < n
      invariant 0 <= i <= n
      invariant |chapters| == i
      invariant forall k :: 0 <= k < i ==> chapters[k] == Segment(k, n, sentences, duration, title)
    {
      var chapter := MakeSegment(i, n, sentences, duration, title);
      chapters := chapters + [chapter];
      i := i + 1;
    }
  }

  /** The loop body: slice the sentences, title the slice by its first sentence, cut the time. */
  method MakeSegment(i: nat, n: nat, sentences: seq<string>, duration: real, title: (string, nat) -> string)
      returns (chapter: Chapter)
    requires i < n
    ensures chapter == Segment(i, n, sentences, duration, title)
  {
    hide Round2, Str;
    var each := if |sentences| / n > 1 then |sentences| / n else 1;
    var first, last := i * each, (i + 1) * each;
    assert last == first + each;
    var here := if first < |sentences| then sentences[first..if last < |sentences| then last else |sentences|] else [];
    var heading := if here != [] then title(here[0], i + 1) else "Section " + Str(i + 1);
    var start := i as real * (duration / n as real);
    var end := if i < n - 1 then (i + 1) as real * (duration / n as real) else duration;
    chapter := Chapter(heading, Round2(start), Some(Round2(end)), "transcription");
    assert start == Boundary(i, n, duration);
    assert end == Boundary(i + 1, n, duration);
    assert heading == Segment(i, n, sentences, duration, title).title;
  }

  lemma BoundariesAreApart(duration: real, minLength: int, i: nat)
    requires minLength >= 1 && i < ChapterCount(duration, minLength)
    ensures var n := ChapterCount(duration, minLength);
            Boundary(i + 1, n, duration) >= Boundary(i, n, duration) + minLength as real
  {
    var n := ChapterCount(duration, minLength);
    var step := duration / n as real;
    EachIsLongEnough(duration, minLength);
    OneMore(i, step);
    WholeOfParts(duration, n as real);
    hide ChapterCount;
    assert Boundary(i + 1, n, duration) == (i + 1) as real * step;
    assert Boundary(i, n, duration) == i as real * step;
  }

  lemma EachIsLongEnough(duration: real, minLength: int)
    requires minLength >= 1 && ChapterCount(duration, minLength) > 0
    ensures duration / ChapterCount(duration, minLength) as real >= minLength as real
  {
    var n, m := ChapterCount(duration, minLength), minLength as real;
    assert n <= (duration / m).Floor;
    assert n as real <= (duration / m).Floor as real <= duration / m;
    PartIsLong(duration, n as real, m);
  }

  lemma WholeOfParts(a: real, n: real)
    requires n > 0.0
    ensures a / n * n == a && n * (a / n) == a
  {}

  lemma OneMore(i: nat, step: real)
    ensures (i + 1) as real * step == i as real * step + step
  {}

  lemma PartIsLong(a: real, n: real, m: real)
    requires n > 0.0 && m > 0.0 && n <= a / m
    ensures a / n >= m
  {
    WholeOfParts(a, n);
    WholeOfParts(a, m);
    FewerPartsAreLonger(a, n, m, a / n, a / m);
  }

  lemma FewerPartsAreLonger(a: real, n: real, m: real, x: real, y: real)
    requires n > 0.0 && m > 0.0 && n <= y && x * n == a && y * m == a
    ensures x >= m
  {
    TimesKeepsOrder(n, y, m);
    Commutes(m, n);
    if x < m {
      TimesKeepsStrictOrder(x, m, n);
      assert false;
    }
  }

  lemma Commutes(a: real, b: real)
    ensures a * b == b * a
  {}

  lemma TimesKeepsOrder(a: real, b: real, c: real)
    requires a <= b && c >= 0.0
    ensures a * c <= b * c
  {
    assert b * c == a * c + (b - a) * c;
  }

  lemma TimesKeepsStrictOrder(a: real, b: real, c: real)
    requires a < b && c > 0.0
    ensures a * c < b * c
  {
    assert b * c == a * c + (b - a) * c;
  }

  /**
    The chapters tile the video: 2 to 10 of them exactly when two fit, from 0 to the rounded duration, each
    ending where the next begins, and none shorter than the minimum even after rounding to hundredths.
    */
  lemma SegmentsTile(sentences: seq<string>, duration: real, minLength: int, title: (string, nat) -> string)
    requires minLength >= 1
    ensures var s := Segments(sentences, duration, minLength, title);
            var n := |s|;
            && (n == 0 <==> duration < 2.0 * minLength as real)
            && (n > 0 ==>
                  && 2 <= n <= 10 && n as real * minLength as real <= duration
                  && (n == 10 || duration < (n + 1) as real * minLength as real)
                  && s[0].start == 0.0 && s[n - 1].end == Some(Round2(duration))
                  && (forall i :: 0 <= i < n - 1 ==> s[i].end == Some(s[i + 1].start))
                  && (forall i :: 0 <= i < n ==> s[i].end.value - s[i].start >= minLength as real))
  {
    var n := ChapterCount(duration, minLength);
    var m := minLength as real;
    var s := Segments(sentences, duration, minLength, title);
    FittingTwo(duration, m);
    AsManyAsFit(duration, minLength);
    forall i | 0 <= i < n
      ensures s[i].end.value - s[i].start >= m
    {
      BoundariesAreApart(duration, minLength, i);
      RoundIsMonotone(Boundary(i, n, duration) + m, Boundary(i + 1, n, duration));
      RoundCommutesWithSeconds(Boundary(i, n, duration), minLength);
    }
    if n > 0 {
      assert Boundary(0, n, duration) == 0.0;
    }
  }

  lemma AsManyAsFit(duration: real, minLength: int)
    requires minLength >= 1
    ensures var n := ChapterCount(duration, minLength);
            n > 0 ==> && n as real * minLength as real <= duration
                      && (n == 10 || duration < (n + 1) as real * minLength as real)
  {
    var m := minLength as real;
    var q := duration / m;
    WholeOfParts(duration, m);
    var n := ChapterCount(duration, minLength);
    if n > 0 {
      assert n <= q.Floor && (n < 10 ==> n == q.Floor);
      FitsBetween(duration, q, m, n, q.Floor);
    }
  }

  lemma FitsBetween(duration: real, q: real, m: real, n: nat, f: int)
    requires q * m == duration && m > 0.0 && n <= f && f as real <= q < (f + 1) as real
    ensures n as real * m <= duration && (n == f ==> duration < (n + 1) as real * m)
  {
    TimesKeepsOrder(n as real, q, m);
    if n == f {
      TimesKeepsStrictOrder(q, (n + 1) as real, m);
    }
  }

  /** The chapters start at equal distances, up to rounding. */
  lemma SegmentsAreEven(sentences: seq<string>, duration: real, minLength: int, title: (string, nat) -> string, i: nat)
    requires minLength >= 1 && i < |Segments(sentences, duration, minLength, title)|
    ensures var s := Segments(sentences, duration, minLength, title);
            -0.005 <= s[i].start - i as real * (duration / |s| as real) <= 0.005
  {
    hide Round2, ChapterCount;
    var n := ChapterCount(duration, minLength);
    assert Segments(sentences, duration, minLength, title)[i] == Segment(i, n, sentences, duration, title);
    RoundIsNear(Boundary(i, n, duration));
  }

  /** They are titled by every e-th sentence from the first on; e sentences fall to each, at least one. */
  lemma SegmentTitles(sentences: seq<string>, duration: real, minLength: int, title: (string, nat) -> string, i: nat)
      returns (e: nat)
    requires minLength >= 1 && i < |Segments(sentences, duration, minLength, title)|
    ensures var s := Segments(sentences, duration, minLength, title);
            && (if |sentences| < |s| then e == 1 else e * |s| <= |sentences| < e * |s| + |s|)
            && s[i].title == if i * e < |sentences| then title(sentences[i * e], i + 1) else "Section " + Str(i + 1)
  {
    hide Round2, Str, ChapterCount, Boundary;
    var n := ChapterCount(duration, minLength);
    assert Segments(sentences, duration, minLength, title)[i] == Segment(i, n, sentences, duration, title);
    e := Each(|sentences|, n);
  }

  /** Sentences for each chapter. */
  lemma Each(total: nat, n: nat) returns (e: nat)
    requires n >= 1
    ensures e == if total / n > 1 then total / n else 1
    ensures if total < n then e == 1 else e * n <= total < e * n + n
  {
    var q := total / n;
    assert total == q * n + total % n;
    e := if q > 1 then q else 1;
    if q == 0 {
      assert total < n;
    } else if total < n {
      TimesAtLeast(q, n);
      assert false;
    }
  }

  lemma TimesAtLeast(q: nat, n: nat)
    requires q >= 1
    ensures q * n >= n
  {
    assert q * n == n + (q - 1) * n;
  }

  lemma FittingTwo(duration: real, m: real)
    requires m >= 1.0
    ensures (duration / m).Floor >= 2 <==> duration >= 2.0 * m
    ensures duration < m ==> duration < 2.0 * m
  {
    var q := duration / m;
    assert q * m == duration;
    if q >= 2.0 {
      TimesKeepsOrder(2.0, q, m);
    } else {
      TimesKeepsStrictOrder(q, 2.0, m);
    }
  }

  /** The starts, too, are at least the minimum apart after rounding. */
  lemma {:induction false} StartsAreApart(
      sentences: seq<string>, duration: real, minLength: int, title: (string, nat) -> string, i: nat, j: nat)
    requires minLength >= 1 && i < j < |Segments(sentences, duration, minLength, title)|
    ensures var s := Segments(sentences, duration, minLength, title);
            s[j].start - s[i].start >= minLength as real
    decreases j - i
  {
    hide Round2, Boundary;
    var n := ChapterCount(duration, minLength);
    var b := Boundary(j - 1, n, duration);
    BoundariesAreApart(duration, minLength, j - 1);
    RoundIsMonotone(b + minLength as real, Boundary(j, n, duration));
    RoundCommutesWithSeconds(b, minLength);
    if i < j - 1 {
      StartsAreApart(sentences, duration, minLength, title, i, j - 1);
    }
  }

  /**
    The length filter keeps all segments but possibly the last, whose start may be rounded up to within the
    minimum of the end.
    */
  lemma FilterDropsAtMostTheLast(sentences: seq<string>, duration: real, minLength: int, title: (string, nat) -> string)
    requires minLength >= 1
    ensures var s := Segments(sentences, duration, minLength, title);
            Filtered(s, minLength, duration) ==
              if s == [] || duration - s[|s| - 1].start >= minLength as real then s else s[..|s| - 1]
  {
    hide Round2, Boundary, Segment;
    var s := Segments(sentences, duration, minLength, title);
    var m := minLength as real;
    SegmentsTile(sentences, duration, minLength, title);
    forall i, j | 0 <= i < j < |s|
      ensures s[j].start - s[i].start >= m
    {
      StartsAreApart(sentences, duration, minLength, title, i, j);
    }
    SortedIsItsOwnSort(s, ByStart);
    if s != [] {
      RoundIsNear(duration);
      forall i | 0 <= i < |s| - 1
        ensures duration - s[i].start >= m
      {
        assert s[|s| - 1].start - s[i].start >= m;
        assert s[|s| - 1].end.value - s[|s| - 1].start >= m;
      }
      AllButLastPicked(s, 0, None, minLength, duration);
    }
  }

  /** Starts lie at least the minimum apart, and all but the last that far from the end. */
  ghost predicate Apart(s: seq<Chapter>, minLength: int, duration: real) {
    && (forall j, k :: 0 <= j < k < |s| ==> s[k].start - s[j].start >= minLength as real)
    && (forall k :: 0 <= k < |s| - 1 ==> duration - s[k].start >= minLength as real)
  }

  lemma {:induction false} AllButLastPicked(s: seq<Chapter>, i: nat, last: Option<real>, minLength: int, duration: real)
    requires |s| >= 2 && i <= |s|
    requires Apart(s, minLength, duration)
    requires last == if i == 0 then None else Some(s[i - 1].start)
    ensures Rest(s, i, last, minLength, duration) ==
            if i == |s| || duration - s[|s| - 1].start >= minLength as real then s[i..] else s[i..|s| - 1]
    decreases |s| - i
  {
    if i == |s| {
      RestEnds(s, last, minLength, duration);
    } else if Keeps(s[i], last, minLength, duration) {
      RestKeeps(s, i, last, minLength, duration);
      hide Rest, Keeps, Apart;
      AllButLastPicked(s, i + 1, Some(s[i].start), minLength, duration);
      FirstOfSlice(s, i);
    } else {
      RestDrops(s, i, last, minLength, duration);
      assert i == |s| - 1;
      hide Rest;
      RestEnds(s, last, minLength, duration);
    }
  }

  lemma FirstOfSlice(s: seq<Chapter>, i: nat)
    requires i < |s|
    ensures s[i..] == [s[i]] + s[i + 1..]
    ensures i < |s| - 1 ==> s[i..|s| - 1] == [s[i]] + s[i + 1..|s| - 1]
  {
  }

  lemma RestDrops(s: seq<Chapter>, i: nat, last: Option<real>, minLength: int, duration: real)
    requires i < |s| && !Keeps(s[i], last, minLength, duration)
    ensures Rest(s, i, last, minLength, duration) == Rest(s, i + 1, last, minLength, duration)
  {
  }

  lemma RestEnds(s: seq<Chapter>, last: Option<real>, minLength: int, duration: real)
    ensures Rest(s, |s|, last, minLength, duration) == []
  {
  }
}
