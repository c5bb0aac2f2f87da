/** The slug loop of upload_video (api/admin.py): insert, and on a collision try the next numbered slug. */
module UploadSlugs {
  import opened Options
  import opened Decimals

  const MAX_ATTEMPTS := 100

  /** The slug of an attempt: the base, then base-1, base-2, ... */
  function Candidate(baseSlug: string, attempt: nat): string {
    if attempt == 0 then baseSlug else baseSlug + "-" + Str(attempt)
  }

  lemma CandidatesDiffer(baseSlug: string, i: nat, j: nat)
    requires Candidate(baseSlug, i) == Candidate(baseSlug, j)
    ensures i == j
  {
    ParseStr(i);
    ParseStr(j);
    var prefix := baseSlug + "-";
    if i > 0 && j > 0 {
      assert Candidate(baseSlug, i)[|prefix|..] == Str(i);
      assert Candidate(baseSlug, j)[|prefix|..] == Str(j);
    }
  }

  /** `taken(n)` holds the slugs in the table when attempt `n` inserts; others may insert and delete in between. */
  method InsertWithSlug(baseSlug: string, taken: nat -> set<string>) returns (slug: Option<string>, attempts: nat)
    ensures slug.Some? ==>
              && attempts < 100 && slug.value == Candidate(baseSlug, attempts)
              && slug.value !in taken(attempts)
    ensures slug.None? ==> attempts == 100
    ensures forall n :: 0 <= n < attempts ==> Candidate(baseSlug, n) in taken(n)
  {
    var counter := 0;
    var candidate := baseSlug;
    while counter < MAX_ATTEMPTS
      invariant 0 <= counter <= MAX_ATTEMPTS && candidate == Candidate(baseSlug, counter)
      invariant forall n :: 0 <= n < counter ==> Candidate(baseSlug, n) in taken(n)
    {
      if candidate !in taken(counter) {
        return Some(candidate), counter;
      }
      counter := counter + 1;
      candidate := baseSlug + "-" + Str(counter);
    }
    return None, counter;
  }

  function Candidates(baseSlug: string, n: nat): set<string> {
    if n == 0 then {} else Candidates(baseSlug, n - 1) + {Candidate(baseSlug, n - 1)}
  }

  lemma {:induction false} FromCandidates(baseSlug: string, n: nat, c: string) returns (i: nat)
    requires c in Candidates(baseSlug, n)
    ensures i < n && Candidate(baseSlug, i) == c
  {
    if c == Candidate(baseSlug, n - 1) {
      i := n - 1;
    } else {
      i := FromCandidates(baseSlug, n - 1, c);
    }
  }

  lemma {:induction false} CandidatesAreMany(baseSlug: string, n: nat)
    ensures |Candidates(baseSlug, n)| == n
  {
    if n > 0 {
      CandidatesAreMany(baseSlug, n - 1);
      hide Candidate;
      if Candidate(baseSlug, n - 1) in Candidates(baseSlug, n - 1) {
        var i := FromCandidates(baseSlug, n - 1, Candidate(baseSlug, n - 1));
        CandidatesDiffer(baseSlug, i, n - 1);
      }
    }
  }

  lemma SubsetIsSmaller(s: set<string>, t: set<string>)
    requires s <= t
    ensures |s| <= |t|
  {
    assert t == s + (t - s);
  }

  /** If fewer than 100 of the candidates are ever taken, one of the attempts finds its slug free. */
  lemma SomeAttemptIsFree(baseSlug: string, taken: nat -> set<string>, all: set<string>)
    requires |all| < 100
    requires forall n :: 0 <= n < MAX_ATTEMPTS && Candidate(baseSlug, n) in taken(n) ==> Candidate(baseSlug, n) in all
    ensures exists n :: 0 <= n < MAX_ATTEMPTS && Candidate(baseSlug, n) !in taken(n)
  {
    hide Candidate, Candidates;
    if forall n :: 0 <= n < MAX_ATTEMPTS ==> Candidate(baseSlug, n) in taken(n) {
      CandidatesAreMany(baseSlug, MAX_ATTEMPTS);
      forall c | c in Candidates(baseSlug, MAX_ATTEMPTS)
        ensures c in all
      {
        var n := FromCandidates(baseSlug, MAX_ATTEMPTS, c);
      }
      SubsetIsSmaller(Candidates(baseSlug, MAX_ATTEMPTS), all);
    }
  }
}
