/**
 * The "like the first n posts" driver loop that the library (`LikeLatest`)
 * and the scripts (`like_first_n_posts`, `like_first_n`, `demo`) share:
 *
 *   for each of at most `maxPages` pages: find the separators; when there
 *   are none, go on to the next page; otherwise attempt the separators in
 *   order, stopping as soon as `n` attempts succeeded; then stop if `n`
 *   succeeded, else go on to the next page.
 *
 * The separators found on page `p` and the outcome of attempt number `k`
 * (counted from 0 across pages) on a separator are parameters: each file
 * fixes them from its own searches over the snapshots it polls.
 */
module Paging {

  /**
   * Counters of a run: successful attempts, attempted separators, page scans
   * performed, and the separators attempted, in order.
   */
  datatype Tally<S> = Tally(success: nat, tried: nat, pages: nat, attempts: seq<S>)

  /** How many of the attempts `xs` succeeded, attempt `k` being `xs[k]`. */
  function Verified<S>(attempt: (nat, S) -> bool, xs: seq<S>): (c: nat)
    ensures c <= |xs|
  {
    if xs == [] then 0
    else Verified(attempt, xs[..|xs| - 1]) + (if attempt(|xs| - 1, xs[|xs| - 1]) then 1 else 0)
  }

  /** The tally after one more attempt, on separator `s`. */
  function Attempted<S>(attempt: (nat, S) -> bool, t: Tally<S>, s: S): Tally<S> {
    Tally(t.success + (if attempt(t.tried, s) then 1 else 0), t.tried + 1, t.pages, t.attempts + [s])
  }

  /** The separator loop of one page, from index `i` on. */
  function SepsFrom<S>(seps: seq<S>, i: nat, n: int, attempt: (nat, S) -> bool, t: Tally<S>): Tally<S>
    decreases |seps| - i
  {
    if i >= |seps| || t.success >= n then t
    else SepsFrom(seps, i + 1, n, attempt, Attempted(attempt, t, seps[i]))
  }

  /** The page loop, from page `page` on. */
  function PagesFrom<S>(page: nat, maxPages: int, n: int, sepsOf: nat -> seq<S>, attempt: (nat, S) -> bool, t: Tally<S>): Tally<S>
    decreases maxPages - page
  {
    if page >= maxPages then t
    else
      var t1 := Tally(t.success, t.tried, t.pages + 1, t.attempts);
      if sepsOf(page) == [] then PagesFrom(page + 1, maxPages, n, sepsOf, attempt, t1)
      else
        var t2 := SepsFrom(sepsOf(page), 0, n, attempt, t1);
        if t2.success >= n then t2 else PagesFrom(page + 1, maxPages, n, sepsOf, attempt, t2)
  }

  /** One turn of the page loop, as the driver takes it: scan page `page`, then attempt its separators when it has any. */
  lemma PagesFromStep<S>(page: nat, maxPages: int, n: int, sepsOf: nat -> seq<S>, attempt: (nat, S) -> bool, t: Tally<S>)
    requires page < maxPages
    ensures var t1 := Tally(t.success, t.tried, t.pages + 1, t.attempts);
            var t2 := SepsFrom(sepsOf(page), 0, n, attempt, t1);
            PagesFrom(page, maxPages, n, sepsOf, attempt, t)
            == if sepsOf(page) == [] then PagesFrom(page + 1, maxPages, n, sepsOf, attempt, t1)
               else if t2.success >= n then t2
               else PagesFrom(page + 1, maxPages, n, sepsOf, attempt, t2)
  {
  }

  /** A whole run, from zero counters. */
  function Run<S>(maxPages: int, n: int, sepsOf: nat -> seq<S>, attempt: (nat, S) -> bool): Tally<S> {
    PagesFrom(0, maxPages, n, sepsOf, attempt, Tally(0, 0, 0, []))
  }

  function Max0(n: int): nat { if n < 0 then 0 else n }

  /** What every tally of a run keeps: the counters agree with the attempts, and success never passes the target. */
  predicate Consistent<S>(attempt: (nat, S) -> bool, n: int, t: Tally<S>) {
    t.tried == |t.attempts| && t.success == Verified(attempt, t.attempts) && t.success <= Max0(n)
  }

  lemma VerifiedSnoc<S>(attempt: (nat, S) -> bool, xs: seq<S>, s: S)
    ensures Verified(attempt, xs + [s]) == Verified(attempt, xs) + (if attempt(|xs|, s) then 1 else 0)
  {
    assert (xs + [s])[..|xs|] == xs;
  }

  lemma {:induction false} SepsFromConsistent<S>(seps: seq<S>, i: nat, n: int, attempt: (nat, S) -> bool, t: Tally<S>)
    requires Consistent(attempt, n, t)
    ensures var r := SepsFrom(seps, i, n, attempt, t);
            Consistent(attempt, n, r) && r.pages == t.pages && r.tried >= t.tried
            && (r.success < n ==> r.tried - t.tried == if i <= |seps| then |seps| - i else 0)
    decreases |seps| - i
  {
    if i < |seps| && t.success < n {
      VerifiedSnoc(attempt, t.attempts, seps[i]);
      SepsFromConsistent(seps, i + 1, n, attempt, Attempted(attempt, t, seps[i]));
    }
  }

  lemma {:induction false} PagesFromConsistent<S>(page: nat, maxPages: int, n: int, sepsOf: nat -> seq<S>, attempt: (nat, S) -> bool, t: Tally<S>)
    requires Consistent(attempt, n, t) && t.pages <= page
    ensures var r := PagesFrom(page, maxPages, n, sepsOf, attempt, t);
            Consistent(attempt, n, r)
            && r.pages <= (if page <= maxPages then maxPages - page else 0) + t.pages
            && (r.success < n && page <= maxPages ==> r.pages == maxPages - page + t.pages)
    decreases maxPages - page
  {
    if page < maxPages {
      var t1 := Tally(t.success, t.tried, t.pages + 1, t.attempts);
      if sepsOf(page) == [] {
        PagesFromConsistent(page + 1, maxPages, n, sepsOf, attempt, t1);
      } else {
        SepsFromConsistent(sepsOf(page), 0, n, attempt, t1);
        var t2 := SepsFrom(sepsOf(page), 0, n, attempt, t1);
        if t2.success < n {
          PagesFromConsistent(page + 1, maxPages, n, sepsOf, attempt, t2);
        }
      }
    }
  }

  /**
   * The counters of a run: `tried` counts the separators attempted, `success`
   * counts exactly the attempts that succeeded and never passes `max(n, 0)`,
   * at most `maxPages` page scans run, and a run that misses its target
   * scanned every page.
   */
  lemma RunCounters<S>(maxPages: int, n: int, sepsOf: nat -> seq<S>, attempt: (nat, S) -> bool)
    ensures var r := Run(maxPages, n, sepsOf, attempt);
            r.tried == |r.attempts| && r.success == Verified(attempt, r.attempts)
            && r.success <= Max0(n) && r.success <= r.tried
            && r.pages <= Max0(maxPages)
            && (r.success < n ==> r.pages == Max0(maxPages))
  {
    PagesFromConsistent(0, maxPages, n, sepsOf, attempt, Tally(0, 0, 0, []));
  }

  /** When no attempt can succeed, nothing is counted as a success. */
  lemma {:induction false} VerifiedNone<S>(attempt: (nat, S) -> bool, xs: seq<S>)
    requires forall k :: 0 <= k < |xs| ==> !attempt(k, xs[k])
    ensures Verified(attempt, xs) == 0
  {
    if xs != [] {
      VerifiedNone(attempt, xs[..|xs| - 1]);
    }
  }

  /** A run with a target of zero or less attempts nothing. */
  lemma NoTargetNoAttempt<S>(maxPages: int, n: int, sepsOf: nat -> seq<S>, attempt: (nat, S) -> bool)
    requires n <= 0
    ensures Run(maxPages, n, sepsOf, attempt).tried == 0
  {
    RunCounters(maxPages, n, sepsOf, attempt);
    NoTargetFrom(0, maxPages, n, sepsOf, attempt, Tally(0, 0, 0, []));
  }

  lemma {:induction false} NoTargetFrom<S>(page: nat, maxPages: int, n: int, sepsOf: nat -> seq<S>, attempt: (nat, S) -> bool, t: Tally<S>)
    requires n <= 0
    ensures PagesFrom(page, maxPages, n, sepsOf, attempt, t).tried == t.tried
    decreases maxPages - page
  {
    if page < maxPages {
      var t1 := Tally(t.success, t.tried, t.pages + 1, t.attempts);
      if sepsOf(page) == [] {
        NoTargetFrom(page + 1, maxPages, n, sepsOf, attempt, t1);
      }
    }
  }
}
