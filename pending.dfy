/**
 * The pending-release sweep (`pendingMonorepoReleases`): among the documents of
 * the store, the "monorepo:<group>" markers whose `updatedAt` is older than the
 * wait threshold, oldest first. The store scan and the clock are I/O: the
 * documents and the current instant `now` are parameters, as is the threshold
 * `wait` (all in milliseconds).
 */
module Pending {
  import opened Wrappers
  import opened Documents

  const MarkerPrefix: string := "monorepo:"

  const Minute: int := 60000

  /** A pending marker: its id carries the marker prefix and it records when it was last refreshed. */
  predicate IsMarker(d: Doc)
  {
    MarkerPrefix <= d.id && d.updatedAt.Some?
  }

  /** The instant a document was last refreshed (0 for one without `updatedAt`). */
  function Instant(d: Doc): int
  {
    match d.updatedAt
    case Some(t) => t
    case None => 0
  }

  /** A marker older than `now - wait`: its settle window has passed. */
  predicate Stale(d: Doc, now: int, wait: int)
  {
    IsMarker(d) && Instant(d) < now - wait
  }

  /** Oldest `updatedAt` first. */
  predicate OldestFirst(s: seq<Doc>)
  {
    forall i, j :: 0 <= i < j < |s| ==> Instant(s[i]) <= Instant(s[j])
  }

  /** The stale markers among `docs`, in store order, each as often as the store lists it. */
  function SelectStale(docs: seq<Doc>, now: int, wait: int): (s: seq<Doc>)
    ensures forall d :: d in s <==> d in docs && Stale(d, now, wait)
    ensures forall d :: multiset(s)[d] == if Stale(d, now, wait) then multiset(docs)[d] else 0
    ensures |s| <= |docs|
  {
    if |docs| == 0 then []
    else
      var rest := SelectStale(docs[1..], now, wait);
      assert docs == [docs[0]] + docs[1..];
      assert forall d :: d in docs <==> d == docs[0] || d in docs[1..];
      if Stale(docs[0], now, wait) then [docs[0]] + rest else rest
  }

  /** Places `d` before the first element that is not older than it. */
  function Insert(d: Doc, s: seq<Doc>): (r: seq<Doc>)
    requires OldestFirst(s)
    ensures OldestFirst(r)
    ensures multiset(r) == multiset(s) + multiset{d}
  {
    if |s| == 0 then [d]
    else if Instant(d) <= Instant(s[0]) then [d] + s
    else
      var rest := Insert(d, s[1..]);
      assert s == [s[0]] + s[1..];
      PrependOldest(s, d, rest);
      [s[0]] + rest
  }

  /**
   * The head of an oldest-first list stays in front of the tail with a younger
   * document inserted.
   */
  lemma PrependOldest(s: seq<Doc>, d: Doc, rest: seq<Doc>)
    requires OldestFirst(s) && |s| > 0
    requires Instant(s[0]) < Instant(d)
    requires OldestFirst(rest) && multiset(rest) == multiset(s[1..]) + multiset{d}
    ensures OldestFirst([s[0]] + rest)
  {
    forall x | x in rest
      ensures Instant(s[0]) <= Instant(x)
    {
      assert x in multiset(rest);
      if x != d {
        assert x in multiset(s[1..]);
        var k :| 0 <= k < |s[1..]| && s[1..][k] == x;
        assert s[k + 1] == x;
      }
    }
    var r := [s[0]] + rest;
    forall i, j | 0 <= i < j < |r|
      ensures Instant(r[i]) <= Instant(r[j])
    {
      assert r[j] == rest[j - 1];
      if i > 0 {
        assert r[i] == rest[i - 1];
      } else {
        assert rest[j - 1] in rest;
      }
    }
  }

  /** Insertion sort on `updatedAt`, oldest first. */
  function SortOldestFirst(s: seq<Doc>): (r: seq<Doc>)
    ensures OldestFirst(r)
    ensures multiset(r) == multiset(s)
  {
    if |s| == 0 then []
    else
      assert s == [s[0]] + s[1..];
      Insert(s[0], SortOldestFirst(s[1..]))
  }

  /**
   * `pendingMonorepoReleases()`: the stale markers, oldest first; exactly the
   * stale markers of the store, each as often as the store lists it.
   */
  function PendingMonorepoReleases(docs: seq<Doc>, now: int, wait: int): (r: seq<Doc>)
    ensures OldestFirst(r)
    ensures multiset(r) == multiset(SelectStale(docs, now, wait))
    ensures forall d :: multiset(r)[d] == if Stale(d, now, wait) then multiset(docs)[d] else 0
    ensures forall d :: d in r <==> d in docs && Stale(d, now, wait)
  {
    var r := SortOldestFirst(SelectStale(docs, now, wait));
    assert forall d :: d in r <==> d in multiset(r);
    r
  }

  /** A store without stale markers (in particular an empty one) yields no releases. */
  lemma NothingStaleNothingPending(docs: seq<Doc>, now: int, wait: int)
    requires forall d :: d in docs ==> !Stale(d, now, wait)
    ensures PendingMonorepoReleases(docs, now, wait) == []
  {
    var r := PendingMonorepoReleases(docs, now, wait);
    assert forall i :: 0 <= i < |r| ==> r[i] in r;
  }

  /** Staleness only grows: a later sweep returns every marker an earlier one did. */
  lemma LaterSweepReturnsMore(docs: seq<Doc>, now: int, later: int, wait: int)
    requires now <= later
    ensures forall d :: d in PendingMonorepoReleases(docs, now, wait) ==> d in PendingMonorepoReleases(docs, later, wait)
  {
  }

  // The sweeps the tests run

  /** A marker for group `group` last refreshed `minutes` minutes before `now`. */
  function MarkerAged(group: string, latest: string, now: int, minutes: int): Doc
  {
    Doc(MarkerPrefix + group, map["latest" := latest], Some(now - minutes * Minute))
  }

  function Store11And44(now: int): seq<Doc>
  {
    [MarkerAged("11", "2.0.0", now, 11), MarkerAged("44", "1.0.0", now, 44)]
  }

  function Store12And22(now: int): seq<Doc>
  {
    [MarkerAged("12", "2.0.0", now, 12), MarkerAged("22", "1.0.0", now, 22)]
  }

  function Store55And66(now: int): seq<Doc>
  {
    [MarkerAged("55", "2.0.0", now, 55), MarkerAged("66", "1.0.0", now, 66)]
  }

  /** A sweep over a store of two markers, spelled out. */
  lemma SweepOfTwo(x: Doc, y: Doc, now: int, wait: int)
    ensures PendingMonorepoReleases([x, y], now, wait)
            == if Stale(x, now, wait) && Stale(y, now, wait) then
                 (if Instant(x) <= Instant(y) then [x, y] else [y, x])
               else if Stale(x, now, wait) then [x]
               else if Stale(y, now, wait) then [y]
               else []
  {
    SelectTwo(x, y, now, wait);
    SortTwo(x, y);
    assert SortOldestFirst([]) == [];
  }

  /** Sorting one or two documents, spelled out. */
  lemma SortTwo(x: Doc, y: Doc)
    ensures SortOldestFirst([x]) == [x] && SortOldestFirst([y]) == [y]
    ensures SortOldestFirst([x, y]) == if Instant(x) <= Instant(y) then [x, y] else [y, x]
  {
    assert [x, y][1..] == [y];
    assert SortOldestFirst([y]) == Insert(y, []);
    assert SortOldestFirst([x, y]) == Insert(x, [y]);
  }

  /** The selection from a store of two documents, spelled out. */
  lemma SelectTwo(x: Doc, y: Doc, now: int, wait: int)
    ensures SelectStale([x, y], now, wait)
            == (if Stale(x, now, wait) then [x] else []) + (if Stale(y, now, wait) then [y] else [])
  {
    assert [x, y][1..] == [y];
    assert [y][1..] == [];
    assert SelectStale([y], now, wait) == if Stale(y, now, wait) then [y] else [];
  }

  /** A marker aged `minutes` minutes is stale exactly when that age exceeds the threshold. */
  lemma MarkerAgedStale(group: string, latest: string, now: int, minutes: int, wait: int)
    ensures Instant(MarkerAged(group, latest, now, minutes)) == now - minutes * Minute
    ensures Stale(MarkerAged(group, latest, now, minutes), now, wait) <==> wait < minutes * Minute
  {
  }

  lemma Sweep11And44(now: int, wait: int)
    ensures PendingMonorepoReleases(Store11And44(now), now, wait)
            == if wait < 11 * Minute then [MarkerAged("44", "1.0.0", now, 44), MarkerAged("11", "2.0.0", now, 11)]
               else if wait < 44 * Minute then [MarkerAged("44", "1.0.0", now, 44)]
               else []
  {
    MarkerAgedStale("11", "2.0.0", now, 11, wait);
    MarkerAgedStale("44", "1.0.0", now, 44, wait);
    SweepOfTwo(MarkerAged("11", "2.0.0", now, 11), MarkerAged("44", "1.0.0", now, 44), now, wait);
  }

  lemma Sweep12And22(now: int, wait: int)
    ensures PendingMonorepoReleases(Store12And22(now), now, wait)
            == if wait < 12 * Minute then [MarkerAged("22", "1.0.0", now, 22), MarkerAged("12", "2.0.0", now, 12)]
               else if wait < 22 * Minute then [MarkerAged("22", "1.0.0", now, 22)]
               else []
  {
    MarkerAgedStale("12", "2.0.0", now, 12, wait);
    MarkerAgedStale("22", "1.0.0", now, 22, wait);
    SweepOfTwo(MarkerAged("12", "2.0.0", now, 12), MarkerAged("22", "1.0.0", now, 22), now, wait);
  }

  lemma Sweep55And66(now: int, wait: int)
    ensures PendingMonorepoReleases(Store55And66(now), now, wait)
            == if wait < 55 * Minute then [MarkerAged("66", "1.0.0", now, 66), MarkerAged("55", "2.0.0", now, 55)]
               else if wait < 66 * Minute then [MarkerAged("66", "1.0.0", now, 66)]
               else []
  {
    MarkerAgedStale("55", "2.0.0", now, 55, wait);
    MarkerAgedStale("66", "1.0.0", now, 66, wait);
    SweepOfTwo(MarkerAged("55", "2.0.0", now, 55), MarkerAged("66", "1.0.0", now, 66), now, wait);
  }

  /**
   * The three seeded sweeps give the outcomes the tests expect exactly when the
   * threshold is at least 22 and under 44 minutes.
   */
  lemma SweepOutcomesPinThreshold(now: int, wait: int)
    ensures (&& PendingMonorepoReleases(Store11And44(now), now, wait) == [MarkerAged("44", "1.0.0", now, 44)]
             && PendingMonorepoReleases(Store12And22(now), now, wait) == []
             && PendingMonorepoReleases(Store55And66(now), now, wait)
                == [MarkerAged("66", "1.0.0", now, 66), MarkerAged("55", "2.0.0", now, 55)])
            <==> 22 * Minute <= wait < 44 * Minute
  {
    Sweep11And44(now, wait);
    Sweep12And22(now, wait);
    Sweep55And66(now, wait);
    var m44, m11 := MarkerAged("44", "1.0.0", now, 44), MarkerAged("11", "2.0.0", now, 11);
    var m22 := MarkerAged("22", "1.0.0", now, 22);
    if wait < 22 * Minute {
      // the 22-minute marker is returned
      assert [m22] != [];
    } else if 44 * Minute <= wait {
      // the 44-minute marker is not returned
      assert [m44] != [];
    }
  }

  /** An empty store: no pending releases. */
  lemma SweepWithoutData(now: int, wait: int)
    ensures PendingMonorepoReleases([], now, wait) == []
  {
  }
}
