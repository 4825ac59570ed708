/** One turn of the polling loop in on_ready (main.py:59-146): sort the fetched
    repositories newest first and announce those created after the last check
    that have not been announced before. */
module Watcher {
  import opened Wrappers
  import opened Timestamps
  import opened Collections

  /** The two fields of a fetched repository that the loop decides on. */
  datatype RepoRecord = RepoRecord(id: int, createdAt: string)

  /** What awaiting fetch_repos() (main.py:46-53) yields in a turn: an exception
      (session.get fails, or response.json() cannot decode a 200 body), None for a
      status other than 200, or the decoded list of repositories. */
  datatype Fetch = Raised | NotOk | Fetched(repos: seq<RepoRecord>)

  /** A fetched repository with its position in the fetched list and its parsed
      creation time, the sort key. */
  datatype Entry = Entry(pos: nat, repo: RepoRecord, created: Stamp)

  /** The sort keys of repos, which sorted(...) computes before it compares anything:
      None as soon as one created_at does not parse (strptime raises). The entry for
      repos[i] is numbered offset + i. */
  function Keyed(repos: seq<RepoRecord>, offset: nat): (r: Option<seq<Entry>>)
    ensures r.Some? <==> forall i :: 0 <= i < |repos| ==> Parse(repos[i].createdAt).Some?
    ensures r.Some? ==> |r.value| == |repos|
    ensures r.Some? ==> forall i :: 0 <= i < |repos| ==>
              r.value[i] == Entry(offset + i, repos[i], Parse(repos[i].createdAt).value)
    decreases |repos|
  {
    if repos == [] then Some([])
    else match Parse(repos[0].createdAt)
      case None => None
      case Some(t) =>
        match Keyed(repos[1..], offset + 1)
        case None => None
        case Some(rest) => Some([Entry(offset, repos[0], t)] + rest)
  }

  /** Keyed numbers the entries by their fetched position, so no two share one. */
  lemma KeyedPositions(repos: seq<RepoRecord>)
    requires Keyed(repos, 0).Some?
    ensures DistinctPositions(Keyed(repos, 0).value)
  {
    var es := Keyed(repos, 0).value;
    forall i, j | 0 <= i < j < |es| ensures es[i].pos != es[j].pos {
      assert es[i].pos == i && es[j].pos == j;
    }
  }

  /** a comes before b in sorted(..., reverse=True): the newer one first; equal
      creation times keep the fetched order, because Python's sort is stable. */
  predicate Precedes(a: Entry, b: Entry)
  {
    Before(b.created, a.created) || (a.created == b.created && a.pos < b.pos)
  }

  predicate NewestFirst(es: seq<Entry>)
  {
    forall i, j :: 0 <= i < j < |es| ==> Precedes(es[i], es[j])
  }

  predicate DistinctPositions(es: seq<Entry>)
  {
    forall i, j :: 0 <= i < j < |es| ==> es[i].pos != es[j].pos
  }

  lemma PrecedesOrder(a: Entry, b: Entry, c: Entry)
    ensures Precedes(a, b) && Precedes(b, c) ==> Precedes(a, c)
    ensures a.pos != b.pos ==> Precedes(a, b) || Precedes(b, a)
  {
    BeforeIsStrictTotalOrder(c.created, b.created, a.created);
    BeforeIsStrictTotalOrder(a.created, b.created, c.created);
  }

  /** Putting an entry that precedes every element in front of a newest-first list
      keeps it newest-first. */
  lemma ConsNewestFirst(x: Entry, es: seq<Entry>)
    requires NewestFirst(es)
    requires forall y :: y in es ==> Precedes(x, y)
    ensures NewestFirst([x] + es)
  {
    var r := [x] + es;
    forall i, j | 0 <= i < j < |r| ensures Precedes(r[i], r[j]) {
      assert r[j] == es[j - 1];
      if i > 0 {
        assert r[i] == es[i - 1];
      }
    }
  }

  /** The head of a newest-first list precedes every entry of its tail with one
      more entry inserted, when it precedes that entry too. */
  lemma HeadPrecedesInserted(e: Entry, es: seq<Entry>, rest: seq<Entry>)
    requires es != [] && NewestFirst(es) && Precedes(es[0], e)
    requires multiset(rest) == multiset(es[1..]) + multiset{e}
    ensures forall y :: y in rest ==> Precedes(es[0], y)
  {
    forall y | y in rest ensures Precedes(es[0], y) {
      assert y in multiset(rest);
      if y != e {
        assert y in multiset(es[1..]);
        var k :| 0 <= k < |es[1..]| && es[1..][k] == y;
        assert es[k + 1] == y;
      }
    }
  }

  /** Insertion of one entry into a newest-first list. */
  function Insert(e: Entry, es: seq<Entry>): (r: seq<Entry>)
    requires NewestFirst(es)
    requires forall x :: x in es ==> x.pos != e.pos
    ensures NewestFirst(r)
    ensures multiset(r) == multiset(es) + multiset{e}
    decreases |es|
  {
    if es == [] then [e]
    else if Precedes(e, es[0]) then
      assert forall y :: y in es ==> Precedes(e, y) by {
        forall y | y in es ensures Precedes(e, y) {
          PrecedesOrder(e, es[0], y);
        }
      }
      ConsNewestFirst(e, es);
      [e] + es
    else
      PrecedesOrder(e, es[0], e);
      var rest := Insert(e, es[1..]);
      HeadPrecedesInserted(e, es, rest);
      ConsNewestFirst(es[0], rest);
      assert es == [es[0]] + es[1..];
      [es[0]] + rest
  }

  /** sorted(entries, key=created, reverse=True): a stable sort, newest first. */
  function SortNewestFirst(es: seq<Entry>): (r: seq<Entry>)
    requires DistinctPositions(es)
    ensures NewestFirst(r)
    ensures multiset(r) == multiset(es)
    decreases |es|
  {
    if es == [] then []
    else
      var rest := SortNewestFirst(es[1..]);
      assert forall x :: x in rest ==> x.pos != es[0].pos by {
        forall x | x in rest ensures x.pos != es[0].pos {
          assert x in multiset(es[1..]);
          var k :| 0 <= k < |es[1..]| && es[1..][k] == x;
          assert x == es[k + 1];
        }
      }
      assert es == [es[0]] + es[1..];
      Insert(es[0], rest)
  }

  /** The entries the for loop of main.py:72-76 announces, in the order it meets them:
      one is announced when it was created after cutoff and its id is not yet seen,
      and its id is then seen for the rest of the loop. */
  function Announce(es: seq<Entry>, cutoff: Stamp, seen: set<int>): seq<Entry>
    decreases |es|
  {
    if es == [] then []
    else if Before(cutoff, es[0].created) && es[0].repo.id !in seen then
      [es[0]] + Announce(es[1..], cutoff, seen + {es[0].repo.id})
    else Announce(es[1..], cutoff, seen)
  }

  function Ids(es: seq<Entry>): (r: seq<int>)
    ensures |r| == |es|
    ensures forall i :: 0 <= i < |es| ==> r[i] == es[i].repo.id
  {
    seq(|es|, i requires 0 <= i < |es| => es[i].repo.id)
  }

  /** Every announced entry is a fetched one that passed the test. */
  lemma {:induction false} AnnouncedPassed(es: seq<Entry>, cutoff: Stamp, seen: set<int>, e: Entry)
    requires e in Announce(es, cutoff, seen)
    ensures e in es && Before(cutoff, e.created) && e.repo.id !in seen
    decreases |es|
  {
    if es != [] && e != es[0] {
      if Before(cutoff, es[0].created) && es[0].repo.id !in seen {
        AnnouncedPassed(es[1..], cutoff, seen + {es[0].repo.id}, e);
      } else {
        AnnouncedPassed(es[1..], cutoff, seen, e);
      }
    } else if es != [] && !(Before(cutoff, es[0].created) && es[0].repo.id !in seen) {
      AnnouncedPassed(es[1..], cutoff, seen, e);
    }
  }

  /** With the cutoff at or after some instant start, everything announced was
      created after start. */
  lemma AnnouncedAfterStart(es: seq<Entry>, cutoff: Stamp, seen: set<int>, start: Stamp)
    requires !Before(cutoff, start)
    ensures forall e :: e in Announce(es, cutoff, seen) ==> Before(start, e.created)
  {
    forall e | e in Announce(es, cutoff, seen) ensures Before(start, e.created) {
      AnnouncedPassed(es, cutoff, seen, e);
      BeforeIsStrictTotalOrder(start, cutoff, e.created);
    }
  }

  /** An id is announced exactly when it is not seen yet and some fetched entry
      with that id was created after the cutoff. */
  lemma {:induction false} AnnouncedIff(es: seq<Entry>, cutoff: Stamp, seen: set<int>, id: int)
    ensures id in Ids(Announce(es, cutoff, seen)) <==>
      id !in seen && exists e :: e in es && e.repo.id == id && Before(cutoff, e.created)
    decreases |es|
  {
    if es != [] {
      var e0 := es[0];
      assert forall e :: e in es <==> e == e0 || e in es[1..];
      if Before(cutoff, e0.created) && e0.repo.id !in seen {
        var seen' := seen + {e0.repo.id};
        AnnouncedIff(es[1..], cutoff, seen', id);
        var tail := Announce(es[1..], cutoff, seen');
        assert Ids([e0] + tail) == [e0.repo.id] + Ids(tail);
      } else {
        AnnouncedIff(es[1..], cutoff, seen, id);
      }
    }
  }

  /** No id is announced twice in one cycle, and none that was seen before. */
  lemma {:induction false} AnnouncedFresh(es: seq<Entry>, cutoff: Stamp, seen: set<int>)
    ensures NoDuplicates(Ids(Announce(es, cutoff, seen)))
    ensures Elements(Ids(Announce(es, cutoff, seen))) !! seen
    decreases |es|
  {
    if es != [] {
      var e0 := es[0];
      if Before(cutoff, e0.created) && e0.repo.id !in seen {
        var seen' := seen + {e0.repo.id};
        AnnouncedFresh(es[1..], cutoff, seen');
        var tail := Ids(Announce(es[1..], cutoff, seen'));
        var all := Ids(Announce(es, cutoff, seen));
        assert all == [e0.repo.id] + tail;
        assert e0.repo.id !in Elements(tail);
        forall i, j | 0 <= i < j < |all| ensures all[i] != all[j] {
          if i == 0 {
            assert all[j] == tail[j - 1];
            assert tail[j - 1] in Elements(tail);
          } else {
            assert all[i] == tail[i - 1] && all[j] == tail[j - 1];
          }
        }
      } else {
        AnnouncedFresh(es[1..], cutoff, seen);
      }
    }
  }

  /** The loop keeps the sorted order: announcements come newest first, ties in
      the order they were fetched. */
  lemma {:induction false} AnnouncedNewestFirst(es: seq<Entry>, cutoff: Stamp, seen: set<int>)
    requires NewestFirst(es)
    ensures NewestFirst(Announce(es, cutoff, seen))
    decreases |es|
  {
    if es != [] {
      var e0 := es[0];
      if Before(cutoff, e0.created) && e0.repo.id !in seen {
        var seen' := seen + {e0.repo.id};
        var tail := Announce(es[1..], cutoff, seen');
        AnnouncedNewestFirst(es[1..], cutoff, seen');
        var all := [e0] + tail;
        forall i, j | 0 <= i < j < |all| ensures Precedes(all[i], all[j]) {
          if i == 0 {
            AnnouncedPassed(es[1..], cutoff, seen', tail[j - 1]);
            var k :| 0 <= k < |es[1..]| && es[1..][k] == tail[j - 1];
            assert es[k + 1] == all[j];
          } else {
            assert all[i] == tail[i - 1] && all[j] == tail[j - 1];
          }
        }
      } else {
        AnnouncedNewestFirst(es[1..], cutoff, seen);
      }
    }
  }

  /** What one turn of the loop did, with the announced repositories in posting order. */
  datatype CycleOutcome =
    | NoUsername          // GITHUB_USERNAME is empty: nothing is fetched (main.py:63)
    | FetchRaised         // fetch_repos raised: the exception ends on_ready's loop (main.py:64)
    | FetchFailed         // fetch_repos returned None: status other than 200 (main.py:51-53)
    | NothingFetched      // the fetched list is empty, hence falsy (main.py:65)
    | MalformedTimestamp  // strptime raised: the exception ends on_ready's loop
    | Checked(announced: seq<Entry>)

  /** The outcome of a turn, given the username, the fetch result, the last check
      time and the ids already announced. */
  function Expected(username: string, fetched: Fetch,
                    lastCheck: Stamp, seen: set<int>): (r: CycleOutcome)
    ensures r.Checked? <==>
      && username != [] && fetched.Fetched? && fetched.repos != []
      && forall i :: 0 <= i < |fetched.repos| ==> Parse(fetched.repos[i].createdAt).Some?
    ensures r == MalformedTimestamp <==>
      && username != [] && fetched.Fetched?
      && exists i :: 0 <= i < |fetched.repos| && Parse(fetched.repos[i].createdAt).None?
  {
    if username == [] then NoUsername
    else match fetched
      case Raised => FetchRaised
      case NotOk => FetchFailed
      case Fetched(repos) =>
        if repos == [] then NothingFetched
        else match Keyed(repos, 0)
          case None => MalformedTimestamp
          case Some(es) =>
            KeyedPositions(repos);
            Checked(Announce(SortNewestFirst(es), lastCheck, seen))
  }

  /** Sorting and then announcing posts id exactly when id has not been announced
      before and some entry with that id is newer than the cutoff. */
  lemma SortedAnnouncesExactly(es: seq<Entry>, lastCheck: Stamp, seen: set<int>, id: int)
    requires DistinctPositions(es)
    ensures id in Ids(Announce(SortNewestFirst(es), lastCheck, seen)) <==>
      id !in seen && exists i :: 0 <= i < |es| && es[i].repo.id == id && Before(lastCheck, es[i].created)
  {
    var sorted := SortNewestFirst(es);
    AnnouncedIff(sorted, lastCheck, seen, id);
    if id !in seen && exists i :: 0 <= i < |es| && es[i].repo.id == id && Before(lastCheck, es[i].created) {
      var i :| 0 <= i < |es| && es[i].repo.id == id && Before(lastCheck, es[i].created);
      assert es[i] in multiset(sorted);
    }
    if id in Ids(Announce(sorted, lastCheck, seen)) {
      var e :| e in sorted && e.repo.id == id && Before(lastCheck, e.created);
      assert e in multiset(es);
      var i :| 0 <= i < |es| && es[i] == e;
    }
  }

  /** A turn whose fetched timestamps all parse announces what sorting and then
      announcing the keyed list gives. */
  lemma ExpectedChecked(username: string, repos: seq<RepoRecord>, lastCheck: Stamp, seen: set<int>)
    requires username != [] && repos != []
    requires forall i :: 0 <= i < |repos| ==> Parse(repos[i].createdAt).Some?
    ensures Keyed(repos, 0).Some? && DistinctPositions(Keyed(repos, 0).value)
    ensures Expected(username, Fetched(repos), lastCheck, seen)
         == Checked(Announce(SortNewestFirst(Keyed(repos, 0).value), lastCheck, seen))
  {
    KeyedPositions(repos);
  }

  /** A turn announces repository id exactly when id has not been announced before
      and some fetched repository with that id was created after the last check. */
  lemma ExpectedAnnouncesExactly(username: string, repos: seq<RepoRecord>, lastCheck: Stamp,
                                 seen: set<int>, id: int)
    requires username != [] && repos != []
    requires forall i :: 0 <= i < |repos| ==> Parse(repos[i].createdAt).Some?
    ensures Expected(username, Fetched(repos), lastCheck, seen).Checked?
    ensures var announced := Expected(username, Fetched(repos), lastCheck, seen).announced;
      id in Ids(announced) <==>
        id !in seen && exists i :: 0 <= i < |repos| && repos[i].id == id
                                   && Before(lastCheck, Parse(repos[i].createdAt).value)
  {
    ExpectedChecked(username, repos, lastCheck, seen);
    var es := Keyed(repos, 0).value;
    var announced := Announce(SortNewestFirst(es), lastCheck, seen);
    SortedAnnouncesExactly(es, lastCheck, seen, id);
    if id in Ids(announced) {
      var i :| 0 <= i < |es| && es[i].repo.id == id && Before(lastCheck, es[i].created);
      assert es[i] == Entry(i, repos[i], Parse(repos[i].createdAt).value);
    }
    if id !in seen && exists i :: 0 <= i < |repos| && repos[i].id == id
                                  && Before(lastCheck, Parse(repos[i].createdAt).value) {
      var i :| 0 <= i < |repos| && repos[i].id == id
               && Before(lastCheck, Parse(repos[i].createdAt).value);
      assert es[i] == Entry(i, repos[i], Parse(repos[i].createdAt).value);
    }
  }

  /** A turn never announces an id twice or one announced in an earlier turn, and its
      announcements come newest first, ties in fetched order. */
  lemma ExpectedFreshAndOrdered(username: string, repos: seq<RepoRecord>,
                                lastCheck: Stamp, seen: set<int>)
    requires username != [] && repos != []
    requires forall i :: 0 <= i < |repos| ==> Parse(repos[i].createdAt).Some?
    ensures Expected(username, Fetched(repos), lastCheck, seen).Checked?
    ensures var announced := Expected(username, Fetched(repos), lastCheck, seen).announced;
      && NoDuplicates(Ids(announced))
      && Elements(Ids(announced)) !! seen
      && NewestFirst(announced)
  {
    ExpectedChecked(username, repos, lastCheck, seen);
    var sorted := SortNewestFirst(Keyed(repos, 0).value);
    AnnouncedFresh(sorted, lastCheck, seen);
    AnnouncedNewestFirst(sorted, lastCheck, seen);
  }


  /** The state of the polling loop: the ids announced so far (seen_repos), the
      time of the last check (last_check), and whether an exception has ended it. */
  class RepoWatcher {
    var seen: set<int>
    var lastCheck: Stamp
    var stopped: bool
    /** Every id announced since start, in posting order. */
    ghost var log: seq<int>
    /** The time on_ready started at. */
    ghost var startedAt: Stamp

    ghost predicate Valid()
      reads this
    {
      NoDuplicates(log) && seen == Elements(log)
    }

    /** last_check has not gone back before the start, as it cannot while utcnow()
        never goes back. */
    ghost predicate ClockSane()
      reads this
    {
      !Before(lastCheck, startedAt)
    }

    /** on_ready's start: nothing has been seen and last_check is the start time. */
    constructor (start: Stamp)
      ensures Valid() && ClockSane()
      ensures seen == {} && lastCheck == start && !stopped && log == [] && startedAt == start
    {
      seen := {};
      lastCheck := start;
      stopped := false;
      log := [];
      startedAt := start;
      BeforeIsStrictTotalOrder(start, start, start);
    }

    /** The for loop of main.py:72-76 over the sorted repositories: each one created
        after cutoff whose id is not yet seen is announced and its id added to seen. */
    method AnnounceNew(sorted: seq<Entry>, cutoff: Stamp) returns (announced: seq<Entry>)
      modifies this`seen
      ensures announced == Announce(sorted, cutoff, old(seen))
      ensures seen == old(seen) + Elements(Ids(announced))
    {
      announced := [];
      var i := 0;
      while i < |sorted|
        invariant 0 <= i <= |sorted|
        invariant Announce(sorted, cutoff, old(seen)) == announced + Announce(sorted[i..], cutoff, seen)
        invariant seen == old(seen) + Elements(Ids(announced))
      {
        var e := sorted[i];
        assert sorted[i..][0] == e && sorted[i..][1..] == sorted[i + 1..];
        if Before(cutoff, e.created) && e.repo.id !in seen {
          assert Announce(sorted[i..], cutoff, seen)
              == [e] + Announce(sorted[i + 1..], cutoff, seen + {e.repo.id});
          seen := seen + {e.repo.id};
          assert Ids(announced + [e]) == Ids(announced) + [e.repo.id];
          announced := announced + [e];
        } else {
          assert Announce(sorted[i..], cutoff, seen) == Announce(sorted[i + 1..], cutoff, seen);
        }
        i := i + 1;
      }
    }

    /** One turn of the loop. `fetched` is what fetch_repos would return for the
        username, `now` is utcnow() at the end of the turn. */
    method Cycle(username: string, fetched: Fetch, now: Stamp)
      returns (outcome: CycleOutcome)
      requires Valid() && !stopped
      modifies this
      ensures Valid()
      ensures outcome == Expected(username, fetched, old(lastCheck), old(seen))
      ensures outcome.Checked? ==>
        && seen == old(seen) + Elements(Ids(outcome.announced))
        && log == old(log) + Ids(outcome.announced)
        && lastCheck == now
      ensures !outcome.Checked? ==>
        seen == old(seen) && log == old(log) && lastCheck == old(lastCheck)
      ensures stopped <==> outcome == FetchRaised || outcome == MalformedTimestamp
      ensures startedAt == old(startedAt)
      ensures old(ClockSane()) && !Before(now, old(lastCheck)) ==> ClockSane()
      ensures old(ClockSane()) && outcome.Checked? ==>
        forall e :: e in outcome.announced ==> Before(startedAt, e.created)
    {
      if username == [] {
        return NoUsername;
      }
      if fetched.Raised? {
        stopped := true;
        return FetchRaised;
      }
      if fetched.NotOk? {
        return FetchFailed;
      }
      var repos := fetched.repos;
      if repos == [] {
        return NothingFetched;
      }
      var keyed := Keyed(repos, 0);
      if keyed.None? {
        stopped := true;
        return MalformedTimestamp;
      }
      var es := keyed.value;
      KeyedPositions(repos);
      var sorted := SortNewestFirst(es);
      var cutoff := lastCheck;
      ghost var seen0 := seen;
      var announced := AnnounceNew(sorted, cutoff);
      assert announced == Announce(sorted, cutoff, seen0);
      ExpectedFreshAndOrdered(username, repos, cutoff, seen0);
      if ClockSane() {
        AnnouncedAfterStart(sorted, cutoff, seen0, startedAt);
        BeforeIsStrictTotalOrder(now, startedAt, cutoff);
      }
      lastCheck := now;
      var ids := Ids(announced);
      AppendDisjointNoDuplicates(log, ids);
      log := log + ids;
      return Checked(announced);
    }
  }
}
