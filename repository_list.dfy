/** The dashboard page's list of repositories and its three handlers: add,
    the two-phase sync, and delete. */
module RepositoryList {

  datatype Option<T> = None | Some(value: T)

  datatype Status = Synced | Pending | Error

  /** The locale-formatted wall-clock time at which a handler ran; its
      content plays no part in the logic. */
  type Timestamp = string

  datatype Repository = Repository(name: string, url: string, status: Status, lastSync: Option<Timestamp>)

  /** The notification the add handler raises. */
  datatype AddOutcome = AlreadyExists | Added

  /** The array `some` scan: does an entry of `repos`, looked at from the
      front, have this URL? */
  predicate HasUrl(repos: seq<Repository>, url: string): (b: bool)
    ensures b <==> exists i :: 0 <= i < |repos| && repos[i].url == url
  {
    repos != [] && (repos[0].url == url || HasUrl(repos[1..], url))
  }

  /** No two entries share a URL. */
  predicate UniqueUrls(repos: seq<Repository>) {
    forall i, j :: 0 <= i < j < |repos| ==> repos[i].url != repos[j].url
  }

  /** The record the add handler creates: the given name and URL, `synced`,
      stamped with the time of the add. */
  function NewRepository(name: string, url: string, now: Timestamp): (r: Repository)
    ensures r.name == name && r.url == url
    ensures r.status == Synced && r.lastSync == Some(now)
  {
    Repository(name, url, Synced, Some(now))
  }

  // ---------------------------------------------------------------------
  // Add

  /** The list after adding `name`/`url` at time `now`: a URL that is already
      present leaves the list alone; otherwise exactly one fresh `synced`
      record is appended and every earlier entry stays where it was. */
  function Add(repos: seq<Repository>, name: string, url: string, now: Timestamp): (r: seq<Repository>)
    ensures |r| == if HasUrl(repos, url) then |repos| else |repos| + 1
    ensures r[..|repos|] == repos
    ensures HasUrl(r, url)
    ensures !HasUrl(repos, url) ==> r[|repos|] == NewRepository(name, url, now)
    ensures UniqueUrls(repos) ==> UniqueUrls(r)
  {
    if HasUrl(repos, url) then
      repos
    else
      var r := repos + [NewRepository(name, url, now)];
      assert r[|repos|].url == url;
      r
  }

  // ---------------------------------------------------------------------
  // Sync

  /** Phase one of a sync: every entry with this URL becomes `pending`;
      nothing else about any entry changes, nor the order or the length. */
  function MarkPending(repos: seq<Repository>, url: string): (r: seq<Repository>)
    ensures |r| == |repos|
    ensures forall i :: 0 <= i < |r| ==>
              r[i].name == repos[i].name && r[i].url == repos[i].url &&
              r[i].lastSync == repos[i].lastSync
    ensures forall i :: 0 <= i < |r| ==>
              r[i].status == if repos[i].url == url then Pending else repos[i].status
  {
    if repos == [] then
      []
    else
      var head := if repos[0].url == url then repos[0].(status := Pending) else repos[0];
      [head] + MarkPending(repos[1..], url)
  }

  /** Phase two of a sync, applied to the list it is given: every entry with
      this URL becomes `synced` with `lastSync = now`; every other entry,
      the order and the length are unchanged. */
  function MarkSynced(repos: seq<Repository>, url: string, now: Timestamp): (r: seq<Repository>)
    ensures |r| == |repos|
    ensures forall i :: 0 <= i < |r| ==>
              r[i].name == repos[i].name && r[i].url == repos[i].url
    ensures forall i :: 0 <= i < |r| ==>
              if repos[i].url == url then r[i].status == Synced && r[i].lastSync == Some(now)
              else r[i] == repos[i]
  {
    if repos == [] then
      []
    else
      var head := if repos[0].url == url then repos[0].(status := Synced, lastSync := Some(now)) else repos[0];
      [head] + MarkSynced(repos[1..], url, now)
  }

  /** Phase one changes only statuses, and phase two overwrites the status of
      exactly the entries phase one touched: phase two gives the same list
      whether it is applied to the phase-one list or to the original. */
  lemma {:induction false} MarkSyncedAfterPending(repos: seq<Repository>, url: string, now: Timestamp)
    ensures MarkSynced(MarkPending(repos, url), url, now) == MarkSynced(repos, url, now)
  {
    if repos != [] {
      MarkSyncedAfterPending(repos[1..], url, now);
    }
  }

  /** Syncing a URL that no entry has changes nothing, in either phase. */
  lemma {:induction false} SyncAbsentIsIdentity(repos: seq<Repository>, url: string, now: Timestamp)
    requires !HasUrl(repos, url)
    ensures MarkPending(repos, url) == repos
    ensures MarkSynced(repos, url, now) == repos
  {
    if repos != [] {
      assert repos[0].url != url;
      assert !HasUrl(repos[1..], url) by {
        forall i | 0 <= i < |repos[1..]| ensures repos[1..][i].url != url {
          assert repos[1..][i] == repos[i + 1];
        }
      }
      SyncAbsentIsIdentity(repos[1..], url, now);
    }
  }

  /** Phase one changes no URL, so it neither adds nor removes a URL nor
      breaks URL uniqueness. */
  lemma PendingKeepsUrls(repos: seq<Repository>, url: string, v: string)
    ensures HasUrl(MarkPending(repos, url), v) <==> HasUrl(repos, v)
    ensures UniqueUrls(repos) ==> UniqueUrls(MarkPending(repos, url))
  {
    var p := MarkPending(repos, url);
    if HasUrl(repos, v) {
      var i :| 0 <= i < |repos| && repos[i].url == v;
      assert p[i].url == v;
    }
    if HasUrl(p, v) {
      var i :| 0 <= i < |p| && p[i].url == v;
      assert repos[i].url == v;
    }
  }

  /** Phase two changes no URL either. */
  lemma SyncedKeepsUrls(repos: seq<Repository>, url: string, now: Timestamp, v: string)
    ensures HasUrl(MarkSynced(repos, url, now), v) <==> HasUrl(repos, v)
    ensures UniqueUrls(repos) ==> UniqueUrls(MarkSynced(repos, url, now))
  {
    var q := MarkSynced(repos, url, now);
    if HasUrl(repos, v) {
      var i :| 0 <= i < |repos| && repos[i].url == v;
      assert q[i].url == v;
    }
    if HasUrl(q, v) {
      var i :| 0 <= i < |q| && q[i].url == v;
      assert repos[i].url == v;
    }
  }

  // ---------------------------------------------------------------------
  // Delete

  /** The list without any entry that has this URL; the rest keep their
      order. */
  function Remove(repos: seq<Repository>, url: string): (r: seq<Repository>)
    ensures |r| <= |repos|
    ensures !HasUrl(r, url)
  {
    if repos == [] then
      []
    else if repos[0].url == url then
      Remove(repos[1..], url)
    else
      var rest := Remove(repos[1..], url);
      assert forall i :: 0 < i < |rest| + 1 ==> ([repos[0]] + rest)[i] == rest[i - 1];
      [repos[0]] + rest
  }

  /** The survivors of a delete are exactly the entries whose URL differs. */
  lemma {:induction false} RemoveMembers(repos: seq<Repository>, url: string, x: Repository)
    ensures x in Remove(repos, url) <==> x in repos && x.url != url
  {
    if repos != [] {
      RemoveMembers(repos[1..], url, x);
      assert x in repos <==> x == repos[0] || x in repos[1..];
    }
  }

  /** Deleting distributes over concatenation, which is to say it keeps the
      surviving entries in their original order. */
  lemma {:induction false} RemoveConcat(a: seq<Repository>, b: seq<Repository>, url: string)
    ensures Remove(a + b, url) == Remove(a, url) + Remove(b, url)
  {
    if a == [] {
      assert a + b == b;
    } else {
      assert (a + b)[1..] == a[1..] + b;
      RemoveConcat(a[1..], b, url);
    }
  }

  /** Deleting a URL that no entry has changes nothing. */
  lemma {:induction false} RemoveAbsentIsIdentity(repos: seq<Repository>, url: string)
    requires !HasUrl(repos, url)
    ensures Remove(repos, url) == repos
  {
    if repos != [] {
      assert repos[0].url != url;
      assert !HasUrl(repos[1..], url) by {
        forall i | 0 <= i < |repos[1..]| ensures repos[1..][i].url != url {
          assert repos[1..][i] == repos[i + 1];
        }
      }
      RemoveAbsentIsIdentity(repos[1..], url);
    }
  }

  /** Deleting twice is deleting once. */
  lemma RemoveIdempotent(repos: seq<Repository>, url: string)
    ensures Remove(Remove(repos, url), url) == Remove(repos, url)
  {
    RemoveAbsentIsIdentity(Remove(repos, url), url);
  }

  /** With unique URLs, deleting the first entry's URL drops just that entry. */
  lemma RemoveFirst(repos: seq<Repository>)
    requires UniqueUrls(repos) && repos != []
    ensures Remove(repos, repos[0].url) == repos[1..]
  {
    var url, tail := repos[0].url, repos[1..];
    assert !HasUrl(tail, url) by {
      forall i | 0 <= i < |tail| ensures tail[i].url != url {
        assert tail[i] == repos[i + 1];
      }
    }
    RemoveAbsentIsIdentity(tail, url);
  }

  /** With unique URLs, deleting the URL of the entry at `k` removes exactly
      that entry and keeps the rest in order. */
  lemma {:induction false} RemoveAt(repos: seq<Repository>, k: nat)
    requires UniqueUrls(repos) && k < |repos|
    ensures Remove(repos, repos[k].url) == repos[..k] + repos[k + 1..]
  {
    var url, tail := repos[k].url, repos[1..];
    TailKeepsUnique(repos);
    if k == 0 {
      RemoveFirst(repos);
    } else {
      assert repos[0].url != url;
      assert Remove(repos, url) == [repos[0]] + Remove(tail, url);
      assert tail[k - 1] == repos[k];
      RemoveAt(tail, k - 1);
      assert repos[..k] == [repos[0]] + tail[..k - 1];
      assert repos[k + 1..] == tail[k..];
    }
  }

  /** Dropping the first entry keeps URLs unique. */
  lemma TailKeepsUnique(repos: seq<Repository>)
    requires UniqueUrls(repos) && repos != []
    ensures UniqueUrls(repos[1..])
  {
    var tail := repos[1..];
    forall i, j | 0 <= i < j < |tail| ensures tail[i].url != tail[j].url {
      assert tail[i] == repos[i + 1] && tail[j] == repos[j + 1];
    }
  }

  /** With unique URLs, a delete shortens the list by exactly one if the URL
      was present and leaves its length alone otherwise. */
  lemma RemoveLength(repos: seq<Repository>, url: string)
    requires UniqueUrls(repos)
    ensures |Remove(repos, url)| == if HasUrl(repos, url) then |repos| - 1 else |repos|
  {
    if HasUrl(repos, url) {
      var k :| 0 <= k < |repos| && repos[k].url == url;
      RemoveAt(repos, k);
    } else {
      RemoveAbsentIsIdentity(repos, url);
    }
  }

  /** Prepending an entry whose URL the rest lacks keeps URLs unique. */
  lemma ConsKeepsUnique(head: Repository, rest: seq<Repository>)
    requires UniqueUrls(rest) && !HasUrl(rest, head.url)
    ensures UniqueUrls([head] + rest)
  {
    var r := [head] + rest;
    forall i, j | 0 <= i < j < |r| ensures r[i].url != r[j].url {
      assert r[j] == rest[j - 1];
      if i > 0 {
        assert r[i] == rest[i - 1];
      }
    }
  }

  /** Deleting keeps URLs unique. */
  lemma {:induction false} RemoveKeepsUnique(repos: seq<Repository>, url: string)
    requires UniqueUrls(repos)
    ensures UniqueUrls(Remove(repos, url))
  {
    if repos != [] {
      var tail := repos[1..];
      TailKeepsUnique(repos);
      RemoveKeepsUnique(tail, url);
      if repos[0].url != url {
        var rest := Remove(tail, url);
        assert !HasUrl(rest, repos[0].url) by {
          forall i | 0 <= i < |rest| ensures rest[i].url != repos[0].url {
            RemoveMembers(tail, url, rest[i]);
            var m :| 0 <= m < |tail| && tail[m] == rest[i];
            assert repos[m + 1] == rest[i];
          }
        }
        ConsKeepsUnique(repos[0], rest);
      }
    }
  }

  /** A delete undoes a successful add. */
  lemma RemoveUndoesAdd(repos: seq<Repository>, name: string, url: string, now: Timestamp)
    requires !HasUrl(repos, url)
    ensures Remove(Add(repos, name, url, now), url) == repos
  {
    RemoveConcat(repos, [NewRepository(name, url, now)], url);
    RemoveAbsentIsIdentity(repos, url);
    assert [NewRepository(name, url, now)][1..] == [];
  }

  // ---------------------------------------------------------------------
  // The stale snapshot

  /** Phase two rebuilds the list from the snapshot taken at phase one, so a
      record deleted between the phases is back afterwards. */
  lemma DeleteDuringSyncReappears(repos: seq<Repository>, url: string, now: Timestamp)
    requires HasUrl(repos, url)
    ensures !HasUrl(Remove(MarkPending(repos, url), url), url)
    ensures HasUrl(MarkSynced(repos, url, now), url)
  {
    SyncedKeepsUrls(repos, url, now, url);
  }

  /** For the same reason a record added between the phases is gone
      afterwards. */
  lemma AddDuringSyncLost(repos: seq<Repository>, url: string, name: string, v: string, now: Timestamp, later: Timestamp)
    requires !HasUrl(repos, v)
    ensures HasUrl(Add(MarkPending(repos, url), name, v, now), v)
    ensures !HasUrl(MarkSynced(repos, url, later), v)
  {
    SyncedKeepsUrls(repos, url, later, v);
  }

  /** Two overlapping syncs of different URLs `a` and `b`, with `a`'s timer
      firing first: `b`'s timer rebuilds the list from the snapshot taken
      after `a`'s phase one, so `a`'s entries end up `pending` for good. */
  lemma OverlappingSyncLeavesPending(repos: seq<Repository>, a: string, b: string, later: Timestamp)
    requires a != b
    ensures forall i :: 0 <= i < |repos| && repos[i].url == a ==>
              MarkSynced(MarkPending(repos, a), b, later)[i].status == Pending
  {
  }

  // ---------------------------------------------------------------------
  // The page's state

  /** The page's `repositories` state, replaced wholesale by each handler. */
  class Dashboard {
    var repositories: seq<Repository>

    ghost predicate Valid()
      reads this
    {
      UniqueUrls(repositories)
    }

    /** The list starts empty. */
    constructor ()
      ensures repositories == [] && Valid()
    {
      repositories := [];
    }

    /** The add handler: rejects a URL already in the list, otherwise appends
        the new `synced` record stamped `now`. */
    method AddRepository(name: string, url: string, now: Timestamp) returns (outcome: AddOutcome)
      modifies this
      ensures outcome == AlreadyExists <==> HasUrl(old(repositories), url)
      ensures outcome == AlreadyExists ==> repositories == old(repositories)
      ensures repositories == Add(old(repositories), name, url, now)
      ensures old(Valid()) ==> Valid()
    {
      if HasUrl(repositories, url) {
        return AlreadyExists;
      }
      repositories := Add(repositories, name, url, now);
      outcome := Added;
    }

    /** Phase one of the sync handler. It marks the matching entries
        `pending` and returns the list as it was before, which is what the
        timer's callback has captured. */
    method SyncStart(url: string) returns (snapshot: seq<Repository>)
      modifies this
      ensures snapshot == old(repositories)
      ensures repositories == MarkPending(old(repositories), url)
      ensures old(Valid()) ==> Valid()
    {
      snapshot := repositories;
      repositories := MarkPending(repositories, url);
      PendingKeepsUrls(snapshot, url, url);
    }

    /** Phase two, the timer's callback firing: the list becomes the captured
        snapshot with the matching entries `synced` at `now`, whatever the
        list has become in between. */
    method SyncFinish(snapshot: seq<Repository>, url: string, now: Timestamp)
      modifies this
      ensures repositories == MarkSynced(snapshot, url, now)
      ensures UniqueUrls(snapshot) ==> Valid()
    {
      repositories := MarkSynced(snapshot, url, now);
      SyncedKeepsUrls(snapshot, url, now, url);
    }

    /** The delete handler: drops every entry with this URL. */
    method Delete(url: string)
      modifies this
      ensures repositories == Remove(old(repositories), url)
      ensures old(Valid()) ==> Valid()
    {
      if Valid() {
        RemoveKeepsUnique(repositories, url);
      }
      repositories := Remove(repositories, url);
    }
  }

  /** A sync with nothing in between leaves the list as phase two wrote it
      from the snapshot, and syncing a URL that is not in the list leaves
      the list as it was. */
  method SyncUninterrupted(d: Dashboard, url: string, now: Timestamp)
    modifies d
    ensures d.repositories == MarkSynced(old(d.repositories), url, now)
    ensures !HasUrl(old(d.repositories), url) ==> d.repositories == old(d.repositories)
  {
    var snapshot := d.SyncStart(url);
    d.SyncFinish(snapshot, url, now);
    if !HasUrl(snapshot, url) {
      SyncAbsentIsIdentity(snapshot, url, now);
    }
  }

  /** A delete between the two phases is undone by phase two. */
  method DeleteDuringSync(d: Dashboard, url: string, now: Timestamp)
    requires HasUrl(d.repositories, url)
    modifies d
    ensures HasUrl(d.repositories, url)
  {
    var snapshot := d.SyncStart(url);
    d.Delete(url);
    assert !HasUrl(d.repositories, url);
    d.SyncFinish(snapshot, url, now);
    DeleteDuringSyncReappears(snapshot, url, now);
  }
}
