/**
 The per-user table that `GoogleNotifier.get_usersdb` builds from the
 `password_edit` audit events: for each actor email, the time of its most
 recent password change. Timestamps are the parsed event times, counted in
 microseconds. The functions here describe the table after the first `n`
 turns of the loop; `n == |events|` is the table the loop returns.
 */
module UserDb {

  /** One audit event: the actor's email and the time of the password change. */
  datatype Event = Event(user: string, ts: int)

  function Max(a: int, b: int): int {
    if a < b then b else a
  }

  /** The emails of the actors of the first `n` events. */
  ghost function Actors(events: seq<Event>, n: nat): set<string>
    requires n <= |events|
  {
    set i | 0 <= i < n :: events[i].user
  }

  /** `t` is the time of one of `u`'s first `n` events and none of them is later. */
  ghost predicate IsLatest(events: seq<Event>, n: nat, u: string, t: int)
    requires n <= |events|
  {
    && (exists i :: 0 <= i < n && events[i] == Event(u, t))
    && forall i :: 0 <= i < n && events[i].user == u ==> events[i].ts <= t
  }

  /**
   One turn of the merge loop: an event strictly older than the stored
   time of its actor is skipped; any other event, including one with the
   same time, is stored.
   */
  function Step(db: map<string, int>, e: Event): (r: map<string, int>)
    ensures r.Keys == db.Keys + {e.user}
    ensures e.user in db ==> r[e.user] == Max(db[e.user], e.ts)
    ensures e.user !in db ==> r[e.user] == e.ts
    ensures forall u :: u in db ==> db[u] <= r[u]
    ensures forall u :: u in db && u != e.user ==> r[u] == db[u]
  {
    if e.user in db && e.ts < db[e.user] then db else db[e.user := e.ts]
  }

  /**
   The table after the loop has consumed the first `n` events, starting
   from the empty table: empty before any event, and afterwards always
   holding the actor of the event just consumed, at that event's time or later.
   */
  function Merge(events: seq<Event>, n: nat): (db: map<string, int>)
    requires n <= |events|
    ensures n == 0 ==> db == map[]
    ensures 0 < n ==> events[n - 1].user in db && events[n - 1].ts <= db[events[n - 1].user]
    decreases n
  {
    if n == 0 then map[] else Step(Merge(events, n - 1), events[n - 1])
  }

  /** The table holds exactly the actors of the events consumed so far. */
  lemma {:induction false} MergeKeys(events: seq<Event>, n: nat)
    requires n <= |events|
    ensures Merge(events, n).Keys == Actors(events, n)
    decreases n
  {
    if n > 0 {
      MergeKeys(events, n - 1);
      assert Actors(events, n) == Actors(events, n - 1) + {events[n - 1].user};
    }
  }

  /**
   The order in which the table's keys were first inserted (a Python
   dictionary iterates in that order): a new actor is appended, an actor
   already present keeps its place.
   */
  function FirstSeen(events: seq<Event>, n: nat): (order: seq<string>)
    requires n <= |events|
    ensures forall i, j :: 0 <= i < j < |order| ==> order[i] != order[j]
    ensures forall u :: u in order <==> u in Actors(events, n)
    decreases n
  {
    if n == 0 then []
    else
      var o := FirstSeen(events, n - 1);
      var u := events[n - 1].user;
      assert Actors(events, n) == Actors(events, n - 1) + {u};
      if u in o then o else o + [u]
  }

  /** `db` and `o` are the table and its insertion order after the first `n` turns. */
  ghost predicate Built(events: seq<Event>, n: nat, db: map<string, int>, o: seq<string>)
    requires n <= |events|
  {
    db == Merge(events, n) && o == FirstSeen(events, n)
  }

  /** A turn that skips an event older than the stored time changes neither the table nor its order. */
  lemma MergeSkip(events: seq<Event>, i: nat, db: map<string, int>, o: seq<string>)
    requires i < |events| && Built(events, i, db, o)
    requires events[i].user in db && events[i].ts < db[events[i].user]
    ensures Built(events, i + 1, db, o)
  {
    MergeKeys(events, i);
  }

  /**
   A turn that stores an event sets its actor's time and, for a new actor,
   appends the actor to the order.
   */
  lemma MergeStore(events: seq<Event>, i: nat, db: map<string, int>, o: seq<string>)
    requires i < |events| && Built(events, i, db, o)
    requires !(events[i].user in db && events[i].ts < db[events[i].user])
    ensures Built(events, i + 1, db[events[i].user := events[i].ts],
                  if events[i].user in db then o else o + [events[i].user])
  {
    MergeKeys(events, i);
  }

  /** The insertion order lists exactly the keys of the table, each once. */
  lemma OrderMatchesKeys(events: seq<Event>, n: nat)
    requires n <= |events|
    ensures var o := FirstSeen(events, n);
            && (forall i, j :: 0 <= i < j < |o| ==> o[i] != o[j])
            && (forall u :: u in o <==> u in Merge(events, n))
  {
    MergeKeys(events, n);
  }

  /** A latest time stays latest past an event of another user or an older one. */
  lemma LatestExtend(events: seq<Event>, n: nat, u: string, t: int)
    requires 0 < n <= |events|
    requires IsLatest(events, n - 1, u, t)
    requires events[n - 1].user != u || events[n - 1].ts <= t
    ensures IsLatest(events, n, u, t)
  {
  }

  /** The last event's time is latest when no earlier event of its actor is later. */
  lemma LatestAtLast(events: seq<Event>, n: nat)
    requires 0 < n <= |events|
    requires forall i :: 0 <= i < n - 1 && events[i].user == events[n - 1].user ==> events[i].ts <= events[n - 1].ts
    ensures IsLatest(events, n, events[n - 1].user, events[n - 1].ts)
  {
    assert events[n - 1] == Event(events[n - 1].user, events[n - 1].ts);
  }

  /** A user absent from the first `n` events has none of them. */
  lemma NotActor(events: seq<Event>, n: nat, u: string)
    requires n <= |events|
    requires u !in Actors(events, n)
    ensures forall i :: 0 <= i < n ==> events[i].user != u
  {
    forall i | 0 <= i < n ensures events[i].user != u {
      assert events[i].user in Actors(events, n);
    }
  }

  /** Each stored time is the latest time among that user's events. */
  lemma {:induction false} MergeLatest(events: seq<Event>, n: nat, u: string)
    requires n <= |events|
    requires u in Merge(events, n)
    ensures IsLatest(events, n, u, Merge(events, n)[u])
    decreases n
  {
    var db := Merge(events, n - 1);
    var last := events[n - 1];
    if u == last.user && !(u in db && last.ts < db[u]) {
      if u in db {
        MergeLatest(events, n - 1, u);
      } else {
        MergeKeys(events, n - 1);
        NotActor(events, n - 1, u);
      }
      LatestAtLast(events, n);
    } else {
      MergeLatest(events, n - 1, u);
      LatestExtend(events, n, u, db[u]);
    }
  }

  /** Sequences with the same elements have the same actors. */
  lemma SameElementsSameActors(a: seq<Event>, b: seq<Event>)
    requires forall e :: e in a <==> e in b
    ensures Actors(a, |a|) == Actors(b, |b|)
  {
    forall u ensures u in Actors(a, |a|) ==> u in Actors(b, |b|) {
      if u in Actors(a, |a|) {
        var i :| 0 <= i < |a| && a[i].user == u;
        assert a[i] in b;
      }
    }
    forall u ensures u in Actors(b, |b|) ==> u in Actors(a, |a|) {
      if u in Actors(b, |b|) {
        var j :| 0 <= j < |b| && b[j].user == u;
        assert b[j] in a;
      }
    }
  }

  /** Sequences with the same elements have the same latest time for a user. */
  lemma LatestUniqueAcross(a: seq<Event>, b: seq<Event>, u: string, ta: int, tb: int)
    requires forall e :: e in a <==> e in b
    requires IsLatest(a, |a|, u, ta) && IsLatest(b, |b|, u, tb)
    ensures ta == tb
  {
    var i :| 0 <= i < |a| && a[i] == Event(u, ta);
    assert a[i] in b;
    var j :| 0 <= j < |b| && b[j] == Event(u, tb);
    assert b[j] in a;
  }

  /** Sequences with the same elements store the same time for a user. */
  lemma SameElementsSameLatest(a: seq<Event>, b: seq<Event>, u: string)
    requires forall e :: e in a <==> e in b
    requires u in Merge(a, |a|) && u in Merge(b, |b|)
    ensures Merge(a, |a|)[u] == Merge(b, |b|)[u]
  {
    MergeLatest(a, |a|, u);
    MergeLatest(b, |b|, u);
    LatestUniqueAcross(a, b, u, Merge(a, |a|)[u], Merge(b, |b|)[u]);
  }

  /** The table does not depend on the order in which the events arrive. */
  lemma MergeOrderIndependent(a: seq<Event>, b: seq<Event>)
    requires multiset(a) == multiset(b)
    ensures Merge(a, |a|) == Merge(b, |b|)
  {
    forall e ensures e in a <==> e in b {
      assert e in a <==> e in multiset(a);
      assert e in b <==> e in multiset(b);
    }
    MergeKeys(a, |a|);
    MergeKeys(b, |b|);
    SameElementsSameActors(a, b);
    forall u | u in Merge(a, |a|) ensures Merge(a, |a|)[u] == Merge(b, |b|)[u] {
      SameElementsSameLatest(a, b, u);
    }
  }

  /** While the loop runs, no user disappears from the table and no stored time decreases. */
  lemma {:induction false} MergePrefixMonotone(events: seq<Event>, i: nat, j: nat, u: string)
    requires i <= j <= |events|
    requires u in Merge(events, i)
    ensures u in Merge(events, j) && Merge(events, i)[u] <= Merge(events, j)[u]
    decreases j - i
  {
    if i < j {
      MergePrefixMonotone(events, i, j - 1, u);
    }
  }
}
