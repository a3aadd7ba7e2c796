/**
 The `GoogleNotifier` object: `GetUsersDb` rebuilds its user table from the
 audit events, and `Notify` walks the table in insertion order and decides,
 per user, which message `send_email` would be asked to deliver.
 */
module Notifier {
  import opened UserDb
  import opened Expiry

  /** One `send_email` call: the recipient, the kind of message and its day count. */
  datatype Message = Message(to: string, status: Status, days: int)

  /** No two messages go to the same recipient. */
  predicate DistinctRecipients(out: seq<Message>) {
    forall i, j :: 0 <= i < j < |out| ==> out[i].to != out[j].to
  }

  /** The messages a run sends for the users of `order`, in that order. */
  function Outbox(order: seq<string>, db: map<string, int>, now: int, threshold: int): (out: seq<Message>)
    requires forall u :: u in order ==> u in db
    ensures |out| <= |order|
    ensures forall m :: m in out ==>
              && m.to in order
              && m.status != Silent
              && Verdict(m.status, m.days) == Classify(now, db[m.to], threshold)
    decreases |order|
  {
    if order == [] then []
    else
      var u := order[|order| - 1];
      var v := Classify(now, db[u], threshold);
      Outbox(order[..|order| - 1], db, now, threshold)
        + (if v.status == Silent then [] else [Message(u, v.status, v.days)])
  }

  /**
   No user gets two messages in one run; in particular an expired user is
   never warned as well.
   */
  lemma {:induction false} OutboxOnePerUser(order: seq<string>, db: map<string, int>, now: int, threshold: int)
    requires forall u :: u in order ==> u in db
    requires forall i, j :: 0 <= i < j < |order| ==> order[i] != order[j]
    ensures DistinctRecipients(Outbox(order, db, now, threshold))
    decreases |order|
  {
    if order != [] {
      var init := order[..|order| - 1];
      var u := order[|order| - 1];
      assert order == init + [u];
      OutboxOnePerUser(init, db, now, threshold);
      var rest := Outbox(init, db, now, threshold);
      forall k | 0 <= k < |rest| ensures rest[k].to != u {
        assert rest[k] in rest;
        var w :| 0 <= w < |init| && init[w] == rest[k].to;
        assert order[w] != order[|order| - 1];
      }
      var out := Outbox(order, db, now, threshold);
      forall i, j | 0 <= i < j < |out| ensures out[i].to != out[j].to {
        if j >= |rest| {
          assert out[i] == rest[i] && out[j].to == u;
        } else {
          assert out[i] == rest[i] && out[j] == rest[j];
        }
      }
    }
  }

  /** A user of `order` gets a message exactly when the decision is not Silent, and then that decision's message. */
  lemma {:induction false} OutboxComplete(order: seq<string>, db: map<string, int>, now: int, threshold: int, u: string)
    requires forall x :: x in order ==> x in db
    requires u in order
    ensures var v := Classify(now, db[u], threshold);
            v.status != Silent <==> Message(u, v.status, v.days) in Outbox(order, db, now, threshold)
    decreases |order|
  {
    var init := order[..|order| - 1];
    var last := order[|order| - 1];
    assert order == init + [last];
    if u != last {
      OutboxComplete(init, db, now, threshold, u);
    } else if u in init {
      OutboxComplete(init, db, now, threshold, u);
    }
  }

  class GoogleNotifier {
    /** The configured warning threshold in days (`treshold`); never validated. */
    const threshold: int
    /** The actor emails and their latest password-change times. */
    var userDb: map<string, int>
    /** The keys of `userDb` in the order they were inserted. */
    var order: seq<string>

    ghost predicate Valid()
      reads this
    {
      && (forall i, j :: 0 <= i < j < |order| ==> order[i] != order[j])
      && (forall u :: u in order <==> u in userDb)
    }

    constructor (threshold: int)
      ensures Valid()
      ensures this.threshold == threshold && userDb == map[] && order == []
    {
      this.threshold := threshold;
      userDb := map[];
      order := [];
    }

    /**
     Starts from an empty table and merges the events in the order given,
     so nothing from an earlier call survives. Returns the table.
     */
    method GetUsersDb(events: seq<Event>) returns (db: map<string, int>)
      modifies this
      ensures Valid()
      ensures userDb == Merge(events, |events|) && order == FirstSeen(events, |events|)
      ensures db == userDb
    {
      userDb := map[];
      order := [];
      var i := 0;
      while i < |events|
        invariant 0 <= i <= |events|
        invariant Built(events, i, userDb, order)
      {
        var e := events[i];
        if e.user in userDb && e.ts < userDb[e.user] {
          MergeSkip(events, i, userDb, order);
          i := i + 1;
          continue;
        }
        MergeStore(events, i, userDb, order);
        if e.user !in userDb {
          order := order + [e.user];
        }
        userDb := userDb[e.user := e.ts];
        i := i + 1;
      }
      OrderMatchesKeys(events, |events|);
      db := userDb;
    }

    /**
     The messages of one run at clock reading `now`, in table order: one per
     user whose decision is EXPIRED or WARNING, and none for anyone else.
     */
    method Notify(now: int) returns (sent: seq<Message>)
      requires Valid()
      ensures sent == Outbox(order, userDb, now, threshold)
      ensures DistinctRecipients(sent)
      ensures forall u :: u in userDb ==>
                var v := Classify(now, userDb[u], threshold);
                v.status != Silent <==> Message(u, v.status, v.days) in sent
    {
      sent := [];
      var i := 0;
      while i < |order|
        invariant 0 <= i <= |order|
        invariant sent == Outbox(order[..i], userDb, now, threshold)
      {
        var email := order[i];
        assert order[..i + 1][..i] == order[..i];
        var v := Classify(now, userDb[email], threshold);
        if v.status == Expired {
          sent := sent + [Message(email, Expired, v.days)];
        } else if v.status == Warning {
          sent := sent + [Message(email, Warning, v.days)];
        }
        i := i + 1;
      }
      assert order[..i] == order;
      OutboxOnePerUser(order, userDb, now, threshold);
      forall u | u in userDb
        ensures var v := Classify(now, userDb[u], threshold);
                v.status != Silent <==> Message(u, v.status, v.days) in sent
      {
        OutboxComplete(order, userDb, now, threshold, u);
      }
    }
  }
}
