/**
 The order in which `notify` visits the users: a Python dictionary iterates
 over its keys in the order they were first inserted, so the users come in
 the order of their first event in the input.
 */
module InsertionOrder {
  import opened UserDb

  /** The index of `u`'s first event among the first `n`. */
  ghost function FirstIndex(events: seq<Event>, n: nat, u: string): (r: nat)
    requires n <= |events|
    requires u in Actors(events, n)
    ensures r < n && events[r].user == u
    ensures forall l :: 0 <= l < r ==> events[l].user != u
    decreases n
  {
    if u in Actors(events, n - 1) then FirstIndex(events, n - 1, u)
    else
      NotActor(events, n - 1, u);
      n - 1
  }

  /** `order` lists actors of the first `n` events by the position of their first event. */
  ghost predicate ByFirstEvent(events: seq<Event>, n: nat, order: seq<string>)
    requires n <= |events|
  {
    && (forall k :: 0 <= k < |order| ==> order[k] in Actors(events, n))
    && forall i, j :: 0 <= i < j < |order| ==> FirstIndex(events, n, order[i]) < FirstIndex(events, n, order[j])
  }

  /** Actors seen before the `n`-th event keep their first index once it is consumed. */
  lemma InitIndicesAgree(events: seq<Event>, n: nat)
    requires 0 < n <= |events|
    ensures var o := FirstSeen(events, n - 1);
            forall k :: 0 <= k < |o| ==>
              && o[k] in Actors(events, n - 1) && o[k] in Actors(events, n)
              && FirstIndex(events, n, o[k]) == FirstIndex(events, n - 1, o[k])
  {
    var o := FirstSeen(events, n - 1);
    assert Actors(events, n) == Actors(events, n - 1) + {events[n - 1].user};
    forall k | 0 <= k < |o|
      ensures o[k] in Actors(events, n - 1) && o[k] in Actors(events, n)
    {
      assert o[k] in o;
    }
  }

  /** An event of a new actor appends it after every actor seen before. */
  lemma StepNewActor(events: seq<Event>, n: nat)
    requires 0 < n <= |events|
    requires ByFirstEvent(events, n - 1, FirstSeen(events, n - 1))
    requires events[n - 1].user !in FirstSeen(events, n - 1)
    ensures ByFirstEvent(events, n, FirstSeen(events, n))
  {
    var o := FirstSeen(events, n - 1);
    var u := events[n - 1].user;
    InitIndicesAgree(events, n);
    assert FirstIndex(events, n, u) == n - 1;
    var order := FirstSeen(events, n);
    assert order == o + [u];
    forall i, j | 0 <= i < j < |order|
      ensures FirstIndex(events, n, order[i]) < FirstIndex(events, n, order[j])
    {
      if j == |o| {
        assert order[i] == o[i] && order[j] == u;
      } else {
        assert order[i] == o[i] && order[j] == o[j];
      }
    }
  }

  /** An event of an actor seen before leaves the order and the first indices as they were. */
  lemma StepSeenActor(events: seq<Event>, n: nat)
    requires 0 < n <= |events|
    requires ByFirstEvent(events, n - 1, FirstSeen(events, n - 1))
    requires events[n - 1].user in FirstSeen(events, n - 1)
    ensures ByFirstEvent(events, n, FirstSeen(events, n))
  {
    InitIndicesAgree(events, n);
  }

  /** The insertion order lists the actors by the position of their first event. */
  lemma {:induction false} FirstSeenOrder(events: seq<Event>, n: nat)
    requires n <= |events|
    ensures ByFirstEvent(events, n, FirstSeen(events, n))
    decreases n
  {
    if n > 0 {
      FirstSeenOrder(events, n - 1);
      if events[n - 1].user in FirstSeen(events, n - 1) {
        StepSeenActor(events, n);
      } else {
        StepNewActor(events, n);
      }
    }
  }
}
