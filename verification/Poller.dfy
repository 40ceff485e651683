/** Bootstrap lookups on a one-shot timer that must never be left unarmed. */
module Pollers {
  import opened AddressLists

  datatype AresStatus = Success | Destroyed | OtherStatus

  /** One answer that c-ares hands to the callback; no nodes also stands for no result. */
  datatype Answer = Answer(status: AresStatus, nodes: seq<Node>)

  datatype Timer = Stopped | Armed(after: real)

  const RETRY: real := 5.0         // after a failed lookup
  const MAX_WAIT: real := 5.0      // max_tv in get_timeout
  const MIN_WAIT: real := 0.1

  /** The libraries' part in one event: the answers given inside each call, and the next timeout. */
  datatype Event =
    | TimerFired(onProcess: seq<Answer>, onCancel: seq<Answer>, onStart: seq<Answer>, nextTimeout: real)
    | SocketReady(onProcess: seq<Answer>)

  ghost predicate NotDestroyed(answers: seq<Answer>) {
    forall i :: 0 <= i < |answers| ==> answers[i].status != Destroyed
  }

  /** c-ares reports its own destruction only when it is destroyed, and never waits past max_tv. */
  ghost predicate Lawful(e: Event) {
    && NotDestroyed(e.onProcess)
    && (e.TimerFired? ==> NotDestroyed(e.onCancel) && NotDestroyed(e.onStart) && 0.0 <= e.nextTimeout <= MAX_WAIT)
  }

  /** The list for the nodes of one lookup: the join of the longest fitting prefix, or none. */
  ghost function ListingOf(nodes: seq<Node>): Listing {
    var h := Handled(nodes);
    var k := Kept(h, LIST_SIZE - 1);
    if k == 0 then NoList else List(Join(h[..k]))
  }

  /** What the application is handed for these answers: a list for each that found something. */
  ghost function ListingsOf(answers: seq<Answer>): seq<Listing> {
    if answers == [] then []
    else
      var a := answers[|answers| - 1];
      ListingsOf(answers[..|answers| - 1]) + if a.status == Success && a.nodes != [] then [ListingOf(a.nodes)] else []
  }

  lemma ListingsNext(before: seq<Listing>, answers: seq<Answer>, i: nat)
    requires i < |answers|
    ensures var a := answers[i];
            before + ListingsOf(answers[..i + 1])
            == before + ListingsOf(answers[..i])
               + if a.status == Success && a.nodes != [] then [ListingOf(a.nodes)] else []
  {
    hide ListingOf;
    assert answers[..i + 1][..i] == answers[..i];
  }

  lemma {:induction false} ListingsConcat(a: seq<Answer>, b: seq<Answer>)
    ensures ListingsOf(a + b) == ListingsOf(a) + ListingsOf(b)
    decreases |b|
  {
    hide ListingOf;
    if b == [] {
      assert a + b == a;
    } else {
      ListingsConcat(a, b[..|b| - 1]);
      assert (a + b)[..|a + b| - 1] == a + b[..|b| - 1];
    }
  }

  /** How many answers are successful and have nodes. */
  ghost function Successes(answers: seq<Answer>): nat {
    if answers == [] then 0
    else
      var a := answers[0];
      (if a.status == Success && a.nodes != [] then 1 else 0) + Successes(answers[1..])
  }

  lemma {:induction false} CountListings(answers: seq<Answer>)
    ensures |ListingsOf(answers)| == Successes(answers)
  {
    if answers == [] {
    } else {
      CountListings(answers[1..]);
      ListingsConcat([answers[0]], answers[1..]);
      assert [answers[0]] + answers[1..] == answers;
      assert ListingsOf([answers[0]][..0]) == [];
    }
  }

  /** Each successful answer with nodes has its own list in the place that its number among them gives. */
  lemma ListedInOrder(answers: seq<Answer>, i: nat)
    requires i < |answers| && answers[i].status == Success && answers[i].nodes != []
    ensures var h, at := Handled(answers[i].nodes), Successes(answers[..i]);
            var k := Kept(h, LIST_SIZE - 1);
            && at < |ListingsOf(answers)|
            && ListingsOf(answers)[at] == if k == 0 then NoList else List(Join(h[..k]))
  {
    var a, b := answers[..i], answers[i + 1..];
    assert answers == a + ([answers[i]] + b);
    ListingsConcat(a, [answers[i]] + b);
    ListingsConcat([answers[i]], b);
    assert ListingsOf([answers[i]][..0]) == [];
    CountListings(a);
  }

  // ---- What a run of events amounts to ----

  /** A lookup is under way after these events, `at` saying whether one was before them. */
  ghost predicate UnderWay(events: seq<Event>, at: bool) {
    if events == [] then at
    else
      var was, e := UnderWay(events[..|events| - 1], at), events[|events| - 1];
      if e.SocketReady? || was then was && e.onProcess == [] else e.onStart == []
  }

  /** The lookups started: one for every firing of the timer that finds none under way. */
  ghost function Lookups(events: seq<Event>, at: bool): nat {
    if events == [] then 0
    else
      var init, e := events[..|events| - 1], events[|events| - 1];
      Lookups(init, at) + if e.TimerFired? && !UnderWay(init, at) then 1 else 0
  }

  /** The answers of one event, from the calls that it leads to. */
  ghost function Latest(e: Event, underWay: bool): seq<Answer> {
    if e.SocketReady? || underWay then e.onProcess else e.onCancel + e.onStart
  }

  /** The answers that c-ares gave inside the calls that were made, in order. */
  ghost function Processed(events: seq<Event>, at: bool): seq<Answer> {
    if events == [] then []
    else
      var init := events[..|events| - 1];
      Processed(init, at) + Latest(events[|events| - 1], UnderWay(init, at))
  }

  /** What the application has been handed once these events are over. */
  ghost function Handed(before: seq<Listing>, events: seq<Event>, at: bool): (listings: seq<Listing>)
    ensures |listings| == |before| + Successes(Processed(events, at))
  {
    CountListings(Processed(events, at));
    before + ListingsOf(Processed(events, at))
  }

  /** One more event of a run. */
  lemma RunNext(events: seq<Event>, i: nat, at: bool, before: seq<Listing>)
    requires i < |events|
    ensures var was, e := UnderWay(events[..i], at), events[i];
            && UnderWay(events[..i + 1], at)
               == (if e.SocketReady? || was then was && e.onProcess == [] else e.onStart == [])
            && Lookups(events[..i + 1], at) == Lookups(events[..i], at) + (if e.TimerFired? && !was then 1 else 0)
            && Handed(before, events[..i + 1], at) == Handed(before, events[..i], at) + ListingsOf(Latest(e, was))
  {
    hide ListingsOf, Latest;
    var was, e := UnderWay(events[..i], at), events[i];
    assert events[..i + 1][..i] == events[..i];
    ListingsConcat(Processed(events[..i], at), Latest(e, was));
    var x, y := ListingsOf(Processed(events[..i], at)), ListingsOf(Latest(e, was));
    assert before + (x + y) == before + x + y;
  }

  /** Some answer comes and the timer fires later. */
  ghost predicate FiresAfterAnswer(events: seq<Event>) {
    exists i, j :: 0 <= i < j < |events| && events[i].onProcess != [] && events[j].TimerFired?
  }

  /** While a lookup is under way another is started if and only if an answer comes before a later firing;
      an unanswered lookup stops all others. */
  lemma {:induction false} NextLookupNeedsAnswer(events: seq<Event>)
    ensures Lookups(events, true) > 0 <==> FiresAfterAnswer(events)
    ensures Lookups(events, true) == 0 ==>
              (UnderWay(events, true) <==> forall i :: 0 <= i < |events| ==> events[i].onProcess == [])
  {
    if events == [] {
    } else {
      var n := |events| - 1;
      var init := events[..n];
      NextLookupNeedsAnswer(init);
      assert forall i :: 0 <= i < n ==> init[i] == events[i];
      if FiresAfterAnswer(init) {
        var i, j :| 0 <= i < j < n && init[i].onProcess != [] && init[j].TimerFired?;
        assert events[i].onProcess != [] && events[j].TimerFired?;
      }
    }
  }

  /** A lookup that is never answered: nothing is started and nothing handed over. */
  lemma {:induction false} Unanswered(events: seq<Event>)
    requires forall i :: 0 <= i < |events| ==> events[i].onProcess == []
    ensures UnderWay(events, true) && Lookups(events, true) == 0 && Processed(events, true) == []
  {
    if events == [] {
    } else {
      Unanswered(events[..|events| - 1]);
    }
  }

  /** Firings whose lookups are answered at once each start one. */
  lemma {:induction false} AnsweredAtOnce(events: seq<Event>)
    requires forall i :: 0 <= i < |events| ==> events[i].TimerFired? && events[i].onStart != []
    ensures !UnderWay(events, false) && Lookups(events, false) == |events|
  {
    if events == [] {
    } else {
      AnsweredAtOnce(events[..|events| - 1]);
    }
  }

  class Poller {
    const pollingInterval: int
    var requestOngoing: bool
    var timer: Timer
    var queries: nat             // lookups started
    var listings: seq<Listing>   // handed to the application

    /** The longest the poller ever waits. */
    ghost function Longest(): real {
      if pollingInterval as real > RETRY then pollingInterval as real else RETRY
    }

    /** Not silent: the timer is armed, with a delay in bounds once it has been set by a callback. */
    ghost predicate Alive()
      reads this
    {
      && pollingInterval >= 1
      && timer.Armed?
      && (queries > 0 ==> MIN_WAIT <= timer.after <= Longest())
      && (queries == 0 ==> timer.after == 0.0 || MIN_WAIT <= timer.after <= Longest())
    }

    constructor (pollingInterval: int)
      requires pollingInterval >= 1
      ensures Alive() && timer == Armed(0.0) && !requestOngoing && queries == 0 && listings == []
    {
      this.pollingInterval := pollingInterval;
      requestOngoing, timer, queries, listings := false, Armed(0.0), 0, [];
    }

    /** How long to wait after this answer. */
    function Delay(a: Answer): real {
      if a.status == Success && a.nodes != [] then pollingInterval as real else RETRY
    }

    /** An answer has come. A successful one with nodes is listed for the application, the join of the longest
        prefix of its addresses that fits, and the next lookup is a polling interval away; after any other
        nothing is handed over and it is 5 seconds away. When c-ares is destroyed the timer is left alone. */
    method AresCb(a: Answer)
      modifies this
      ensures !requestOngoing && queries == old(queries)
      ensures var success, h := a.status == Success && a.nodes != [], Handled(a.nodes);
              var k := Kept(h, LIST_SIZE - 1);
              && timer == (if a.status == Destroyed then old(timer)
                           else if success then Armed(pollingInterval as real) else Armed(5.0))
              && listings == old(listings) + if !success then [] else if k == 0 then [NoList] else [List(Join(h[..k]))]
    {
      requestOngoing := false;
      var interval := RETRY;
      if a.status == Success && a.nodes != [] {
        interval := pollingInterval as real;
        var list := GetAddrListing(a.nodes);
        listings := listings + [list];
      }
      if a.status != Destroyed {
        timer := Armed(interval);
      }
    }

    /** The answers given inside one library call, in order. */
    method Answers(answers: seq<Answer>)
      requires pollingInterval >= 1
      modifies this
      ensures queries == old(queries) && listings == old(listings) + ListingsOf(answers)
      ensures requestOngoing == (old(requestOngoing) && answers == [])
      ensures answers == [] ==> timer == old(timer)
      ensures answers != [] && NotDestroyed(answers) ==> timer == Armed(Delay(answers[|answers| - 1]))
      ensures (forall i :: 0 <= i < |answers| ==> answers[i].status == Destroyed) ==> timer == old(timer)
    {
      hide Handled, Kept, Join;
      for i := 0 to |answers|
        invariant queries == old(queries) && listings == old(listings) + ListingsOf(answers[..i])
        invariant requestOngoing == (old(requestOngoing) && i == 0)
        invariant i == 0 ==> timer == old(timer)
        invariant i > 0 && NotDestroyed(answers) ==> timer == Armed(Delay(answers[i - 1]))
        invariant (forall j :: 0 <= j < |answers| ==> answers[j].status == Destroyed) ==> timer == old(timer)
      {
        ListingsNext(old(listings), answers, i);
        AresCb(answers[i]);
      }
      assert answers[..|answers|] == answers;
    }

    /** How long until c-ares wants to be called again, at least a tenth of a second. */
    static method GetTimeout(aresTimeout: real) returns (after: real)
      requires aresTimeout <= MAX_WAIT
      ensures 0.1 <= after <= 5.0 && aresTimeout <= after && (after == aresTimeout || after == 0.1)
    {
      after := if aresTimeout > MIN_WAIT then aresTimeout else MIN_WAIT;
    }

    /** The timer has fired, which disarms it. Whether c-ares answers inside a call, on cancelling, later
        or never, the timer is armed again; a lookup is started exactly when none was under way. */
    method TimerCb(e: Event)
      requires Alive() && e.TimerFired? && Lawful(e)
      modifies this
      ensures Alive()
      ensures queries == old(queries) + (if old(requestOngoing) then 0 else 1)
      ensures requestOngoing == (if old(requestOngoing) then e.onProcess == [] else e.onStart == [])
      ensures listings == old(listings) + if old(requestOngoing) then ListingsOf(e.onProcess)
                                          else ListingsOf(e.onCancel) + ListingsOf(e.onStart)
      ensures requestOngoing ==>
                timer == Armed(if e.nextTimeout > MIN_WAIT then e.nextTimeout else MIN_WAIT)
      ensures !requestOngoing ==>
                var answers := if old(requestOngoing) then e.onProcess else e.onStart;
                timer == Armed(Delay(answers[|answers| - 1]))
    {
      hide ListingsOf;
      timer := Stopped;
      if requestOngoing {
        Answers(e.onProcess);
      } else {
        Answers(e.onCancel);
        requestOngoing := true;
        queries := queries + 1;
        Answers(e.onStart);
      }
      if requestOngoing {  // might have changed
        var interval := GetTimeout(e.nextTimeout);
        timer := Armed(interval);
      }
    }

    /** A socket of c-ares is ready; the timer runs on unless an answer sets it anew. */
    method SockCb(e: Event)
      requires Alive() && e.SocketReady? && Lawful(e)
      modifies this
      ensures Alive() && queries == old(queries) && listings == old(listings) + ListingsOf(e.onProcess)
      ensures requestOngoing == (old(requestOngoing) && e.onProcess == [])
      ensures timer == if e.onProcess == [] then old(timer) else Armed(Delay(e.onProcess[|e.onProcess| - 1]))
    {
      Answers(e.onProcess);
    }

    /** One event, by its kind. */
    method Dispatch(e: Event)
      requires Alive() && Lawful(e)
      modifies this
      ensures Alive()
      ensures var was := old(requestOngoing);
              && requestOngoing == (if e.SocketReady? || was then was && e.onProcess == [] else e.onStart == [])
              && queries == old(queries) + (if e.TimerFired? && !was then 1 else 0)
              && listings == old(listings) + ListingsOf(Latest(e, was))
    {
      hide ListingsOf, Delay;
      if e.TimerFired? {
        ListingsConcat(e.onCancel, e.onStart);
        TimerCb(e);
      } else {
        SockCb(e);
      }
    }

    /** Polling never goes silent over any run of events, a lookup is started at exactly the firings that
        find none under way, and the application is handed one list for each successful answer with nodes. */
    method Run(events: seq<Event>)
      requires Alive() && forall i :: 0 <= i < |events| ==> Lawful(events[i])
      modifies this
      ensures Alive()
      ensures requestOngoing == UnderWay(events, old(requestOngoing))
      ensures queries == old(queries) + Lookups(events, old(requestOngoing))
      ensures listings == Handed(old(listings), events, old(requestOngoing))
      ensures |listings| == |old(listings)| + Successes(Processed(events, old(requestOngoing)))
    {
      ghost var at, before := requestOngoing, listings;
      assert UnderWay(events[..0], at) == at && Lookups(events[..0], at) == 0;
      assert Handed(before, events[..0], at) == before;
      hide Lawful, ListingsOf, Successes, Processed, UnderWay, Lookups, Latest, Handed;
      for i := 0 to |events|
        invariant Alive() && requestOngoing == UnderWay(events[..i], at)
        invariant queries == old(queries) + Lookups(events[..i], at)
        invariant listings == Handed(before, events[..i], at)
      {
        RunNext(events, i, at, before);
        Dispatch(events[i]);
      }
      assert events[..|events|] == events;
    }

    /** Destroying c-ares answers what is pending, without arming; then the timer is stopped. */
    method Cleanup(pending: seq<Answer>)
      requires pollingInterval >= 1
      modifies this
      ensures timer == Stopped && queries == old(queries) && listings == old(listings) + ListingsOf(pending)
    {
      Answers(pending);
      timer := Stopped;
    }
  }
}
