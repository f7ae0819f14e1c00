// The broker (pkg/channel/broker.go) as interleaved steps: callers of Read,
// Write and Stop, the Listen loop with its non-blocking inner sends, and the
// clients that receive from their channels.
module Broker {
  import opened Text
  import opened Positions

  const CAPACITY: nat := 5

  // A client's channel: what it buffers, and what the client has taken out.
  datatype Channel<T> = Channel(buffer: seq<T>, received: seq<T>)

  datatype State<T> = State(
    destinations: seq<nat>,                  // the one-slot channel Read posts to
    source: seq<T>,                          // the one-slot channel Write posts to
    channels: map<nat, Channel<T>>,
    listeners: set<nat>,
    sending: Option<(T, set<nat>)>,          // a dispatch under way: message, listeners to go
    stopped: bool,
    listening: bool,
    dispatched: seq<T>,                      // history of dispatches
    since: map<nat, nat>)                    // history: |dispatched| when a listener was added

  datatype Label<T> =
    | Read(ch: nat)        // a new channel, posted
    | Write(msg: T)
    | Stop
    | AddListener          // the three cases of the outer select
    | TakeMessage
    | Quit
    | Offer(ch: nat)       // the inner select, for one listener
    | EndDispatch
    | Receive(ch: nat)     // a client takes one message

  function Init<T>(): State<T> {
    State([], [], map[], {}, None, false, true, [], map[])
  }

  predicate Idle<T>(s: State<T>) {
    s.listening && s.sending.None?
  }

  // One step; None when the step is not enabled.
  function Next<T>(s: State<T>, l: Label<T>): Option<State<T>> {
    match l
    case Read(ch) =>
      if ch in s.channels || |s.destinations| >= 1 then None
      else Some(s.(destinations := s.destinations + [ch], channels := s.channels[ch := Channel([], [])]))
    case Write(msg) =>
      if |s.source| >= 1 then None else Some(s.(source := s.source + [msg]))
    case Stop =>
      if s.stopped then None else Some(s.(stopped := true))
    case AddListener =>
      if !Idle(s) || s.destinations == [] then None
      else Some(s.(destinations := s.destinations[1..], listeners := s.listeners + {s.destinations[0]},
                   since := s.since[s.destinations[0] := |s.dispatched|]))
    case TakeMessage =>
      if !Idle(s) || s.source == [] then None
      else Some(s.(source := s.source[1..], sending := Some((s.source[0], s.listeners)), dispatched := s.dispatched + [s.source[0]]))
    case Quit =>
      if !Idle(s) || !s.stopped then None else Some(s.(listening := false))
    case Offer(ch) =>
      if s.sending.None? || ch !in s.sending.value.1 || ch !in s.channels then None
      else
        var (msg, todo) := s.sending.value;
        var c := s.channels[ch];
        Some(s.(sending := Some((msg, todo - {ch})), channels := s.channels[ch := Offered(c, msg)]))
    case EndDispatch =>
      if s.sending.None? || s.sending.value.1 != {} then None else Some(s.(sending := None))
    case Receive(ch) =>
      if ch !in s.channels || s.channels[ch].buffer == [] then None
      else Some(s.(channels := s.channels[ch := Taken(s.channels[ch])]))
  }

  // A send that drops the message when the buffer is full.
  function Offered<T>(c: Channel<T>, msg: T): Channel<T> {
    if |c.buffer| < CAPACITY then c.(buffer := c.buffer + [msg]) else c
  }

  function Taken<T>(c: Channel<T>): Channel<T>
    requires c.buffer != []
  {
    Channel(c.buffer[1..], c.received + [c.buffer[0]])
  }

  // The dispatch loop of Listen when nothing comes between its sends: every
  // listener gets the message unless five are waiting for it already.
  method Dispatch<T>(listeners: set<nat>, channels: map<nat, Channel<T>>, msg: T) returns (after: map<nat, Channel<T>>)
    requires listeners <= channels.Keys
    ensures after.Keys == channels.Keys
    ensures forall ch :: ch in channels ==> after[ch].received == channels[ch].received
    ensures forall ch :: ch in channels ==>
      after[ch].buffer == channels[ch].buffer + if ch in listeners && |channels[ch].buffer| < 5 then [msg] else []
  {
    after := channels;
    var todo := listeners;
    while todo != {}
      invariant todo <= listeners && after.Keys == channels.Keys
      invariant forall ch :: ch in channels ==> after[ch].received == channels[ch].received
      invariant forall ch :: ch in channels ==>
        after[ch].buffer == channels[ch].buffer + if ch in listeners && ch !in todo && |channels[ch].buffer| < 5 then [msg] else []
      decreases todo
    {
      var ch :| ch in todo;
      todo := todo - {ch};
      if |after[ch].buffer| < CAPACITY {
        after := after[ch := after[ch].(buffer := after[ch].buffer + [msg])];
      }
    }
  }

  // The state after a run; None when some step was not enabled.
  function Exec<T>(labels: seq<Label<T>>): Option<State<T>> {
    if labels == [] then Some(Init())
    else
      match Exec(labels[..|labels| - 1])
      case None => None
      case Some(s) => Next(s, labels[|labels| - 1])
  }

  // ------------------------------------------------------- one client's view

  datatype Event<T> = Sent(msg: T) | Read1

  // What one client's channel takes part in: messages offered to it, and the
  // client's own reads.
  function View<T>(labels: seq<Label<T>>, ch: nat): seq<Event<T>> {
    if labels == [] then []
    else
      var before, l := labels[..|labels| - 1], labels[|labels| - 1];
      var s := Exec(before);
      View(before, ch) +
      if l == Offer(ch) && s.Some? && s.value.sending.Some? then [Sent(s.value.sending.value.0)]
      else if l == Receive(ch) then [Read1]
      else []
  }

  // A channel is a function of its own view and of nothing else.
  function Replay<T>(events: seq<Event<T>>): Channel<T> {
    if events == [] then Channel([], [])
    else
      var c := Replay(events[..|events| - 1]);
      match events[|events| - 1]
      case Sent(msg) => Offered(c, msg)
      case Read1 => if c.buffer == [] then c else Taken(c)
  }

  function Offers<T>(events: seq<Event<T>>): seq<T> {
    if events == [] then []
    else Offers(events[..|events| - 1]) + if events[|events| - 1].Sent? then [events[|events| - 1].msg] else []
  }

  function Drops<T>(events: seq<Event<T>>): nat {
    if events == [] then 0
    else
      Drops(events[..|events| - 1]) +
      if events[|events| - 1].Sent? && |Replay(events[..|events| - 1]).buffer| >= CAPACITY then 1 else 0
  }

  // Everything a client got or will get from its buffer, in order.
  function Got<T>(c: Channel<T>): seq<T> {
    c.received + c.buffer
  }

  // One more event for a channel.
  lemma GotStep<T>(events: seq<Event<T>>)
    requires events != []
    ensures var before, e := events[..|events| - 1], events[|events| - 1];
      && Offers(events) == Offers(before) + (if e.Sent? then [e.msg] else [])
      && Got(Replay(events)) == Got(Replay(before)) + (if e.Sent? && |Replay(before).buffer| < CAPACITY then [e.msg] else [])
  {
    var before, e := events[..|events| - 1], events[|events| - 1];
    var c := Replay(before);
    if e.Sent? {
      assert c.received + (c.buffer + [e.msg]) == Got(c) + [e.msg];
    } else if c.buffer != [] {
      assert c.received + [c.buffer[0]] + c.buffer[1..] == Got(c);
    }
  }

  lemma {:induction false} ReplayCounts<T>(events: seq<Event<T>>)
    ensures |Replay(events).buffer| <= CAPACITY
    ensures |Got(Replay(events))| + Drops(events) == |Offers(events)|
    ensures Drops(events) == 0 ==> Got(Replay(events)) == Offers(events)
  {
    if events != [] {
      ReplayCounts(events[..|events| - 1]);
      GotStep(events);
    }
  }

  lemma {:induction false} ReplayOrder<T>(events: seq<Event<T>>) returns (at: seq<nat>)
    ensures Selects(Got(Replay(events)), Offers(events), at)
  {
    at := [];
    if events != [] {
      var before, e := events[..|events| - 1], events[|events| - 1];
      at := ReplayOrder(before);
      GotStep(events);
      if e.Sent? {
        at := SelectNext(Got(Replay(before)), Offers(before), at, e.msg, |Replay(before).buffer| < CAPACITY);
      } else {
        assert Offers(before) + [] == Offers(before) && Got(Replay(before)) + [] == Got(Replay(before));
      }
    }
  }

  // ------------------------------------------------------- runs

  // The messages dispatched while ch was a listener and already decided for
  // it: all since its registration, but for the one it still waits for.
  function Due<T>(s: State<T>, ch: nat): seq<T> {
    if ch !in s.since || s.since[ch] > |s.dispatched| then []
    else
      var all := s.dispatched[s.since[ch]..];
      if s.sending.Some? && ch in s.sending.value.1 && all != [] then all[..|all| - 1] else all
  }

  ghost predicate Consistent<T>(s: State<T>) {
    && s.since.Keys == s.listeners
    && (forall ch :: ch in s.listeners ==> ch in s.channels && s.since[ch] <= |s.dispatched|)
    && (forall i :: 0 <= i < |s.destinations| ==> s.destinations[i] in s.channels && s.destinations[i] !in s.listeners)
    && |s.destinations| <= 1
    && (s.sending.Some? ==>
          && s.dispatched != [] && s.dispatched[|s.dispatched| - 1] == s.sending.value.0
          && s.sending.value.1 <= s.listeners
          && forall ch :: ch in s.listeners ==> s.since[ch] < |s.dispatched|)
  }

  // Channel, view and dispatch history of one client belong together.
  ghost predicate Tracks<T>(s: State<T>, ch: nat, events: seq<Event<T>>) {
    && Offers(events) == Due(s, ch)
    && (if ch in s.channels then s.channels[ch] == Replay(events) else events == [])
  }

  lemma ConsistentStep<T>(s: State<T>, l: Label<T>)
    requires Consistent(s) && Next(s, l).Some?
    ensures Consistent(Next(s, l).value)
  {
  }

  lemma ViewExtends<T>(events: seq<Event<T>>, e: Event<T>)
    ensures Offers(events + [e]) == Offers(events) + if e.Sent? then [e.msg] else []
    ensures Replay(events + [e]) == match e
      case Sent(msg) => Offered(Replay(events), msg)
      case Read1 => if Replay(events).buffer == [] then Replay(events) else Taken(Replay(events))
  {
    assert (events + [e])[..|events|] == events;
  }

  function EventOf<T>(s: State<T>, l: Label<T>, ch: nat): seq<Event<T>> {
    if l == Offer(ch) && s.sending.Some? then [Sent(s.sending.value.0)]
    else if l == Receive(ch) then [Read1]
    else []
  }

  lemma DueTake<T>(s: State<T>, ch: nat)
    requires Consistent(s) && Next(s, TakeMessage).Some?
    ensures Due(Next(s, TakeMessage).value, ch) == Due(s, ch)
  {
    if ch in s.since {
      var t, all := Next(s, TakeMessage).value, s.dispatched[s.since[ch]..];
      assert t.dispatched[s.since[ch]..] == all + [s.source[0]];
      assert (all + [s.source[0]])[..|all|] == all;
    }
  }

  lemma DueOffer<T>(s: State<T>, to: nat, ch: nat)
    requires Consistent(s) && Next(s, Offer(to)).Some?
    ensures Due(Next(s, Offer(to)).value, ch) == Due(s, ch) + if to == ch then [s.sending.value.0] else []
  {
    if ch in s.since {
      var all := s.dispatched[s.since[ch]..];
      assert all == all[..|all| - 1] + [s.sending.value.0];
    }
  }

  lemma DueStep<T>(s: State<T>, l: Label<T>, ch: nat)
    requires Consistent(s) && Next(s, l).Some?
    ensures Due(Next(s, l).value, ch) == Due(s, ch) + if l == Offer(ch) then [s.sending.value.0] else []
  {
    match l
    case TakeMessage => DueTake(s, ch);
    case Offer(to) => DueOffer(s, to, ch);
    case Read(_) =>
    case Write(_) =>
    case Stop =>
    case AddListener =>
    case Quit =>
    case EndDispatch =>
    case Receive(_) =>
  }

  function ChannelAfter<T>(s: State<T>, l: Label<T>, ch: nat): Channel<T>
    requires ch in s.channels && Next(s, l).Some?
  {
    if l == Offer(ch) then Offered(s.channels[ch], s.sending.value.0)
    else if l == Receive(ch) then Taken(s.channels[ch])
    else s.channels[ch]
  }

  // Only its own events change a channel.
  lemma ChannelStep<T>(s: State<T>, l: Label<T>, ch: nat)
    requires Next(s, l).Some?
    ensures ch in s.channels ==>
      ch in Next(s, l).value.channels && Next(s, l).value.channels[ch] == ChannelAfter(s, l, ch)
    ensures ch !in s.channels ==> EventOf(s, l, ch) == []
    ensures ch !in s.channels && ch in Next(s, l).value.channels ==> Next(s, l).value.channels[ch] == Channel([], [])
  {
  }

  lemma TracksStep<T>(s: State<T>, l: Label<T>, ch: nat, events: seq<Event<T>>)
    requires Consistent(s) && Tracks(s, ch, events) && Next(s, l).Some?
    ensures Tracks(Next(s, l).value, ch, events + EventOf(s, l, ch))
  {
    DueStep(s, l, ch);
    ChannelStep(s, l, ch);
    var e := EventOf(s, l, ch);
    if e == [] {
      assert events + e == events;
    } else {
      assert e == [e[0]];
      ViewExtends(events, e[0]);
    }
  }

  lemma {:induction false} RunsTrack<T>(labels: seq<Label<T>>, ch: nat)
    requires Exec(labels).Some?
    ensures Consistent(Exec(labels).value) && Tracks(Exec(labels).value, ch, View(labels, ch))
  {
    if labels != [] {
      var before, l := labels[..|labels| - 1], labels[|labels| - 1];
      var s := Exec(before).value;
      RunsTrack(before, ch);
      ConsistentStep(s, l);
      TracksStep(s, l, ch, View(before, ch));
      assert View(labels, ch) == View(before, ch) + EventOf(s, l, ch);
    }
  }

  // ------------------------------------------------------- in terms of labels

  // The channels posted by Read and the messages posted by Write, in order.
  function Posted<T>(labels: seq<Label<T>>): seq<nat> {
    if labels == [] then []
    else Posted(labels[..|labels| - 1]) + if labels[|labels| - 1].Read? then [labels[|labels| - 1].ch] else []
  }

  function Written<T>(labels: seq<Label<T>>): seq<T> {
    if labels == [] then []
    else Written(labels[..|labels| - 1]) + if labels[|labels| - 1].Write? then [labels[|labels| - 1].msg] else []
  }

  ghost function Takes<T>(labels: seq<Label<T>>): nat {
    multiset(labels)[TakeMessage]
  }

  ghost function Adds<T>(labels: seq<Label<T>>): nat {
    multiset(labels)[AddListener]
  }

  lemma CountNext<T>(labels: seq<Label<T>>, l: Label<T>)
    requires labels != []
    ensures multiset(labels)[l] == multiset(labels[..|labels| - 1])[l] + if labels[|labels| - 1] == l then 1 else 0
  {
    assert labels == labels[..|labels| - 1] + [labels[|labels| - 1]];
  }

  // Both one-slot channels are served first in, first out.
  ghost predicate Served<T>(labels: seq<Label<T>>, s: State<T>) {
    && Takes(labels) <= |Written(labels)|
    && s.dispatched == Written(labels)[..Takes(labels)] && s.source == Written(labels)[Takes(labels)..]
    && Adds(labels) <= |Posted(labels)| && s.destinations == Posted(labels)[Adds(labels)..]
  }

  lemma ServedNext<T>(labels: seq<Label<T>>, s: State<T>)
    requires labels != [] && Served(labels[..|labels| - 1], s) && Next(s, labels[|labels| - 1]).Some?
    ensures Served(labels, Next(s, labels[|labels| - 1]).value)
  {
    CountNext(labels, TakeMessage);
    CountNext(labels, AddListener);
    match labels[|labels| - 1]
    case TakeMessage =>
    case AddListener =>
    case Read(_) =>
    case Write(_) =>
    case Stop =>
    case Quit =>
    case Offer(_) =>
    case EndDispatch =>
    case Receive(_) =>
  }

  lemma {:induction false} RunsServe<T>(labels: seq<Label<T>>)
    requires Exec(labels).Some?
    ensures Served(labels, Exec(labels).value)
  {
    if labels == [] {
      ServedStart<T>();
    } else {
      RunsServe(labels[..|labels| - 1]);
      ServedNext(labels, Exec(labels[..|labels| - 1]).value);
    }
  }

  lemma ServedStart<T>()
    ensures Served<T>([], Init())
  {
  }

  // The k-th step makes ch a listener: ch is the channel at the front.
  ghost predicate AddedAt<T>(labels: seq<Label<T>>, k: nat, ch: nat) {
    && k < |labels| && labels[k] == AddListener
    && Adds(labels[..k]) < |Posted(labels[..k])| && Posted(labels[..k])[Adds(labels[..k])] == ch
  }

  // A message has been taken since, and has not been offered to ch yet.
  ghost predicate Waiting<T>(labels: seq<Label<T>>, k: nat, ch: nat) {
    exists q :: k < q < |labels| && labels[q] == TakeMessage && forall r :: q < r < |labels| ==> labels[r] != Offer(ch)
  }

  // What ch is owed after it was added: the messages taken since, less one
  // still to be offered.
  ghost function Owed<T>(labels: seq<Label<T>>, k: nat, ch: nat): seq<T>
    requires k <= |labels|
  {
    var from, to := Takes(labels[..k]), Takes(labels) - if Waiting(labels, k, ch) then 1 else 0;
    if from <= to <= |Written(labels)| then Written(labels)[from..to] else []
  }

  // What becomes of a listener: it stays one, its history starts at its
  // registration, and it waits for the message being dispatched.
  ghost predicate Joined<T>(labels: seq<Label<T>>, k: nat, ch: nat, s: State<T>)
    requires k <= |labels|
  {
    && ch in s.listeners && ch in s.since && s.since[ch] == Takes(labels[..k])
    && (Waiting(labels, k, ch) <==> s.sending.Some? && ch in s.sending.value.1)
  }

  lemma WaitingNext<T>(labels: seq<Label<T>>, k: nat, ch: nat)
    requires k < |labels| - 1
    ensures var before, l := labels[..|labels| - 1], labels[|labels| - 1];
      Waiting(labels, k, ch) <==> l == TakeMessage || (Waiting(before, k, ch) && l != Offer(ch))
  {
    var before, l := labels[..|labels| - 1], labels[|labels| - 1];
    assert forall r :: 0 <= r < |before| ==> before[r] == labels[r];
    if Waiting(before, k, ch) && l != Offer(ch) {
      var q :| k < q < |before| && before[q] == TakeMessage && forall r :: q < r < |before| ==> before[r] != Offer(ch);
      assert labels[q] == TakeMessage;
    }
    if l == TakeMessage { assert labels[|before|] == TakeMessage; }
  }

  lemma JoinedNow<T>(labels: seq<Label<T>>, ch: nat, s: State<T>)
    requires labels != [] && Served(labels[..|labels| - 1], s) && Consistent(s)
    requires AddedAt(labels, |labels| - 1, ch) && Next(s, AddListener).Some?
    ensures Joined(labels, |labels| - 1, ch, Next(s, AddListener).value)
  {
  }

  lemma JoinedNext<T>(labels: seq<Label<T>>, k: nat, ch: nat, s: State<T>)
    requires k < |labels| - 1 && Joined(labels[..|labels| - 1], k, ch, s) && Consistent(s)
    requires Next(s, labels[|labels| - 1]).Some?
    ensures Joined(labels, k, ch, Next(s, labels[|labels| - 1]).value)
  {
    WaitingNext(labels, k, ch);
    assert labels[..|labels| - 1][..k] == labels[..k];
    match labels[|labels| - 1]
    case TakeMessage =>
    case AddListener =>
    case Read(_) =>
    case Write(_) =>
    case Stop =>
    case Quit =>
    case Offer(_) =>
    case EndDispatch =>
    case Receive(_) =>
  }

  lemma {:induction false} StaysJoined<T>(labels: seq<Label<T>>, k: nat, ch: nat)
    requires Exec(labels).Some? && AddedAt(labels, k, ch)
    ensures Joined(labels, k, ch, Exec(labels).value)
  {
    var before := labels[..|labels| - 1];
    RunsTrack(before, ch);
    if k == |labels| - 1 {
      RunsServe(before);
      JoinedNow(labels, ch, Exec(before).value);
    } else {
      AddedInPrefix(labels, k, ch, |labels| - 1);
      StaysJoined(before, k, ch);
      JoinedNext(labels, k, ch, Exec(before).value);
    }
  }

  // The broker's promise, from the labels alone: what is offered to ch is
  // exactly what it is owed.
  lemma {:induction false} OffersAreOwed<T>(labels: seq<Label<T>>, k: nat, ch: nat)
    requires Exec(labels).Some? && AddedAt(labels, k, ch)
    ensures Offers(View(labels, ch)) == Owed(labels, k, ch)
  {
    RunsTrack(labels, ch);
    RunsServe(labels);
    StaysJoined(labels, k, ch);
  }

  lemma {:induction false} NotListening<T>(labels: seq<Label<T>>, ch: nat)
    requires Exec(labels).Some? && !exists k :: AddedAt(labels, k, ch)
    ensures ch !in Exec(labels).value.listeners
  {
    if labels != [] {
      var before, n := labels[..|labels| - 1], |labels| - 1;
      forall k: nat | AddedAt(before, k, ch) ensures AddedAt(labels, k, ch) {
        assert before[..k] == labels[..k];
      }
      NotListening(before, ch);
      RunsServe(before);
      assert labels[..n] == before;
      assert !AddedAt(labels, n, ch);
      NotThisTime(before, Exec(before).value, labels[n], ch);
    }
  }

  // Before it is added a channel is offered nothing.
  lemma {:induction false} NeverAdded<T>(labels: seq<Label<T>>, ch: nat)
    requires Exec(labels).Some? && !exists k :: AddedAt(labels, k, ch)
    ensures Offers(View(labels, ch)) == []
  {
    NotListening(labels, ch);
    RunsTrack(labels, ch);
  }

  lemma NotThisTime<T>(before: seq<Label<T>>, s: State<T>, l: Label<T>, ch: nat)
    requires Served(before, s) && Next(s, l).Some? && ch !in s.listeners
    requires !(l == AddListener && Adds(before) < |Posted(before)| && Posted(before)[Adds(before)] == ch)
    ensures ch !in Next(s, l).value.listeners
  {
  }

  // Every later dispatch goes to ch.
  lemma {:induction false} DispatchedTo<T>(labels: seq<Label<T>>, k: nat, ch: nat)
    requires Exec(labels).Some? && AddedAt(labels, k, ch)
    requires k < |labels| - 1 && labels[|labels| - 1] == TakeMessage
    ensures Exec(labels).value.sending.Some? && ch in Exec(labels).value.sending.value.1
  {
    StaysJoined(labels, k, ch);
    assert Waiting(labels, k, ch);
  }

  lemma AddedInPrefix<T>(labels: seq<Label<T>>, k: nat, ch: nat, q: nat)
    requires AddedAt(labels, k, ch) && k < q <= |labels|
    ensures AddedAt(labels[..q], k, ch)
  {
    assert labels[..q][..k] == labels[..k];
  }

  // What a client has got is never taken back: it only grows.
  lemma {:induction false} GotGrows<T>(labels: seq<Label<T>>, n: nat, ch: nat)
    requires Exec(labels).Some? && n <= |labels| && Exec(labels[..n]).Some? && ch in Exec(labels[..n]).value.channels
    ensures ch in Exec(labels).value.channels
    ensures Got(Exec(labels[..n]).value.channels[ch]) <= Got(Exec(labels).value.channels[ch])
    decreases |labels|
  {
    if n < |labels| {
      var before, l := labels[..|labels| - 1], labels[|labels| - 1];
      assert before[..n] == labels[..n];
      GotGrows(before, n, ch);
      GotKept(Exec(before).value, l, ch);
    } else {
      assert labels[..n] == labels;
    }
  }

  lemma GotKept<T>(s: State<T>, l: Label<T>, ch: nat)
    requires Next(s, l).Some? && ch in s.channels
    ensures ch in Next(s, l).value.channels && Got(s.channels[ch]) <= Got(Next(s, l).value.channels[ch])
  {
    ChannelStep(s, l, ch);
    TakenGot(s.channels[ch]);
  }

  lemma TakenGot<T>(c: Channel<T>)
    ensures c.buffer != [] ==> Got(Taken(c)) == Got(c)
    ensures forall msg :: Got(c) <= Got(Offered(c, msg))
  {
    if c.buffer != [] {
      assert c.received + [c.buffer[0]] + c.buffer[1..] == Got(c);
    }
    forall msg ensures Got(c) <= Got(Offered(c, msg)) {
      assert c.received + (c.buffer + [msg]) == Got(c) + [msg];
    }
  }

  // More than five messages are ahead of the client at some moment.
  ghost predicate FallsBehind<T>(labels: seq<Label<T>>, ch: nat) {
    exists n :: 0 <= n <= |labels| && multiset(labels[..n])[Offer(ch)] > multiset(labels[..n])[Receive(ch)] + 5
  }

  lemma FallsBehindNext<T>(labels: seq<Label<T>>, ch: nat)
    requires labels != []
    ensures FallsBehind(labels, ch) <==>
      FallsBehind(labels[..|labels| - 1], ch) || multiset(labels)[Offer(ch)] > multiset(labels)[Receive(ch)] + 5
  {
    var before := labels[..|labels| - 1];
    assert forall n :: 0 <= n <= |before| ==> before[..n] == labels[..n];
    assert labels[..|labels|] == labels;
  }

  // The bookkeeping of one channel, and when a message is dropped.
  ghost predicate Counted<T>(labels: seq<Label<T>>, ch: nat, s: State<T>) {
    var offers, taken := multiset(labels)[Offer(ch)], multiset(labels)[Receive(ch)];
    && |Offers(View(labels, ch))| == offers
    && (if ch in s.channels then |s.channels[ch].received| == taken else offers == taken == 0)
    && (Drops(View(labels, ch)) == 0 <==> !FallsBehind(labels, ch))
  }

  lemma {:induction false} RunsCount<T>(labels: seq<Label<T>>, ch: nat)
    requires Exec(labels).Some?
    ensures Counted(labels, ch, Exec(labels).value)
  {
    if labels != [] {
      var before := labels[..|labels| - 1];
      RunsCount(before, ch);
      RunsTrack(before, ch);
      CountedNext(labels, ch, Exec(before).value);
    }
  }

  lemma CountedNext<T>(labels: seq<Label<T>>, ch: nat, s: State<T>)
    requires labels != [] && Exec(labels[..|labels| - 1]) == Some(s) && Exec(labels).Some?
    requires Counted(labels[..|labels| - 1], ch, s) && Tracks(s, ch, View(labels[..|labels| - 1], ch))
    ensures Counted(labels, ch, Exec(labels).value)
  {
    var before, l := labels[..|labels| - 1], labels[|labels| - 1];
    CountNext(labels, Offer(ch));
    CountNext(labels, Receive(ch));
    FallsBehindNext(labels, ch);
    ChannelStep(s, l, ch);
    OwnSteps(s, l, ch);
    assert View(labels, ch) == View(before, ch) + EventOf(s, l, ch);
    CountEvent(View(before, ch), EventOf(s, l, ch));
    if ch in s.channels {
      ReplayCounts(View(before, ch));
    }
  }

  // Offers to ch and reads of ch need the channel.
  lemma OwnSteps<T>(s: State<T>, l: Label<T>, ch: nat)
    requires Next(s, l).Some?
    ensures l == Offer(ch) ==> ch in s.channels && s.sending.Some?
    ensures l == Receive(ch) ==> ch in s.channels && s.channels[ch].buffer != []
  {
  }

  lemma CountEvent<T>(events: seq<Event<T>>, e: seq<Event<T>>)
    requires |e| <= 1
    ensures |Offers(events + e)| == |Offers(events)| + if e != [] && e[0].Sent? then 1 else 0
    ensures Drops(events + e) == Drops(events) + if e != [] && e[0].Sent? && |Replay(events).buffer| >= 5 then 1 else 0
  {
    if e == [] {
      assert events + e == events;
    } else {
      assert e == [e[0]];
      assert (events + [e[0]])[..|events|] == events;
    }
  }

  // Isolation: over every run, what a client has received plus what its
  // buffer holds are messages it is owed, at increasing positions - all of
  // them if and only if it never falls more than five messages behind, which
  // its own offers and reads decide; and it buffers at most five.
  lemma {:induction false} Isolation<T>(labels: seq<Label<T>>, k: nat, ch: nat) returns (at: seq<nat>)
    requires Exec(labels).Some? && AddedAt(labels, k, ch)
    ensures ch in Exec(labels).value.channels
    ensures var c := Exec(labels).value.channels[ch];
      && |c.buffer| <= 5
      && Selects(Got(c), Owed(labels, k, ch), at)
      && (Got(c) == Owed(labels, k, ch) <==> !FallsBehind(labels, ch))
  {
    RunsTrack(labels, ch);
    StaysJoined(labels, k, ch);
    OffersAreOwed(labels, k, ch);
    RunsCount(labels, ch);
    ReplayCounts(View(labels, ch));
    at := ReplayOrder(View(labels, ch));
  }

  // ... determined by the messages offered to it and its own reads alone: two
  // runs in which a client sees the same leave it with the same channel,
  // whatever the other clients do.
  lemma {:induction false} ViewDetermines<T>(run1: seq<Label<T>>, run2: seq<Label<T>>, ch: nat)
    requires Exec(run1).Some? && Exec(run2).Some? && View(run1, ch) == View(run2, ch)
    requires ch in Exec(run1).value.channels && ch in Exec(run2).value.channels
    ensures Exec(run1).value.channels[ch] == Exec(run2).value.channels[ch]
    ensures Due(Exec(run1).value, ch) == Due(Exec(run2).value, ch)
  {
    RunsTrack(run1, ch);
    RunsTrack(run2, ch);
  }

  // ------------------------------------------------------- slots and the end

  // How far callers of Read and Write, and the end, are ahead of the loop.
  ghost predicate Bounded<T>(labels: seq<Label<T>>, s: State<T>) {
    && |s.destinations| <= 1 && |s.source| <= 1
    && (s.stopped <==> Stop in labels)
    && (s.listening <==> Quit !in labels)
  }

  lemma BoundedNext<T>(labels: seq<Label<T>>, s: State<T>, l: Label<T>)
    requires Bounded(labels, s) && Next(s, l).Some?
    ensures Bounded(labels + [l], Next(s, l).value)
    ensures l == Quit || l == AddListener || l == TakeMessage ==> Quit !in labels
    ensures l == Quit ==> Stop in labels
  {
    assert forall x :: x in labels + [l] <==> x in labels || x == l;
  }

  lemma {:induction false} RunsBounded<T>(labels: seq<Label<T>>)
    requires Exec(labels).Some?
    ensures Bounded(labels, Exec(labels).value)
  {
    if labels != [] {
      var before, l := labels[..|labels| - 1], labels[|labels| - 1];
      RunsBounded(before);
      BoundedNext(before, Exec(before).value, l);
      assert before + [l] == labels;
    }
  }

  // A caller of Write, or Read, is at most one message, or channel, ahead of
  // the loop; the loop ends only after a Stop, and for good.
  lemma SlotsAndEnd<T>(labels: seq<Label<T>>)
    requires Exec(labels).Some?
    ensures |Written(labels)| <= Takes(labels) + 1 && |Posted(labels)| <= Adds(labels) + 1
    ensures labels != [] && labels[|labels| - 1] == Quit ==> Stop in labels[..|labels| - 1]
    ensures labels != [] && (labels[|labels| - 1] == TakeMessage || labels[|labels| - 1] == AddListener) ==>
      Quit !in labels[..|labels| - 1]
  {
    RunsServe(labels);
    RunsBounded(labels);
    if labels != [] {
      var before := labels[..|labels| - 1];
      RunsBounded(before);
      BoundedNext(before, Exec(before).value, labels[|labels| - 1]);
    }
  }

  // ------------------------------------------------------- a run

  lemma ExecNext<T>(labels: seq<Label<T>>, l: Label<T>)
    ensures Exec(labels + [l]) == match Exec(labels) case None => None case Some(s) => Next(s, l)
  {
    assert (labels + [l])[..|labels|] == labels;
  }

  // The first message after a registration arrives.
  lemma FirstMessage<T>(ch: nat, msg: T) returns (labels: seq<Label<T>>)
    ensures labels == [Read(ch), AddListener, Write(msg), TakeMessage, Offer(ch), EndDispatch, Receive(ch)]
    ensures Exec(labels).Some? && ch in Exec(labels).value.channels && Exec(labels).value.channels[ch] == Channel([], [msg])
  {
    labels := [];
    ExecNext(labels, Read(ch));
    ExecNext(labels + [Read(ch)], AddListener);
    labels := labels + [Read(ch)] + [AddListener];
    ExecNext(labels, Write(msg));
    ExecNext(labels + [Write(msg)], TakeMessage);
    labels := labels + [Write(msg)] + [TakeMessage];
    ExecNext(labels, Offer(ch));
    ExecNext(labels + [Offer(ch)], EndDispatch);
    labels := labels + [Offer(ch)] + [EndDispatch];
    ExecNext(labels, Receive(ch));
    labels := labels + [Receive(ch)];
  }
}
