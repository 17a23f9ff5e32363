/** The WebSocket hub: registering, unregistering and broadcasting over bounded channels. A
    client is identified by a value of type C; in the class below that is the client object. */
module HubSpec {
  import opened Bytes

  type Message = seq<byte>

  const SEND_CAPACITY: nat := 256

  /** A client's channel: messages waiting, messages its writer has taken, and whether the hub has
      closed it. Go panics on a send to a closed channel and on closing it again. */
  datatype Channel = Channel(waiting: seq<Message>, taken: seq<Message>, closed: bool)

  /** Everything that was ever enqueued, in order. */
  function Enqueued(ch: Channel): seq<Message> {
    ch.taken + ch.waiting
  }

  const NEW_CHANNEL: Channel := Channel([], [], false)

  datatype Hub<C(==)> = Hub(clients: set<C>, channels: map<C, Channel>)

  /** One turn of the hub's select loop, or one message taken by a client's writer. */
  datatype Event<C> = Register(client: C) | Unregister(client: C) | Broadcast(message: Message) | Take(client: C)

  ghost predicate Valid<C>(h: Hub<C>) {
    h.clients <= h.channels.Keys
  }

  /** Send to a channel with room, otherwise close it. */
  function SendOrClose(ch: Channel, m: Message): Channel {
    if |ch.waiting| < SEND_CAPACITY then ch.(waiting := ch.waiting + [m]) else ch.(closed := true)
  }

  function Close(ch: Channel): Channel {
    ch.(closed := true)
  }

  function TakeOne(ch: Channel): Channel {
    if ch.waiting == [] then ch else ch.(waiting := ch.waiting[1..], taken := ch.taken + [ch.waiting[0]])
  }

  predicate IsFull(ch: Channel) {
    |ch.waiting| >= SEND_CAPACITY
  }

  /** The state after an event, or None if the hub panics. */
  function Step<C>(h: Hub<C>, e: Event<C>): Option<Hub<C>>
    requires Valid(h)
  {
    match e
    case Register(c) =>
      Some(Hub(h.clients + {c}, if c in h.channels then h.channels else h.channels[c := NEW_CHANNEL]))
    case Unregister(c) =>
      if c !in h.clients then Some(h)
      else if h.channels[c].closed then None
      else Some(Hub(h.clients - {c}, h.channels[c := Close(h.channels[c])]))
    case Broadcast(m) =>
      if exists c :: c in h.clients && h.channels[c].closed then None
      else Some(Hub(set c | c in h.clients && !IsFull(h.channels[c]),
                    map c | c in h.channels ::
                      if c in h.clients then SendOrClose(h.channels[c], m) else h.channels[c]))
    case Take(c) =>
      if c in h.channels then Some(h.(channels := h.channels[c := TakeOne(h.channels[c])])) else Some(h)
  }

  lemma StepIsValid<C>(h: Hub<C>, e: Event<C>)
    requires Valid(h)
    ensures Step(h, e).Some? ==> Valid(Step(h, e).value)
  {
  }

  /** A run, or None if it panics. */
  function Run<C>(h: Hub<C>, es: seq<Event<C>>): (r: Option<Hub<C>>)
    requires Valid(h)
    ensures r.Some? ==> Valid(r.value)
    decreases es
  {
    if es == [] then Some(h)
    else
      match Step(h, es[0])
      case None => None
      case Some(next) =>
        StepIsValid(h, es[0]);
        Run(next, es[1..])
  }

  function NewHub<C>(): (h: Hub<C>)
    ensures Valid(h)
  {
    Hub({}, map[])
  }

  function Broadcasts<C(==)>(es: seq<Event<C>>): seq<Message> {
    if es == [] then []
    else (if es[0].Broadcast? then [es[0].message] else []) + Broadcasts(es[1..])
  }

  // ---- Safety ----

  /** No registered client has a closed channel. */
  ghost predicate Open<C>(h: Hub<C>)
    requires Valid(h)
  {
    forall c :: c in h.clients ==> !h.channels[c].closed
  }

  /** EXACTLY WHEN A STEP PANICS: a broadcast if some registered channel is closed, an unregister
      if that client's is; nothing else does. */
  lemma StepPanics<C>(h: Hub<C>, e: Event<C>)
    requires Valid(h)
    ensures Step(h, e) == None <==>
      || (e.Broadcast? && !Open(h))
      || (e.Unregister? && e.client in h.clients && h.channels[e.client].closed)
  {
  }

  /** What a step must not do to keep the hub open: register a client whose channel is closed. */
  ghost predicate Reopens<C>(h: Hub<C>, e: Event<C>)
    requires Valid(h)
  {
    e.Register? && e.client in h.channels && h.channels[e.client].closed
  }

  /** EXACTLY WHEN THE HUB STAYS OPEN: an open hub never panics, and its step leaves it open
      if and only if the step does not register a client whose channel was closed. */
  lemma StepStaysOpen<C>(h: Hub<C>, e: Event<C>)
    requires Valid(h) && Open(h)
    ensures Step(h, e).Some? && Valid(Step(h, e).value)
    ensures Open(Step(h, e).value) <==> !Reopens(h, e)
  {
    StepPanics(h, e);
    StepIsValid(h, e);
    if Reopens(h, e) {
      var h' := Step(h, e).value;
      assert e.client in h'.clients && h'.channels[e.client].closed;
    }
  }

  /** Every client registers at most once, and none that `h` has seen already. */
  ghost predicate RegisterOnce<C>(h: Hub<C>, es: seq<Event<C>>) {
    && (forall i :: 0 <= i < |es| && es[i].Register? ==> es[i].client !in h.channels)
    && (forall i, j :: 0 <= i < j < |es| && es[i].Register? && es[j].Register? ==> es[i].client != es[j].client)
  }

  lemma RegisterOnceOn<C>(h: Hub<C>, es: seq<Event<C>>)
    requires Valid(h) && es != [] && RegisterOnce(h, es)
    ensures !Reopens(h, es[0])
    ensures Step(h, es[0]).Some? ==> RegisterOnce(Step(h, es[0]).value, es[1..])
  {
  }

  /** SAFETY: over any run in which each client registers at most once, the hub never panics:
      nothing is sent to a closed channel and no channel is closed twice. */
  lemma {:induction false} RunIsSafe<C>(h: Hub<C>, es: seq<Event<C>>)
    requires Valid(h) && Open(h) && RegisterOnce(h, es)
    ensures Run(h, es).Some? && Open(Run(h, es).value)
    decreases es
  {
    hide RegisterOnce, Open, Reopens, Step;
    if es == [] {
    } else {
      RegisterOnceOn(h, es);
      StepStaysOpen(h, es[0]);
      RunIsSafe(Step(h, es[0]).value, es[1..]);
    }
  }

  // ---- Exactly which runs panic ----

  lemma {:induction false} RunConcat<C>(h: Hub<C>, a: seq<Event<C>>, b: seq<Event<C>>)
    requires Valid(h)
    ensures Run(h, a + b) == if Run(h, a).None? then None else Run(Run(h, a).value, b)
    decreases a
  {
    hide Step;
    if a == [] {
      assert a + b == b;
    } else {
      assert (a + b)[1..] == a[1..] + b;
      if Step(h, a[0]).Some? {
        StepIsValid(h, a[0]);
        RunConcat(Step(h, a[0]).value, a[1..], b);
      }
    }
  }

  /** Event `i` registers client `c`, whose channel is closed by then. */
  ghost predicate ReopensAt<C>(h: Hub<C>, es: seq<Event<C>>, i: nat, c: C)
    requires Valid(h) && i < |es|
  {
    es[i] == Register(c) && Run(h, es[..i]).Some? && Reopens(Run(h, es[..i]).value, es[i])
  }

  /** Registered although its channel is closed. */
  ghost predicate IsStale<C>(h: Hub<C>, c: C)
    requires Valid(h)
  {
    c in h.clients && h.channels[c].closed
  }

  /** The events that touch the channel of `c`. */
  predicate Touches<C(==)>(e: Event<C>, c: C) {
    e.Broadcast? || e == Unregister(c)
  }

  lemma RunOneMore<C>(h: Hub<C>, es: seq<Event<C>>, n: nat)
    requires Valid(h) && n < |es|
    ensures Run(h, es[..n + 1]) == if Run(h, es[..n]).None? then None else Step(Run(h, es[..n]).value, es[n])
  {
    hide Step;
    assert es[..n + 1] == es[..n] + [es[n]];
    RunConcat(h, es[..n], [es[n]]);
    assert [es[n]][1..] == [];
  }

  /** A client becomes stale only by registering again. */
  lemma {:induction false} StaleHasReopened<C>(h: Hub<C>, es: seq<Event<C>>, n: nat, c: C) returns (i: nat)
    requires Valid(h) && Open(h) && n <= |es|
    requires Run(h, es[..n]).Some? && IsStale(Run(h, es[..n]).value, c)
    ensures i < n && ReopensAt(h, es, i, c)
    decreases n
  {
    hide Run;
    if n == 0 {
      EmptyRun(h, es[..0]);
      assert false;
    }
    RunOneMore(h, es, n - 1);
    var before := Run(h, es[..n - 1]).value;
    if IsStale(before, c) {
      i := StaleHasReopened(h, es, n - 1, c);
    } else {
      i := n - 1;
    }
  }

  lemma EmptyRun<C>(h: Hub<C>, es: seq<Event<C>>)
    requires Valid(h) && es == []
    ensures Run(h, es) == Some(h)
  {
  }

  /** A stale client stays so until something touches its channel, and then the hub panics. */
  lemma {:induction false} StaleStays<C>(h: Hub<C>, es: seq<Event<C>>, i: nat, n: nat, c: C)
    requires Valid(h) && i < n <= |es| && ReopensAt(h, es, i, c)
    requires Run(h, es[..n]).Some?
    ensures IsStale(Run(h, es[..n]).value, c)
    ensures forall j :: i < j < n ==> !Touches(es[j], c)
    decreases n
  {
    hide Run;
    RunOneMore(h, es, n - 1);
    if n - 1 > i {
      StaleStays(h, es, i, n - 1, c);
    }
  }

  /** The first event that panics. */
  lemma {:induction false} PanicsAt<C>(h: Hub<C>, es: seq<Event<C>>, n: nat) returns (j: nat)
    requires Valid(h) && n <= |es| && Run(h, es[..n]).None?
    ensures j < n && Run(h, es[..j]).Some? && Step(Run(h, es[..j]).value, es[j]).None?
    decreases n
  {
    hide Step, Run;
    if n == 0 {
      EmptyRun(h, es[..0]);
      assert false;
    }
    RunOneMore(h, es, n - 1);
    if Run(h, es[..n - 1]).None? {
      j := PanicsAt(h, es, n - 1);
    } else {
      j := n - 1;
    }
  }

  /** EXACTLY WHICH RUNS PANIC: from an open hub, those in which some client registers again after
      its channel was closed and, later, there is a broadcast or that client unregisters. */
  lemma RunPanicsExactly<C>(h: Hub<C>, es: seq<Event<C>>)
    requires Valid(h) && Open(h)
    ensures Run(h, es) == None <==>
      exists i, j, c :: 0 <= i < j < |es| && ReopensAt(h, es, i, c) && Touches(es[j], c)
  {
    hide Run, Step, ReopensAt;
    assert es[..|es|] == es;
    if Run(h, es) == None {
      var j := PanicsAt(h, es, |es|);
      var before := Run(h, es[..j]).value;
      StepPanics(before, es[j]);
      var c: C;
      if es[j].Broadcast? {
        c :| c in before.clients && before.channels[c].closed;
      } else {
        c := es[j].client;
      }
      var i := StaleHasReopened(h, es, j, c);
      assert ReopensAt(h, es, i, c) && Touches(es[j], c);
    }
    if i, j, c :| 0 <= i < j < |es| && ReopensAt(h, es, i, c) && Touches(es[j], c) {
      if Run(h, es) != None {
        StaleStays(h, es, i, |es|, c);
      }
    }
  }

  /** Without that condition: a client that registers again after it left makes the next
      broadcast panic. */
  lemma RegisteringTwicePanics<C>(c: C, m: Message)
    ensures Run(NewHub(), [Register(c), Unregister(c), Register(c), Broadcast(m)]) == None
  {
    var h0: Hub<C> := NewHub();
    var h1 := Step(h0, Register(c)).value;
    var h2 := Step(h1, Unregister(c)).value;
    var h3 := Step(h2, Register(c)).value;
    assert h3.channels[c].closed && c in h3.clients;
    assert Step(h3, Broadcast(m)) == None;
    var es := [Register(c), Unregister(c), Register(c), Broadcast(m)];
    assert es[1..] == [Unregister(c), Register(c), Broadcast(m)];
    assert es[1..][1..] == [Register(c), Broadcast(m)];
    assert es[1..][1..][1..] == [Broadcast(m)];
    assert Run(h3, es[1..][1..][1..]) == None;
    assert Run(h2, es[1..][1..]) == None;
    assert Run(h1, es[1..]) == None;
  }

  // ---- Contiguity ----

  /** The broadcasts of some messages. */
  function AllBroadcasts<C(==)>(ms: seq<Message>): seq<Event<C>> {
    seq(|ms|, i requires 0 <= i < |ms| => Broadcast(ms[i]))
  }

  /** A QUEUE HOLDS 256 MESSAGES: a client whose writer takes nothing is sent the first 256
      broadcasts; the next closes its channel and ends its registration. */
  lemma {:induction false} QueueHolds256<C>(c: C, ms: seq<Message>)
    ensures var r := Run(NewHub(), [Register(c)] + AllBroadcasts(ms));
      && r.Some? && c in r.value.channels && r.value.clients <= {c}
      && (if |ms| <= 256
          then c in r.value.clients && r.value.channels[c] == Channel(ms, [], false)
          else c !in r.value.clients && r.value.channels[c] == Channel(ms[..256], [], true))
    decreases |ms|
  {
    var h: Hub<C> := NewHub();
    if ms == [] {
      assert [Register(c)] + AllBroadcasts(ms) == [Register(c)];
      assert [Register(c)][1..] == [];
      assert Run(h, [Register(c)]) == Step(h, Register(c));
    } else {
      hide Run, Step;
      var n := |ms| - 1;
      var before, last := [Register(c)] + AllBroadcasts(ms[..n]), Broadcast(ms[n]);
      QueueHolds256(c, ms[..n]);
      assert [Register(c)] + AllBroadcasts(ms) == before + [last];
      RunConcat(h, before, [last]);
      var mid := Run(h, before).value;
      RunOneEvent(mid, last);
      BroadcastToOne(mid, c, ms[n]);
      assert ms == ms[..n] + [ms[n]];
    }
  }

  lemma RunOneEvent<C>(h: Hub<C>, e: Event<C>)
    requires Valid(h)
    ensures Run(h, [e]) == Step(h, e)
  {
    hide Step;
    assert [e][1..] == [];
  }

  lemma BroadcastToOne<C>(h: Hub<C>, c: C, m: Message)
    requires Valid(h) && h.clients <= {c} && c in h.channels && (c in h.clients ==> !h.channels[c].closed)
    ensures var ch := h.channels[c]; var r := Step(h, Broadcast(m));
      && r.Some? && r.value.clients <= {c} && c in r.value.channels
      && (if c in h.clients && |ch.waiting| < 256
          then c in r.value.clients && r.value.channels[c] == ch.(waiting := ch.waiting + [m])
          else c !in r.value.clients && r.value.channels[c] == if c in h.clients then ch.(closed := true) else ch)
  {
  }

  /** A channel that the hub let go of receives nothing more. */
  lemma {:induction false} GoneStaysGone<C>(h: Hub<C>, es: seq<Event<C>>, c: C)
    requires Valid(h) && RegisterOnce(h, es) && Run(h, es).Some?
    requires c in h.channels && c !in h.clients
    ensures var r := Run(h, es).value;
      c in r.channels && c !in r.clients && Enqueued(r.channels[c]) == Enqueued(h.channels[c])
    decreases es
  {
    hide RegisterOnce, Reopens;
    if es == [] {
    } else {
      NotRegisteredAgain(h, es, c);
      RegisterOnceOn(h, es);
      var next := Step(h, es[0]).value;
      assert c in next.channels && c !in next.clients;
      assert Enqueued(next.channels[c]) == Enqueued(h.channels[c]);
      GoneStaysGone(next, es[1..], c);
    }
  }

  lemma NotRegisteredAgain<C>(h: Hub<C>, es: seq<Event<C>>, c: C)
    requires es != [] && RegisterOnce(h, es) && c in h.channels
    ensures es[0] != Register(c)
  {
  }

  /** The events that end a registration. */
  ghost predicate Ends<C>(h: Hub<C>, e: Event<C>, c: C)
    requires Valid(h) && c in h.clients
  {
    e == Unregister(c) || (e.Broadcast? && IsFull(h.channels[c]))
  }

  function Carried<C>(e: Event<C>): seq<Message> {
    if e.Broadcast? then [e.message] else []
  }

  /** While a client is registered, a step that does not end that enqueues what it broadcasts. */
  lemma StepEnqueues<C>(h: Hub<C>, e: Event<C>, c: C)
    requires Valid(h) && Open(h) && c in h.clients && Step(h, e).Some?
    ensures var next := Step(h, e).value;
      c in next.channels && (c in next.clients <==> !Ends(h, e, c))
      && Enqueued(next.channels[c]) == Enqueued(h.channels[c]) + if Ends(h, e, c) then [] else Carried(e)
  {
    var ch, next := h.channels[c], Step(h, e).value;
    assert Enqueued(ch) + [] == Enqueued(ch);
    if e.Broadcast? && !IsFull(ch) {
      assert ch.taken + (ch.waiting + [e.message]) == Enqueued(ch) + [e.message];
    } else if e == Take(c) && ch.waiting != [] {
      assert ch.waiting == [ch.waiting[0]] + ch.waiting[1..];
    }
  }

  /** CONTIGUITY from a registered state: there is a number of events `n` during which the client
      stays registered; it has been sent exactly the broadcasts of those events; and unless the
      run is over, event `n` unregisters it or finds its queue full, and it gets nothing more. */
  lemma {:induction false} ReceivesBlock<C>(h: Hub<C>, es: seq<Event<C>>, c: C) returns (n: nat)
    requires Valid(h) && Open(h) && RegisterOnce(h, es) && c in h.clients
    ensures n <= |es| && Run(h, es).Some? && Run(h, es[..n]).Some?
    ensures var before := Run(h, es[..n]).value; var r := Run(h, es).value;
      && c in before.clients && c in r.channels
      && (n < |es| ==> Ends(before, es[n], c) && c !in r.clients)
      && Enqueued(r.channels[c]) == Enqueued(h.channels[c]) + Broadcasts(es[..n])
    decreases es
  {
    hide RegisterOnce, Open, Reopens, Step, Ends, Enqueued;
    RunIsSafe(h, es);
    if es == [] {
      n := 0;
      assert Enqueued(h.channels[c]) + [] == Enqueued(h.channels[c]);
    } else {
      RegisterOnceOn(h, es);
      StepStaysOpen(h, es[0]);
      StepEnqueues(h, es[0], c);
      var next := Step(h, es[0]).value;
      if Ends(h, es[0], c) {
        n := 0;
        GoneStaysGone(next, es[1..], c);
        assert Enqueued(h.channels[c]) + [] == Enqueued(h.channels[c]);
      } else {
        var k := ReceivesBlock(next, es[1..], c);
        n := k + 1;
        BlockStep(h, es, c, k);
      }
    }
  }

  lemma BlockStep<C>(h: Hub<C>, es: seq<Event<C>>, c: C, k: nat)
    requires es != [] && k < |es| && Valid(h) && Step(h, es[0]).Some? && Valid(Step(h, es[0]).value)
    ensures Run(h, es[..k + 1]) == Run(Step(h, es[0]).value, es[1..][..k])
    ensures Broadcasts(es[..k + 1]) == Carried(es[0]) + Broadcasts(es[1..][..k])
  {
    hide Step;
    assert es[..k + 1][1..] == es[1..][..k];
  }

  lemma {:induction false} UnseenHasNoChannel<C>(h: Hub<C>, es: seq<Event<C>>, c: C)
    requires Valid(h) && c !in h.channels && Run(h, es).Some?
    requires forall i :: 0 <= i < |es| ==> es[i] != Register(c)
    ensures c !in Run(h, es).value.channels
    decreases es
  {
    if es == [] {
    } else {
      assert es[0] != Register(c);
      UnseenHasNoChannel(Step(h, es[0]).value, es[1..], c);
    }
  }

  /** CONTIGUITY: over any run from the empty hub in which each client registers at most once,
      the messages enqueued to a client are exactly the broadcasts between its registration at
      event `at` and the event that ends it (or the end of the run), in order, without gap. */
  lemma ClientReceivesBlock<C>(es: seq<Event<C>>, c: C, at: nat) returns (n: nat)
    requires RegisterOnce(NewHub(), es) && at < |es| && es[at] == Register(c)
    ensures at < n <= |es| && Run(NewHub(), es).Some? && Run(NewHub(), es[..n]).Some?
    ensures var before := Run(NewHub(), es[..n]).value; var r := Run(NewHub(), es).value;
      && c in before.clients && c in r.channels
      && (n < |es| ==> Ends(before, es[n], c) && c !in r.clients)
      && Enqueued(r.channels[c]) == Broadcasts(es[at + 1..n])
  {
    hide Step, Reopens, Ends;
    var h: Hub<C> := NewHub();
    var a, b := es[..at + 1], es[at + 1..];
    var mid := RegisteredAt(es, c, at);
    assert es == a + b;
    RunConcat(h, a, b);
    var k := ReceivesBlock(mid, b, c);
    n := at + 1 + k;
    assert es[..n] == a + b[..k] && b[..k] == es[at + 1..n];
    RunConcat(h, a, b[..k]);
    assert [] + Broadcasts(b[..k]) == Broadcasts(b[..k]);
  }

  /** The state right after the registration: open, with an empty channel for the client. */
  lemma RegisteredAt<C>(es: seq<Event<C>>, c: C, at: nat) returns (mid: Hub<C>)
    requires RegisterOnce(NewHub(), es) && at < |es| && es[at] == Register(c)
    ensures Run(NewHub(), es[..at + 1]) == Some(mid) && Valid(mid) && Open(mid)
    ensures c in mid.clients && mid.channels[c] == NEW_CHANNEL && Enqueued(mid.channels[c]) == []
    ensures RegisterOnce(mid, es[at + 1..])
  {
    var h: Hub<C> := NewHub();
    var a, b := es[..at], es[at..];
    assert es == a + b;
    SplitRun(h, a, b);
    var before := Run(h, a).value;
    forall i | 0 <= i < at
      ensures a[i] != Register(c)
    {
      assert es[i] == a[i];
    }
    UnseenHasNoChannel(h, a, c);
    mid := Step(before, Register(c)).value;
    assert b[1..] == es[at + 1..] && b[0] == Register(c);
    RegisterOnceOn(before, b);
    StepStaysOpen(before, b[0]);
    assert es[..at + 1] == a + [Register(c)];
    RunConcat(h, a, [Register(c)]);
    assert [Register(c)][1..] == [];
    assert Run(before, [Register(c)]) == Some(mid);
  }

  lemma {:induction false} SplitRun<C>(h: Hub<C>, a: seq<Event<C>>, b: seq<Event<C>>)
    requires Valid(h) && Open(h) && RegisterOnce(h, a + b)
    ensures Run(h, a).Some? && Open(Run(h, a).value) && RegisterOnce(Run(h, a).value, b)
    decreases a
  {
    hide RegisterOnce, Open, Reopens, Step;
    if a == [] {
      assert a + b == b;
    } else {
      assert (a + b)[1..] == a[1..] + b;
      RegisterOnceOn(h, a + b);
      StepStaysOpen(h, a[0]);
      SplitRun(Step(h, a[0]).value, a[1..], b);
    }
  }
}

/** The hub as an object over client objects. A method that would panic returns false. */
module WsHub {
  import opened Bytes
  import opened HubSpec

  class WSClient {
    var waiting: seq<Message>
    var taken: seq<Message>
    var closed: bool

    /** &WSClient{..., send: make(chan []byte, 256)} */
    constructor ()
      ensures Chan() == NEW_CHANNEL
    {
      waiting, taken, closed := [], [], false;
    }

    function Chan(): Channel
      reads this
    {
      Channel(waiting, taken, closed)
    }

    /** The receive of the writer goroutine. */
    method TakeMessage()
      modifies this
      ensures Chan() == TakeOne(old(Chan()))
    {
      if waiting != [] {
        taken := taken + [waiting[0]];
        waiting := waiting[1..];
      }
    }
  }

  class WSHub {
    var clients: set<WSClient>
    /** Every client that ever registered. */
    ghost var known: set<WSClient>

    ghost predicate Valid()
      reads this
    {
      clients <= known
    }

    ghost function Abs(): Hub<WSClient>
      reads this, known
    {
      Hub(clients, map c | c in known :: c.Chan())
    }

    constructor ()
      ensures Valid() && Abs() == NewHub()
    {
      clients, known := {}, {};
    }

    /** case client := <-h.register */
    method Register(client: WSClient)
      requires Valid() && (client !in known ==> client.Chan() == NEW_CHANNEL)
      modifies this
      ensures Valid() && known == old(known) + {client}
      ensures Step(old(Abs()), Event.Register(client)) == Some(Abs())
    {
      clients := clients + {client};
      known := known + {client};
      assert Abs().channels ==
        if client in old(known) then old(Abs().channels) else old(Abs().channels)[client := NEW_CHANNEL];
    }

    /** case client := <-h.unregister */
    method Unregister(client: WSClient) returns (ok: bool)
      requires Valid()
      modifies this`clients, client`closed
      ensures Valid()
      ensures Step(old(Abs()), Event.Unregister(client)) == if ok then Some(Abs()) else None
    {
      if client in clients {
        clients := clients - {client};
        if client.closed {
          return false;
        }
        client.closed := true;
      }
      ok := true;
      assert Abs().channels ==
        if client in old(clients) then old(Abs().channels)[client := Close(old(client.Chan()))]
        else old(Abs().channels);
    }

    /** The body of the broadcast loop for one open client. */
    method Send(client: WSClient, message: Message)
      requires Valid() && client in clients && !client.closed
      modifies this`clients, client
      ensures Valid()
      ensures Abs() == Visited(old(Abs()), client, message)
    {
      ghost var before := Abs();
      if |client.waiting| < SEND_CAPACITY {
        client.waiting := client.waiting + [message];
      } else {
        client.closed := true;
        clients := clients - {client};
      }
      assert client.Chan() == SendOrClose(before.channels[client], message);
      assert Abs().channels == before.channels[client := SendOrClose(before.channels[client], message)];
    }

    /** case message := <-h.broadcast: every client in some order; a full channel is closed and
        its client deleted while the map is being ranged over. */
    method Broadcast(message: Message) returns (ok: bool)
      requires Valid()
      modifies this`clients, known
      ensures Valid()
      ensures ok ==> Step(old(Abs()), Event.Broadcast(message)) == Some(Abs())
      ensures !ok ==> Step(old(Abs()), Event.Broadcast(message)) == None
    {
      hide Visited, Partly, SendOrClose, IsFull, Step;
      ghost var before := Abs();
      var todo := clients;
      PartlyAtStart(before, message);
      while todo != {}
        invariant Valid() && todo <= clients && todo <= before.clients
        invariant Abs() == Partly(before, todo, message)
        invariant forall c :: c in before.clients - todo ==> !before.channels[c].closed
        invariant before.clients <= before.channels.Keys
        decreases |todo|
      {
        var client :| client in todo;
        PartlyOn(before, todo, client, message);
        if client.closed {
          assert Abs().channels[client].closed;
          BroadcastPanics(before, client, message);
          return false;
        }
        Send(client, message);
        todo := todo - {client};
      }
      PartlyAtEnd(before, message);
      ok := true;
    }
  }

  /** The hub after one client has been sent to or closed. */
  ghost function Visited<C>(h: Hub<C>, c: C, m: Message): Hub<C>
    requires c in h.channels
  {
    Hub(if IsFull(h.channels[c]) then h.clients - {c} else h.clients, h.channels[c := SendOrClose(h.channels[c], m)])
  }

  /** The hub during a broadcast, with the clients in `todo` still to be visited. */
  ghost function Partly<C>(h: Hub<C>, todo: set<C>, m: Message): Hub<C>
    requires h.clients <= h.channels.Keys
  {
    Hub(set c | c in h.clients && (c in todo || !IsFull(h.channels[c])),
        map c | c in h.channels ::
          if c in h.clients && c !in todo then SendOrClose(h.channels[c], m) else h.channels[c])
  }

  lemma PartlyAtStart<C>(h: Hub<C>, m: Message)
    requires h.clients <= h.channels.Keys
    ensures Partly(h, h.clients, m) == h
  {
    var p := Partly(h, h.clients, m);
    assert p.clients == h.clients && p.channels == h.channels;
  }

  lemma PartlyOn<C>(h: Hub<C>, todo: set<C>, c: C, m: Message)
    requires h.clients <= h.channels.Keys && c in todo && todo <= h.clients
    ensures var p := Partly(h, todo, m);
      c in p.channels && p.channels[c] == h.channels[c] && Visited(p, c, m) == Partly(h, todo - {c}, m)
      && todo - {c} <= Visited(p, c, m).clients
  {
  }

  lemma PartlyAtEnd<C>(h: Hub<C>, m: Message)
    requires h.clients <= h.channels.Keys
    requires forall c :: c in h.clients ==> !h.channels[c].closed
    ensures Step(h, Event.Broadcast(m)) == Some(Partly(h, {}, m))
  {
    var p, next := Partly(h, {}, m), Step(h, Event.Broadcast(m)).value;
    assert p.clients == next.clients && p.channels == next.channels;
  }

  lemma BroadcastPanics<C>(h: Hub<C>, c: C, m: Message)
    requires h.clients <= h.channels.Keys && c in h.clients && h.channels[c].closed
    ensures Step(h, Event.Broadcast(m)) == None
  {
  }
}
