/**
 * The reconnect bookkeeping of one provider's socket (`ProviderSection`,
 * src/App.tsx:282-308): how many times the connection has closed since it
 * last opened, whether the library has given up reconnecting, and the
 * notification each lifecycle callback emits. The socket library may deliver
 * the three callbacks in any order; the model takes them as events.
 */
module Connection {
  import opened Wrappers
  import opened Messages
  import Status
  import ProviderConfig

  /** The two state variables `reconnectAttempts` and `reconnectStopped`. */
  datatype State = State(attempts: nat, stopped: bool)

  /** The initial `useState` values. */
  const Initial := State(0, false)

  /** `onOpen`, `onClose` and `onReconnectStop(numAttempts)`. */
  datatype Event = Open | Close | ReconnectStop(numAttempts: nat)

  /**
   * The state after handling one event: only an open resets the counter,
   * only a close advances it, by exactly one; a stop latches `stopped`,
   * which only an open clears.
   */
  function Next(s: State, e: Event): (r: State)
    ensures e == Open ==> r.attempts == 0
    ensures e != Open ==> r.attempts == s.attempts + (if e == Close then 1 else 0)
    ensures r.stopped <==> e.ReconnectStop? || (s.stopped && e != Open)
  {
    match e
    case Open => State(0, false)
    case Close => s.(attempts := s.attempts + 1)
    case ReconnectStop(_) => s.(stopped := true)
  }

  /**
   * The level of the notification an event emits, if it emits one: every
   * event emits except a stop reported to a session that already gave up;
   * danger comes only from the first stop, success only from an open.
   */
  function Emitted(s: State, e: Event): (r: Option<Level>)
    ensures r.None? <==> e.ReconnectStop? && s.stopped
    ensures r == Some(Danger) <==> e.ReconnectStop? && !s.stopped
    ensures r == Some(Success) <==> e == Open
    ensures r == Some(Warning) <==> e == Close
  {
    match e
    case Open => Some(Success)
    case Close => Some(Warning)
    case ReconnectStop(_) => if s.stopped then None else Some(Danger)
  }

  /** The state after a run of events, handled in order. */
  function Run(s: State, events: seq<Event>): (r: State)
    ensures r.attempts <= s.attempts + |events|
    ensures r.stopped ==> s.stopped || exists i :: 0 <= i < |events| && events[i].ReconnectStop?
    decreases |events|
  {
    if events == [] then s else Run(Next(s, events[0]), events[1..])
  }

  /** The levels of the notifications a run of events emits, in order. */
  function Trace(s: State, events: seq<Event>): (r: seq<Level>)
    ensures |r| <= |events|
    decreases |events|
  {
    if events == [] then []
    else
      (match Emitted(s, events[0]) case Some(l) => [l] case None => [])
      + Trace(Next(s, events[0]), events[1..])
  }

  function Count(levels: seq<Level>, level: Level): nat {
    if levels == [] then 0 else (if levels[0] == level then 1 else 0) + Count(levels[1..], level)
  }

  predicate HasStop(events: seq<Event>) {
    exists i :: 0 <= i < |events| && events[i].ReconnectStop?
  }

  function Closes(events: seq<Event>): nat {
    if events == [] then 0 else (if events[0] == Close then 1 else 0) + Closes(events[1..])
  }

  /** The events after the last `Open` (all of them when there is none). */
  function SinceLastOpen(events: seq<Event>): (r: seq<Event>)
    ensures |r| <= |events| && r == events[|events| - |r|..]
    ensures Open !in r
    ensures |r| < |events| ==> events[|events| - |r| - 1] == Open
  {
    if events == [] then []
    else if events[|events| - 1] == Open then []
    else
      var init, last := events[..|events| - 1], events[|events| - 1];
      var prefix := SinceLastOpen(init);
      assert events == init + [last];
      assert events[|events| - |prefix| - 1..] == init[|init| - |prefix|..] + [last];
      assert |prefix| < |init| ==> events[|events| - |prefix| - 2] == init[|init| - |prefix| - 1];
      assert Open !in prefix + [last] by {
        forall x | x in prefix + [last] ensures x != Open {
          assert x in prefix || x == last;
        }
      }
      prefix + [last]
  }

  /**
   * The guard on "won't repeat": between two successful opens at most one
   * danger notification is emitted, namely exactly one when the session had
   * not already given up and some stop event arrives; and the session is
   * stopped afterwards exactly when it was before or some stop arrived.
   */
  lemma {:induction false} OneDangerBetweenOpens(s: State, events: seq<Event>)
    requires Open !in events
    ensures Count(Trace(s, events), Danger) == if !s.stopped && HasStop(events) then 1 else 0
    ensures Run(s, events).stopped == (s.stopped || HasStop(events))
    decreases |events|
  {
    if events != [] {
      var e, rest := events[0], events[1..];
      assert Open !in rest by {
        assert forall x :: x in rest ==> x in events;
      }
      OneDangerBetweenOpens(Next(s, e), rest);
      CountConcat(match Emitted(s, e) case Some(l) => [l] case None => [], Trace(Next(s, e), rest), Danger);
      assert HasStop(events) <==> e.ReconnectStop? || HasStop(rest) by {
        if HasStop(rest) {
          var i :| 0 <= i < |rest| && rest[i].ReconnectStop?;
          assert events[i + 1] == rest[i];
        }
        if HasStop(events) && !e.ReconnectStop? {
          var i :| 0 <= i < |events| && events[i].ReconnectStop?;
          assert rest[i - 1] == events[i];
        }
      }
    }
  }

  lemma {:induction false} CountConcat(a: seq<Level>, b: seq<Level>, level: Level)
    ensures Count(a + b, level) == Count(a, level) + Count(b, level)
  {
    if a == [] {
      assert a + b == b;
    } else {
      assert (a + b)[1..] == a[1..] + b;
      CountConcat(a[1..], b, level);
    }
  }

  lemma {:induction false} RunSnoc(s: State, events: seq<Event>, e: Event)
    ensures Run(s, events + [e]) == Next(Run(s, events), e)
    decreases |events|
  {
    if events == [] {
      assert ([] + [e])[1..] == [];
    } else {
      assert (events + [e])[1..] == events[1..] + [e];
      RunSnoc(Next(s, events[0]), events[1..], e);
    }
  }

  lemma {:induction false} ClosesSnoc(events: seq<Event>, e: Event)
    ensures Closes(events + [e]) == Closes(events) + (if e == Close then 1 else 0)
  {
    if events == [] {
      assert ([] + [e])[1..] == [];
    } else {
      assert (events + [e])[1..] == events[1..] + [e];
      ClosesSnoc(events[1..], e);
    }
  }

  /**
   * The attempt counter counts the closes since the last successful open:
   * a successful open resets it to zero whatever it was, and each close adds
   * exactly one.
   */
  lemma {:induction false} AttemptsSinceLastOpen(s: State, events: seq<Event>)
    ensures Run(s, events).attempts ==
      (if Open in events then 0 else s.attempts) + Closes(SinceLastOpen(events))
    decreases |events|
  {
    if events != [] {
      var init, last := events[..|events| - 1], events[|events| - 1];
      assert events == init + [last];
      RunSnoc(s, init, last);
      AttemptsSinceLastOpen(s, init);
      assert Open in events <==> Open in init || last == Open;
      if last != Open {
        ClosesSnoc(SinceLastOpen(init), last);
      }
    }
  }

  /**
   * Open, close and reopen before the library gives up: a success, a
   * warning and a success are emitted, nothing of danger level, and the
   * badge is healthy again.
   */
  lemma ReopenBeforeGivingUp()
    ensures Trace(Initial, [Open, Close, Open]) == [Success, Warning, Success]
    ensures Status.Classify(Run(Initial, [Open, Close, Open]).attempts) == Success
  {
  }

  /**
   * Never connecting, closing three times, then the library reporting that
   * it stopped (twice): three warnings and exactly one danger.
   */
  lemma GiveUpNotifiesOnce()
    ensures Trace(Initial, [Close, Close, Close, ReconnectStop(3), ReconnectStop(3)])
      == [Warning, Warning, Warning, Danger]
  {
  }

  /**
   * The connection state of one `ProviderSection`, updated in place by the
   * socket callbacks. Each callback returns the notification it hands to
   * `onError`, if any.
   */
  class Session {
    const providerName: string
    var attempts: nat
    var stopped: bool

    function Current(): State
      reads this
    {
      State(attempts, stopped)
    }

    constructor (provider: ProviderConfig.Provider)
      ensures providerName == provider.name
      ensures Current() == Initial
    {
      providerName := provider.name;
      attempts := 0;
      stopped := false;
    }

    /** The badge colour rendered for this provider's assets. */
    function CurrentStatus(): (level: Level)
      reads this
      ensures level == Success <==> attempts == 0
      ensures level == Danger <==> attempts >= 2
    {
      Status.Classify(attempts)
    }

    /** `onOpen`: announce the connection and reset both state variables. */
    method OnOpen() returns (message: Option<Message>)
      modifies this
      ensures Current() == Next(old(Current()), Open)
      ensures attempts == 0 && !stopped
      ensures message.Some? && fresh(message.value)
      ensures Emitted(old(Current()), Open) == Some(message.value.level) == Some(Success)
      ensures message.value.text == "Connected to " + providerName
    {
      var m := new Message(Success, "Connected to " + providerName);
      message := Some(m);
      stopped := false;
      attempts := 0;
    }

    /** `onClose`: warn that a reconnect follows and count one more attempt. */
    method OnClose() returns (message: Option<Message>)
      modifies this
      ensures Current() == Next(old(Current()), Close)
      ensures attempts == old(attempts) + 1 && stopped == old(stopped)
      ensures message.Some? && fresh(message.value)
      ensures Emitted(old(Current()), Close) == Some(message.value.level) == Some(Warning)
      ensures message.value.text == "Connection to " + providerName + " was closed. Trying to reconnect"
    {
      var m := new Message(Warning, "Connection to " + providerName + " was closed. Trying to reconnect");
      message := Some(m);
      attempts := attempts + 1;
    }

    /**
     * `onReconnectStop`: the library has given up. The danger notification
     * goes out only if the session had not already given up; either way the
     * session is stopped afterwards.
     */
    method OnReconnectStop(numAttempts: nat) returns (message: Option<Message>)
      modifies this
      ensures Current() == Next(old(Current()), ReconnectStop(numAttempts))
      ensures stopped && attempts == old(attempts)
      ensures message.Some? <==> !old(stopped)
      ensures message.Some? ==> fresh(message.value) && Emitted(old(Current()), ReconnectStop(numAttempts)) == Some(message.value.level) == Some(Danger)
      ensures message.Some? ==> message.value.text == "Tried to reconnect " + Decimal(numAttempts) + " times. Won't repeat"
      ensures message.None? ==> Emitted(old(Current()), ReconnectStop(numAttempts)) == None
    {
      if !stopped {
        var m := new Message(Danger, "Tried to reconnect " + Decimal(numAttempts) + " times. Won't repeat");
        message := Some(m);
      } else {
        message := None;
      }
      stopped := true;
    }
  }
}
