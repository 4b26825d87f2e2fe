/**
 `requestFrom` on the calling thread against the handling of I2C replies on the serial thread. One step
 is one critical section, one push to the receive buffer, or one action outside the lock; any step of
 either thread may come next. There is one requester, and only it reads.
 */
module Rendezvous {
  import opened Basics
  import opened I2cFrames
  import opened I2cEndpoint

  /** How far the calling thread is inside `requestFrom`; the promise lives on its stack until it leaves. */
  datatype Phase = Outside | Entered | Published | Waiting | Woken(n: nat) | TimedOut | Withdrawn

  /** The serial thread between replies, or with bytes of a reply still to push before it signals. */
  datatype Serial = Idle | Pushing(left: seq<byte>)

  /**
   `promises` maps the calls whose promise has been set to the value; `published` is the promise pointer,
   `dangling` and `thrown` record that the serial thread set a promise that was gone, or set already. (The
   exception would leave the mutex locked; runs may go on here, so the theorems cover more than the code.)

   The rest is history. `data` are the bytes of the reply the serial thread is at, or was last, `pushed`
   of them have been pushed and `skipped` had been at the last publication. `answer` are the bytes of the
   reply that set the promise of the last window, `missing` how many of them preceded the publication, and
   `late` how many bytes were pushed after that signal. `replies` are the payloads that arrived since the
   last publication; the window is `orderly` if it opened between replies and got at most one.
   */
  datatype Machine = Machine(
    phase: Phase, call: nat, live: set<nat>, published: Option<nat>, promises: map<nat, nat>,
    rx: seq<byte>, serial: Serial, result: Option<nat>, dangling: bool, thrown: bool,
    data: seq<byte>, pushed: nat, skipped: nat, answer: seq<byte>, missing: nat, late: nat,
    replies: seq<seq<byte>>, orderly: bool)

  datatype Event =
    | Enter | Publish | Send | Wake | TimeOut | Withdraw | Leave
    | Arrive(argv: seq<byte>) | Push | Fulfil
    | Read

  predicate Enabled(m: Machine, event: Event) {
    match event
    case Enter => m.phase == Outside
    case Publish => m.phase == Entered
    case Send => m.phase == Published
    case Wake => m.phase == Waiting && m.call in m.promises
    case TimeOut => m.phase == Waiting && m.call !in m.promises
    case Withdraw => m.phase.Woken? || m.phase == TimedOut
    case Leave => m.phase == Withdrawn
    case Arrive(argv) => m.serial == Idle && |argv| >= 2
    case Push => m.serial.Pushing? && m.serial.left != []
    case Fulfil => m.serial == Pushing([])
    case Read => m.phase == Outside && m.rx != []
  }

  function Step(m: Machine, event: Event): Machine
    requires Enabled(m, event)
  {
    match event
    case Enter => m.(phase := Entered, call := m.call + 1, live := m.live + {m.call + 1})
    case Publish =>
      m.(phase := Published, rx := [], published := Some(m.call),
         skipped := m.pushed, answer := [], missing := 0, late := 0, replies := [], orderly := m.serial == Idle)
    case Send => m.(phase := Waiting)
    case Wake => m.(phase := Woken(m.promises[m.call]), result := Some(m.promises[m.call]))
    case TimeOut => m.(phase := TimedOut, result := Some(0))
    case Withdraw => m.(phase := Withdrawn, published := None)
    case Leave => m.(phase := Outside, live := m.live - {m.call})
    case Arrive(argv) =>
      m.(serial := Pushing(Pushed(argv)), data := Pushed(argv), pushed := 0, skipped := 0,
         replies := m.replies + [argv], orderly := m.orderly && m.replies == [])
    case Push =>
      m.(rx := m.rx + [m.serial.left[0]], serial := Pushing(m.serial.left[1..]),
         pushed := m.pushed + 1, late := m.late + 1)
    case Fulfil =>
      if m.published.None? then m.(serial := Idle)
      else
        var p := m.published.value;
        var m' := m.(serial := Idle, dangling := m.dangling || p !in m.live);
        if p in m.promises then m'.(thrown := true)
        else m'.(promises := m.promises[p := |m.rx|], answer := m.data, missing := m.skipped, late := 0)
    case Read => m.(rx := m.rx[1..])
  }

  predicate Legal(m: Machine, events: seq<Event>)
    decreases |events|
  {
    events == [] || (Enabled(m, events[0]) && Legal(Step(m, events[0]), events[1..]))
  }

  function Run(m: Machine, events: seq<Event>): Machine
    requires Legal(m, events)
    decreases |events|
  {
    if events == [] then m else Run(Step(m, events[0]), events[1..])
  }

  const START := Machine(Outside, 0, {}, None, map[], [], Idle, None, false, false,
                         [], 0, 0, [], 0, 0, [], true)

  // ---- The promise pointer ----

  predicate InWindow(phase: Phase) {
    phase == Published || phase == Waiting || phase.Woken? || phase == TimedOut
  }

  /** The pointer is set exactly inside the window, and then names the live promise of the call underway. */
  predicate PointerInv(m: Machine) {
    && (m.published == if InWindow(m.phase) then Some(m.call) else None)
    && (m.phase == Outside ==> m.live == {})
    && (m.phase != Outside ==> m.live == {m.call})
    && (forall c :: c in m.promises ==> c <= m.call)
    && (m.phase == Entered ==> m.call !in m.promises)
    && (m.phase.Woken? ==> m.call in m.promises && m.promises[m.call] == m.phase.n)
    && !m.dangling
  }

  /**
   Inside a window, whatever the window opened on: until the promise is set the buffer holds the bytes of
   the current reply from where the publication met it; from then on the promise holds the size that the
   buffer had, and the buffer starts with those bytes.
   */
  predicate BufferInv(m: Machine) {
    && (m.serial.Pushing? ==> m.skipped <= m.pushed <= |m.data| && m.serial.left == m.data[m.pushed..])
    && (InWindow(m.phase) ==>
          if m.call !in m.promises then
            m.rx == if m.serial.Pushing? then m.data[m.skipped..m.pushed] else []
          else
            && m.missing <= |m.answer|
            && m.promises[m.call] == |m.answer| - m.missing
            && |m.rx| == |m.answer| - m.missing + m.late
            && m.rx[..|m.answer| - m.missing] == m.answer[m.missing..])
  }

  /** In an orderly window nothing precedes the reply, nothing of it is missing and nothing comes late. */
  predicate OrderlyInv(m: Machine) {
    m.orderly && InWindow(m.phase) ==>
      && |m.replies| <= 1
      && (m.replies == [] ==> m.serial == Idle && m.call !in m.promises)
      && (m.replies != [] ==>
            && |m.replies[0]| >= 2 && m.data == Pushed(m.replies[0])
            && (m.serial.Pushing? ==> m.skipped == 0 && m.call !in m.promises)
            && (m.serial == Idle ==> m.call in m.promises && m.answer == m.data && m.missing == 0 && m.late == 0))
  }

  /** A call that gives up returns 0. */
  predicate ResultInv(m: Machine) {
    (m.phase.Woken? ==> m.result == Some(m.phase.n)) && (m.phase == TimedOut ==> m.result == Some(0))
  }

  predicate Inv(m: Machine) {
    PointerInv(m) && ResultInv(m) && BufferInv(m) && OrderlyInv(m)
  }

  lemma StepKeepsPointer(m: Machine, event: Event)
    requires PointerInv(m) && Enabled(m, event)
    ensures PointerInv(Step(m, event))
  {
  }

  lemma StepKeepsBuffer(m: Machine, event: Event)
    requires PointerInv(m) && BufferInv(m) && Enabled(m, event)
    ensures BufferInv(Step(m, event))
  {
    if event == Push {
      PushKeepsBuffer(m);
    }
  }

  lemma PushKeepsBuffer(m: Machine)
    requires PointerInv(m) && BufferInv(m) && Enabled(m, Push)
    ensures BufferInv(Step(m, Push))
  {
    assert m.data[m.skipped..m.pushed + 1] == m.data[m.skipped..m.pushed] + [m.data[m.pushed]];
  }

  lemma StepKeepsOrder(m: Machine, event: Event)
    requires PointerInv(m) && OrderlyInv(m) && Enabled(m, event)
    ensures OrderlyInv(Step(m, event))
  {
    if event.Arrive? && m.replies == [] {
      assert (m.replies + [event.argv])[0] == event.argv;
    }
  }

  lemma StepKeeps(m: Machine, event: Event)
    requires Inv(m) && Enabled(m, event)
    ensures Inv(Step(m, event))
  {
    StepKeepsPointer(m, event);
    StepKeepsBuffer(m, event);
    StepKeepsOrder(m, event);
    assert ResultInv(Step(m, event));
  }

  lemma {:induction false} RunKeeps(m: Machine, events: seq<Event>)
    requires Inv(m) && Legal(m, events)
    ensures Inv(Run(m, events))
    decreases |events|
  {
    if events != [] {
      StepKeeps(m, events[0]);
      RunKeeps(Step(m, events[0]), events[1..]);
    }
  }

  /** Under every interleaving the pointer is null whenever its call is over, so no dead promise is ever set. */
  lemma PointerIsLive(events: seq<Event>)
    requires Legal(START, events)
    ensures var m := Run(START, events);
      && !m.dangling
      && (m.published.Some? ==> m.published.value in m.live && m.published.value == m.call)
      && (m.published.Some? <==> InWindow(m.phase))
      && (m.phase == TimedOut ==> m.result == Some(0))
  {
    RunKeeps(START, events);
  }

  // ---- Which runs set a promise twice ----

  /** The signals so far in the window that is open after `events`, if one is: a count over the schedule alone. */
  function Signals(events: seq<Event>): Option<nat> {
    if events == [] then None
    else
      var before := Signals(events[..|events| - 1]);
      match events[|events| - 1]
      case Publish => Some(0)
      case Withdraw => None
      case Fulfil => if before.Some? then Some(before.value + 1) else None
      case _ => before
  }

  /** Some window receives a second signal. */
  predicate Crowded(events: seq<Event>) {
    exists k :: 0 <= k < |events| && events[k] == Fulfil && Signals(events[..k]).Some? && Signals(events[..k]).value >= 1
  }

  lemma {:induction false} RunSnoc(m: Machine, init: seq<Event>, last: Event)
    ensures Legal(m, init + [last]) <==> Legal(m, init) && Enabled(Run(m, init), last)
    ensures Legal(m, init + [last]) ==> Run(m, init + [last]) == Step(Run(m, init), last)
    decreases |init|
  {
    var events := init + [last];
    if init == [] {
      assert events[1..] == [];
    } else {
      assert events[0] == init[0] && events[1..] == init[1..] + [last];
      if Enabled(m, init[0]) {
        RunSnoc(Step(m, init[0]), init[1..], last);
      }
    }
  }

  /** The schedule tells whether the promise of the open window has been set. */
  lemma {:induction false} SignalsMeaning(events: seq<Event>)
    requires Legal(START, events)
    ensures var m := Run(START, events);
      && PointerInv(m)
      && (Signals(events).Some? <==> InWindow(m.phase))
      && (Signals(events).Some? ==> (Signals(events).value >= 1 <==> m.call in m.promises))
    decreases |events|
  {
    if events != [] {
      var init, last := events[..|events| - 1], events[|events| - 1];
      assert events == init + [last];
      RunSnoc(START, init, last);
      SignalsMeaning(init);
      StepKeepsPointer(Run(START, init), last);
    }
  }

  /** After any run that has not thrown, the next signal throws if and only if its window has had one. */
  lemma FulfilThrowsIff(events: seq<Event>)
    requires Legal(START, events) && !Run(START, events).thrown && Enabled(Run(START, events), Fulfil)
    ensures Step(Run(START, events), Fulfil).thrown <==> Signals(events).Some? && Signals(events).value >= 1
  {
    SignalsMeaning(events);
  }

  lemma CrowdedSnoc(init: seq<Event>, last: Event)
    ensures Crowded(init + [last]) <==>
      Crowded(init) || (last == Fulfil && Signals(init).Some? && Signals(init).value >= 1)
  {
    var events := init + [last];
    assert events[..|init|] == init && events[|init|] == last;
    assert forall k :: 0 <= k < |init| ==> events[k] == init[k] && events[..k] == init[..k];
  }

  /** In every run, a promise is set twice if and only if some window receives a second signal. */
  lemma {:induction false} PromiseIsSetOnce(events: seq<Event>)
    requires Legal(START, events)
    ensures Run(START, events).thrown <==> Crowded(events)
    decreases |events|
  {
    if events != [] {
      var init, last := events[..|events| - 1], events[|events| - 1];
      assert events == init + [last];
      RunSnoc(START, init, last);
      PromiseIsSetOnce(init);
      CrowdedSnoc(init, last);
      SignalsMeaning(init);
    }
  }

  // ---- What a woken call holds ----

  /**
   In every run a woken call returns the size of its reply less the bytes that preceded the publication,
   and the buffer holds the rest of the reply and then what was pushed since. So the call has the whole
   reply and nothing else if and only if no byte of the reply preceded the publication and none came late.
   */
  lemma WokenCallHoldsReply(events: seq<Event>)
    requires Legal(START, events) && Run(START, events).phase.Woken?
    ensures var m := Run(START, events);
      var n := m.phase.n;
      && m.result == Some(n) && m.missing <= |m.answer|
      && n == |m.answer| - m.missing && |m.rx| == n + m.late && m.rx[..n] == m.answer[m.missing..]
      && (n == |m.answer| <==> m.missing == 0)
      && (n == |m.answer| && m.rx == m.answer <==> m.missing == 0 && m.late == 0)
  {
    RunKeeps(START, events);
    var m := Run(START, events);
    if m.missing == 0 && m.late == 0 {
      assert m.rx[..|m.answer|] == m.rx && m.answer[0..] == m.answer;
    }
  }

  /**
   A window that opens between replies and gets one: the call that wakes holds the size of that reply and
   the buffer its bytes in order, whatever earlier windows went through; when the call has left they are
   still there, and reading them one by one ends in -1.
   */
  lemma WokenCallAgreesWithBuffer(events: seq<Event>)
    requires Legal(START, events) && Run(START, events).orderly && Run(START, events).phase.Woken?
    ensures var m := Run(START, events);
      && |m.replies| == 1 && |m.replies[0]| >= 2 && m.serial == Idle
      && m.rx == Pushed(m.replies[0]) && m.phase.n == |m.rx|
      && Legal(m, [Withdraw, Leave])
      && var left := Run(m, [Withdraw, Leave]);
         && left.phase == Outside && left.rx == m.rx && left.result == Some(|m.rx|)
    ensures var rx := Run(START, events).rx;
      forall k :: 0 <= k <= |rx| ==>
        && AllSane(Reads(k))
        && After(FRESH.(rx := rx), Reads(k)).Perform(I2cCall.Read).value == if k < |rx| then rx[k] else -1
  {
    RunKeeps(START, events);
    WokenCallHoldsReply(events);
    var m := Run(START, events);
    var out := [Withdraw, Leave];
    assert out[1..] == [Leave] && [Leave][1..] == [];
    forall k | 0 <= k <= |m.rx|
      ensures AllSane(Reads(k))
      ensures After(FRESH.(rx := m.rx), Reads(k)).Perform(I2cCall.Read).value == if k < |m.rx| then m.rx[k] else -1
    {
      ReadsDrain(FRESH.(rx := m.rx), k);
    }
  }

  // ---- Runs that go wrong ----

  lemma RunCons(m: Machine, event: Event, rest: seq<Event>)
    requires Enabled(m, event) && Legal(Step(m, event), rest)
    ensures Legal(m, [event] + rest) && Run(m, [event] + rest) == Run(Step(m, event), rest)
  {
    assert ([event] + rest)[1..] == rest;
  }

  /** Two replies in one window: the second sets the promise again. */
  lemma SecondReplyThrows() returns (events: seq<Event>)
    ensures Legal(START, events) && Run(START, events).thrown
  {
    var argv := [8, 0];
    var m1 := Step(START, Enter);
    var m2 := Step(m1, Publish);
    var m3 := Step(m2, Arrive(argv));
    var m4 := Step(m3, Fulfil);
    var m5 := Step(m4, Arrive(argv));
    RunCons(m5, Fulfil, []);
    RunCons(m4, Arrive(argv), [Fulfil] + []);
    RunCons(m3, Fulfil, [Arrive(argv)] + ([Fulfil] + []));
    RunCons(m2, Arrive(argv), [Fulfil] + ([Arrive(argv)] + ([Fulfil] + [])));
    RunCons(m1, Publish, [Arrive(argv)] + ([Fulfil] + ([Arrive(argv)] + ([Fulfil] + []))));
    RunCons(START, Enter, [Publish] + ([Arrive(argv)] + ([Fulfil] + ([Arrive(argv)] + ([Fulfil] + [])))));
    events := [Enter] + ([Publish] + ([Arrive(argv)] + ([Fulfil] + ([Arrive(argv)] + ([Fulfil] + [])))));
  }

  /** A reply of one byte is pushed, and a new request clears the buffer before its signal. */
  lemma RequestMeetsReply(argv: seq<byte>) returns (events: seq<Event>)
    requires |argv| >= 2 && Pushed(argv) == [5]
    ensures Legal(START, events)
    ensures Run(START, events) == Machine(
      Published, 1, {1}, Some(1), map[], [], Pushing([]), None, false, false, [5], 1, 1, [], 0, 0, [], false)
  {
    var m1 := Step(START, Arrive(argv));
    var m2 := Step(m1, Push);
    var m3 := Step(m2, Enter);
    RunCons(m3, Publish, []);
    RunCons(m2, Enter, [Publish] + []);
    RunCons(m1, Push, [Enter] + ([Publish] + []));
    RunCons(START, Arrive(argv), [Push] + ([Enter] + ([Publish] + [])));
    events := [Arrive(argv)] + ([Push] + ([Enter] + ([Publish] + [])));
  }

  /** A reply caught between push and signal by a new request wakes it with bytes of its own missing. */
  lemma StraddlingReplyMisleads() returns (events: seq<Event>)
    ensures Legal(START, events) && !Run(START, events).orderly
    ensures var m := Run(START, events);
      m.phase == Woken(0) && m.rx == [] && m.answer == [5] && m.missing == 1
  {
    var argv := [8, 0, 0, 0, 5, 0];
    assert Pushed(argv) == [5] by {
      assert argv[4..] == [5, 0] && [5, 0][2..] == [];
    }
    var met := RequestMeetsReply(argv);
    RunSnoc(START, met, Fulfil);
    RunSnoc(START, met + [Fulfil], Send);
    RunSnoc(START, met + [Fulfil] + [Send], Wake);
    events := met + [Fulfil] + [Send] + [Wake];
  }
}
