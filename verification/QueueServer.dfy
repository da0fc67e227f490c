/** The publish and consume handlers as methods over Redis, proved to be runs of the state machine of `Queue`. */
module QueueServer {
  import opened Bytes
  import opened Queue

  function CursorOf(cursors: map<string, nat>, c: string): (id: nat) { if c in cursors then cursors[c] else 0 }

  /** The stored cursors are those of the sessions. */
  ghost predicate Agree(cursors: map<string, nat>, sessions: map<string, Session>)
  {
    forall c: string :: AgreeOn(cursors, sessions, c)
  }

  predicate AgreeOn(cursors: map<string, nat>, sessions: map<string, Session>, c: string)
  {
    CursorOf(cursors, c) == if c in sessions then sessions[c].cursor else 0
  }

  /** No call of consumer `c`; publishes, other consumers, time and lapses may all occur. */
  predicate Others(evs: seq<Event>, c: string) { forall ev | ev in evs :: IsCall(ev) ==> ev.consumer != c }

  /** What follows the start of a consume call: the events before each command, and reads and writes in turn. */
  function Turns(c: string, between: seq<seq<Event>>, n: nat): (evs: seq<Event>)
  {
    if n == 0 then []
    else Turns(c, between, n - 1) + At(between, n - 1) + [if n % 2 == 1 then Read(c) else Write(c)]
  }

  function At(between: seq<seq<Event>>, k: nat): (evs: seq<Event>) { if k < |between| then between[k] else [] }

  /** Redis as the handlers use it; `model` is the state machine's view of it, every consumer's call included. */
  class Server {
    var topic: Topic
    var cursors: map<string, nat>
    var model: State

    constructor (now: int)
      ensures Valid() && model == Initial(now)
    {
      topic, cursors, model := Initial(now).topic, map[], Initial(now);
    }

    ghost predicate Valid()
      reads this
    {
      model.topic == topic && Inv(model) && Agree(cursors, model.sessions)
    }

    /** Whatever happens between two commands of a handler. */
    method Between(evs: seq<Event>)
      requires Valid()
      modifies this
      ensures Valid() && old(model.topic.gone) <= |old(model.topic.log)| && model == Run(old(model), evs, BATCH)
      ensures forall c | Others(evs, c) :: SessionOf(model, c) == old(SessionOf(model, c))
      ensures evs == [] ==> topic == old(topic)
      ensures old(topic.log) <= topic.log
    {
      hide Inv, Run, Step, StepTopic, Agree, StepSession, SessionOf;
      InvGivesTopic(model);
      ghost var start := model;
      RunNone(start, BATCH);
      for i := 0 to |evs|
        invariant Valid() && topic.gone <= |topic.log| && model == Run(start, evs[..i], BATCH)
      {
        InvGivesTopic(model);
        StepKeeps(model, evs[i], BATCH);
        RunSnoc(start, evs[..i], evs[i], BATCH);
        assert evs[..i] + [evs[i]] == evs[..i + 1];
        StepAgrees(cursors, model, evs[i]);
        model := Step(model, evs[i], BATCH);
        topic := model.topic;
        if IsCall(evs[i]) {
          cursors := cursors[evs[i].consumer := SessionOf(model, evs[i].consumer).cursor];
        }
        InvGivesTopic(model);
      }
      assert evs[..|evs|] == evs;
      RunTakes(start, evs, BATCH, "");
      forall c | Others(evs, c) ensures SessionOf(model, c) == SessionOf(start, c) {
        OthersRun(start, evs, c);
      }
    }

    /** `publish_message` after its checks: XADD with the clamped expiry, then EXPIRE; Redis assigns `id`. */
    method PublishMessage(id: nat, ttl: int, payload: seq<byte>, between: seq<Event>)
      requires Valid() && id > LastId(topic)
      modifies this
      ensures Valid() && old(model.topic.gone) <= |old(model.topic.log)|
      ensures model == Run(old(model), [Xadd(id, ttl, payload)] + between + [Expire], BATCH)
      ensures var n := |old(topic.log)|;
              && n < |topic.log| && old(topic.log) <= topic.log
              && topic.log[n].id == id && topic.log[n].payload == payload
              && topic.log[n].exp == old(topic.now) + if ttl < 604800 then ttl else 604800
    {
      hide Inv, Run, Agree, Step;
      ghost var start := model;
      InvGivesTopic(model);
      var clamped := ttl;
      if clamped > MAX_TTL {
        clamped := MAX_TTL;
      }
      StepKeeps(model, Xadd(id, ttl, payload), BATCH);
      TopicStep(model, Xadd(id, ttl, payload));
      model := Step(model, Xadd(id, ttl, payload), BATCH);
      topic := topic.(log := topic.log + [Entry(id, topic.now, topic.now + clamped, payload)]);
      Between(between);
      InvGivesTopic(model);
      StepKeeps(model, Expire, BATCH);
      TopicStep(model, Expire);
      model := Step(model, Expire, BATCH);
      topic := topic.(covered := |topic.log|,
                      expiry := if topic.gone < |topic.log| then Some(topic.now + MAX_TTL) else None);
      RunAround(start, Xadd(id, ttl, payload), between, Expire, BATCH);
    }

    /** A command of consumer `c`, in the model and, for a cursor write, in Redis. */
    method Command(c: string, ev: Event, cursor: nat)
      requires Valid() && IsCall(ev) && ev.consumer == c && topic.gone <= |topic.log|
      requires cursor == StepSession(topic, SessionOf(model, c), ev, BATCH).cursor
      modifies this
      ensures Valid() && topic == old(topic) && model == Step(old(model), ev, BATCH)
      ensures SessionOf(model, c) == StepSession(topic, old(SessionOf(model, c)), ev, BATCH)
    {
      hide Inv, StepSession;
      StepKeeps(model, ev, BATCH);
      AgreeUpdated(cursors, model.sessions, c, StepSession(topic, SessionOf(model, c), ev, BATCH));
      model := Step(model, ev, BATCH);
      cursors := cursors[c := cursor];
    }

    /** XREAD after the cursor, after whatever others did in the meantime. */
    method ReadBatch(c: string, lastId: nat, at: int, evs: seq<Event>) returns (batch: seq<Entry>)
      requires Valid() && Others(evs, c)
      requires SessionOf(model, c).pc == Reading(at) && SessionOf(model, c).cursor == lastId
      modifies this
      ensures Valid() && old(model.topic.gone) <= |old(model.topic.log)| && topic.gone <= |topic.log|
      ensures model == Run(old(model), evs + [Read(c)], BATCH)
      ensures TopicInv(topic) && batch == Xread(topic, lastId, BATCH)
      ensures evs == [] ==> topic == old(topic)
      ensures var s0, s := old(SessionOf(model, c)), SessionOf(model, c);
              && s.cursor == s0.cursor && s.handled == s0.handled
              && s.pc == (if batch == [] then Idle
                          else if LiveAt(batch, at) < |batch|
                          then Writing(at, batch[..LiveAt(batch, at)], Some(batch[LiveAt(batch, at)]))
                          else Writing(at, batch, None))
      ensures batch == [] ==> forall i | topic.gone <= i < |topic.log| :: topic.log[i].id <= lastId
    {
      hide Inv, Step, StepSession, TopicInv, FirstAfter, Xread, LiveAt, Run, Agree, SessionOf, Others;
      InvGivesTopic(model);
      ghost var start := model;
      Between(evs);
      InvGivesTopic(model);
      RunNone(start, BATCH);
      ghost var s0 := SessionOf(model, c);
      batch := Xread(topic, lastId, BATCH);
      ReadGives(topic, s0, c, BATCH);
      Command(c, Read(c), lastId);
      RunSnoc(start, evs, Read(c), BATCH);
      if batch == [] {
        EmptyIff(topic, s0, c, BATCH);
      }
    }

    /** The inner loop: skips what has expired. */
    method FirstLive(batch: seq<Entry>, at: int) returns (j: nat)
      ensures j == LiveAt(batch, at) && j <= |batch|
    {
      hide LiveAt;
      j := 0;
      while j < |batch| && batch[j].exp < at
        invariant 0 <= j <= |batch| && forall i | 0 <= i < j :: batch[i].exp < at
      {
        j := j + 1;
      }
      LiveAtIs(batch, at, j);
    }

    /** One turn of the outer loop: a read, and unless it found nothing, a write of the cursor. */
    method Round(c: string, lastId: nat, at: int, evs: seq<Event>, more: seq<Event>, ghost before: seq<Handled>)
      returns (reply: Option<Entry>, empty: bool, last: nat)
      requires Valid() && Others(evs, c) && Others(more, c) && OnlyPassed(before, SessionOf(model, c).handled)
      requires SessionOf(model, c).pc == Reading(at) && SessionOf(model, c).cursor == lastId
      modifies this
      ensures Valid() && old(model.topic.gone) <= |old(model.topic.log)| && topic.gone <= |topic.log|
      ensures model == Run(old(model), if empty then evs + [Read(c)] else evs + [Read(c)] + more + [Write(c)], BATCH)
      ensures empty <==> SessionOf(Run(old(model), evs + [Read(c)], BATCH), c).pc.Idle?
      ensures empty ==> reply.None? && forall i | topic.gone <= i < |topic.log| :: topic.log[i].id <= last
      ensures SessionOf(model, c).cursor == last
      ensures if empty || reply.Some?
              then SessionOf(model, c).pc.Idle? && Answered(before, SessionOf(model, c).handled, reply)
              else SessionOf(model, c).pc == Reading(at) && OnlyPassed(before, SessionOf(model, c).handled)
      ensures reply.Some? ==> at <= reply.value.exp
      ensures !empty && reply.None? && evs == [] && more == [] ==>
                topic == old(topic)
                && FirstAfter(topic.log, topic.gone, lastId) < FirstAfter(topic.log, topic.gone, last)
    {
      hide Inv, Step, StepSession, TopicInv, FirstAfter, Xread, LiveAt, Run, Answered, OnlyPassed, Agree, PassedAll,
        SessionOf, Others;
      ghost var start, s0 := model, SessionOf(model, c);
      var batch := ReadBatch(c, lastId, at, evs);
      ghost var t1 := topic;
      if batch == [] {
        NothingFound(before, s0.handled);
        return None, true, lastId;
      }
      var j := FirstLive(batch, at);
      Between(more);
      InvGivesTopic(model);
      RunOn(start, evs + [Read(c)], more, Write(c));
      WriteGives(topic, SessionOf(model, c), c, BATCH);
      if j < |batch| {
        HitAdded(before, s0.handled, batch[..j], batch[j], at);
        Command(c, Write(c), batch[j].id);
        return Some(batch[j]), false, batch[j].id;
      }
      assert batch[..j] == batch;
      BatchAdded(before, s0.handled, batch, at);
      CursorAdvances(t1, s0, BATCH);
      Command(c, Write(c), batch[|batch| - 1].id);
      return None, false, batch[|batch| - 1].id;
    }

    /**
     `consume_message`: the next live entry after the cursor, or None for the empty answer. The call is a run of the
     machine in `n` commands after its start, with `between[k]` before command `k`. Unless a lapse takes something
     from the stream meanwhile, it comes to what going entry by entry through the stream at its end comes to.
     */
    method ConsumeMessage(c: string, between: seq<seq<Event>>) returns (reply: Option<Entry>, ghost n: nat)
      requires Valid() && SessionOf(model, c).pc.Idle?
      requires forall i | 0 <= i < |between| :: Others(between[i], c)
      modifies this
      ensures Valid() && old(model.topic.gone) <= |old(model.topic.log)| && SessionOf(model, c).pc.Idle?
      ensures model == Run(old(model), [Start(c)] + Turns(c, between, n), BATCH) && n > 0
      ensures reply.None? <==> n % 2 == 1
      ensures Answered(old(SessionOf(model, c).handled), SessionOf(model, c).handled, reply)
      ensures reply.None? ==>
                topic.gone <= |topic.log|
                && forall i | topic.gone <= i < |topic.log| :: topic.log[i].id <= SessionOf(model, c).cursor
      ensures Swept(old(SessionOf(model, c)), old(topic.now), old(topic.gone), model, c)
      ensures reply.Some? ==> old(topic.now) <= reply.value.exp
      ensures reply.Some? ==> PublishedBefore(old(model), [Start(c)] + Turns(c, between, n), reply.value)
    {
      hide Inv, Step, StepSession, TopicInv, FirstAfter, Xread, LiveAt, Run, Answered, OnlyPassed, Agree, PassedAll,
        Turns, SessionOf, Others, InCall, Swept, PublishedBefore;
      ghost var start, before := model, SessionOf(model, c).handled;
      InvGivesTopic(model);
      var lastId := CursorOf(cursors, c); // GET of the cursor
      var currentTime := topic.now;
      AgreeAt(cursors, model, c);
      StartGives(topic, SessionOf(model, c), c, BATCH);
      Command(c, Start(c), lastId);
      ghost var s1 := model;
      InvGivesTopic(model);
      NoTurns(s1, c, between);
      NothingAdded(before);
      var step: nat := 0;
      while true
        invariant Valid() && step % 2 == 0 && topic.gone <= |topic.log|
        invariant model == Run(s1, Turns(c, between, step), BATCH) && InCall(s1, Turns(c, between, step), BATCH, c)
        invariant SessionOf(model, c).pc == Reading(currentTime) && SessionOf(model, c).cursor == lastId
        invariant OnlyPassed(before, SessionOf(model, c).handled)
        decreases if step < |between| then |between| - step else 0,
                  |topic.log| - FirstAfter(topic.log, topic.gone, lastId)
      {
        OthersOrNone(between, step, c);
        OthersOrNone(between, step + 1, c);
        RunRound(s1, c, between, step);
        RoundInCall(s1, c, between, step, currentTime);
        var empty;
        reply, empty, lastId := Round(c, lastId, currentTime, At(between, step), At(between, step + 1), before);
        if empty || reply.Some? {
          n := if empty then step + 1 else step + 2;
          RunStarted(start, c, between, n, currentTime);
          RepliesArePublished(start, [Start(c)] + Turns(c, between, n), c, before, reply);
          return;
        }
        step := step + 2;
      }
    }
  }

  /** The call of `c` that began in `s0` at clock reading `at` has come in `r` to the sweep, if nothing was taken. */
  ghost predicate Swept(s0: Session, at: int, gone: nat, r: State, c: string)
  {
    r.topic.gone == gone && gone <= |r.topic.log| ==>
      SessionOf(r, c) == Sweep(r.topic.log, FirstAfter(r.topic.log, gone, s0.cursor), at, s0)
  }

  /** In a run that began with nothing, entry `e` is what some publish put into the stream. */
  ghost predicate Published(now: int, evs: seq<Event>, e: Entry) { exists i: nat :: PublishedAt(now, evs, i, e) }

  /** In every run that led to `s` and went on with `evs`, the entry is what some publish put there. */
  ghost predicate PublishedBefore(s: State, evs: seq<Event>, e: Entry)
  {
    forall now, init | s == Run(Initial(now), init, BATCH) :: Published(now, init + evs, e)
  }

  /** What a call answers with is what some publish put into the stream, before the call or during it. */
  lemma ReplyIsPublished(now: int, init: seq<Event>, s: State, evs: seq<Event>, c: string, before: seq<Handled>,
                         e: Entry)
    requires s == Run(Initial(now), init, BATCH) && s.topic.gone <= |s.topic.log|
    requires Answered(before, SessionOf(Run(s, evs, BATCH), c).handled, Some(e))
    ensures Published(now, init + evs, e)
  {
    hide Run, SessionOf, PublishedAt;
    RunAppend(Initial(now), init, evs, BATCH);
    HandledIsPublished(now, init + evs, BATCH, c, |SessionOf(Run(s, evs, BATCH), c).handled| - 1);
  }

  lemma RepliesArePublished(s: State, evs: seq<Event>, c: string, before: seq<Handled>, reply: Option<Entry>)
    requires s.topic.gone <= |s.topic.log| && Answered(before, SessionOf(Run(s, evs, BATCH), c).handled, reply)
    ensures reply.Some? ==> PublishedBefore(s, evs, reply.value)
  {
    hide Run, SessionOf, Published, Answered;
    if reply.Some? {
      forall now, init | s == Run(Initial(now), init, BATCH) ensures Published(now, init + evs, reply.value) {
        ReplyIsPublished(now, init, s, evs, c, before, reply.value);
      }
    }
  }

  lemma NoTurns(s: State, c: string, between: seq<seq<Event>>)
    requires s.topic.gone <= |s.topic.log| && !SessionOf(s, c).pc.Idle?
    ensures Turns(c, between, 0) == [] && Run(s, Turns(c, between, 0), BATCH) == s
    ensures InCall(s, Turns(c, between, 0), BATCH, c)
  {}

  lemma RunStarted(s: State, c: string, between: seq<seq<Event>>, n: nat, at: int)
    requires Inv(s) && s.topic.gone <= |s.topic.log| && SessionOf(s, c).pc.Idle? && s.topic.now == at
    ensures var s1 := Step(s, Start(c), BATCH);
            && Run(s, [Start(c)] + Turns(c, between, n), BATCH) == Run(s1, Turns(c, between, n), BATCH)
            && s1.topic == s.topic
            && forall r :: Swept(SessionOf(s1, c), at, s1.topic.gone, r, c) ==>
                             Swept(SessionOf(s, c), at, s.topic.gone, r, c)
  {
    hide Run, Turns, FirstAfter, Sweep;
    RunNone(s, BATCH);
    RunSnoc(s, [], Start(c), BATCH);
    assert [] + [Start(c)] == [Start(c)];
    RunAppend(s, [Start(c)], Turns(c, between, n), BATCH);
    var s0, s1 := SessionOf(s, c), SessionOf(Step(s, Start(c), BATCH), c);
    assert s1 == s0.(pc := s1.pc);
    forall r | Swept(s1, at, s.topic.gone, r, c) ensures Swept(s0, at, s.topic.gone, r, c) {
      if s.topic.gone <= |r.topic.log| {
        SweepPc(r.topic.log, FirstAfter(r.topic.log, s.topic.gone, s0.cursor), at, s0, s1.pc);
      }
    }
  }

  lemma {:induction false} InCallAppend(s: State, a: seq<Event>, b: seq<Event>, c: string)
    requires s.topic.gone <= |s.topic.log| && InCall(s, a, BATCH, c) && InCall(Run(s, a, BATCH), b, BATCH, c)
    ensures InCall(s, a + b, BATCH, c)
  {
    hide Run, SessionOf;
    RunAppend(s, a, b, BATCH);
    if b == [] {
      assert a + b == a;
    } else {
      InCallAppend(s, a, b[..|b| - 1], c);
      assert (a + b)[..|a + b| - 1] == a + b[..|b| - 1];
    }
  }

  lemma {:induction false} OthersInCall(s: State, evs: seq<Event>, c: string)
    requires s.topic.gone <= |s.topic.log| && Others(evs, c) && !SessionOf(s, c).pc.Idle?
    ensures InCall(s, evs, BATCH, c)
  {
    hide Run, SessionOf;
    OthersRun(s, evs, c);
    if evs != [] {
      OthersInCall(s, evs[..|evs| - 1], c);
    }
  }

  lemma InCallSnoc(s: State, evs: seq<Event>, ev: Event, c: string)
    requires s.topic.gone <= |s.topic.log| && InCall(s, evs, BATCH, c)
    requires !SessionOf(Run(s, evs + [ev], BATCH), c).pc.Idle?
    ensures InCall(s, evs + [ev], BATCH, c)
  {
    hide Run, SessionOf;
    assert (evs + [ev])[..|evs|] == evs;
  }

  /** A turn of the loop, seen as events of the call: it goes on, or ends as the sweep does. */
  lemma RoundInCall(s: State, c: string, between: seq<seq<Event>>, n: nat, at: int)
    requires TopicInv(s.topic) && SessionOf(s, c).pc == Reading(at) && n % 2 == 0
    requires s.topic.gone <= |s.topic.log| && InCall(s, Turns(c, between, n), BATCH, c)
    requires Others(At(between, n), c) && Others(At(between, n + 1), c)
    ensures var one, two := Run(s, Turns(c, between, n + 1), BATCH), Run(s, Turns(c, between, n + 2), BATCH);
            if SessionOf(one, c).pc.Idle? then Swept(SessionOf(s, c), at, s.topic.gone, one, c)
            else if SessionOf(two, c).pc.Idle? then Swept(SessionOf(s, c), at, s.topic.gone, two, c)
            else InCall(s, Turns(c, between, n + 2), BATCH, c)
  {
    hide Run, SessionOf, Others, InCall, Swept, At, TopicInv;
    var start, evs, more := Turns(c, between, n), At(between, n), At(between, n + 1);
    assert Turns(c, between, n + 1) == start + evs + [Read(c)];
    assert Turns(c, between, n + 2) == start + evs + [Read(c)] + more + [Write(c)];
    hide Turns;
    CallGoesOn(s, start, evs, c);
    EndIsSwept(s, start + evs, Read(c), c, at);
    if !SessionOf(Run(s, start + evs + [Read(c)], BATCH), c).pc.Idle? {
      InCallSnoc(s, start + evs, Read(c), c);
      CallGoesOn(s, start + evs + [Read(c)], more, c);
      EndIsSwept(s, start + evs + [Read(c)] + more, Write(c), c, at);
      if !SessionOf(Run(s, start + evs + [Read(c)] + more + [Write(c)], BATCH), c).pc.Idle? {
        InCallSnoc(s, start + evs + [Read(c)] + more, Write(c), c);
      }
    }
  }

  lemma CallGoesOn(s: State, evs: seq<Event>, more: seq<Event>, c: string)
    requires s.topic.gone <= |s.topic.log| && InCall(s, evs, BATCH, c) && Others(more, c)
    ensures InCall(s, evs + more, BATCH, c)
  {
    hide Run, SessionOf, Others;
    OthersInCall(Run(s, evs, BATCH), more, c);
    InCallAppend(s, evs, more, c);
  }

  lemma EndIsSwept(s: State, evs: seq<Event>, ev: Event, c: string, at: int)
    requires TopicInv(s.topic) && SessionOf(s, c).pc == Reading(at)
    requires s.topic.gone <= |s.topic.log| && InCall(s, evs, BATCH, c)
    ensures var r := Run(s, evs + [ev], BATCH);
            SessionOf(r, c).pc.Idle? ==> Swept(SessionOf(s, c), at, s.topic.gone, r, c)
  {
    hide Run, SessionOf, InCall, TopicInv, Sweep, FirstAfter;
    assert (evs + [ev])[..|evs + [ev]| - 1] == evs;
    BatchDoesNotShow(s, evs + [ev], BATCH, c, at);
  }

  lemma StepAgrees(cursors: map<string, nat>, s: State, ev: Event)
    requires Agree(cursors, s.sessions) && s.topic.gone <= |s.topic.log|
    ensures var r := Step(s, ev, BATCH);
            Agree(if IsCall(ev) then cursors[ev.consumer := SessionOf(r, ev.consumer).cursor] else cursors, r.sessions)
  {
    hide Agree, StepSession;
    if IsCall(ev) {
      AgreeUpdated(cursors, s.sessions, ev.consumer, StepSession(s.topic, SessionOf(s, ev.consumer), ev, BATCH));
    }
  }

  lemma {:induction false} OthersRun(s: State, evs: seq<Event>, c: string)
    requires s.topic.gone <= |s.topic.log| && Others(evs, c)
    ensures SessionOf(Run(s, evs, BATCH), c) == SessionOf(s, c)
  {
    hide StepSession, StepTopic;
    if evs != [] {
      assert evs[|evs| - 1] in evs;
      OthersRun(s, evs[..|evs| - 1], c);
    }
  }

  lemma OthersOrNone(between: seq<seq<Event>>, k: nat, c: string)
    requires forall i | 0 <= i < |between| :: Others(between[i], c)
    ensures Others(At(between, k), c)
  {}

  lemma RunAround(s: State, a: Event, evs: seq<Event>, b: Event, count: nat)
    requires s.topic.gone <= |s.topic.log|
    ensures Run(s, [a] + evs + [b], count) == Step(Run(Step(s, a, count), evs, count), b, count)
  {
    hide Run, Step;
    RunNone(s, count);
    RunSnoc(s, [], a, count);
    assert [] + [a] == [a];
    RunAppend(s, [a], evs, count);
    RunSnoc(s, [a] + evs, b, count);
  }

  lemma RunOn(s: State, a: seq<Event>, b: seq<Event>, ev: Event)
    requires s.topic.gone <= |s.topic.log|
    ensures Run(s, a + b + [ev], BATCH) == Step(Run(Run(s, a, BATCH), b, BATCH), ev, BATCH)
  {
    hide Run, Step;
    RunAppend(s, a, b, BATCH);
    RunSnoc(s, a + b, ev, BATCH);
  }

  /** A turn of the loop takes the call one or two commands further. */
  lemma RunRound(s: State, c: string, between: seq<seq<Event>>, n: nat)
    requires s.topic.gone <= |s.topic.log| && n % 2 == 0
    ensures var r, evs, more := Run(s, Turns(c, between, n), BATCH), At(between, n), At(between, n + 1);
            && Run(s, Turns(c, between, n + 1), BATCH) == Run(r, evs + [Read(c)], BATCH)
            && Run(s, Turns(c, between, n + 2), BATCH) == Run(r, evs + [Read(c)] + more + [Write(c)], BATCH)
  {
    hide Run, Step, At;
    var start, evs, more := Turns(c, between, n), At(between, n), At(between, n + 1);
    assert Turns(c, between, n + 1) == start + (evs + [Read(c)]);
    assert Turns(c, between, n + 2) == start + (evs + [Read(c)] + more + [Write(c)]);
    RunAppend(s, start, evs + [Read(c)], BATCH);
    RunAppend(s, start, evs + [Read(c)] + more + [Write(c)], BATCH);
  }

  lemma TopicStep(s: State, ev: Event)
    requires !IsCall(ev) && s.topic.gone <= |s.topic.log|
    ensures Step(s, ev, BATCH) == State(StepTopic(s.topic, ev), s.sessions)
  {}

  lemma InvGivesTopic(s: State)
    requires Inv(s)
    ensures TopicInv(s.topic) && s.topic.gone <= |s.topic.log|
  {}

  lemma AgreeAt(cursors: map<string, nat>, s: State, c: string)
    requires Agree(cursors, s.sessions)
    ensures CursorOf(cursors, c) == SessionOf(s, c).cursor
  {
    assert AgreeOn(cursors, s.sessions, c);
  }

  lemma AgreeUpdated(cursors: map<string, nat>, sessions: map<string, Session>, c: string, s: Session)
    requires Agree(cursors, sessions)
    ensures Agree(cursors[c := s.cursor], sessions[c := s])
  {
    var cs, ss := cursors[c := s.cursor], sessions[c := s];
    forall d: string ensures AgreeOn(cs, ss, d) {
      assert AgreeOn(cursors, sessions, d);
    }
  }

  lemma StartGives(t: Topic, s: Session, c: string, count: nat)
    requires t.gone <= |t.log| && s.pc.Idle?
    ensures StepSession(t, s, Start(c), count) == Session(s.cursor, Reading(t.now), s.handled)
  {}

  lemma ReadGives(t: Topic, s: Session, c: string, count: nat)
    requires t.gone <= |t.log| && s.pc.Reading?
    ensures var r, batch := StepSession(t, s, Read(c), count), Xread(t, s.cursor, count);
            var k := LiveAt(batch, s.pc.at);
            && r.cursor == s.cursor && r.handled == s.handled
            && r.pc == (if batch == [] then Idle
                        else if k < |batch| then Writing(s.pc.at, batch[..k], Some(batch[k]))
                        else Writing(s.pc.at, batch, None))
  {}

  lemma WriteGives(t: Topic, s: Session, c: string, count: nat)
    requires t.gone <= |t.log| && s.pc.Writing?
    ensures StepSession(t, s, Write(c), count) ==
            match s.pc.hit
            case Some(e) =>
              Session(e.id, Idle, s.handled + PassedAll(s.pc.expired, s.pc.at) + [Delivered(e, s.pc.at)])
            case None =>
              Session(if s.pc.expired == [] then s.cursor else s.pc.expired[|s.pc.expired| - 1].id,
                      Reading(s.pc.at), s.handled + PassedAll(s.pc.expired, s.pc.at))
  {}

  lemma {:induction false} LiveAtIs(batch: seq<Entry>, at: int, j: nat)
    requires j <= |batch| && (forall i | 0 <= i < j :: batch[i].exp < at) && (j < |batch| ==> at <= batch[j].exp)
    ensures LiveAt(batch, at) == j
  {
    if j > 0 {
      LiveAtIs(batch[1..], at, j - 1);
    }
  }

  /** With nothing in between, an expired batch moves the cursor on. */
  lemma CursorAdvances(t: Topic, s: Session, count: nat)
    requires TopicInv(t) && t.gone <= |t.log| && s.pc.Reading? && count > 0
    requires var batch := Xread(t, s.cursor, count); batch != [] && LiveAt(batch, s.pc.at) == |batch|
    ensures var batch := Xread(t, s.cursor, count);
            FirstAfter(t.log, t.gone, s.cursor) < FirstAfter(t.log, t.gone, batch[|batch| - 1].id)
  {
    hide Xread, LiveAt, FirstAfter, TopicInv;
    var k, batch := FirstAfter(t.log, t.gone, s.cursor), Xread(t, s.cursor, count);
    BatchIsStretch(t, s.cursor, count);
    assert batch[|batch| - 1] == t.log[k + |batch| - 1];
    AfterStretch(t, s.cursor, k, |batch|);
  }

  /** Everything added to the history was passed over. */
  ghost predicate OnlyPassed(before: seq<Handled>, after: seq<Handled>)
  {
    before <= after && forall k | |before| <= k < |after| :: after[k].Passed?
  }

  /** What a call adds to the history: entries passed over, and last the entry it answers with, if any. */
  ghost predicate Answered(before: seq<Handled>, after: seq<Handled>, reply: Option<Entry>)
  {
    match reply
    case None => OnlyPassed(before, after)
    case Some(e) =>
      |before| < |after| && after[|after| - 1].Delivered? && after[|after| - 1].e == e
      && OnlyPassed(before, after[..|after| - 1])
  }

  lemma NothingAdded(before: seq<Handled>)
    ensures OnlyPassed(before, before)
  {}

  lemma NothingFound(before: seq<Handled>, hs: seq<Handled>)
    requires OnlyPassed(before, hs)
    ensures Answered(before, hs, None)
  {}

  lemma BatchAdded(before: seq<Handled>, hs: seq<Handled>, es: seq<Entry>, at: int)
    requires OnlyPassed(before, hs)
    ensures OnlyPassed(before, hs + PassedAll(es, at))
  {}

  lemma HitAdded(before: seq<Handled>, hs: seq<Handled>, es: seq<Entry>, e: Entry, at: int)
    requires OnlyPassed(before, hs)
    ensures Answered(before, hs + PassedAll(es, at) + [Delivered(e, at)], Some(e))
  {
    BatchAdded(before, hs, es, at);
    var past := hs + PassedAll(es, at);
    assert (past + [Delivered(e, at)])[..|past|] == past;
  }
}
