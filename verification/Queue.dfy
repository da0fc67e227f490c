/**
 Broadcast queues: one append-only stream per topic, one cursor per consumer, entries with an expiry of
 their own, and a key that lapses seven days after the last publish. Every Redis command is one step, so
 the commands of publishers and of other consumers fall anywhere between those of a consume call.
 */
module Queue {
  import opened Bytes

  const MAX_TTL := 604800
  const BATCH: nat := 50

  /** A stream entry; `added` is the clock reading of its publish, which Redis does not keep. */
  datatype Entry = Entry(id: nat, added: int, exp: int, payload: seq<byte>)

  /**
   One topic: every entry ever added, how many of them are no longer in Redis because the key lapsed, the
   key's expiry time if it has one, how many entries were there at the last EXPIRE, and the clock.
   */
  datatype Topic = Topic(log: seq<Entry>, gone: nat, expiry: Option<int>, covered: nat, now: int)

  /** What became of an entry a consumer went past, and the clock reading it was judged by. */
  datatype Handled = Delivered(e: Entry, at: int) | Passed(e: Entry, at: int)

  /** Where a consumer's call is: between calls, before an XREAD, or before the write of the cursor. */
  datatype Pc = Idle | Reading(at: int) | Writing(at: int, expired: seq<Entry>, hit: Option<Entry>)

  /** A consumer: its stored cursor (0 for "0-0"), its call in progress, and its history. */
  datatype Session = Session(cursor: nat, pc: Pc, handled: seq<Handled>)

  datatype State = State(topic: Topic, sessions: map<string, Session>)

  datatype Event =
    | Xadd(id: nat, ttl: int, payload: seq<byte>)
    | Expire                      // the EXPIRE that follows every XADD
    | Lapse                       // Redis drops the key
    | Tick(seconds: nat)
    | Jump(to: int)               // the clock is set, backwards perhaps
    | Start(consumer: string)     // GET of the cursor and the clock reading
    | Read(consumer: string)      // XREAD
    | Write(consumer: string)     // SET of the cursor

  // ----- Steps -----

  function LastIdOf(es: seq<Entry>): (id: nat) { if es == [] then 0 else es[|es| - 1].id }

  /** The last id of the stream in Redis; a key that lapsed left no id behind. */
  function LastId(t: Topic): (id: nat) { if t.gone < |t.log| then LastIdOf(t.log) else 0 }

  function StepTopic(t: Topic, ev: Event): (r: Topic)
    ensures t.gone <= |t.log| ==> r.gone <= |r.log|
  {
    match ev
    case Xadd(id, ttl, payload) =>
      if id <= LastId(t) then t // Redis never assigns such an id
      else t.(log := t.log + [Added(t, id, ttl, payload)])
    case Expire =>
      t.(covered := |t.log|, expiry := if t.gone < |t.log| then Some(t.now + MAX_TTL) else None)
    case Lapse =>
      if t.expiry.Some? && t.expiry.value <= t.now then t.(gone := |t.log|, expiry := None) else t
    case Tick(d) => t.(now := t.now + d)
    case Jump(to) => t.(now := to)
    case _ => t
  }

  /** The entry an XADD makes, with its expiry clamped. */
  function Added(t: Topic, id: nat, ttl: int, payload: seq<byte>): (e: Entry)
  {
    Entry(id, t.now, t.now + (if ttl > MAX_TTL then MAX_TTL else ttl), payload)
  }

  /** The position of the first entry at or after `from` whose id is beyond `last`. */
  function FirstAfter(log: seq<Entry>, from: nat, last: nat): (k: nat)
    requires from <= |log|
    ensures from <= k <= |log|
    ensures k < |log| ==> log[k].id > last
    ensures forall i | from <= i < k :: log[i].id <= last
    decreases |log| - from
  {
    if from == |log| || log[from].id > last then from else FirstAfter(log, from + 1, last)
  }

  /** XREAD: at most `count` entries of the stream after `last`. */
  function Xread(t: Topic, last: nat, count: nat): (batch: seq<Entry>)
    requires t.gone <= |t.log|
  {
    var k := FirstAfter(t.log, t.gone, last);
    t.log[k..if k + count <= |t.log| then k + count else |t.log|]
  }

  /** The position of the first entry that has not expired at time `at`. */
  function LiveAt(batch: seq<Entry>, at: int): (k: nat)
    ensures k <= |batch|
    ensures k < |batch| ==> at <= batch[k].exp
    ensures forall i | 0 <= i < k :: batch[i].exp < at
  {
    if batch == [] || at <= batch[0].exp then 0 else 1 + LiveAt(batch[1..], at)
  }

  /** A consumer's next command, with XREAD batches of `count`. */
  function StepSession(t: Topic, s: Session, ev: Event, count: nat): (r: Session)
    requires t.gone <= |t.log|
  {
    match ev
    case Start(_) => if s.pc.Idle? then s.(pc := Reading(t.now)) else s
    case Read(_) =>
      if s.pc.Reading? then
        var batch := Xread(t, s.cursor, count);
        var k := LiveAt(batch, s.pc.at);
        if batch == [] then s.(pc := Idle)
        else if k < |batch| then s.(pc := Writing(s.pc.at, batch[..k], Some(batch[k])))
        else s.(pc := Writing(s.pc.at, batch, None))
      else s
    case Write(_) =>
      if s.pc.Writing? then
        var past := s.handled + PassedAll(s.pc.expired, s.pc.at);
        match s.pc.hit
        case Some(e) => Session(e.id, Idle, past + [Delivered(e, s.pc.at)])
        case None => Session(if s.pc.expired == [] then s.cursor else s.pc.expired[|s.pc.expired| - 1].id,
                             Reading(s.pc.at), past)
      else s
    case _ => s
  }

  function PassedAll(es: seq<Entry>, at: int): (hs: seq<Handled>)
    ensures |hs| == |es|
  {
    seq(|es|, i requires 0 <= i < |es| => Passed(es[i], at))
  }

  predicate IsCall(ev: Event) { ev.Start? || ev.Read? || ev.Write? }

  function SessionOf(s: State, c: string): Session
  {
    if c in s.sessions then s.sessions[c] else Session(0, Idle, [])
  }

  function Step(s: State, ev: Event, count: nat): (r: State)
    requires s.topic.gone <= |s.topic.log|
    ensures r.topic.gone <= |r.topic.log|
  {
    if IsCall(ev) then
      s.(sessions := s.sessions[ev.consumer := StepSession(s.topic, SessionOf(s, ev.consumer), ev, count)])
    else s.(topic := StepTopic(s.topic, ev))
  }

  function Run(s: State, evs: seq<Event>, count: nat): (r: State)
    requires s.topic.gone <= |s.topic.log|
    ensures r.topic.gone <= |r.topic.log|
  {
    if evs == [] then s else Step(Run(s, evs[..|evs| - 1], count), evs[|evs| - 1], count)
  }

  function Initial(now: int): (s: State)
  {
    State(Topic([], 0, None, 0, now), map[])
  }

  // ----- What every run keeps -----

  predicate Ascending(es: seq<Entry>) { forall i, j | 0 <= i < j < |es| :: es[i].id < es[j].id }

  /** The ids of what is in Redis ascend from above 0. */
  predicate TopicInv(t: Topic)
  {
    && t.gone <= |t.log|
    && (forall i, j | t.gone <= i < j < |t.log| :: t.log[i].id < t.log[j].id)
    && (forall i | t.gone <= i < |t.log| :: t.log[i].id > 0)
  }

  /** The entries a call holds between its XREAD and the write of the cursor. */
  function InHand(pc: Pc): (es: seq<Entry>)
  {
    if pc.Writing? then pc.expired + (if pc.hit.Some? then [pc.hit.value] else []) else []
  }

  function EntriesOf(hs: seq<Handled>): (es: seq<Entry>)
    ensures |es| == |hs| && forall i | 0 <= i < |hs| :: es[i] == hs[i].e
  {
    seq(|hs|, i requires 0 <= i < |hs| => hs[i].e)
  }

  /** What a consumer has read so far, in order: the entries it handled, then those in hand. */
  function Taken(s: Session): (es: seq<Entry>) { EntriesOf(s.handled) + InHand(s.pc) }

  /** How far a consumer has read; its cursor, once nothing is in hand. */
  function Reach(s: Session): (id: nat) { LastIdOf(Taken(s)) }

  /** Deliveries were live and the others had expired, by the reading used. */
  predicate JudgedRight(hs: seq<Handled>)
  {
    forall i | 0 <= i < |hs| :: if hs[i].Delivered? then hs[i].at <= hs[i].e.exp else hs[i].e.exp < hs[i].at
  }

  predicate HandInv(pc: Pc)
  {
    pc.Writing? ==>
      && InHand(pc) != []
      && (forall i | 0 <= i < |pc.expired| :: pc.expired[i].exp < pc.at)
      && (pc.hit.Some? ==> pc.at <= pc.hit.value.exp)
  }

  /** Ids ascend, so no entry is read twice. */
  predicate ReadInv(log: seq<Entry>, es: seq<Entry>)
  {
    Ascending(es) && forall i | 0 <= i < |es| :: es[i].id > 0 && es[i] in log
  }

  predicate SessionInv(log: seq<Entry>, s: Session)
  {
    && ReadInv(log, Taken(s))
    && s.cursor == LastIdOf(EntriesOf(s.handled))
    && JudgedRight(s.handled)
    && HandInv(s.pc)
  }

  predicate Inv(s: State)
  {
    TopicInv(s.topic) && forall c | c in s.sessions :: SessionInv(s.topic.log, s.sessions[c])
  }

  lemma GoneIsBounded(t: Topic)
    requires TopicInv(t)
    ensures t.gone <= |t.log|
  {}

  lemma TopicStepKeeps(t: Topic, ev: Event)
    requires TopicInv(t)
    ensures TopicInv(StepTopic(t, ev)) && t.log <= StepTopic(t, ev).log
  {}

  /** A log that only grew leaves a consumer's invariant in place. */
  lemma GrowthKeeps(log: seq<Entry>, more: seq<Entry>, s: Session)
    requires SessionInv(log, s) && log <= more
    ensures SessionInv(more, s)
  {
    hide Taken, JudgedRight, HandInv, EntriesOf, LastIdOf;
    assert forall e | e in log :: e in more;
  }

  // ----- A consumer's own commands -----

  lemma BatchIsStretch(t: Topic, last: nat, count: nat)
    requires t.gone <= |t.log|
    ensures var k, batch := FirstAfter(t.log, t.gone, last), Xread(t, last, count);
            k + |batch| <= |t.log| && batch == t.log[k..k + |batch|] && (count > 0 && k < |t.log| ==> batch != [])
  {
    hide FirstAfter;
  }

  /** The part of a batch that a call takes into its hand: up to its first live entry. */
  function TakenOf(batch: seq<Entry>, at: int): (es: seq<Entry>)
  {
    var k := LiveAt(batch, at);
    if k < |batch| then batch[..k + 1] else batch
  }

  lemma HandOfBatch(t: Topic, s: Session, c: string, count: nat)
    requires t.gone <= |t.log| && s.pc.Reading? && Xread(t, s.cursor, count) != []
    ensures var r, batch := StepSession(t, s, Read(c), count), Xread(t, s.cursor, count);
            && InHand(r.pc) == TakenOf(batch, s.pc.at) && HandInv(r.pc)
            && r == s.(pc := r.pc) && r.pc.Writing? && r.pc.at == s.pc.at
  {
    hide Xread;
    var batch, at := Xread(t, s.cursor, count), s.pc.at;
    var k, pc := LiveAt(batch, at), StepSession(t, s, Read(c), count).pc;
    hide LiveAt;
    if k < |batch| {
      assert pc == Writing(at, batch[..k], Some(batch[k]));
      assert batch[..k] + [batch[k]] == batch[..k + 1];
    } else {
      assert pc == Writing(at, batch, None);
      assert batch + [] == batch;
    }
  }

  /** An XREAD takes the stretch of the stream just after the cursor, up to its first live entry, within the batch. */
  lemma ReadTakes(t: Topic, s: Session, c: string, count: nat)
    requires t.gone <= |t.log| && s.pc.Reading? && Xread(t, s.cursor, count) != []
    ensures var r, k := StepSession(t, s, Read(c), count), FirstAfter(t.log, t.gone, s.cursor);
            var m := |InHand(r.pc)|;
            && m > 0 && k + m <= |t.log| && InHand(r.pc) == t.log[k..k + m] && Taken(r) == Taken(s) + t.log[k..k + m]
            && HandInv(r.pc) && r == s.(pc := r.pc) && r.pc.Writing? && r.pc.at == s.pc.at
  {
    var batch := Xread(t, s.cursor, count);
    BatchIsStretch(t, s.cursor, count);
    HandOfBatch(t, s, c, count);
    StretchOfBatch(t.log, FirstAfter(t.log, t.gone, s.cursor), batch, s.pc.at);
    TakenReading(s);
    hide Xread, FirstAfter, LiveAt, StepSession, EntriesOf, InHand, HandInv, TakenOf;
  }

  lemma StretchOfBatch(log: seq<Entry>, k: nat, batch: seq<Entry>, at: int)
    requires k + |batch| <= |log| && batch == log[k..k + |batch|]
    ensures var m := |TakenOf(batch, at)|;
            m <= |batch| && TakenOf(batch, at) == log[k..k + m] && (batch != [] ==> m > 0)
  {
    hide LiveAt;
  }

  lemma TakenReading(s: Session)
    requires !s.pc.Writing?
    ensures Taken(s) == EntriesOf(s.handled)
  {
    hide EntriesOf;
  }

  /** The judgements a cursor write records. */
  function Judged(pc: Pc): (hs: seq<Handled>)
    requires pc.Writing?
    ensures EntriesOf(hs) == InHand(pc)
  {
    PassedAll(pc.expired, pc.at) + if pc.hit.Some? then [Delivered(pc.hit.value, pc.at)] else []
  }

  lemma JudgedIsRight(pc: Pc)
    requires pc.Writing? && HandInv(pc)
    ensures JudgedRight(Judged(pc))
  {
    var hs, n := Judged(pc), |pc.expired|;
    forall i | 0 <= i < |hs|
      ensures if hs[i].Delivered? then hs[i].at <= hs[i].e.exp else hs[i].e.exp < hs[i].at
    {
      if i < n {
        assert hs[i] == Passed(pc.expired[i], pc.at);
      } else {
        assert hs[i] == Delivered(pc.hit.value, pc.at);
      }
    }
  }

  lemma WriteAppends(t: Topic, s: Session, c: string, count: nat)
    requires t.gone <= |t.log| && s.pc.Writing? && InHand(s.pc) != []
    ensures var r := StepSession(t, s, Write(c), count);
            r.handled == s.handled + Judged(s.pc) && r.cursor == LastIdOf(InHand(s.pc)) && !r.pc.Writing?
  {
    hide PassedAll;
  }

  lemma EntriesAppend(a: seq<Handled>, b: seq<Handled>)
    ensures EntriesOf(a + b) == EntriesOf(a) + EntriesOf(b)
  {}

  lemma RightAppend(a: seq<Handled>, b: seq<Handled>)
    requires JudgedRight(a) && JudgedRight(b)
    ensures JudgedRight(a + b)
  {}

  /** Writing the cursor handles exactly the entries in hand. */
  lemma WriteKeeps(t: Topic, s: Session, c: string, count: nat)
    requires t.gone <= |t.log| && SessionInv(t.log, s) && s.pc.Writing?
    ensures var r := StepSession(t, s, Write(c), count);
            SessionInv(t.log, r) && Taken(r) == Taken(s) && !r.pc.Writing?
  {
    hide StepSession, Judged, EntriesOf, JudgedRight, ReadInv, InHand, PassedAll;
    HandNotEmpty(s.pc);
    WriteAppends(t, s, c, count);
    JudgedIsRight(s.pc);
    EntriesAppend(s.handled, Judged(s.pc));
    RightAppend(s.handled, Judged(s.pc));
    TakenReading(StepSession(t, s, Write(c), count));
  }

  lemma HandNotEmpty(pc: Pc)
    requires HandInv(pc) && pc.Writing?
    ensures InHand(pc) != []
  {}

  lemma EmptyRead(t: Topic, s: Session, c: string, count: nat)
    requires t.gone <= |t.log| && s.pc.Reading? && Xread(t, s.cursor, count) == []
    ensures StepSession(t, s, Read(c), count) == s.(pc := Idle)
  {}

  lemma ReadKeeps(t: Topic, s: Session, c: string, count: nat)
    requires TopicInv(t) && SessionInv(t.log, s) && s.pc.Reading?
    ensures t.gone <= |t.log| && SessionInv(t.log, StepSession(t, s, Read(c), count))
    ensures TakesStretch(t, s, StepSession(t, s, Read(c), count))
  {
    hide Xread, FirstAfter, StepSession, InHand, EntriesOf, JudgedRight, ReadInv, TopicInv, LastIdOf, Taken, HandInv;
    GoneIsBounded(t);
    var r := StepSession(t, s, Read(c), count);
    TakenReading(s);
    if Xread(t, s.cursor, count) == [] {
      EmptyRead(t, s, c, count);
      TakenReading(r);
      HandInvIdle(r.pc);
      NothingTaken(t, s, r);
    } else {
      ReadTakes(t, s, c, count);
      StretchReads(t, Taken(s), FirstAfter(t.log, t.gone, s.cursor), |InHand(r.pc)|);
    }
  }

  lemma HandInvIdle(pc: Pc)
    requires !pc.Writing?
    ensures HandInv(pc)
  {}

  lemma NothingTaken(t: Topic, s: Session, r: Session)
    requires t.gone <= |t.log| && Taken(r) == Taken(s)
    ensures TakesStretch(t, s, r)
  {
    hide Taken, FirstAfter;
    assert Taken(s) + t.log[FirstAfter(t.log, t.gone, Reach(s))..FirstAfter(t.log, t.gone, Reach(s))] == Taken(s);
  }

  lemma StretchReads(t: Topic, es: seq<Entry>, k: nat, m: nat)
    requires TopicInv(t) && ReadInv(t.log, es) && k == FirstAfter(t.log, t.gone, LastIdOf(es)) && k + m <= |t.log|
    ensures ReadInv(t.log, es + t.log[k..k + m])
  {
    hide FirstAfter;
    var stretch := t.log[k..k + m];
    forall j | 0 <= j < m ensures stretch[j] == t.log[k + j] && stretch[j].id > LastIdOf(es) && stretch[j].id > 0 {
      assert t.log[k].id <= t.log[k + j].id;
    }
    hide TopicInv;
    assert Ascending(stretch) && forall e | e in stretch :: e in t.log;
    ReadAppend(t.log, es, stretch);
  }

  lemma ReadAppend(log: seq<Entry>, es: seq<Entry>, more: seq<Entry>)
    requires ReadInv(log, es) && Ascending(more)
    requires forall j | 0 <= j < |more| :: more[j].id > LastIdOf(es) && more[j] in log
    ensures ReadInv(log, es + more)
  {}

  /** What a step adds to what a consumer has read: a stretch of the stream just after that, empty or not. */
  ghost predicate TakesStretch(t: Topic, s: Session, r: Session)
    requires t.gone <= |t.log|
  {
    var k, n := FirstAfter(t.log, t.gone, Reach(s)), |Taken(s)|;
    n <= |Taken(r)| && k + |Taken(r)| - n <= |t.log| && Taken(r) == Taken(s) + t.log[k..k + |Taken(r)| - n]
  }

  lemma SessionStepKeeps(t: Topic, s: Session, ev: Event, count: nat)
    requires TopicInv(t) && SessionInv(t.log, s) && IsCall(ev)
    ensures t.gone <= |t.log| && SessionInv(t.log, StepSession(t, s, ev, count))
    ensures TakesStretch(t, s, StepSession(t, s, ev, count))
  {
    hide Xread, LiveAt, PassedAll, EntriesOf, JudgedRight, ReadInv, TopicInv, LastIdOf, Taken, HandInv, TakesStretch;
    GoneIsBounded(t);
    if ev.Start? && s.pc.Idle? {
      TakenReading(s);
      TakenReading(s.(pc := Reading(t.now)));
      HandInvIdle(Reading(t.now));
      NothingTaken(t, s, s.(pc := Reading(t.now)));
    } else if ev.Read? && s.pc.Reading? {
      ReadKeeps(t, s, ev.consumer, count);
    } else if ev.Write? && s.pc.Writing? {
      WriteKeeps(t, s, ev.consumer, count);
      NothingTaken(t, s, StepSession(t, s, ev, count));
    } else {
      NothingTaken(t, s, s);
    }
  }

  lemma AtStart(log: seq<Entry>)
    ensures SessionInv(log, Session(0, Idle, []))
  {}

  lemma StepKeeps(s: State, ev: Event, count: nat)
    requires Inv(s)
    ensures Inv(Step(s, ev, count))
  {
    hide SessionInv, StepSession, StepTopic, TopicInv;
    AtStart(s.topic.log);
    if IsCall(ev) {
      SessionStepKeeps(s.topic, SessionOf(s, ev.consumer), ev, count);
    } else {
      TopicStepKeeps(s.topic, ev);
      forall c | c in s.sessions ensures SessionInv(StepTopic(s.topic, ev).log, s.sessions[c]) {
        GrowthKeeps(s.topic.log, StepTopic(s.topic, ev).log, s.sessions[c]);
      }
    }
  }

  /** Every state of every run, for any batch size, interleaving and ids. */
  lemma {:induction false} RunKeeps(s: State, evs: seq<Event>, count: nat)
    requires Inv(s)
    ensures Inv(Run(s, evs, count))
  {
    hide Inv, Step;
    GoneInRange(s);
    if evs != [] {
      RunKeeps(s, evs[..|evs| - 1], count);
      StepKeeps(Run(s, evs[..|evs| - 1], count), evs[|evs| - 1], count);
    }
  }

  lemma GoneInRange(s: State)
    requires Inv(s)
    ensures TopicInv(s.topic) && s.topic.gone <= |s.topic.log|
  {}

  lemma SessionAt(s: State, c: string)
    requires Inv(s)
    ensures SessionInv(s.topic.log, SessionOf(s, c))
  {
    hide SessionInv;
    AtStart(s.topic.log);
  }

  // ----- What a consumer has passed it has read -----

  ghost predicate ReadFrom(es: seq<Entry>, from: nat, e: Entry) { exists k :: from <= k < |es| && es[k] == e }

  /** The entry at `i`, unless it is gone or still ahead, was read as the `from`th or later. */
  ghost predicate Covered(t: Topic, es: seq<Entry>, i: nat, from: nat)
  {
    from <= |es| && i < |t.log| && (t.gone <= i && t.log[i].id <= LastIdOf(es) ==> ReadFrom(es, from, t.log[i]))
  }

  lemma StretchCovers(t: Topic, es: seq<Entry>, k: nat, m: nat, i: nat, from: nat)
    requires TopicInv(t) && k == FirstAfter(t.log, t.gone, LastIdOf(es)) && k + m <= |t.log|
    requires Covered(t, es, i, from)
    ensures Covered(t, es + t.log[k..k + m], i, from)
  {
    hide FirstAfter;
    var longer := es + t.log[k..k + m];
    if t.gone <= i && t.log[i].id <= LastIdOf(longer) {
      if t.log[i].id <= LastIdOf(es) {
        var n :| from <= n < |es| && es[n] == t.log[i];
        assert longer[n] == t.log[i];
      } else {
        assert k <= i;
        assert m > 0 && LastIdOf(longer) == t.log[k + m - 1].id;
        assert longer[|es| + i - k] == t.log[i];
      }
    }
  }

  lemma TopicStepCovers(t: Topic, ev: Event, es: seq<Entry>, i: nat, from: nat)
    requires TopicInv(t) && Covered(t, es, i, from)
    ensures Covered(StepTopic(t, ev), es, i, from)
  {
    hide ReadFrom, LastIdOf;
  }

  lemma StepCovers(s: State, ev: Event, count: nat, c: string, i: nat, from: nat)
    requires Inv(s) && Covered(s.topic, Taken(SessionOf(s, c)), i, from)
    ensures s.topic.gone <= |s.topic.log|
    ensures var r := Step(s, ev, count); Covered(r.topic, Taken(SessionOf(r, c)), i, from)
  {
    hide Covered, Taken, TopicInv, SessionInv, StepSession, StepTopic, FirstAfter, Inv;
    GoneInRange(s);
    SessionAt(s, c);
    if !IsCall(ev) {
      TopicStepCovers(s.topic, ev, Taken(SessionOf(s, c)), i, from);
    } else if ev.consumer == c {
      var t, was := s.topic, SessionOf(s, c);
      var now := StepSession(t, was, ev, count);
      SessionStepKeeps(t, was, ev, count);
      StretchCovers(t, Taken(was), FirstAfter(t.log, t.gone, Reach(was)), |Taken(now)| - |Taken(was)|, i, from);
    }
  }

  lemma StepTakes(s: State, ev: Event, count: nat, c: string)
    requires Inv(s)
    ensures s.topic.gone <= |s.topic.log|
    ensures Taken(SessionOf(s, c)) <= Taken(SessionOf(Step(s, ev, count), c))
    ensures s.topic.log <= Step(s, ev, count).topic.log
  {
    hide Taken, TopicInv, SessionInv, StepSession, StepTopic, FirstAfter, Inv;
    GoneInRange(s);
    SessionAt(s, c);
    if !IsCall(ev) {
      TopicStepKeeps(s.topic, ev);
    } else if ev.consumer == c {
      SessionStepKeeps(s.topic, SessionOf(s, c), ev, count);
    }
  }

  /** What was read stays read, in order; the log only grows. */
  lemma {:induction false} RunTakes(s: State, evs: seq<Event>, count: nat, c: string)
    requires Inv(s)
    ensures s.topic.gone <= |s.topic.log|
    ensures Taken(SessionOf(s, c)) <= Taken(SessionOf(Run(s, evs, count), c))
    ensures s.topic.log <= Run(s, evs, count).topic.log
  {
    hide Taken, Inv, Step;
    GoneInRange(s);
    if evs != [] {
      var init := evs[..|evs| - 1];
      RunKeeps(s, init, count);
      RunTakes(s, init, count, c);
      StepTakes(Run(s, init, count), evs[|evs| - 1], count, c);
    }
  }

  lemma {:induction false} RunCovers(s: State, evs: seq<Event>, count: nat, c: string, i: nat, from: nat)
    requires Inv(s) && Covered(s.topic, Taken(SessionOf(s, c)), i, from)
    ensures s.topic.gone <= |s.topic.log|
    ensures var r := Run(s, evs, count); Covered(r.topic, Taken(SessionOf(r, c)), i, from)
  {
    hide Covered, Taken, Inv, Step;
    GoneInRange(s);
    if evs != [] {
      var init := evs[..|evs| - 1];
      RunKeeps(s, init, count);
      RunCovers(s, init, count, c, i, from);
      StepCovers(Run(s, init, count), evs[|evs| - 1], count, c, i, from);
    }
  }

  /** A new entry is ahead of a consumer that has not read as far as its id. */
  lemma NewIsCovered(t: Topic, r: Topic, es: seq<Entry>, from: nat)
    requires from <= |es| && |r.log| == |t.log| + 1 && r.log[|t.log|].id > LastIdOf(es)
    ensures Covered(r, es, |t.log|, from)
  {
    hide ReadFrom, LastIdOf;
  }

  /** Entries read after the first `from` have ids beyond the last of those. */
  lemma LaterIsBeyond(log: seq<Entry>, early: seq<Entry>, es: seq<Entry>, k: nat)
    requires ReadInv(log, es) && early <= es && |early| <= k < |es|
    ensures LastIdOf(early) < es[k].id <= LastIdOf(es)
  {}

  /** Up to the cursor means handled: what is still in hand is beyond it. */
  lemma HandledByCursor(log: seq<Entry>, s: Session, from: nat, e: Entry)
    requires SessionInv(log, s) && ReadFrom(Taken(s), from, e) && e.id <= s.cursor
    ensures ReadFrom(EntriesOf(s.handled), from, e)
  {
    var es, n := Taken(s), |s.handled|;
    var k :| from <= k < |es| && es[k] == e;
    assert es[..n] == EntriesOf(s.handled);
    if k < n {
      assert EntriesOf(s.handled)[k] == e;
    } else {
      LaterIsBeyond(log, EntriesOf(s.handled), es, k);
    }
  }

  /**
   When an entry is read, in any run from any reachable state: a consumer handles it after the XADD exactly if the
   consumer had not read as far as its id by then and its cursor has reached it since, unless the key took it.
   */
  lemma ReadLaterIff(s: State, id: nat, ttl: int, payload: seq<byte>, evs: seq<Event>, count: nat, c: string)
    requires Inv(s) && id > LastId(s.topic)
    ensures s.topic.gone <= |s.topic.log|
    ensures var e, r := Added(s.topic, id, ttl, payload), Run(Step(s, Xadd(id, ttl, payload), count), evs, count);
            var s0, s1 := SessionOf(s, c), SessionOf(r, c);
            var later := ReadFrom(EntriesOf(s1.handled), |Taken(s0)|, e);
            && (later ==> Reach(s0) < id <= s1.cursor)
            && (r.topic.gone <= |s.topic.log| && Reach(s0) < id <= s1.cursor ==> later)
  {
    hide Inv, SessionInv, TopicInv, Step, StepTopic, Taken, Covered;
    GoneInRange(s);
    var ev := Xadd(id, ttl, payload);
    var s2 := Step(s, ev, count);
    var r := Run(s2, evs, count);
    var i, es0 := |s.topic.log|, Taken(SessionOf(s, c));
    XaddAdds(s, id, ttl, payload, count);
    StepKeeps(s, ev, count);
    RunKeeps(s2, evs, count);
    SessionAt(r, c);
    RunTakes(s2, evs, count, c);
    var s1, e := SessionOf(r, c), Added(s.topic, id, ttl, payload);
    if ReadFrom(EntriesOf(s1.handled), |es0|, e) {
      HandledIsBeyond(r.topic.log, s1, es0, e);
    }
    if r.topic.gone <= i && Reach(SessionOf(s, c)) < id <= s1.cursor {
      NewIsCovered(s.topic, s2.topic, es0, |es0|);
      RunCovers(s2, evs, count, c, i, |es0|);
      CoveredIsHandled(r.topic, s1, i, |es0|);
    }
  }

  lemma XaddAdds(s: State, id: nat, ttl: int, payload: seq<byte>, count: nat)
    requires s.topic.gone <= |s.topic.log| && id > LastId(s.topic)
    ensures var r := Step(s, Xadd(id, ttl, payload), count);
            r.sessions == s.sessions && r.topic.log == s.topic.log + [Added(s.topic, id, ttl, payload)]
  {}

  lemma HandledIsBeyond(log: seq<Entry>, s: Session, early: seq<Entry>, e: Entry)
    requires SessionInv(log, s) && early <= Taken(s) && ReadFrom(EntriesOf(s.handled), |early|, e)
    ensures LastIdOf(early) < e.id <= s.cursor
  {
    var es := EntriesOf(s.handled);
    assert es == Taken(s)[..|es|];
    var k :| |early| <= k < |es| && es[k] == e;
    assert ReadInv(log, es);
    assert early <= es;
    LaterIsBeyond(log, early, es, k);
  }

  lemma CoveredIsHandled(t: Topic, s: Session, i: nat, from: nat)
    requires SessionInv(t.log, s) && Covered(t, Taken(s), i, from) && t.gone <= i && t.log[i].id <= s.cursor
    ensures ReadFrom(EntriesOf(s.handled), from, t.log[i])
  {
    CursorWithinReach(t.log, s);
    HandledByCursor(t.log, s, from, t.log[i]);
  }

  lemma CursorWithinReach(log: seq<Entry>, s: Session)
    requires SessionInv(log, s)
    ensures s.cursor <= Reach(s)
  {
    var es, n := Taken(s), |s.handled|;
    assert es[..n] == EntriesOf(s.handled);
  }

  // ----- Where entries come from -----

  /** The clock after the events. */
  function Clock(now: int, evs: seq<Event>): (r: int)
  {
    if evs == [] then now
    else
      var before, ev := Clock(now, evs[..|evs| - 1]), evs[|evs| - 1];
      if ev.Tick? then before + ev.seconds else if ev.Jump? then ev.to else before
  }

  lemma {:induction false} ClockOfRun(now: int, evs: seq<Event>, count: nat)
    ensures Run(Initial(now), evs, count).topic.now == Clock(now, evs)
  {
    hide StepSession;
    if evs != [] {
      ClockOfRun(now, evs[..|evs| - 1], count);
    }
  }

  /** Entry `e` is what event `i` of the run published: its payload, and the ttl from the clock then, or seven days if
      that is less. */
  predicate PublishedAt(now: int, evs: seq<Event>, i: nat, e: Entry)
  {
    && i < |evs| && evs[i].Xadd? && e.id == evs[i].id && e.payload == evs[i].payload
    && e.added == Clock(now, evs[..i])
    && e.exp == Clock(now, evs[..i]) + if evs[i].ttl < 604800 then evs[i].ttl else 604800
  }

  /** In every run each entry of the stream is what a publish of its own put there, in the order of the publishes. */
  lemma {:induction false} LogIsPublished(now: int, evs: seq<Event>, count: nat) returns (at: seq<nat>)
    ensures var log := Run(Initial(now), evs, count).topic.log;
            && |at| == |log| && (forall k | 0 <= k < |log| :: PublishedAt(now, evs, at[k], log[k]))
            && forall j, k | 0 <= j < k < |at| :: at[j] < at[k]
  {
    hide Clock, Run, Step, PublishedAt;
    if evs == [] {
      RunNone(Initial(now), count);
      at := [];
    } else {
      var init, ev := evs[..|evs| - 1], evs[|evs| - 1];
      at := LogIsPublished(now, init, count);
      var s := Run(Initial(now), init, count);
      forall k | 0 <= k < |s.topic.log| ensures PublishedAt(now, evs, at[k], s.topic.log[k]) && at[k] < |evs| - 1 {
        StillPublished(now, evs, at[k], s.topic.log[k]);
      }
      RunSnoc(Initial(now), init, ev, count);
      assert init + [ev] == evs;
      ClockOfRun(now, init, count);
      StepPublishes(now, evs, s, count);
      if |Step(s, ev, count).topic.log| > |s.topic.log| {
        at := at + [|evs| - 1];
      }
    }
  }

  lemma StillPublished(now: int, evs: seq<Event>, i: nat, e: Entry)
    requires evs != [] && PublishedAt(now, evs[..|evs| - 1], i, e)
    ensures PublishedAt(now, evs, i, e) && i < |evs| - 1
  {
    hide Clock;
    assert evs[..|evs| - 1][..i] == evs[..i];
  }

  lemma StepPublishes(now: int, evs: seq<Event>, s: State, count: nat)
    requires evs != [] && s.topic.gone <= |s.topic.log| && s.topic.now == Clock(now, evs[..|evs| - 1])
    ensures var ev, log := evs[|evs| - 1], s.topic.log;
            var longer := Step(s, ev, count).topic.log;
            longer == log
            || (|longer| == |log| + 1 && longer[..|log|] == log && PublishedAt(now, evs, |evs| - 1, longer[|log|]))
  {
    hide Clock, StepSession;
  }

  /** In every run whatever a consumer was answered with, or passed over, is what some publish put into the stream. */
  lemma HandledIsPublished(now: int, evs: seq<Event>, count: nat, c: string, j: nat)
    requires j < |SessionOf(Run(Initial(now), evs, count), c).handled|
    ensures exists i: nat :: PublishedAt(now, evs, i, SessionOf(Run(Initial(now), evs, count), c).handled[j].e)
  {
    hide Run, SessionInv, PublishedAt;
    InitialInv(now);
    RunKeeps(Initial(now), evs, count);
    var s := Run(Initial(now), evs, count);
    SessionAt(s, c);
    HistoryOf(s.topic.log, SessionOf(s, c));
    LoggedIsPublished(now, evs, count, SessionOf(s, c).handled[j].e);
  }

  lemma LoggedIsPublished(now: int, evs: seq<Event>, count: nat, e: Entry)
    requires e in Run(Initial(now), evs, count).topic.log
    ensures exists i: nat :: PublishedAt(now, evs, i, e)
  {
    hide Run, PublishedAt;
    var log := Run(Initial(now), evs, count).topic.log;
    var k :| 0 <= k < |log| && log[k] == e;
    var at := LogIsPublished(now, evs, count);
    assert PublishedAt(now, evs, at[k], log[k]);
  }

  // ----- The clock a call reads -----

  /** The call of `c` that goes on after the events began with event `i`, and judges by the clock at that event. */
  ghost predicate BeganAt(now: int, evs: seq<Event>, count: nat, c: string, i: nat, at: int)
  {
    && i < |evs| && evs[i] == Start(c) && at == Clock(now, evs[..i])
    && SessionOf(Run(Initial(now), evs[..i], count), c).pc.Idle?
    && forall j | i < j <= |evs| :: !SessionOf(Run(Initial(now), evs[..j], count), c).pc.Idle?
  }

  /** In every run a call that goes on judges by the clock reading of its own start. */
  lemma {:induction false} CallReadsClock(now: int, evs: seq<Event>, count: nat, c: string) returns (i: nat)
    requires !SessionOf(Run(Initial(now), evs, count), c).pc.Idle?
    ensures BeganAt(now, evs, count, c, i, SessionOf(Run(Initial(now), evs, count), c).pc.at)
  {
    hide Run, Clock, Step;
    RunNone(Initial(now), count);
    var init, ev := evs[..|evs| - 1], evs[|evs| - 1];
    var s := Run(Initial(now), init, count);
    RunSnoc(Initial(now), init, ev, count);
    assert init + [ev] == evs;
    CallSteps(s, ev, count, c);
    if SessionOf(s, c).pc.Idle? {
      ClockOfRun(now, init, count);
      i := |evs| - 1;
      assert evs[..|evs|] == evs;
    } else {
      i := CallReadsClock(now, init, count, c);
      StillBegan(now, evs, count, c, i, SessionOf(s, c).pc.at);
    }
  }

  lemma CallSteps(s: State, ev: Event, count: nat, c: string)
    requires s.topic.gone <= |s.topic.log| && !SessionOf(Step(s, ev, count), c).pc.Idle?
    ensures if SessionOf(s, c).pc.Idle? then ev == Start(c) && SessionOf(Step(s, ev, count), c).pc.at == s.topic.now
            else SessionOf(Step(s, ev, count), c).pc.at == SessionOf(s, c).pc.at
  {
    hide Xread, LiveAt, PassedAll, StepTopic;
  }

  lemma StillBegan(now: int, evs: seq<Event>, count: nat, c: string, i: nat, at: int)
    requires evs != [] && BeganAt(now, evs[..|evs| - 1], count, c, i, at)
    requires !SessionOf(Run(Initial(now), evs, count), c).pc.Idle?
    ensures BeganAt(now, evs, count, c, i, at)
  {
    hide Run, Clock, SessionOf;
    var init := evs[..|evs| - 1];
    assert init[..i] == evs[..i];
    forall j | i < j <= |evs| ensures !SessionOf(Run(Initial(now), evs[..j], count), c).pc.Idle? {
      if j < |evs| {
        assert init[..j] == evs[..j];
      } else {
        assert evs[..j] == evs;
      }
    }
  }

  /** What a command adds to a consumer's history carries the clock reading of the call it belongs to. */
  lemma HandledInCall(s: State, ev: Event, count: nat, c: string)
    requires s.topic.gone <= |s.topic.log|
    ensures var before, after := SessionOf(s, c).handled, SessionOf(Step(s, ev, count), c).handled;
            && before <= after
            && (after != before ==> ev == Write(c) && !SessionOf(s, c).pc.Idle?)
            && forall k | |before| <= k < |after| :: after[k].at == SessionOf(s, c).pc.at
  {
    hide Xread, LiveAt, StepTopic;
  }

  // ----- When ids rise -----

  /** Redis gives every XADD of the run a higher id than all before it, over lapses of the key as well. */
  predicate IdsRise(evs: seq<Event>)
  {
    forall i, j | 0 <= i < j < |evs| && evs[i].Xadd? && evs[j].Xadd? :: evs[i].id < evs[j].id
  }

  ghost predicate AddedIn(evs: seq<Event>, id: nat) { exists i :: 0 <= i < |evs| && evs[i].Xadd? && evs[i].id == id }

  lemma LogIsAdded(now: int, evs: seq<Event>, count: nat)
    ensures forall e | e in Run(Initial(now), evs, count).topic.log :: AddedIn(evs, e.id)
  {
    hide Run, Clock;
    forall e | e in Run(Initial(now), evs, count).topic.log ensures AddedIn(evs, e.id) {
      LoggedIsPublished(now, evs, count, e);
    }
  }

  lemma {:induction false} AllCovered(now: int, evs: seq<Event>, count: nat, c: string)
    requires IdsRise(evs)
    ensures var r := Run(Initial(now), evs, count);
            forall i | 0 <= i < |r.topic.log| :: Covered(r.topic, Taken(SessionOf(r, c)), i, 0)
  {
    hide Covered, Taken, Inv, Step, SessionOf, ReadFrom;
    InitialInv(now);
    if evs == [] {
      RunNone(Initial(now), count);
    } else {
      var init, ev := evs[..|evs| - 1], evs[|evs| - 1];
      var s, r := Run(Initial(now), init, count), Run(Initial(now), evs, count);
      RunKeeps(Initial(now), init, count);
      AllCovered(now, init, count, c);
      forall i | 0 <= i < |r.topic.log| ensures Covered(r.topic, Taken(SessionOf(r, c)), i, 0) {
        if i < |s.topic.log| {
          StepCovers(s, ev, count, c, i, 0);
        } else {
          assert init + [ev] == evs;
          StepNewIsXadd(s, ev, count);
          FreshIsAhead(now, init, ev, count, c);
          StepNewIsCovered(s, ev, count, c, i);
        }
      }
    }
  }

  lemma InitialInv(now: int)
    ensures Inv(Initial(now))
  {}

  /** A rising id is beyond all that anybody has read. */
  lemma FreshIsAhead(now: int, init: seq<Event>, ev: Event, count: nat, c: string)
    requires IdsRise(init + [ev]) && ev.Xadd?
    ensures ev.id == 0 || Reach(SessionOf(Run(Initial(now), init, count), c)) < ev.id
  {
    hide Taken, Inv, Run, SessionOf;
    InitialInv(now);
    RunKeeps(Initial(now), init, count);
    LogIsAdded(now, init, count);
    var s := Run(Initial(now), init, count);
    SessionAt(s, c);
    var es := Taken(SessionOf(s, c));
    if es != [] {
      ReadIsLogged(s.topic.log, SessionOf(s, c));
      assert es[|es| - 1] in es && AddedIn(init, es[|es| - 1].id);
      var i :| 0 <= i < |init| && init[i].Xadd? && init[i].id == es[|es| - 1].id;
      assert (init + [ev])[i] == init[i] && (init + [ev])[|init|] == ev;
    }
  }

  lemma ReadIsLogged(log: seq<Entry>, s: Session)
    requires SessionInv(log, s)
    ensures forall e | e in Taken(s) :: e in log
  {}

  lemma StepNewIsXadd(s: State, ev: Event, count: nat)
    requires s.topic.gone <= |s.topic.log| && |s.topic.log| < |Step(s, ev, count).topic.log|
    ensures ev.Xadd?
  {}

  lemma StepNewIsCovered(s: State, ev: Event, count: nat, c: string, i: nat)
    requires s.topic.gone <= |s.topic.log| && |s.topic.log| <= i < |Step(s, ev, count).topic.log|
    requires ev.Xadd? && (ev.id == 0 || Reach(SessionOf(s, c)) < ev.id)
    ensures Covered(Step(s, ev, count).topic, Taken(SessionOf(Step(s, ev, count), c)), i, 0)
  {
    hide Taken, ReadFrom;
  }

  /**
   For every consumer, in every run: ids in its history ascend, so no entry is in it twice; what it delivered was
   live and what it passed over had expired by the reading used. If ids rise, every entry up to its cursor is in the
   history, unless the key lapsed with it.
   */
  lemma EveryEntryOnce(now: int, evs: seq<Event>, count: nat, c: string)
    ensures var s := Run(Initial(now), evs, count);
            var t, hs, cursor := s.topic, SessionOf(s, c).handled, SessionOf(s, c).cursor;
            && (forall i, j | 0 <= i < j < |hs| :: hs[i].e.id < hs[j].e.id)
            && (forall i | 0 <= i < |hs| :: hs[i].e in t.log)
            && (forall i | 0 <= i < |hs| ::
                  if hs[i].Delivered? then hs[i].at <= hs[i].e.exp else hs[i].e.exp < hs[i].at)
            && (IdsRise(evs) ==>
                  forall i | t.gone <= i < |t.log| && t.log[i].id <= cursor :: ReadFrom(EntriesOf(hs), 0, t.log[i]))
  {
    hide Inv, Run, SessionOf, SessionInv, Taken, ReadFrom, Covered, EntriesOf, IdsRise;
    InitialInv(now);
    RunKeeps(Initial(now), evs, count);
    var s := Run(Initial(now), evs, count);
    SessionAt(s, c);
    HistoryOf(s.topic.log, SessionOf(s, c));
    if IdsRise(evs) {
      AllCovered(now, evs, count, c);
      var t := s.topic;
      forall i | t.gone <= i < |t.log| && t.log[i].id <= SessionOf(s, c).cursor
        ensures ReadFrom(EntriesOf(SessionOf(s, c).handled), 0, t.log[i])
      {
        CoveredIsHandled(t, SessionOf(s, c), i, 0);
      }
    }
  }

  lemma HistoryOf(log: seq<Entry>, s: Session)
    requires SessionInv(log, s)
    ensures var hs := s.handled;
            && (forall i, j | 0 <= i < j < |hs| :: hs[i].e.id < hs[j].e.id)
            && (forall i | 0 <= i < |hs| :: hs[i].e in log)
            && JudgedRight(hs)
  {
    assert forall i | 0 <= i < |s.handled| :: Taken(s)[i] == s.handled[i].e;
  }

  /**
   Without rising ids an entry can be lost: the key lapses, the clock is set back, and the stream starts again below
   the cursor. The entry is live, and the consumer's next call answers that nothing is there.
   */
  lemma LowIdIsLost()
    ensures var evs := [Xadd(2, 10, []), Expire, Start("c"), Read("c"), Write("c"), Tick(604800), Lapse, Jump(0),
                        Xadd(1, 10, [])];
            var s, first, lost := Run(Initial(0), evs, BATCH), Entry(2, 0, 10, []), Entry(1, 0, 10, []);
            var c := SessionOf(s, "c");
            && !IdsRise(evs) && s.topic.log == [first, lost] && s.topic.gone == 1 && s.topic.now <= lost.exp
            && c == Session(2, Idle, [Delivered(first, 0)])
            && StepSession(s.topic, StepSession(s.topic, c, Start("c"), BATCH), Read("c"), BATCH) == c
  {
    hide Run, Step, StepSession;
    var before := [Xadd(2, 10, []), Expire];
    var call := [Start("c"), Read("c"), Write("c")];
    var after := [Tick(604800), Lapse, Jump(0), Xadd(1, 10, [])];
    var evs := before + call + after;
    assert evs == [Xadd(2, 10, []), Expire, Start("c"), Read("c"), Write("c"), Tick(604800), Lapse, Jump(0),
                   Xadd(1, 10, [])];
    assert evs[0].id == 2 && evs[8].id == 1;
    RunAppend(Initial(0), before + call, after, BATCH);
    RunAppend(Initial(0), before, call, BATCH);
    FirstIsAdded(before);
    FirstIsDelivered(call);
    LostIsAdded(after);
    NothingIsSeen();
  }

  lemma FirstIsAdded(evs: seq<Event>)
    requires evs == [Xadd(2, 10, []), Expire]
    ensures Run(Initial(0), evs, BATCH) == State(Topic([Entry(2, 0, 10, [])], 0, Some(604800), 1, 0), map[])
  {
    RunTwo(Initial(0), evs[0], evs[1], BATCH);
    var t := StepTopic(Initial(0).topic, evs[0]);
    assert t == Topic([Entry(2, 0, 10, [])], 0, None, 0, 0);
  }

  lemma FirstIsDelivered(evs: seq<Event>)
    requires evs == [Start("c"), Read("c"), Write("c")]
    ensures var first := Entry(2, 0, 10, []);
            var t := Topic([first], 0, Some(604800), 1, 0);
            Run(State(t, map[]), evs, BATCH) == State(t, map["c" := Session(2, Idle, [Delivered(first, 0)])])
  {
    hide Run, StepSession;
    var first := Entry(2, 0, 10, []);
    var t := Topic([first], 0, Some(604800), 1, 0);
    var s := State(t, map[]);
    RunThree(s, evs[0], evs[1], evs[2], BATCH);
    FirstSteps();
    assert Step(s, evs[0], BATCH) == State(t, map["c" := Session(0, Reading(0), [])]);
    assert Step(State(t, map["c" := Session(0, Reading(0), [])]), evs[1], BATCH)
        == State(t, map["c" := Session(0, Writing(0, [], Some(first)), [])]);
  }

  lemma FirstSteps()
    ensures var first := Entry(2, 0, 10, []);
            var t, s1 := Topic([first], 0, Some(604800), 1, 0), Session(0, Reading(0), []);
            var s2 := Session(0, Writing(0, [], Some(first)), []);
            && StepSession(t, Session(0, Idle, []), Start("c"), BATCH) == s1
            && StepSession(t, s1, Read("c"), BATCH) == s2
            && StepSession(t, s2, Write("c"), BATCH) == Session(2, Idle, [Delivered(first, 0)])
  {
    var first := Entry(2, 0, 10, []);
    var t := Topic([first], 0, Some(604800), 1, 0);
    assert Xread(t, 0, BATCH) == [first] by { assert FirstAfter(t.log, 0, 0) == 0; }
    assert LiveAt([first], 0) == 0;
    hide Xread, LiveAt;
    assert [] + PassedAll([], 0) + [Delivered(first, 0)] == [Delivered(first, 0)];
  }

  lemma LostIsAdded(evs: seq<Event>)
    requires evs == [Tick(604800), Lapse, Jump(0), Xadd(1, 10, [])]
    ensures var first, lost := Entry(2, 0, 10, []), Entry(1, 0, 10, []);
            var c := map["c" := Session(2, Idle, [Delivered(first, 0)])];
            Run(State(Topic([first], 0, Some(604800), 1, 0), c), evs, BATCH) ==
            State(Topic([first, lost], 1, None, 1, 0), c)
  {
    var first, lost := Entry(2, 0, 10, []), Entry(1, 0, 10, []);
    var c := map["c" := Session(2, Idle, [Delivered(first, 0)])];
    var s := State(Topic([first], 0, Some(604800), 1, 0), c);
    hide StepSession, Run;
    RunFour(s, evs[0], evs[1], evs[2], evs[3], BATCH);
    assert Step(s, evs[0], BATCH) == State(Topic([first], 0, Some(604800), 1, 604800), c);
    assert Step(State(Topic([first], 0, Some(604800), 1, 604800), c), evs[1], BATCH)
        == State(Topic([first], 1, None, 1, 604800), c);
    assert Step(State(Topic([first], 1, None, 1, 604800), c), evs[2], BATCH) == State(Topic([first], 1, None, 1, 0), c);
    assert [first] + [lost] == [first, lost];
  }

  lemma NothingIsSeen()
    ensures var first := Entry(2, 0, 10, []);
            var t, c := Topic([first, Entry(1, 0, 10, [])], 1, None, 1, 0), Session(2, Idle, [Delivered(first, 0)]);
            StepSession(t, StepSession(t, c, Start("c"), BATCH), Read("c"), BATCH) == c
  {
    var t := Topic([Entry(2, 0, 10, []), Entry(1, 0, 10, [])], 1, None, 1, 0);
    assert FirstAfter(t.log, 1, 2) == 2;
    assert Xread(t, 2, BATCH) == [];
    hide Xread, FirstAfter;
    var c := Session(2, Idle, [Delivered(t.log[0], 0)]);
    assert StepSession(t, c, Start("c"), BATCH) == Session(2, Reading(0), c.handled);
  }

  /** A read answers "nothing there" exactly when the stream has no entry beyond the cursor. */
  lemma EmptyIff(t: Topic, s: Session, c: string, count: nat)
    requires TopicInv(t) && count > 0 && s.pc.Reading?
    ensures StepSession(t, s, Read(c), count).pc.Idle? <==>
            forall i | t.gone <= i < |t.log| :: t.log[i].id <= s.cursor
  {
    var k := FirstAfter(t.log, t.gone, s.cursor);
    if k < |t.log| {
      assert Xread(t, s.cursor, count)[0] == t.log[k];
      ReadTakes(t, s, c, count);
    }
  }

  // ----- The batch size does not show -----

  /**
   What a call comes to, one entry at a time from position `k`: pass what has expired, deliver what has not. The clock
   reading is that of the start of the call.
   */
  function Sweep(log: seq<Entry>, k: nat, at: int, s: Session): (r: Session)
    requires k <= |log|
    decreases |log| - k
  {
    if k == |log| then Session(s.cursor, Idle, s.handled)
    else if at <= log[k].exp then Session(log[k].id, Idle, s.handled + [Delivered(log[k], at)])
    else Sweep(log, k + 1, at, Session(log[k].id, Idle, s.handled + [Passed(log[k], at)]))
  }

  /** A stretch of expired entries at once. */
  lemma {:induction false} SweepStretch(log: seq<Entry>, k: nat, m: nat, at: int, s: Session)
    requires k + m <= |log| && forall i | k <= i < k + m :: log[i].exp < at
    ensures Sweep(log, k, at, s) ==
            Sweep(log, k + m, at, Session(if m == 0 then s.cursor else log[k + m - 1].id, Idle,
                                          s.handled + PassedAll(log[k..k + m], at)))
    decreases m
  {
    if m == 0 {
      assert s.handled + PassedAll(log[k..k], at) == s.handled;
    } else {
      var s1 := Session(log[k].id, Idle, s.handled + [Passed(log[k], at)]);
      SweepStretch(log, k + 1, m - 1, at, s1);
      assert s1.handled + PassedAll(log[k + 1..k + m], at) == s.handled + PassedAll(log[k..k + m], at);
    }
  }

  /** A stretch of expired entries with a live one behind it. */
  lemma SweepToLive(log: seq<Entry>, k: nat, n: nat, at: int, s: Session)
    requires k + n < |log| && at <= log[k + n].exp && forall i | k <= i < k + n :: log[i].exp < at
    ensures Sweep(log, k, at, s) ==
            Session(log[k + n].id, Idle, s.handled + PassedAll(log[k..k + n], at) + [Delivered(log[k + n], at)])
  {
    hide PassedAll;
    SweepStretch(log, k, n, at, s);
  }

  lemma SweepPc(log: seq<Entry>, k: nat, at: int, s: Session, pc: Pc)
    requires k <= |log|
    ensures Sweep(log, k, at, s) == Sweep(log, k, at, s.(pc := pc))
  {}

  /** Behind a stretch just after `last`, the next entry is the one after the stretch. */
  lemma AfterStretch(t: Topic, last: nat, k: nat, m: nat)
    requires TopicInv(t) && k == FirstAfter(t.log, t.gone, last) && 0 < m && k + m <= |t.log|
    ensures FirstAfter(t.log, t.gone, t.log[k + m - 1].id) == k + m
  {
    AfterIs(t, t.log[k + m - 1].id, k + m);
  }

  lemma AfterIs(t: Topic, last: nat, j: nat)
    requires TopicInv(t) && t.gone <= j <= |t.log|
    requires forall i | t.gone <= i < j :: t.log[i].id <= last
    requires j < |t.log| ==> t.log[j].id > last
    ensures FirstAfter(t.log, t.gone, last) == j
  {
    var k := FirstAfter(t.log, t.gone, last);
    assert !(k < j) && !(j < k);
  }

  /** From `s0` to `s` a consumer passed over everything from after the one cursor to the other, all of it expired. */
  predicate Passing(log: seq<Entry>, gone: nat, at: int, s0: Session, s: Session)
    requires gone <= |log|
  {
    var k, j := FirstAfter(log, gone, s0.cursor), FirstAfter(log, gone, s.cursor);
    && k <= j
    && (forall i | k <= i < j :: log[i].exp < at)
    && s.handled == s0.handled + PassedAll(log[k..j], at)
    && s.cursor == if k == j then s0.cursor else log[j - 1].id
  }

  /** What is in hand is the stretch just after the cursor. */
  predicate HandAhead(log: seq<Entry>, gone: nat, s: Session)
    requires gone <= |log|
  {
    s.pc.Writing? ==>
      var j, m := FirstAfter(log, gone, s.cursor), |InHand(s.pc)|;
      j + m <= |log| && InHand(s.pc) == log[j..j + m]
  }

  /** A call that began in `s0` with clock reading `at` has come to `s`, and goes on. */
  predicate Along(t: Topic, at: int, s0: Session, s: Session)
    requires t.gone <= |t.log|
  {
    !s.pc.Idle? && s.pc.at == at && HandInv(s.pc) && HandAhead(t.log, t.gone, s) && Passing(t.log, t.gone, at, s0, s)
  }

  lemma AlongAtStart(t: Topic, at: int, s: Session)
    requires t.gone <= |t.log| && s.pc == Reading(at)
    ensures Along(t, at, s, s)
  {
    var k := FirstAfter(t.log, t.gone, s.cursor);
    assert s.handled + PassedAll(t.log[k..k], at) == s.handled;
  }

  /** The first entry after an id, once the log has grown. */
  lemma AfterGrowth(log: seq<Entry>, e: Entry, gone: nat, last: nat)
    requires gone <= |log|
    ensures var k := FirstAfter(log, gone, last);
            FirstAfter(log + [e], gone, last) == if k < |log| || e.id > last then k else |log| + 1
    decreases |log| - gone
  {
    if gone < |log| && log[gone].id <= last {
      AfterGrowth(log, e, gone + 1, last);
    }
  }

  lemma PassingGrows(log: seq<Entry>, e: Entry, gone: nat, at: int, s0: Session, s: Session)
    requires gone <= |log| && Passing(log, gone, at, s0, s)
    requires gone < |log| ==> e.id > LastIdOf(log)
    ensures Passing(log + [e], gone, at, s0, s)
  {
    hide FirstAfter, PassedAll;
    AfterGrowth(log, e, gone, s0.cursor);
    AfterGrowth(log, e, gone, s.cursor);
    var k, j := FirstAfter(log, gone, s0.cursor), FirstAfter(log, gone, s.cursor);
    if k <= j <= |log| {
      SliceGrows(log, e, k, j);
    }
    if k == j == |log| && e.id <= s.cursor {
      assert (log + [e])[|log| + 1..|log| + 1] == log[k..j];
    }
  }

  lemma SliceGrows(log: seq<Entry>, e: Entry, k: nat, j: nat)
    requires k <= j <= |log|
    ensures (log + [e])[k..j] == log[k..j]
  {}

  lemma HandGrows(log: seq<Entry>, e: Entry, gone: nat, s: Session)
    requires gone <= |log| && HandAhead(log, gone, s) && HandInv(s.pc)
    ensures HandAhead(log + [e], gone, s)
  {
    hide FirstAfter, InHand;
    AfterGrowth(log, e, gone, s.cursor);
    if s.pc.Writing? {
      var j, m := FirstAfter(log, gone, s.cursor), |InHand(s.pc)|;
      SliceGrows(log, e, j, j + m);
    }
  }

  /** Publishes and time do not divert a call, nor does anything else but a lapse that takes something. */
  lemma AlongTopicStep(t: Topic, ev: Event, at: int, s0: Session, s: Session)
    requires TopicInv(t) && Along(t, at, s0, s) && StepTopic(t, ev).gone == t.gone
    ensures TopicInv(StepTopic(t, ev)) && Along(StepTopic(t, ev), at, s0, s)
  {
    hide Passing, HandAhead, HandInv, TopicInv;
    TopicStepKeeps(t, ev);
    GoneIsBounded(t);
    if ev.Xadd? && ev.id > LastId(t) {
      PassingGrows(t.log, Added(t, ev.id, ev.ttl, ev.payload), t.gone, at, s0, s);
      HandGrows(t.log, Added(t, ev.id, ev.ttl, ev.payload), t.gone, s);
    }
  }

  lemma PassingSweeps(log: seq<Entry>, gone: nat, at: int, s0: Session, s: Session)
    requires gone <= |log| && Passing(log, gone, at, s0, s)
    ensures Sweep(log, FirstAfter(log, gone, s0.cursor), at, s0) == Sweep(log, FirstAfter(log, gone, s.cursor), at, s)
  {
    hide Sweep, PassedAll, FirstAfter;
    var k, j := FirstAfter(log, gone, s0.cursor), FirstAfter(log, gone, s.cursor);
    SweepStretch(log, k, j - k, at, s0);
    SweepPc(log, j, at, s, Idle);
  }

  /** A read takes the call on, or ends it where the stream ends. */
  lemma AlongRead(t: Topic, at: int, s0: Session, s: Session, c: string, count: nat)
    requires TopicInv(t) && count > 0 && Along(t, at, s0, s) && s.pc.Reading?
    ensures var r := StepSession(t, s, Read(c), count);
            if r.pc.Idle? then r == Sweep(t.log, FirstAfter(t.log, t.gone, s0.cursor), at, s0)
            else r.pc.Writing? && Along(t, at, s0, r)
  {
    hide Xread, FirstAfter, StepSession, InHand, Passing, TopicInv, HandInv, Taken, Sweep;
    GoneIsBounded(t);
    if Xread(t, s.cursor, count) == [] {
      EmptyRead(t, s, c, count);
      BatchIsStretch(t, s.cursor, count);
      PassingSweeps(t.log, t.gone, at, s0, s);
      SweepEnd(t.log, at, s);
    } else {
      ReadTakes(t, s, c, count);
      SamePassing(t.log, t.gone, at, s0, s, StepSession(t, s, Read(c), count));
    }
  }

  lemma SweepEnd(log: seq<Entry>, at: int, s: Session)
    ensures Sweep(log, |log|, at, s) == Session(s.cursor, Idle, s.handled)
  {}

  lemma SamePassing(log: seq<Entry>, gone: nat, at: int, s0: Session, s: Session, r: Session)
    requires gone <= |log| && Passing(log, gone, at, s0, s) && r == s.(pc := r.pc)
    ensures Passing(log, gone, at, s0, r)
  {}

  /** What a write of the cursor records, in full. */
  lemma WriteRecords(t: Topic, s: Session, c: string, count: nat)
    requires t.gone <= |t.log| && s.pc.Writing? && HandInv(s.pc)
    ensures var r, es, m := StepSession(t, s, Write(c), count), InHand(s.pc), |InHand(s.pc)|;
            && m > 0 && r.cursor == es[m - 1].id
            && if s.pc.hit.None? then
                 && r.pc == Reading(s.pc.at) && r.handled == s.handled + PassedAll(es, s.pc.at)
                 && forall i | 0 <= i < m :: es[i].exp < s.pc.at
               else
                 && r.pc.Idle? && s.pc.at <= es[m - 1].exp
                 && r.handled == s.handled + PassedAll(es[..m - 1], s.pc.at) + [Delivered(es[m - 1], s.pc.at)]
                 && forall i | 0 <= i < m - 1 :: es[i].exp < s.pc.at
  {
    hide PassedAll;
    var es := InHand(s.pc);
    if s.pc.hit.None? {
      assert es == s.pc.expired;
    } else {
      assert es[..|es| - 1] == s.pc.expired && es[|es| - 1] == s.pc.hit.value;
    }
  }

  /** A write of the cursor takes the call on, or ends it with the first live entry. */
  lemma AlongWrite(t: Topic, at: int, s0: Session, s: Session, c: string, count: nat)
    requires TopicInv(t) && Along(t, at, s0, s) && s.pc.Writing?
    ensures t.gone <= |t.log|
    ensures var r := StepSession(t, s, Write(c), count);
            if r.pc.Idle? then r == Sweep(t.log, FirstAfter(t.log, t.gone, s0.cursor), at, s0)
            else r.pc.Reading? && Along(t, at, s0, r)
  {
    hide FirstAfter, StepSession, InHand, Passing, TopicInv, HandInv, Sweep, PassedAll;
    GoneIsBounded(t);
    WriteRecords(t, s, c, count);
    var j, m, r := FirstAfter(t.log, t.gone, s.cursor), |InHand(s.pc)|, StepSession(t, s, Write(c), count);
    if r.pc.Idle? {
      PassingSweeps(t.log, t.gone, at, s0, s);
      HitSweeps(t.log, j, InHand(s.pc), at, s, r);
    } else {
      AfterStretch(t, s.cursor, j, m);
      StretchExpired(t.log, j, InHand(s.pc), at, m);
      PassingOn(t.log, t.gone, at, s0, s, r, m);
      HandInvIdle(r.pc);
    }
  }

  lemma StretchExpired(log: seq<Entry>, j: nat, es: seq<Entry>, at: int, n: nat)
    requires j + |es| <= |log| && es == log[j..j + |es|] && n <= |es| && forall i | 0 <= i < n :: es[i].exp < at
    ensures forall i | j <= i < j + n :: log[i].exp < at
    ensures es[..n] == log[j..j + n] && (n < |es| ==> es[n] == log[j + n])
    ensures es != [] ==> es[|es| - 1] == log[j + |es| - 1]
  {
    forall i | j <= i < j + n ensures log[i].exp < at {
      assert log[i] == es[i - j];
    }
  }

  /** A call that ends with the last entry in hand, and passes over the others. */
  lemma HitSweeps(log: seq<Entry>, j: nat, es: seq<Entry>, at: int, s: Session, r: Session)
    requires es != [] && j + |es| <= |log| && es == log[j..j + |es|] && at <= es[|es| - 1].exp
    requires forall i | 0 <= i < |es| - 1 :: es[i].exp < at
    requires r == Session(es[|es| - 1].id, Idle,
                          s.handled + PassedAll(es[..|es| - 1], at) + [Delivered(es[|es| - 1], at)])
    ensures r == Sweep(log, j, at, s)
  {
    hide *;
    StretchExpired(log, j, es, at, |es| - 1);
    SweepToLive(log, j, |es| - 1, at, s);
  }

  lemma PassingOn(log: seq<Entry>, gone: nat, at: int, s0: Session, s: Session, r: Session, m: nat)
    requires gone <= |log| && Passing(log, gone, at, s0, s) && 0 < m
    requires var j := FirstAfter(log, gone, s.cursor);
             && j + m <= |log| && r.handled == s.handled + PassedAll(log[j..j + m], at)
             && (forall i | j <= i < j + m :: log[i].exp < at)
             && r.cursor == log[j + m - 1].id && FirstAfter(log, gone, r.cursor) == j + m
    ensures Passing(log, gone, at, s0, r)
  {
    hide FirstAfter, PassedAll;
    var k, j := FirstAfter(log, gone, s0.cursor), FirstAfter(log, gone, s.cursor);
    assert log[k..j + m] == log[k..j] + log[j..j + m];
    PassedAppend(log[k..j], log[j..j + m], at);
  }

  lemma PassedAppend(a: seq<Entry>, b: seq<Entry>, at: int)
    ensures PassedAll(a + b, at) == PassedAll(a, at) + PassedAll(b, at)
  {}

  /** Consumer `c` is in a call, and stays in it through all the events. */
  ghost predicate InCall(s: State, evs: seq<Event>, count: nat, c: string)
    requires s.topic.gone <= |s.topic.log|
    decreases |evs|
  {
    !SessionOf(Run(s, evs, count), c).pc.Idle? && (evs == [] || InCall(s, evs[..|evs| - 1], count, c))
  }

  lemma GoneGrows(s: State, ev: Event, count: nat)
    requires TopicInv(s.topic)
    ensures s.topic.gone <= Step(s, ev, count).topic.gone && TopicInv(Step(s, ev, count).topic)
  {
    hide StepSession;
    TopicStepKeeps(s.topic, ev);
  }

  lemma {:induction false} GoneGrowsInRun(s: State, evs: seq<Event>, count: nat)
    requires TopicInv(s.topic)
    ensures s.topic.gone <= Run(s, evs, count).topic.gone && TopicInv(Run(s, evs, count).topic)
  {
    hide Step, TopicInv;
    GoneIsBounded(s.topic);
    if evs != [] {
      GoneGrowsInRun(s, evs[..|evs| - 1], count);
      GoneGrows(Run(s, evs[..|evs| - 1], count), evs[|evs| - 1], count);
    }
  }

  /** One step of anybody, seen from a call of `c`: it goes on, or ends as the sweep does. */
  lemma AlongStep(s: State, ev: Event, count: nat, c: string, at: int, s0: Session)
    requires TopicInv(s.topic) && count > 0 && Along(s.topic, at, s0, SessionOf(s, c))
    requires Step(s, ev, count).topic.gone == s.topic.gone
    ensures var r := Step(s, ev, count);
            if SessionOf(r, c).pc.Idle?
            then SessionOf(r, c) == Sweep(r.topic.log, FirstAfter(r.topic.log, r.topic.gone, s0.cursor), at, s0)
            else Along(r.topic, at, s0, SessionOf(r, c))
  {
    hide Along, TopicInv, StepTopic, Sweep, FirstAfter, Xread, LiveAt, PassedAll;
    GoneIsBounded(s.topic);
    var was := SessionOf(s, c);
    AlongIsBusy(s.topic, at, s0, was);
    if !IsCall(ev) {
      AlongTopicStep(s.topic, ev, at, s0, was);
    } else if ev.consumer == c {
      if ev.Read? && was.pc.Reading? {
        AlongRead(s.topic, at, s0, was, c, count);
      } else if ev.Write? && was.pc.Writing? {
        AlongWrite(s.topic, at, s0, was, c, count);
      }
    }
  }

  lemma AlongIsBusy(t: Topic, at: int, s0: Session, s: Session)
    requires t.gone <= |t.log| && Along(t, at, s0, s)
    ensures !s.pc.Idle?
  {}

  lemma {:induction false} AlongRun(s: State, evs: seq<Event>, count: nat, c: string, at: int)
    requires TopicInv(s.topic) && count > 0 && SessionOf(s, c).pc == Reading(at)
    requires s.topic.gone <= |s.topic.log| && InCall(s, evs, count, c)
    requires Run(s, evs, count).topic.gone == s.topic.gone
    ensures Along(Run(s, evs, count).topic, at, SessionOf(s, c), SessionOf(Run(s, evs, count), c))
  {
    hide Step, TopicInv, Along, SessionOf;
    if evs == [] {
      AlongAtStart(s.topic, at, SessionOf(s, c));
    } else {
      var front, ev := evs[..|evs| - 1], evs[|evs| - 1];
      GoneGrowsInRun(s, front, count);
      GoneGrows(Run(s, front, count), ev, count);
      AlongRun(s, front, count, c, at);
      AlongStep(Run(s, front, count), ev, count, c, at, SessionOf(s, c));
    }
  }

  /**
   In every run: from the start of a call to its end, with publishes, time, clock changes, other consumers and lapses
   of an empty key in between, the call comes to what going entry by entry through the stream as it is at the end comes
   to. So the batch size shows neither in the cursor nor in the history nor in the answer, unless a lapse took
   something from the stream in the meantime.
   */
  lemma BatchDoesNotShow(s: State, evs: seq<Event>, count: nat, c: string, at: int)
    requires TopicInv(s.topic) && count > 0 && SessionOf(s, c).pc == Reading(at)
    requires s.topic.gone <= |s.topic.log| && evs != [] && InCall(s, evs[..|evs| - 1], count, c)
    ensures var r, s0 := Run(s, evs, count), SessionOf(s, c);
            SessionOf(r, c).pc.Idle? && r.topic.gone == s.topic.gone ==>
              SessionOf(r, c) == Sweep(r.topic.log, FirstAfter(r.topic.log, r.topic.gone, s0.cursor), at, s0)
  {
    hide Step, TopicInv, Along, SessionOf, InCall, Sweep, FirstAfter;
    var front, ev := evs[..|evs| - 1], evs[|evs| - 1];
    GoneGrowsInRun(s, front, count);
    GoneGrows(Run(s, front, count), ev, count);
    if Run(s, evs, count).topic.gone == s.topic.gone {
      AlongRun(s, front, count, c, at);
      AlongStep(Run(s, front, count), ev, count, c, at, SessionOf(s, c));
    }
  }

  /**
   A lapse inside a call is the exception. A consumer that reads one entry at a time finds nothing once the key lapsed
   after its first read; with two entries at a time it has the live second one in hand by then, and delivers it.
   */
  lemma LapseShowsBatch()
    ensures var before := [Xadd(1, 0, []), Expire, Tick(604799), Start("c"), Xadd(2, 100, [])] + [Tick(1)];
            var call := [Read("c"), Lapse, Write("c"), Read("c")];
            var first, second := Entry(1, 0, 0, []), Entry(2, 604799, 604899, []);
            var at := 604799;
            && Run(Initial(0), before, 1) == Run(Initial(0), before, 2)
            && var s := Run(Initial(0), before, 1);
            && Inv(s) && SessionOf(s, "c").pc == Reading(at)
            && SessionOf(Run(s, call, 1), "c") == Session(1, Idle, [Passed(first, at)])
            && SessionOf(Run(s, call, 2), "c") == Session(2, Idle, [Passed(first, at), Delivered(second, at)])
  {
    hide Run, Inv, Step, StepSession, StepTopic;
    var before := [Xadd(1, 0, []), Expire, Tick(604799), Start("c"), Xadd(2, 100, [])] + [Tick(1)];
    InitialInv(0);
    RunKeeps(Initial(0), before, 1);
    LapseSetting(1);
    LapseSetting(2);
    LapseOutcome();
  }

  const LAPSING: Topic := Topic([Entry(1, 0, 0, []), Entry(2, 604799, 604899, [])], 0, Some(604800), 1, 604800)

  lemma LapseSetting(count: nat)
    ensures var before := [Xadd(1, 0, []), Expire, Tick(604799), Start("c"), Xadd(2, 100, [])] + [Tick(1)];
            Run(Initial(0), before, count) == State(LAPSING, map["c" := Session(0, Reading(604799), [])])
  {
    hide Run, StepSession;
    var front := [Xadd(1, 0, []), Expire, Tick(604799), Start("c"), Xadd(2, 100, [])];
    RunFive(Initial(0), Xadd(1, 0, []), Expire, Tick(604799), Start("c"), Xadd(2, 100, []), count);
    RunSnoc(Initial(0), front, Tick(1), count);
    var first := Entry(1, 0, 0, []);
    var t1, t2 := Topic([first], 0, None, 0, 0), Topic([first], 0, Some(604800), 1, 604799);
    assert Step(Initial(0), Xadd(1, 0, []), count) == State(t1, map[]);
    assert Step(Step(State(t1, map[]), Expire, count), Tick(604799), count) == State(t2, map[]);
    LapseStart(t2, count);
  }

  lemma LapseStart(t: Topic, count: nat)
    requires t == Topic([Entry(1, 0, 0, [])], 0, Some(604800), 1, 604799)
    ensures var s := State(t, map["c" := Session(0, Reading(604799), [])]);
            && Step(State(t, map[]), Start("c"), count) == s
            && Step(Step(s, Xadd(2, 100, []), count), Tick(1), count) == State(LAPSING, s.sessions)
  {
    assert StepSession(t, Session(0, Idle, []), Start("c"), count) == Session(0, Reading(604799), []);
    hide StepSession;
    assert Added(t, 2, 100, []) == Entry(2, 604799, 604899, []);
  }

  lemma LapseOutcome()
    ensures var s := State(LAPSING, map["c" := Session(0, Reading(604799), [])]);
            var call := [Read("c"), Lapse, Write("c"), Read("c")];
            var first, second, at := LAPSING.log[0], LAPSING.log[1], 604799;
            && SessionOf(Run(s, call, 1), "c") == Session(1, Idle, [Passed(first, at)])
            && SessionOf(Run(s, call, 2), "c") == Session(2, Idle, [Passed(first, at), Delivered(second, at)])
  {
    hide Run, StepSession, StepTopic;
    var s := State(LAPSING, map["c" := Session(0, Reading(604799), [])]);
    RunFour(s, Read("c"), Lapse, Write("c"), Read("c"), 1);
    RunFour(s, Read("c"), Lapse, Write("c"), Read("c"), 2);
    LapseSteps();
  }

  lemma LapseSteps()
    ensures var t, s, at := LAPSING, Session(0, Reading(604799), []), 604799;
            var first, second, r := t.log[0], t.log[1], StepTopic(t, Lapse);
            && t.gone <= |t.log| && r.gone <= |r.log|
            && var one, two := StepSession(t, s, Read("c"), 1), StepSession(t, s, Read("c"), 2);
            && StepSession(r, StepSession(r, one, Write("c"), 1), Read("c"), 1) == Session(1, Idle, [Passed(first, at)])
            && StepSession(r, StepSession(r, two, Write("c"), 2), Read("c"), 2)
               == Session(2, Idle, [Passed(first, at), Delivered(second, at)])
  {
    hide Xread, LiveAt, FirstAfter;
    LapseBatches();
    var t, s, at := LAPSING, Session(0, Reading(604799), []), 604799;
    var first, second, r := t.log[0], t.log[1], StepTopic(t, Lapse);
    assert r == t.(gone := 2, expiry := None);
    hide StepTopic;
    assert PassedAll([first], at) == [Passed(first, at)];
    assert StepSession(t, s, Read("c"), 1) == s.(pc := Writing(at, [first], None));
    assert StepSession(t, s, Read("c"), 2) == s.(pc := Writing(at, [first], Some(second)));
  }

  lemma LapseBatches()
    ensures var t, at := LAPSING, 604799;
            var first, second := t.log[0], t.log[1];
            && Xread(t, 0, 1) == [first] && LiveAt([first], at) == 1 && [first][..1] == [first]
            && Xread(t, 0, 2) == [first, second] && LiveAt([first, second], at) == 1 && [first, second][..1] == [first]
            && Xread(t.(gone := 2, expiry := None), 1, 1) == []
  {
    var t, at := LAPSING, 604799;
    var first, second := t.log[0], t.log[1];
    assert FirstAfter(t.log, 0, 0) == 0 && FirstAfter(t.log, 2, 1) == 2;
    hide FirstAfter;
    assert [first, second][1..] == [second] && LiveAt([second], at) == 0;
  }

  // ----- A call on its own -----

  /** A read and a write that do not end a call move its cursor on. */
  lemma TurnAdvances(t: Topic, s: Session, count: nat)
    requires TopicInv(t) && s.pc.Reading? && count > 0
    ensures t.gone <= |t.log|
    ensures var a := StepSession(t, s, Read(""), count);
            var b := StepSession(t, a, Write(""), count);
            !a.pc.Idle? && !b.pc.Idle? ==>
              b.pc.Reading? && FirstAfter(t.log, t.gone, s.cursor) < FirstAfter(t.log, t.gone, b.cursor)
  {
    hide Xread, FirstAfter, StepSession, InHand, TopicInv, HandInv, Taken, PassedAll;
    GoneIsBounded(t);
    var a := StepSession(t, s, Read(""), count);
    if Xread(t, s.cursor, count) == [] {
      EmptyRead(t, s, "", count);
    } else {
      ReadTakes(t, s, "", count);
      WriteRecords(t, a, "", count);
      var k, m := FirstAfter(t.log, t.gone, s.cursor), |InHand(a.pc)|;
      assert InHand(a.pc)[m - 1] == t.log[k + m - 1];
      AfterStretch(t, s.cursor, k, m);
    }
  }

  /** A call with nothing happening in between: read, write, and again until there is an answer. */
  function Alone(t: Topic, s: Session, count: nat): (r: Session)
    requires TopicInv(t) && s.pc.Reading? && count > 0
    decreases |t.log| - FirstAfter(t.log, t.gone, s.cursor)
  {
    var a := StepSession(t, s, Read(""), count);
    if a.pc.Idle? then a
    else
      var b := StepSession(t, a, Write(""), count);
      if b.pc.Idle? then b
      else
        TurnAdvances(t, s, count);
        Alone(t, b, count)
  }

  lemma {:induction false} AloneGoesOn(t: Topic, at: int, s0: Session, s: Session, count: nat)
    requires TopicInv(t) && count > 0 && Along(t, at, s0, s) && s.pc.Reading?
    ensures t.gone <= |t.log|
    ensures Alone(t, s, count) == Sweep(t.log, FirstAfter(t.log, t.gone, s0.cursor), at, s0)
    decreases |t.log| - FirstAfter(t.log, t.gone, s.cursor)
  {
    hide StepSession, TopicInv, Along, Sweep, FirstAfter;
    GoneIsBounded(t);
    AlongRead(t, at, s0, s, "", count);
    var a := StepSession(t, s, Read(""), count);
    if !a.pc.Idle? {
      AlongWrite(t, at, s0, a, "", count);
      var b := StepSession(t, a, Write(""), count);
      if !b.pc.Idle? {
        TurnAdvances(t, s, count);
        AloneGoesOn(t, at, s0, b, count);
      }
    }
  }

  /** Every call on its own ends, and comes to the same for every batch size. */
  lemma AloneSweeps(t: Topic, s: Session, count: nat)
    requires TopicInv(t) && s.pc.Reading? && count > 0
    ensures t.gone <= |t.log|
    ensures Alone(t, s, count) == Sweep(t.log, FirstAfter(t.log, t.gone, s.cursor), s.pc.at, s)
  {
    hide Alone, TopicInv, Along, Sweep, FirstAfter;
    GoneIsBounded(t);
    AlongAtStart(t, s.pc.at, s);
    AloneGoesOn(t, s.pc.at, s, s, count);
  }

  // ----- The seven-day expiry of the key -----

  /** The clock is never set back. */
  predicate Forward(now: int, evs: seq<Event>)
  {
    evs == []
    || (Forward(now, evs[..|evs| - 1])
        && (evs[|evs| - 1].Jump? ==> evs[|evs| - 1].to >= Clock(now, evs[..|evs| - 1])))
  }

  /** Entries present at the last EXPIRE do not outlive the key; no entry outlives the clock by more than seven days. */
  predicate ExpiryInv(t: Topic)
  {
    && t.gone <= |t.log| && t.covered <= |t.log|
    && (forall i | 0 <= i < |t.log| :: t.log[i].exp <= t.now + MAX_TTL)
    && (t.gone < t.covered ==> t.expiry.Some?)
    && (t.expiry.Some? ==> forall i | t.gone <= i < t.covered :: t.log[i].exp <= t.expiry.value)
  }

  lemma ExpiryStep(t: Topic, ev: Event)
    requires ExpiryInv(t) && (ev.Jump? ==> ev.to >= t.now)
    ensures ExpiryInv(StepTopic(t, ev))
  {
    var r := StepTopic(t, ev);
    assert r.now >= t.now && t.log <= r.log;
    forall i | 0 <= i < |r.log| ensures r.log[i].exp <= r.now + MAX_TTL {
      if i < |t.log| {
        assert r.log[i] == t.log[i] && t.log[i].exp <= t.now + MAX_TTL;
      } else {
        assert ev.Xadd? && r.now == t.now;
        assert r.log[i] == Added(t, ev.id, ev.ttl, ev.payload);
      }
    }
    if r.expiry.Some? {
      forall i | r.gone <= i < r.covered ensures r.log[i].exp <= r.expiry.value {
        assert r.log[i] == t.log[i];
      }
    }
  }

  /** The key outlives every entry that was there at the last EXPIRE, in every run that never sets the clock back. */
  lemma {:induction false} ExpiryKept(now: int, evs: seq<Event>, count: nat)
    ensures Forward(now, evs) ==> ExpiryInv(Run(Initial(now), evs, count).topic)
  {
    hide ExpiryInv, StepTopic, Clock;
    if evs == [] {
      RunNone(Initial(now), count);
      ExpiryAtStart(now);
    } else if Forward(now, evs) {
      ExpiryKept(now, evs[..|evs| - 1], count);
      ClockOfRun(now, evs[..|evs| - 1], count);
      ExpiryStep(Run(Initial(now), evs[..|evs| - 1], count).topic, evs[|evs| - 1]);
    }
  }

  lemma ExpiryAtStart(now: int)
    ensures ExpiryInv(Initial(now).topic)
  {}

  /** The clamp: no expiry is more than seven days after the clock reading of its publish. */
  predicate ClampInv(t: Topic)
  {
    && t.gone <= |t.log|
    && forall i | 0 <= i < |t.log| :: t.log[i].exp <= t.log[i].added + MAX_TTL
  }

  lemma ClampStep(t: Topic, ev: Event)
    requires ClampInv(t)
    ensures ClampInv(StepTopic(t, ev))
  {}

  lemma {:induction false} ClampKept(now: int, evs: seq<Event>, count: nat)
    ensures ClampInv(Run(Initial(now), evs, count).topic)
  {
    hide ClampInv, StepTopic;
    if evs == [] {
      RunNone(Initial(now), count);
      ClampAtStart(now);
    } else {
      ClampKept(now, evs[..|evs| - 1], count);
      ClampStep(Run(Initial(now), evs[..|evs| - 1], count).topic, evs[|evs| - 1]);
    }
  }

  lemma ClampAtStart(now: int)
    ensures ClampInv(Initial(now).topic)
  {}

  /** A lapse of the key now would take entry `i` before its own expiry. */
  predicate TakesLive(t: Topic, i: nat)
  {
    t.gone <= i < StepTopic(t, Lapse).gone && i < |t.log| && t.now < t.log[i].exp
  }

  /**
   In every run, whatever the clock did: a lapse takes entries before their own expiry only if their publish read a
   later clock than the last EXPIRE did, which set the expiry of the key seven days ahead of its reading.
   */
  lemma LapseTakesLateOnly(now: int, evs: seq<Event>, count: nat, i: nat)
    ensures var t := Run(Initial(now), evs, count).topic;
            TakesLive(t, i) ==> t.expiry.Some? && t.log[i].added > t.expiry.value - MAX_TTL
  {
    hide Run;
    ClampKept(now, evs, count);
  }

  /** In every run, a lapse takes a live entry exactly if one whose publish read a later clock is still live. */
  lemma LapseLosesLiveIff(now: int, evs: seq<Event>, count: nat)
    ensures var t := Run(Initial(now), evs, count).topic;
            (exists i: nat :: TakesLive(t, i))
            <==> t.expiry.Some? && t.expiry.value <= t.now
                 && exists i | t.gone <= i < |t.log| ::
                      t.log[i].added > t.expiry.value - MAX_TTL && t.now < t.log[i].exp
  {
    hide Run;
    ClampKept(now, evs, count);
    var t := Run(Initial(now), evs, count).topic;
    if i: nat :| TakesLive(t, i) {
      LapseTakesLateOnly(now, evs, count, i);
    } else if t.expiry.Some? && t.expiry.value <= t.now {
      forall i: nat | t.gone <= i < |t.log| ensures t.now >= t.log[i].exp {
        assert !TakesLive(t, i);
      }
    }
  }

  predicate NoExpire(evs: seq<Event>) { Expire !in evs }

  /** Until the next EXPIRE, whatever happens, the key could lapse with entry `i` before the entry's own expiry. */
  ghost predicate MayTakeLive(s: State, i: nat, count: nat)
    requires s.topic.gone <= |s.topic.log|
  {
    exists evs :: NoExpire(evs) && TakesLive(Run(s, evs, count).topic, i)
  }

  /**
   At an EXPIRE: before the next one, some lapse can take an entry of the stream before the entry's own expiry exactly
   if that expiry is beyond the one the key gets, seven days from the clock reading of the EXPIRE.
   */
  lemma ExpireCoversIff(s: State, i: nat, count: nat)
    requires s.topic.gone <= i < |s.topic.log|
    ensures MayTakeLive(Step(s, Expire, count), i, count) <==> s.topic.log[i].exp > s.topic.now + MAX_TTL
  {
    var t, r := s.topic, Step(s, Expire, count);
    if t.log[i].exp > t.now + MAX_TTL {
      var evs := [Tick(MAX_TTL)];
      RunNone(r, count);
      RunSnoc(r, [], Tick(MAX_TTL), count);
      assert [] + [Tick(MAX_TTL)] == evs;
      assert NoExpire(evs) && TakesLive(Run(r, evs, count).topic, i);
    }
    forall evs | NoExpire(evs) && TakesLive(Run(r, evs, count).topic, i) ensures t.log[i].exp > t.now + MAX_TTL {
      ExpiryStays(r, evs, count);
    }
  }

  /** Without another EXPIRE the expiry of the key stays until it lapses; what is in the log stays as it is. */
  lemma {:induction false} ExpiryStays(s: State, evs: seq<Event>, count: nat)
    requires s.topic.gone <= |s.topic.log| && NoExpire(evs)
    ensures var t := Run(s, evs, count).topic;
            s.topic.log <= t.log && (t.expiry == s.topic.expiry || t.expiry == None)
  {
    hide StepSession;
    if evs != [] {
      assert evs[|evs| - 1] in evs;
      ExpiryStays(s, evs[..|evs| - 1], count);
    }
  }

  /** An entry that an EXPIRE covered has reached its own expiry when the key lapses, unless the clock was set back. */
  lemma LapseLosesNothingLive(now: int, evs: seq<Event>, count: nat)
    ensures var t := Run(Initial(now), evs, count).topic;
            forall i: nat :: TakesLive(t, i) && i < t.covered ==> !Forward(now, evs)
  {
    ExpiryKept(now, evs, count);
    hide Run;
  }

  /**
   Not so if the clock is set back: a publish at 1000, another at 0 after the clock was set back, and the key lapses
   seven days later with the first entry, whose publish was finished, 1000 seconds before its expiry.
   */
  lemma ClockBackLosesLive()
    ensures var evs := [Xadd(1, 604800, []), Expire, Jump(0), Xadd(2, 0, []), Expire] + [Tick(604800)];
            var t := Run(Initial(1000), evs, BATCH).topic;
            TakesLive(t, 0) && t.covered == 2 && t.log[0].exp == t.now + 1000
  {
    hide Run, StepTopic, MAX_TTL;
    var front := [Xadd(1, 604800, []), Expire, Jump(0), Xadd(2, 0, []), Expire];
    RunFive(Initial(1000), Xadd(1, 604800, []), Expire, Jump(0), Xadd(2, 0, []), Expire, BATCH);
    RunSnoc(Initial(1000), front, Tick(604800), BATCH);
    ClockBackTopics();
  }

  lemma ClockBackTopics()
    ensures var first := StepTopic(Topic([], 0, None, 0, 1000), Xadd(1, 604800, []));
            var t := StepTopic(StepTopic(StepTopic(StepTopic(first, Expire), Jump(0)), Xadd(2, 0, [])), Expire);
            var r := Topic([Entry(1, 1000, 605800, []), Entry(2, 0, 0, [])], 0, Some(604800), 2, 604800);
            StepTopic(t, Tick(604800)) == r && TakesLive(r, 0)
  {}

  /** Between the XADD and the EXPIRE of a publish the old expiry still runs, and can take the new entry. */
  lemma LapseInsidePublish()
    ensures var evs := [Xadd(1, 0, []), Expire, Tick(604800), Xadd(2, 100, []), Lapse];
            var t := Run(Initial(0), evs, 1).topic;
            Forward(0, evs) && t.gone == 2 && t.covered == 1 && t.log[1].exp == t.now + 100
  {
    hide StepTopic, Run, MAX_TTL;
    RunFive(Initial(0), Xadd(1, 0, []), Expire, Tick(604800), Xadd(2, 100, []), Lapse, 1);
    FiveTopics();
    NoJumpIsForward(0, [Xadd(1, 0, []), Expire, Tick(604800), Xadd(2, 100, []), Lapse]);
  }

  lemma {:induction false} NoJumpIsForward(now: int, evs: seq<Event>)
    requires forall ev | ev in evs :: !ev.Jump?
    ensures Forward(now, evs)
  {
    hide Clock;
    if evs != [] {
      assert evs[|evs| - 1] in evs;
      NoJumpIsForward(now, evs[..|evs| - 1]);
    }
  }

  lemma FiveTopics()
    ensures var t := StepTopic(StepTopic(StepTopic(StepTopic(Topic([], 0, None, 0, 0), Xadd(1, 0, [])), Expire),
                                         Tick(604800)), Xadd(2, 100, []));
            && t == Topic([Entry(1, 0, 0, []), Entry(2, 604800, 604900, [])], 0, Some(604800), 1, 604800)
            && StepTopic(t, Lapse) == Topic(t.log, 2, None, 1, 604800)
  {}

  lemma RunNone(s: State, count: nat)
    requires s.topic.gone <= |s.topic.log|
    ensures Run(s, [], count) == s
  {}

  // ----- Runs, step by step -----

  lemma RunSnoc(s: State, evs: seq<Event>, ev: Event, count: nat)
    requires s.topic.gone <= |s.topic.log|
    ensures Run(s, evs + [ev], count) == Step(Run(s, evs, count), ev, count)
  {
    assert (evs + [ev])[..|evs|] == evs;
  }

  lemma RunTwo(s: State, a: Event, b: Event, count: nat)
    requires s.topic.gone <= |s.topic.log|
    ensures Run(s, [a, b], count) == Step(Step(s, a, count), b, count)
  {
    hide Run, Step;
    RunNone(s, count);
    RunSnoc(s, [], a, count);
    RunSnoc(s, [a], b, count);
    assert [] + [a] == [a] && [a] + [b] == [a, b];
  }

  lemma RunThree(s: State, a: Event, b: Event, c: Event, count: nat)
    requires s.topic.gone <= |s.topic.log|
    ensures Run(s, [a, b, c], count) == Step(Step(Step(s, a, count), b, count), c, count)
  {
    hide Run, Step;
    RunTwo(s, a, b, count);
    RunSnoc(s, [a, b], c, count);
    assert [a, b] + [c] == [a, b, c];
  }

  lemma RunFour(s: State, a: Event, b: Event, c: Event, d: Event, count: nat)
    requires s.topic.gone <= |s.topic.log|
    ensures Run(s, [a, b, c, d], count) == Step(Step(Step(Step(s, a, count), b, count), c, count), d, count)
  {
    hide Run, Step;
    RunThree(s, a, b, c, count);
    RunSnoc(s, [a, b, c], d, count);
    assert [a, b, c] + [d] == [a, b, c, d];
  }

  lemma RunFive(s: State, a: Event, b: Event, c: Event, d: Event, e: Event, count: nat)
    requires s.topic.gone <= |s.topic.log|
    ensures Run(s, [a, b, c, d, e], count) ==
            Step(Step(Step(Step(Step(s, a, count), b, count), c, count), d, count), e, count)
  {
    hide Run, Step;
    RunFour(s, a, b, c, d, count);
    RunSnoc(s, [a, b, c, d], e, count);
    assert [a, b, c, d] + [e] == [a, b, c, d, e];
  }

  lemma {:induction false} RunAppend(s: State, a: seq<Event>, b: seq<Event>, count: nat)
    requires s.topic.gone <= |s.topic.log|
    ensures Run(s, a + b, count) == Run(Run(s, a, count), b, count)
  {
    if b == [] {
      assert a + b == a;
    } else {
      RunAppend(s, a, b[..|b| - 1], count);
      assert (a + b)[..|a + b| - 1] == a + b[..|b| - 1];
    }
  }

  /** A consumer's commands change nothing that another consumer, or a publisher, reads. */
  lemma OthersDoNotShow(s: State, ev: Event, c: string, count: nat)
    requires s.topic.gone <= |s.topic.log| && IsCall(ev) && ev.consumer != c
    ensures Step(s, ev, count).topic == s.topic && SessionOf(Step(s, ev, count), c) == SessionOf(s, c)
  {}
}
