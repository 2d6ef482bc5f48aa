/** The tlsmgr event loop: cache sweeps interleaved with client requests, on one clock. */
module TlsmgrDaemon {
  import opened Machine
  import opened SessionEntry
  import opened TlsScache

  // ---------- one cache under the event discipline ----------

  datatype Manager = Manager(cache: Cache, active: bool)

  // The times are those of the clock readings an event makes: at the scan, then at the delete behind.
  datatype Event =
    | Timer(scan: int, after: int)
    | LoopPass(scan: int, after: int)
    | LookupRequest(id: Id, at: int)
    | UpdateRequest(id: Id, session: seq<byte>, saved: time)
    | DeleteRequest(id: Id)

  /** FIRST only when no sweep is active, NEXT only when one is. */
  function Step(m: Manager, e: Event): Manager {
    match e
    case Timer(scan, after) =>
      if m.active then m else Manager(Sequence(m.cache, First, scan, after), SequenceFound(m.cache, First))
    case LoopPass(scan, after) =>
      if m.active then Manager(Sequence(m.cache, Next, scan, after), SequenceFound(m.cache, Next)) else m
    case LookupRequest(id, at) => m.(cache := Lookup(m.cache, id, at))
    case UpdateRequest(id, session, saved) => m.(cache := Update(m.cache, id, session, saved))
    case DeleteRequest(id) => m.(cache := Delete(m.cache, id))
  }

  function Run(m: Manager, es: seq<Event>): Manager {
    if es == [] then m else Step(Run(m, es[..|es| - 1]), es[|es| - 1])
  }

  /** During a sweep the dictionary stands on a present entry, which is the saved cursor; otherwise both are clear. */
  ghost predicate Disciplined(m: Manager) {
    var c := m.cache;
    && (c.delSaved ==> c.saved.Some?)
    && c.saved == c.cursor
    && (m.active <==> c.cursor.Some?)
    && (c.cursor.Some? ==> c.cursor.value in c.db)
  }

  lemma StepKeepsDiscipline(m: Manager, e: Event)
    requires Disciplined(m)
    ensures Disciplined(Step(m, e))
  {
    match e
    case Timer(scan, after) =>
    case LoopPass(scan, after) =>
      if m.active {
        SequenceRemovesOnlyDead(m.cache, Next, scan, after, m.cache.cursor.value);
      }
    case LookupRequest(id, at) =>
    case UpdateRequest(id, session, saved) =>
    case DeleteRequest(id) =>
  }

  /** No interleaving removes the entry the cursor stands on; the flag needs a cursor; both clear when a sweep ends. */
  lemma {:induction false} CursorIsNeverRemoved(m: Manager, es: seq<Event>)
    requires Disciplined(m)
    ensures Disciplined(Run(m, es))
  {
    if es != [] {
      CursorIsNeverRemoved(m, es[..|es| - 1]);
      StepKeepsDiscipline(Run(m, es[..|es| - 1]), es[|es| - 1]);
    }
  }

  /** Without the discipline: exactly when a sequence call removes the entry it has just moved the cursor to. */
  lemma SequenceRemovesItsCursorIff(c: Cache, dir: Direction, scan: int, after: int)
    requires DictSeq(c, dir).Some?
    ensures DictSeq(c, dir).value !in Sequence(c, dir, scan, after).db
       <==> c.delSaved && c.saved == DictSeq(c, dir) && !Live(c.db[DictSeq(c, dir).value], c.timeout, after)
  {
    SequenceRemovesOnlyDead(c, dir, scan, after, DictSeq(c, dir).value);
  }

  /** Restarting a sweep that stands on a dead first entry does remove it under the cursor. */
  lemma RestartRemovesCursor()
    ensures var c := Cache(map[1 := []], Some(1), Some(1), true, 100);
            && Disciplined(Manager(c, true))
            && Sequence(c, First, 0, 0).cursor == Some(1) && 1 !in Sequence(c, First, 0, 0).db
  {
    var c := Cache(map[1 := []], Some(1), Some(1), true, 100);
    assert 1 in c.db && Above(1, None);
    SequenceRemovesOnlyDead(c, First, 0, 0, 1);
  }

  // ---------- what a sweep has done when it ends ----------

  // The bookkeeping of one sweep: the latest clock reading, when the sweep started, the ids saved since
  // then, and the ids that were dead when scanned and not saved again since.
  datatype Sweep = Sweep(m: Manager, now: int, start: int, saved: set<Id>, condemned: set<Id>)

  /** The clock does not run backwards. */
  predicate Timely(s: Sweep, e: Event) {
    match e
    case Timer(scan, after) => s.now <= scan <= after
    case LoopPass(scan, after) => s.now <= scan <= after
    case LookupRequest(_, at) => s.now <= at
    case UpdateRequest(_, _, saved) => s.now <= saved
    case DeleteRequest(_) => true
  }

  function Scanned(c: Cache, dir: Direction, scan: int): set<Id> {
    var member := DictSeq(c, dir);
    if member.Some? && !Live(c.db[member.value], c.timeout, scan) then {member.value} else {}
  }

  function SweepStep(s: Sweep, e: Event): Sweep {
    var m' := Step(s.m, e);
    match e
    case Timer(scan, after) =>
      if s.m.active then s.(now := after) else Sweep(m', after, scan, {}, Scanned(s.m.cache, First, scan))
    case LoopPass(scan, after) =>
      if s.m.active then s.(m := m', now := after, condemned := s.condemned + Scanned(s.m.cache, Next, scan))
      else s.(now := after)
    case LookupRequest(_, at) => s.(m := m', now := at)
    case UpdateRequest(id, _, saved) => s.(m := m', now := saved, saved := s.saved + {id}, condemned := s.condemned - {id})
    case DeleteRequest(_) => s.(m := m')
  }

  ghost predicate TimelyRun(s: Sweep, es: seq<Event>) {
    es != [] ==> TimelyRun(s, es[..|es| - 1]) && Timely(SweepRun(s, es[..|es| - 1]), es[|es| - 1])
  }

  function SweepRun(s: Sweep, es: seq<Event>): Sweep {
    if es == [] then s else SweepStep(SweepRun(s, es[..|es| - 1]), es[|es| - 1])
  }

  /** Entries the sweep has passed, or that were saved since it started, were alive when it started. */
  ghost predicate Passed(s: Sweep) {
    var c := s.m.cache;
    forall k :: k in c.db && (k in s.saved || c.cursor.None? || k < c.cursor.value || (k == c.cursor.value && !c.delSaved))
      ==> Live(c.db[k], c.timeout, s.start)
  }

  /** A condemned entry that is still there is the one waiting to be deleted behind, and it is still dead. */
  ghost predicate Condemned(s: Sweep) {
    var c := s.m.cache;
    forall k :: k in c.db && k in s.condemned ==> c.delSaved && c.saved == Some(k) && !Live(c.db[k], c.timeout, s.now)
  }

  ghost predicate SweepInv(s: Sweep) {
    && Disciplined(s.m) && 0 <= s.m.cache.timeout && s.start <= s.now
    && (s.m.active ==> Passed(s))
    && Condemned(s)
  }

  lemma LoopPassKeepsPassed(s: Sweep, scan: int, after: int)
    requires SweepInv(s) && s.m.active && s.now <= scan <= after
    ensures Passed(SweepStep(s, LoopPass(scan, after)))
  {
    var c, s' := s.m.cache, SweepStep(s, LoopPass(scan, after));
    var c', member := s'.m.cache, DictSeq(c, Next);
    forall k | k in c'.db && (k in s'.saved || c'.cursor.None? || k < c'.cursor.value || (k == c'.cursor.value && !c'.delSaved))
      ensures Live(c'.db[k], c'.timeout, s'.start)
    {
      SequenceRemovesOnlyDead(c, Next, scan, after, k);
      if k in s.saved || k < c.cursor.value {
        assert Live(c.db[k], c.timeout, s.start);
      } else if k == c.cursor.value {
        if c.delSaved {
          LiveEarlier(c.db[k], c.timeout, s.start, after);
        }
      } else {
        LiveEarlier(c.db[k], c.timeout, s.start, scan);
      }
    }
  }

  lemma LoopPassKeepsCondemned(s: Sweep, scan: int, after: int)
    requires SweepInv(s) && s.m.active && s.now <= scan <= after
    ensures Condemned(SweepStep(s, LoopPass(scan, after)))
  {
    var c, s' := s.m.cache, SweepStep(s, LoopPass(scan, after));
    var c' := s'.m.cache;
    forall k | k in c'.db && k in s'.condemned
      ensures c'.delSaved && c'.saved == Some(k) && !Live(c'.db[k], c'.timeout, s'.now)
    {
      SequenceRemovesOnlyDead(c, Next, scan, after, k);
      if k in s.condemned {
        if Live(c.db[k], c.timeout, after) {
          LiveEarlier(c.db[k], c.timeout, s.now, after);
        }
      } else if Live(c.db[k], c.timeout, after) {
        LiveEarlier(c.db[k], c.timeout, scan, after);
      }
    }
  }

  lemma TimerKeepsSweep(s: Sweep, scan: int, after: int)
    requires SweepInv(s) && !s.m.active && s.now <= scan <= after
    ensures SweepInv(SweepStep(s, Timer(scan, after)))
  {
    var c, s' := s.m.cache, SweepStep(s, Timer(scan, after));
    StepKeepsDiscipline(s.m, Timer(scan, after));
    var member := DictSeq(c, First);
    if member.Some? && Live(c.db[member.value], c.timeout, after) {
      LiveEarlier(c.db[member.value], c.timeout, scan, after);
    }
  }

  lemma UpdateKeepsSweep(s: Sweep, id: Id, session: seq<byte>, saved: time)
    requires SweepInv(s) && s.now <= saved
    ensures SweepInv(SweepStep(s, UpdateRequest(id, session, saved)))
  {
    var c, s' := s.m.cache, SweepStep(s, UpdateRequest(id, session, saved));
    StepKeepsDiscipline(s.m, UpdateRequest(id, session, saved));
    ParseEncode(session, saved);
    assert Live(Encode(session, saved), c.timeout, s.start);
    CondemnedLater(s, saved);
  }

  lemma CondemnedLater(s: Sweep, now: int)
    requires Condemned(s) && s.now <= now
    ensures Condemned(s.(now := now))
  {
    var c := s.m.cache;
    forall k | k in c.db && k in s.condemned ensures !Live(c.db[k], c.timeout, now) {
      if Live(c.db[k], c.timeout, now) {
        LiveEarlier(c.db[k], c.timeout, s.now, now);
      }
    }
  }

  lemma SweepStepKeepsInv(s: Sweep, e: Event)
    requires SweepInv(s) && Timely(s, e)
    ensures SweepInv(SweepStep(s, e))
  {
    StepKeepsDiscipline(s.m, e);
    match e
    case Timer(scan, after) =>
      if s.m.active {
        CondemnedLater(s, after);
      } else {
        TimerKeepsSweep(s, scan, after);
      }
    case LoopPass(scan, after) =>
      if s.m.active {
        LoopPassKeepsPassed(s, scan, after);
        LoopPassKeepsCondemned(s, scan, after);
      } else {
        CondemnedLater(s, after);
      }
    case LookupRequest(id, at) =>
      CondemnedLater(s, at);
    case UpdateRequest(id, session, saved) =>
      UpdateKeepsSweep(s, id, session, saved);
    case DeleteRequest(id) =>
  }

  lemma {:induction false} SweepRunKeepsInv(s: Sweep, es: seq<Event>)
    requires SweepInv(s) && TimelyRun(s, es)
    ensures SweepInv(SweepRun(s, es))
  {
    if es != [] {
      SweepRunKeepsInv(s, es[..|es| - 1]);
      SweepStepKeepsInv(SweepRun(s, es[..|es| - 1]), es[|es| - 1]);
    }
  }

  /** When a sweep ends, every entry left was alive when the sweep started, and no entry that was dead when
      scanned and not saved again since is left. */
  lemma CompletedSweep(s: Sweep, es: seq<Event>, scan: int, after: int)
    requires SweepInv(s) && TimelyRun(s, es + [LoopPass(scan, after)])
    requires SweepRun(s, es).m.active && !SweepRun(s, es + [LoopPass(scan, after)]).m.active
    ensures var end := SweepRun(s, es + [LoopPass(scan, after)]);
            forall k :: k in end.m.cache.db ==>
              k !in end.condemned && Live(end.m.cache.db[k], end.m.cache.timeout, end.start)
  {
    var e := LoopPass(scan, after);
    assert (es + [e])[..|es + [e]| - 1] == es;
    SweepRunKeepsInv(s, es);
    SweepStepKeepsInv(SweepRun(s, es), e);
    LoopPassKeepsPassed(SweepRun(s, es), scan, after);
  }

  // ---------- sweeps end ----------

  ghost function Ahead(c: Cache): set<Id> {
    set k | k in c.db.Keys && Above(k, c.cursor)
  }

  lemma PassAdvances(m: Manager, scan: int, after: int)
    requires Disciplined(m) && m.active
    ensures var m' := Step(m, LoopPass(scan, after)); m'.active ==> |Ahead(m'.cache)| < |Ahead(m.cache)|
  {
    var c, m' := m.cache, Step(m, LoopPass(scan, after));
    if m'.active {
      var member := m'.cache.cursor.value;
      assert member in Ahead(c) && member !in Ahead(m'.cache);
      forall k | k in Ahead(m'.cache) ensures k in Ahead(c) {
        SequenceRemovesOnlyDead(c, Next, scan, after, k);
      }
      ProperSubset(Ahead(m'.cache), Ahead(c), member);
    }
  }

  lemma ProperSubset<T>(a: set<T>, b: set<T>, x: T)
    requires a <= b && x in b && x !in a
    ensures |a| < |b|
  {
    var c := b - {x} - a;
    assert b == a + c + {x};
  }

  /** Left to itself, the loop finishes a sweep after at most one pass more than there are entries ahead. */
  lemma {:induction false} SweepEnds(m: Manager, es: seq<Event>)
    requires Disciplined(m) && m.active && (forall i :: 0 <= i < |es| ==> es[i].LoopPass?)
    ensures Run(m, es).active ==> |es| <= |Ahead(m.cache)|
    ensures Run(m, es).active ==> |Ahead(Run(m, es).cache)| + |es| <= |Ahead(m.cache)|
  {
    if es != [] {
      var front, e := es[..|es| - 1], es[|es| - 1];
      SweepEnds(m, front);
      CursorIsNeverRemoved(m, front);
      assert e.LoopPass?;
      if Run(m, front).active {
        PassAdvances(Run(m, front), e.scan, e.after);
      }
    }
  }

  // ---------- from a timer to a clean cache ----------

  ghost predicate IsLeast(db: map<Id, seq<byte>>, id: Id) {
    id in db && forall k :: k in db ==> id <= k
  }

  /** A timer starts a sweep whenever there is anything to sweep, at the first entry, and never restarts one. */
  lemma TimerStartsSweep(m: Manager, scan: int, after: int)
    ensures var m' := Step(m, Timer(scan, after));
            && (m'.active <==> m.active || m.cache.db != map[])
            && (m.active ==> m' == m)
            && (!m.active && m'.active ==> m'.cache.cursor.Some? && IsLeast(m.cache.db, m'.cache.cursor.value))
  {
    if |m.cache.db.Keys| == 0 {
      assert m.cache.db == map[];
    } else {
      var k := Member(m.cache.db.Keys);
      assert Above(k, None);
    }
    assert forall k :: k in m.cache.db ==> Above(k, None);
  }

  function Passes(es: seq<Event>): nat {
    if es == [] then 0 else Passes(es[..|es| - 1]) + (if es[|es| - 1].LoopPass? then 1 else 0)
  }

  function Updates(es: seq<Event>): nat {
    if es == [] then 0 else Updates(es[..|es| - 1]) + (if es[|es| - 1].UpdateRequest? then 1 else 0)
  }

  /** A sweep that is running at m has not ended at any point of the run. */
  ghost predicate StillRunning(m: Manager, es: seq<Event>) {
    m.active && (es != [] ==> StillRunning(m, es[..|es| - 1]) && Run(m, es).active)
  }

  lemma SubsetCount<T>(a: set<T>, b: set<T>)
    requires a <= b
    ensures |a| <= |b|
  {
    assert b == a + (b - a);
  }

  /** Every pass takes one entry from those ahead, and only an update can add one. */
  lemma StepAhead(m: Manager, e: Event)
    requires Disciplined(m) && m.active && Step(m, e).active
    ensures |Ahead(Step(m, e).cache)| + Passes([e]) <= |Ahead(m.cache)| + Updates([e])
  {
    assert [e][..0] == [];
    var m' := Step(m, e);
    match e
    case Timer(_, _) =>
    case LoopPass(scan, after) =>
      PassAdvances(m, scan, after);
    case LookupRequest(id, at) =>
      SubsetCount(Ahead(m'.cache), Ahead(m.cache));
    case UpdateRequest(id, _, _) =>
      SubsetCount(Ahead(m'.cache), Ahead(m.cache) + {id});
    case DeleteRequest(id) =>
      SubsetCount(Ahead(m'.cache), Ahead(m.cache));
  }

  /** While a sweep runs, amid any client requests, passes are outnumbered by entries ahead and updates. */
  lemma {:induction false} PassesAreBounded(m: Manager, es: seq<Event>)
    requires Disciplined(m) && StillRunning(m, es)
    ensures |Ahead(Run(m, es).cache)| + Passes(es) <= |Ahead(m.cache)| + Updates(es)
  {
    if es != [] {
      var front, e := es[..|es| - 1], es[|es| - 1];
      PassesAreBounded(m, front);
      CursorIsNeverRemoved(m, front);
      assert [e][..0] == [];
      if front == [] {
        assert StillRunning(m, front);
      }
      StepAhead(Run(m, front), e);
    }
  }

  lemma {:induction false} RunningNow(m: Manager, es: seq<Event>)
    requires StillRunning(m, es)
    ensures Run(m, es).active
  {
  }

  lemma {:induction false} SweepRunIsRun(s: Sweep, es: seq<Event>)
    ensures SweepRun(s, es).m == Run(s.m, es)
  {
    if es != [] {
      SweepRunIsRun(s, es[..|es| - 1]);
    }
  }

  lemma {:induction false} StartIsKept(s: Sweep, es: seq<Event>)
    requires StillRunning(s.m, es)
    ensures SweepRun(s, es).start == s.start
  {
    if es != [] {
      StartIsKept(s, es[..|es| - 1]);
      SweepRunIsRun(s, es[..|es| - 1]);
      RunningNow(s.m, es[..|es| - 1]);
    }
  }

  /** Everything in the cache was alive at time t. */
  ghost predicate CleanSince(c: Cache, t: int) {
    forall k :: k in c.db ==> Live(c.db[k], c.timeout, t)
  }

  /** The point where a running sweep ends: the cache is clean since the sweep's start. */
  lemma {:induction false} EndOfSweep(s: Sweep, es: seq<Event>) returns (n: nat)
    requires SweepInv(s) && s.m.active && TimelyRun(s, es) && !StillRunning(s.m, es)
    ensures n <= |es| && !SweepRun(s, es[..n]).m.active && CleanSince(SweepRun(s, es[..n]).m.cache, s.start)
  {
    var front, e := es[..|es| - 1], es[|es| - 1];
    if StillRunning(s.m, front) {
      n := |es|;
      assert es[..n] == es && es == front + [e];
      SweepRunIsRun(s, front);
      SweepRunIsRun(s, es);
      RunningNow(s.m, front);
      StartIsKept(s, front);
      CompletedSweep(s, front, e.scan, e.after);
    } else {
      n := EndOfSweep(s, front);
      assert front[..n] == es[..n];
    }
  }

  /** From an idle manager: after a timer, amid any client requests on a clock that does not run backwards, the sweep is
      over by the time there were more passes than entries and updates, and then every entry that is left was alive at the
      timer's scan. */
  lemma TimerCleansCache(s: Sweep, scan: int, after: int, es: seq<Event>) returns (n: nat)
    requires SweepInv(s) && !s.m.active && Timely(s, Timer(scan, after))
    requires TimelyRun(SweepStep(s, Timer(scan, after)), es)
    requires Passes(es) > |s.m.cache.db| + Updates(es)
    ensures n <= |es|
    ensures var end := SweepRun(SweepStep(s, Timer(scan, after)), es[..n]).m;
            !end.active && CleanSince(end.cache, scan)
  {
    var s1 := SweepStep(s, Timer(scan, after));
    SweepStepKeepsInv(s, Timer(scan, after));
    TimerStartsSweep(s.m, scan, after);
    if s.m.cache.db == map[] {
      n := 0;
      assert es[..0] == [];
      NothingToSweep(s, scan, after);
    } else {
      SequenceKeepsAll(s.m.cache, scan, after);
      SubsetCount(Ahead(s1.m.cache), s.m.cache.db.Keys);
      if StillRunning(s1.m, es) {
        PassesAreBounded(s1.m, es);
      }
      n := EndOfSweep(s1, es);
    }
  }

  lemma NothingToSweep(s: Sweep, scan: int, after: int)
    requires SweepInv(s) && !s.m.active && s.m.cache.db == map[]
    ensures SweepStep(s, Timer(scan, after)).m.cache.db == map[]
  {
    SequenceKeepsAll(s.m.cache, scan, after);
  }

  /** Starting a sweep removes nothing. */
  lemma SequenceKeepsAll(c: Cache, scan: int, after: int)
    requires !c.delSaved
    ensures Sequence(c, First, scan, after).db == c.db
  {
  }

  /** Left to itself, the sweep leaves every entry that is still alive at its end, unchanged. */
  lemma {:induction false} LivingSurvive(s: Sweep, es: seq<Event>, k: Id)
    requires TimelyRun(s, es) && (forall i :: 0 <= i < |es| ==> es[i].LoopPass? || es[i].Timer?)
    requires k in s.m.cache.db && Live(s.m.cache.db[k], s.m.cache.timeout, SweepRun(s, es).now)
    ensures var c := SweepRun(s, es).m.cache; k in c.db && c.db[k] == s.m.cache.db[k] && c.timeout == s.m.cache.timeout
    ensures s.now <= SweepRun(s, es).now
  {
    if es != [] {
      var front, e := es[..|es| - 1], es[|es| - 1];
      var s1 := SweepRun(s, front);
      assert e.LoopPass? || e.Timer?;
      assert s1.now <= SweepRun(s, es).now;
      LiveEarlier(s.m.cache.db[k], s.m.cache.timeout, s1.now, SweepRun(s, es).now);
      LivingSurvive(s, front, k);
      SequenceRemovesOnlyDead(s1.m.cache, if e.Timer? then First else Next, e.scan, e.after, k);
    }
  }

  // ---------- the cache as a map with expiry ----------

  /** A map with expiry: sweeps and lookups do nothing to it, and nothing in it ever has to be removed. */
  function StoreStep(store: map<Id, (seq<byte>, time)>, saved: Option<Id>, e: Event): map<Id, (seq<byte>, time)> {
    match e
    case UpdateRequest(id, session, at) => store[id := (session, at)]
    case DeleteRequest(id) => if saved == Some(id) then store else store - {id}
    case _ => store
  }

  function Store(s: Sweep, es: seq<Event>): map<Id, (seq<byte>, time)> {
    if es == [] then map[]
    else StoreStep(Store(s, es[..|es| - 1]), SweepRun(s, es[..|es| - 1]).m.cache.saved, es[|es| - 1])
  }

  ghost predicate Represents(c: Cache, store: map<Id, (seq<byte>, time)>, now: int) {
    && (forall k :: k in c.db ==> k in store && c.db[k] == Encode(store[k].0, store[k].1))
    && (forall k :: k in store && k !in c.db ==> store[k].1 + c.timeout < now)
  }

  lemma LookupRepresents(c: Cache, store: map<Id, (seq<byte>, time)>, id: Id, now: int)
    requires Represents(c, store, now)
    ensures Represents(Lookup(c, id, now), store, now)
  {
    if id in c.db {
      DecodeEncode(store[id].0, store[id].1, c.timeout, now);
    }
  }

  lemma SequenceRepresents(c: Cache, store: map<Id, (seq<byte>, time)>, dir: Direction, scan: int, after: int)
    requires Represents(c, store, after)
    ensures Represents(Sequence(c, dir, scan, after), store, after)
  {
    if c.saved.Some? {
      LookupRepresents(c.(cursor := DictSeq(c, dir), saved := None, delSaved := false), store, c.saved.value, after);
    }
  }

  lemma StepRepresents(s: Sweep, store: map<Id, (seq<byte>, time)>, e: Event)
    requires Represents(s.m.cache, store, s.now) && Timely(s, e)
    ensures Represents(SweepStep(s, e).m.cache, StoreStep(store, s.m.cache.saved, e), SweepStep(s, e).now)
  {
    match e
    case Timer(scan, after) =>
      SequenceRepresents(s.m.cache, store, First, scan, after);
    case LoopPass(scan, after) =>
      SequenceRepresents(s.m.cache, store, Next, scan, after);
    case LookupRequest(id, at) =>
      LookupRepresents(s.m.cache, store, id, at);
    case UpdateRequest(id, session, saved) =>
    case DeleteRequest(id) =>
  }

  /** After any timely run, a lookup answers as the map with expiry does. */
  lemma {:induction false} AnswersAsStore(s: Sweep, es: seq<Event>)
    requires s.m.cache.db == map[] && TimelyRun(s, es)
    ensures Represents(SweepRun(s, es).m.cache, Store(s, es), SweepRun(s, es).now)
  {
    if es != [] {
      var front, e := es[..|es| - 1], es[|es| - 1];
      AnswersAsStore(s, front);
      StepRepresents(SweepRun(s, front), Store(s, front), e);
    }
  }

  lemma LookupAnswers(s: Sweep, es: seq<Event>, id: Id, now: int)
    requires s.m.cache.db == map[] && TimelyRun(s, es) && SweepRun(s, es).now <= now
    ensures Found(SweepRun(s, es).m.cache, id, now)
         == if id in Store(s, es) && Store(s, es)[id].1 + SweepRun(s, es).m.cache.timeout >= now
            then Some(Store(s, es)[id].0) else None
  {
    AnswersAsStore(s, es);
    var (c, store) := (SweepRun(s, es).m.cache, Store(s, es));
    if id in c.db {
      DecodeEncode(store[id].0, store[id].1, c.timeout, now);
    }
  }

  // ---------- the table of caches ----------

  const STAT_OK: int := 0
  const STAT_ERR: int := -1
  const STAT_FAIL: int := -2
  const DONT_WAIT: int := 0
  const WAIT_FOR_EVENT: int := -1

  class TlsmgrScache {
    const cacheLabel: string
    const cacheInfo: TlsScache?
    var cacheActive: bool

    constructor (cacheLabel: string, cacheInfo: TlsScache?)
      ensures this.cacheLabel == cacheLabel && this.cacheInfo == cacheInfo && !cacheActive
    {
      this.cacheLabel, this.cacheInfo, cacheActive := cacheLabel, cacheInfo, false;
    }

    /** The entry as a manager of one cache; an entry without a database has nothing to manage. */
    ghost function State(): Manager
      requires cacheInfo != null
      reads this, cacheInfo
    {
      Manager(cacheInfo.State(), cacheActive)
    }

    method CacheRunEvent(scan: int, after: int)
      requires cacheInfo != null
      modifies this, cacheInfo
      ensures State() == Step(old(State()), Timer(scan, after))
    {
      if !cacheActive {
        var found, _ := cacheInfo.SequenceStep(First, scan, after);
        cacheActive := found;
      }
    }

    /** The body of the loop in tlsmgr_loop. */
    method Advance(scan: int, after: int)
      requires cacheInfo != null
      modifies this, cacheInfo
      ensures State() == Step(old(State()), LoopPass(scan, after))
    {
      if cacheActive {
        var found, _ := cacheInfo.SequenceStep(Next, scan, after);
        cacheActive := found;
      }
    }
  }

  /** No two entries share an object. */
  ghost predicate Separate(table: seq<TlsmgrScache>) {
    forall i, j :: 0 <= i < j < |table| ==>
      table[i] != table[j] && (table[i].cacheInfo == null || table[i].cacheInfo != table[j].cacheInfo)
  }

  ghost function Infos(table: seq<TlsmgrScache>): set<TlsScache> {
    set i | 0 <= i < |table| && table[i].cacheInfo != null :: table[i].cacheInfo
  }

  /** One pass over all caches: each takes its own step, and the result says whether any sweep is still running. */
  method Loop(table: seq<TlsmgrScache>, scan: seq<int>, after: seq<int>) returns (wait: int)
    requires Separate(table) && |scan| == |after| == |table|
    modifies table, Infos(table)
    ensures forall i :: 0 <= i < |table| && table[i].cacheInfo != null ==>
      table[i].State() == Step(old(table[i].State()), LoopPass(scan[i], after[i]))
    ensures wait == DONT_WAIT <==> exists i :: 0 <= i < |table| && table[i].cacheInfo != null && table[i].cacheActive
    ensures wait == DONT_WAIT || wait == WAIT_FOR_EVENT
  {
    hide Step;
    var active := false;
    for i := 0 to |table|
      invariant forall k :: 0 <= k < i && table[k].cacheInfo != null ==>
        table[k].State() == Step(old(table[k].State()), LoopPass(scan[k], after[k]))
      invariant forall k :: i <= k < |table| && table[k].cacheInfo != null ==> table[k].State() == old(table[k].State())
      invariant active <==> exists k :: 0 <= k < i && table[k].cacheInfo != null && table[k].cacheActive
    {
      var ent := table[i];
      if ent.cacheInfo != null {
        assert ent.cacheInfo in Infos(table);
        ent.Advance(scan[i], after[i]);
        active := active || ent.cacheActive;
      }
    }
    wait := if active then DONT_WAIT else WAIT_FOR_EVENT;
  }

  /** The first entry with the label, or the end of the table. */
  function FirstLabel(table: seq<TlsmgrScache>, kind: string): (i: nat)
    ensures i <= |table|
    ensures i < |table| ==> table[i].cacheLabel == kind
    ensures forall k :: 0 <= k < i ==> table[k].cacheLabel != kind
  {
    if table == [] || table[0].cacheLabel == kind then 0 else 1 + FirstLabel(table[1..], kind)
  }

  /** The cache a request is for; null when the type is bogus or not enabled. */
  function Target(table: seq<TlsmgrScache>, kind: string): (c: TlsScache?)
    ensures c != null ==> c in Infos(table)
  {
    var i := FirstLabel(table, kind);
    if i < |table| then table[i].cacheInfo else null
  }

  class TlsmgrService {
    const table: seq<TlsmgrScache>
    // The static buffer of the service: it keeps its bytes from one request to the next.
    var buffer: seq<byte>

    constructor (table: seq<TlsmgrScache>)
      ensures this.table == table && buffer == []
    {
      this.table := table;
      buffer := [];
    }

    /** attrs is what the attribute scan gives: None for a malformed request. The reply carries the buffer, and a malformed
        request leaves in it what an earlier request put there. */
    method ServiceLookup(attrs: Option<(string, Id)>, at: int) returns (status: int, session: seq<byte>)
      modifies this, Infos(table)
      ensures session == buffer
      ensures attrs.None? ==> status == STAT_FAIL && buffer == old(buffer) && unchanged(Infos(table))
      ensures attrs.Some? ==>
        var c := Target(table, attrs.value.0); c == null ==>
        status == STAT_FAIL && session == [] && unchanged(Infos(table))
      ensures attrs.Some? ==>
        var i := FirstLabel(table, attrs.value.0); i < |table| && table[i].cacheInfo != null ==>
        table[i].State() == old(Step(table[i].State(), LookupRequest(attrs.value.1, at)))
      ensures attrs.Some? ==>
        var c := Target(table, attrs.value.0); c != null ==>
        && unchanged(Infos(table) - {c})
        && match old(Found(c.State(), attrs.value.1, at))
           case None => status == STAT_ERR && session == []
           case Some(s) => status == STAT_OK && session == s
      ensures status != STAT_OK ==> (session == [] <==> attrs.Some? || old(buffer) == [])
    {
      status := STAT_FAIL;
      if attrs.Some? {
        var (cacheType, id) := attrs.value;
        var c := Target(table, cacheType);
        if c == null {
          buffer := [];
        } else {
          var ok, s := c.LookupEntry(id, at);
          buffer := s;
          status := if ok then STAT_OK else STAT_ERR;
        }
      }
      session := buffer;
    }

    /** The scan puts the session into the buffer; of a malformed request, as much as it got. The status is zero, which is
        STAT_OK: the result of the update itself is discarded. */
    method ServiceUpdate(attrs: Option<(string, Id)>, session: seq<byte>, saved: time) returns (status: int)
      modifies this, Infos(table)
      ensures buffer == session
      ensures attrs.None? ==> status == STAT_FAIL && unchanged(Infos(table))
      ensures attrs.Some? ==>
        var c := Target(table, attrs.value.0); c == null ==> status == STAT_FAIL && unchanged(Infos(table))
      ensures attrs.Some? ==>
        var i := FirstLabel(table, attrs.value.0); i < |table| && table[i].cacheInfo != null ==>
        table[i].State() == old(Step(table[i].State(), UpdateRequest(attrs.value.1, session, saved)))
      ensures attrs.Some? ==>
        var c := Target(table, attrs.value.0); c != null ==> unchanged(Infos(table) - {c}) && status == STAT_OK
    {
      status, buffer := STAT_FAIL, session;
      if attrs.Some? {
        var (cacheType, id) := attrs.value;
        var c := Target(table, cacheType);
        if c != null {
          status := 0;
          var _ := c.UpdateEntry(id, buffer, saved);
        }
      }
    }

    method ServiceDelete(attrs: Option<(string, Id)>) returns (status: int)
      modifies Infos(table)
      ensures attrs.None? ==> status == STAT_FAIL && unchanged(Infos(table))
      ensures attrs.Some? ==>
        var c := Target(table, attrs.value.0); c == null ==> status == STAT_FAIL && unchanged(Infos(table))
      ensures attrs.Some? ==>
        var i := FirstLabel(table, attrs.value.0); i < |table| && table[i].cacheInfo != null ==>
        table[i].State() == old(Step(table[i].State(), DeleteRequest(attrs.value.1)))
      ensures attrs.Some? ==>
        var c := Target(table, attrs.value.0); c != null ==>
        && unchanged(Infos(table) - {c})
        && status == if old(DeleteStatus(c.State(), attrs.value.1)) then STAT_OK else STAT_ERR
    {
      status := STAT_FAIL;
      if attrs.Some? {
        var (cacheType, id) := attrs.value;
        var c := Target(table, cacheType);
        if c != null {
          var done := c.DeleteEntry(id);
          status := if done then STAT_OK else STAT_ERR;
        }
      }
    }
  }
}
