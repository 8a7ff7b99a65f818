/**
 What the cache holds and lookups return, told by the steps of the run alone: every identity comes from a lookup whose
 own steps asked for that very DID, got that document and had its handle resolved.
 */
module IdentityHistory {
  import opened Wrappers
  import opened Bytes
  import opened IdentityDirectory

  /** Where thread `t` was before step `i`. */
  ghost function Was(steps: seq<Step>, i: nat, t: Thread): Phase
    requires i <= |steps|
  {
    PhaseOf(Run(INITIAL, steps[..i]), t)
  }

  /** Step `i` is a purge's increment of the generation. */
  ghost predicate PurgedAt(steps: seq<Step>, i: nat) {
    i < |steps| && steps[i].Increment? && (Was(steps, i, steps[i].t).Idle? || Was(steps, i, steps[i].t).Returned?)
  }

  /** Step `i` is the lookup's load of the generation. */
  ghost predicate LoadedAt(steps: seq<Step>, t: Thread, did: Did, i: nat) {
    i < |steps| && steps[i] == Load(t, did) && (Was(steps, i, t).Idle? || Was(steps, i, t).Returned?)
  }

  /** The lookup began to resolve at step `past.began`, when it looked at the cache. */
  ghost predicate BeganAt(steps: seq<Step>, t: Thread, did: Did, past: Past) {
    && past.began < |steps| && steps[past.began].Check? && steps[past.began].t == t
    && Was(steps, past.began, t).Checking? && Was(steps, past.began, t).did == did
  }

  /** It got the document at step `past.fetched`. */
  ghost predicate FetchedAt(steps: seq<Step>, t: Thread, did: Did, past: Past, document: Document) {
    && BeganAt(steps, t, did, past)
    && past.began < past.fetched < |steps| && steps[past.fetched] == Resolve(t, Some(document))
    && Was(steps, past.fetched, t).Resolving? && Was(steps, past.fetched, t).did == did
    && Was(steps, past.fetched, t).past.began == past.began
  }

  /**
   The handle is the declared one exactly when the lookup's own resolution of it, at step `past.checked`, gave this DID;
   otherwise there is none.
   */
  ghost predicate CheckedAt(steps: seq<Step>, t: Thread, did: Did, past: Past, identity: Identity) {
    match identity.document.declared
    case None => identity.handle == None
    case Some(h) =>
      && past.fetched < past.checked < |steps| && steps[past.checked].ResolveHandle? && steps[past.checked].t == t
      && Was(steps, past.checked, t).Verifying? && Was(steps, past.checked, t).did == did
      && Was(steps, past.checked, t).past.fetched == past.fetched
      && (steps[past.checked].resolved == Some(did) ==> identity.handle == Some(h))
      && (steps[past.checked].resolved != Some(did) ==> identity.handle == None)
  }

  /** The identity is what some lookup of `did` resolved. */
  ghost predicate Backed(steps: seq<Step>, did: Did, past: Past, identity: Identity) {
    exists t :: FetchedAt(steps, t, did, past, identity.document) && CheckedAt(steps, t, did, past, identity)
  }

  ghost predicate PhaseBacked(steps: seq<Step>, t: Thread, p: Phase) {
    match p
    case Idle => true
    case Purging(_) => true
    case Checking(did, _, past) => LoadedAt(steps, t, did, past.loaded)
    case Resolving(did, _, past) => LoadedAt(steps, t, did, past.loaded) && BeganAt(steps, t, did, past)
    case Verifying(did, _, past, document) =>
      LoadedAt(steps, t, did, past.loaded) && FetchedAt(steps, t, did, past, document) && document.declared.Some?
    case Storing(did, _, past, identity) =>
      && LoadedAt(steps, t, did, past.loaded) && FetchedAt(steps, t, did, past, identity.document)
      && CheckedAt(steps, t, did, past, identity)
    case Holding(did, _, past, identity) =>
      && LoadedAt(steps, t, did, past.loaded) && FetchedAt(steps, t, did, past, identity.document)
      && CheckedAt(steps, t, did, past, identity)
    case Returned(did, loaded, past, identity) => LoadedAt(steps, t, did, loaded) && Backed(steps, did, past, identity)
  }

  ghost predicate PurgesBacked(steps: seq<Step>, purges: seq<nat>) {
    forall i: nat :: PurgedAt(steps, i) <==> i in purges
  }

  ghost predicate History(steps: seq<Step>) {
    var s := Run(INITIAL, steps);
    && s.clock == |steps|
    && (forall t :: t in s.threads ==> PhaseBacked(steps, t, s.threads[t]))
    && (forall did :: did in s.cache ==> Backed(steps, did, s.cache[did].past, s.cache[did].identity))
    && PurgesBacked(steps, s.purges)
  }

  // ---------- A longer run has the same past ----------

  lemma SamePast(steps: seq<Step>, x: Step, i: nat, t: Thread)
    requires i <= |steps|
    ensures Was(steps + [x], i, t) == Was(steps, i, t) && (i < |steps| ==> (steps + [x])[i] == steps[i])
  {
    assert (steps + [x])[..i] == steps[..i];
  }

  lemma LoadedStays(steps: seq<Step>, x: Step, t: Thread, did: Did, i: nat)
    requires LoadedAt(steps, t, did, i)
    ensures LoadedAt(steps + [x], t, did, i)
  {
    hide Was;
    SamePast(steps, x, i, t);
  }

  lemma BeganStays(steps: seq<Step>, x: Step, t: Thread, did: Did, past: Past)
    requires BeganAt(steps, t, did, past)
    ensures BeganAt(steps + [x], t, did, past)
  {
    hide Was;
    SamePast(steps, x, past.began, t);
  }

  lemma FetchedStays(steps: seq<Step>, x: Step, t: Thread, did: Did, past: Past, document: Document)
    requires FetchedAt(steps, t, did, past, document)
    ensures FetchedAt(steps + [x], t, did, past, document)
  {
    BeganStays(steps, x, t, did, past);
    hide Was, BeganAt;
    SamePast(steps, x, past.fetched, t);
  }

  lemma CheckedStays(steps: seq<Step>, x: Step, t: Thread, did: Did, past: Past, identity: Identity)
    requires CheckedAt(steps, t, did, past, identity)
    ensures CheckedAt(steps + [x], t, did, past, identity)
  {
    hide Was;
    if identity.document.declared.Some? {
      SamePast(steps, x, past.checked, t);
    }
  }

  lemma BackedStays(steps: seq<Step>, x: Step, did: Did, past: Past, identity: Identity)
    requires Backed(steps, did, past, identity)
    ensures Backed(steps + [x], did, past, identity)
  {
    hide FetchedAt, CheckedAt;
    var t :| FetchedAt(steps, t, did, past, identity.document) && CheckedAt(steps, t, did, past, identity);
    FetchedStays(steps, x, t, did, past, identity.document);
    CheckedStays(steps, x, t, did, past, identity);
  }

  lemma PhaseStays(steps: seq<Step>, x: Step, t: Thread, p: Phase)
    requires PhaseBacked(steps, t, p)
    ensures PhaseBacked(steps + [x], t, p)
  {
    hide LoadedAt, BeganAt, FetchedAt, CheckedAt, Backed;
    match p {
      case Idle =>
      case Purging(_) =>
      case Checking(did, _, past) => LoadedStays(steps, x, t, did, past.loaded);
      case Resolving(did, _, past) =>
        LoadedStays(steps, x, t, did, past.loaded);
        BeganStays(steps, x, t, did, past);
      case Verifying(did, _, past, document) =>
        LoadedStays(steps, x, t, did, past.loaded);
        FetchedStays(steps, x, t, did, past, document);
      case Storing(did, _, past, identity) =>
        LoadedStays(steps, x, t, did, past.loaded);
        FetchedStays(steps, x, t, did, past, identity.document);
        CheckedStays(steps, x, t, did, past, identity);
      case Holding(did, _, past, identity) =>
        LoadedStays(steps, x, t, did, past.loaded);
        FetchedStays(steps, x, t, did, past, identity.document);
        CheckedStays(steps, x, t, did, past, identity);
      case Returned(did, loaded, past, identity) =>
        LoadedStays(steps, x, t, did, loaded);
        BackedStays(steps, x, did, past, identity);
    }
  }

  // ---------- One more step ----------

  lemma RunSnoc(steps: seq<Step>, x: Step)
    ensures Run(INITIAL, steps + [x]) == Apply(Run(INITIAL, steps), x)
    ensures (steps + [x])[..|steps|] == steps
  {
    hide Apply;
    RunAppend(INITIAL, steps, [x]);
    OneStep(Run(INITIAL, steps), x);
  }

  /** Times named so far are in the past. */
  ghost predicate Earlier(p: Phase, clock: nat) {
    match p
    case Resolving(_, _, past) => past.began < clock
    case Verifying(_, _, past, _) => past.fetched < clock
    case _ => true
  }

  /** The thread that steps has the past its new place needs. */
  lemma ActorBacked(steps: seq<Step>, x: Step)
    requires History(steps)
    ensures PhaseBacked(steps + [x], x.t, PhaseOf(Run(INITIAL, steps + [x]), x.t))
  {
    var s := Run(INITIAL, steps);
    var p := PhaseOf(s, x.t);
    var longer, now := steps + [x], |steps|;
    ActorWas(steps, x.t);
    PhaseStays(steps, x, x.t, p);
    RunSnoc(steps, x);
    assert Was(longer, now, x.t) == p && longer[now] == x && s.clock == now;
    assert Earlier(p, now);
    hide Run, Was, Insert, VictimOk, PhaseBacked, Backed, Apply, PhaseOf;
    if x.Check? && p.Checking? && p.did in s.cache {
      CachedBacked(steps, p.did);
      BackedStays(steps, x, p.did, s.cache[p.did].past, s.cache[p.did].identity);
    }
    hide History;
    match x {
      case Load(_, _) => StepLoad(s, x, longer);
      case Check(_, _) => StepCheck(s, x, longer);
      case Resolve(_, _) => StepResolve(s, x, longer);
      case ResolveHandle(_, _) => StepResolveHandle(s, x, longer);
      case Lock(_) => StepEnd(s, x, longer);
      case Store(_, _) => StepEnd(s, x, longer);
      case _ => StepPurge(s, x, longer);
    }
  }

  lemma ActorWas(steps: seq<Step>, t: Thread)
    requires History(steps)
    ensures PhaseBacked(steps, t, PhaseOf(Run(INITIAL, steps), t))
  {
    hide Run, PhaseBacked, Backed, PurgesBacked;
    IdleBacked(steps, t);
  }

  lemma IdleBacked(steps: seq<Step>, t: Thread)
    ensures PhaseBacked(steps, t, Idle)
  {
  }

  lemma CachedBacked(steps: seq<Step>, did: Did)
    requires History(steps) && did in Run(INITIAL, steps).cache
    ensures var e := Run(INITIAL, steps).cache[did]; Backed(steps, did, e.past, e.identity)
  {
    hide Run, PhaseBacked, Backed, PurgesBacked;
  }

  /** Step `x` is taken in state `s`, and the run so far backs where its thread is. */
  ghost predicate Taken(s: State, x: Step, longer: seq<Step>) {
    && s.clock < |longer| && longer[s.clock] == x && Was(longer, s.clock, x.t) == PhaseOf(s, x.t)
    && PhaseBacked(longer, x.t, PhaseOf(s, x.t)) && Earlier(PhaseOf(s, x.t), s.clock)
  }

  lemma StepLoad(s: State, x: Step, longer: seq<Step>)
    requires Taken(s, x, longer) && x.Load?
    ensures PhaseBacked(longer, x.t, PhaseOf(Apply(s, x), x.t))
  {
    hide Was, BeganAt, FetchedAt, CheckedAt, Backed;
  }

  lemma StepCheck(s: State, x: Step, longer: seq<Step>)
    requires Taken(s, x, longer) && x.Check?
    requires var p := PhaseOf(s, x.t);
             p.Checking? && p.did in s.cache ==> Backed(longer, p.did, s.cache[p.did].past, s.cache[p.did].identity)
    ensures PhaseBacked(longer, x.t, PhaseOf(Apply(s, x), x.t))
  {
    hide Was, LoadedAt, FetchedAt, CheckedAt, Backed;
  }

  lemma StepResolve(s: State, x: Step, longer: seq<Step>)
    requires Taken(s, x, longer) && x.Resolve?
    ensures PhaseBacked(longer, x.t, PhaseOf(Apply(s, x), x.t))
  {
    hide Was, LoadedAt, Backed;
  }

  lemma StepResolveHandle(s: State, x: Step, longer: seq<Step>)
    requires Taken(s, x, longer) && x.ResolveHandle?
    ensures PhaseBacked(longer, x.t, PhaseOf(Apply(s, x), x.t))
  {
    hide Was, LoadedAt, Backed;
  }

  lemma StepEnd(s: State, x: Step, longer: seq<Step>)
    requires Taken(s, x, longer) && (x.Lock? || x.Store?)
    ensures PhaseBacked(longer, x.t, PhaseOf(Apply(s, x), x.t))
  {
    hide Was, LoadedAt, FetchedAt, CheckedAt, Insert, VictimOk;
  }

  lemma StepPurge(s: State, x: Step, longer: seq<Step>)
    requires Taken(s, x, longer) && (x.Increment? || x.Remove?)
    ensures PhaseBacked(longer, x.t, PhaseOf(Apply(s, x), x.t))
  {
    hide Was, LoadedAt, BeganAt, FetchedAt, CheckedAt, Backed;
  }

  lemma EntriesBacked(steps: seq<Step>, x: Step)
    requires History(steps)
    ensures var u := Run(INITIAL, steps + [x]);
            forall did :: did in u.cache ==> Backed(steps + [x], did, u.cache[did].past, u.cache[did].identity)
  {
    var s, u := Run(INITIAL, steps), Run(INITIAL, steps + [x]);
    var p := PhaseOf(s, x.t);
    RunSnoc(steps, x);
    CacheChanges(s, x);
    ActorWas(steps, x.t);
    PhaseStays(steps, x, x.t, p);
    hide Run, Apply, PhaseOf, PhaseBacked, Backed, History;
    forall did | did in u.cache ensures Backed(steps + [x], did, u.cache[did].past, u.cache[did].identity) {
      if did in s.cache && s.cache[did] == u.cache[did] {
        CachedBacked(steps, did);
        BackedStays(steps, x, did, s.cache[did].past, s.cache[did].identity);
      } else {
        HoldingBacked(steps + [x], x.t, p);
      }
    }
  }

  lemma HoldingBacked(steps: seq<Step>, t: Thread, p: Phase)
    requires p.Holding? && PhaseBacked(steps, t, p)
    ensures Backed(steps, p.did, p.past, p.identity)
  {
    hide FetchedAt, CheckedAt, LoadedAt;
  }

  lemma PurgesStay(steps: seq<Step>, x: Step)
    requires History(steps)
    ensures PurgesBacked(steps + [x], Run(INITIAL, steps + [x]).purges)
  {
    var s, longer, now := Run(INITIAL, steps), steps + [x], |steps|;
    RunSnoc(steps, x);
    assert PurgesBacked(steps, s.purges) && s.clock == now;
    assert Was(longer, now, x.t) == PhaseOf(s, x.t);
    PurgeTaken(s, x);
    hide Run, Apply, History, PhaseOf;
    forall i: nat ensures PurgedAt(longer, i) <==> i in Run(INITIAL, longer).purges {
      assert PurgedAt(steps, i) <==> i in s.purges;
      if i < now {
        SamePast(steps, x, i, steps[i].t);
      } else {
        assert !PurgedAt(steps, i);
      }
    }
  }

  /** The generation's increments are logged, at their own times. */
  lemma PurgeTaken(s: State, x: Step)
    ensures Apply(s, x).purges
            == if x.Increment? && (PhaseOf(s, x.t).Idle? || PhaseOf(s, x.t).Returned?) then s.purges + [s.clock] else s.purges
  {
    hide Insert, VictimOk, VerifyDeclaredHandle;
  }

  lemma OthersBacked(steps: seq<Step>, x: Step)
    requires History(steps)
    ensures var u := Run(INITIAL, steps + [x]);
            forall t :: t in u.threads && t != x.t ==> PhaseBacked(steps + [x], t, u.threads[t])
  {
    var s, u := Run(INITIAL, steps), Run(INITIAL, steps + [x]);
    RunSnoc(steps, x);
    ActExtends(s, x);
    hide Apply, PhaseBacked, Backed, PurgesBacked;
    forall t | t in u.threads && t != x.t ensures PhaseBacked(steps + [x], t, u.threads[t]) {
      assert PhaseBacked(steps, t, s.threads[t]);
      PhaseStays(steps, x, t, s.threads[t]);
    }
  }

  lemma HistoryKept(steps: seq<Step>, x: Step)
    requires History(steps)
    ensures History(steps + [x])
  {
    ActorBacked(steps, x);
    OthersBacked(steps, x);
    EntriesBacked(steps, x);
    PurgesStay(steps, x);
    RunSnoc(steps, x);
    ActExtends(Run(INITIAL, steps), x);
    hide Run, Apply, PhaseBacked, Backed, PurgesBacked;
  }

  lemma {:induction false} EveryHistory(steps: seq<Step>)
    ensures History(steps)
    decreases |steps|
  {
    if steps == [] {
      assert Run(INITIAL, steps) == INITIAL;
    } else {
      hide History;
      var n := |steps| - 1;
      EveryHistory(steps[..n]);
      HistoryKept(steps[..n], steps[n]);
      assert steps[..n] + [steps[n]] == steps;
    }
  }

  // ---------- What every run keeps ----------

  /**
   In every run, each cached entry and each result is what a lookup of that very DID got: its document is the one that
   was resolved for the DID after the resolution began, and its handle is the declared one exactly when the lookup's own
   resolution of that handle gave the DID back.
   */
  lemma OnlyWhatWasResolved(steps: seq<Step>)
    ensures var s := Run(INITIAL, steps);
            && (forall did :: did in s.cache ==> Backed(steps, did, s.cache[did].past, s.cache[did].identity))
            && (forall t :: t in s.threads && s.threads[t].Returned? ==>
                  var p := s.threads[t];
                  LoadedAt(steps, t, p.did, p.loaded) && Backed(steps, p.did, p.past, p.identity))
  {
    hide Run, LoadedAt, Backed, FetchedAt, CheckedAt;
    EveryHistory(steps);
    var s := Run(INITIAL, steps);
    forall t | t in s.threads && s.threads[t].Returned?
      ensures LoadedAt(steps, t, s.threads[t].did, s.threads[t].loaded) && Backed(steps, s.threads[t].did, s.threads[t].past, s.threads[t].identity)
    {
      assert PhaseBacked(steps, t, s.threads[t]);
    }
  }

  /**
   In every run with fewer than 2^64 purges, a lookup that loaded the generation after a purge's increment, of whatever
   DID, does not return an identity whose resolution began before that increment.
   */
  lemma NeverStale(steps: seq<Step>, t: Thread, i: nat)
    requires |Run(INITIAL, steps).purges| < U64_LIMIT && PhaseOf(Run(INITIAL, steps), t).Returned?
    requires PurgedAt(steps, i) && i < PhaseOf(Run(INITIAL, steps), t).loaded
    ensures i < PhaseOf(Run(INITIAL, steps), t).past.began
  {
    hide Run, PurgedAt, PhaseBacked, Backed;
    EveryHistory(steps);
    ResultsAreFresh(steps, t);
    var purges := Run(INITIAL, steps).purges;
    var k :| 0 <= k < |purges| && purges[k] == i;
  }
}
