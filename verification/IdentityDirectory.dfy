/**
 * The identity cache under any number of concurrent lookups and purges. Every atomic action of the code is one step;
 * a run is any sequence of steps, and a step that is not enabled changes nothing. What the network answers, whether an
 * entry has expired and which entry is evicted are part of the step.
 */
module IdentityDirectory {
  import opened Wrappers
  import opened Bytes

  type Did = seq<byte>
  type Handle = seq<byte>
  type Thread = nat

  const CAPACITY: nat := 1024

  datatype Document = Document(content: seq<byte>, declared: Option<Handle>)

  datatype Identity = Identity(document: Document, handle: Option<Handle>)

  /**
   History only: when a lookup loaded the generation and how many purges there had been, and when it began to resolve, got
   the document and got the answer about its handle.
   */
  datatype Past = Past(loaded: nat, seen: nat, began: nat, fetched: nat, checked: nat)

  datatype Entry = Entry(identity: Identity, generation: u64, past: Past)

  /** Where a thread is. */
  datatype Phase =
    | Idle
    | Checking(did: Did, generation: u64, past: Past)
    | Resolving(did: Did, generation: u64, past: Past)
    | Verifying(did: Did, generation: u64, past: Past, document: Document)
    | Storing(did: Did, generation: u64, past: Past, identity: Identity)
    | Holding(did: Did, generation: u64, past: Past, identity: Identity)
    | Returned(did: Did, loaded: nat, past: Past, identity: Identity)
    | Purging(did: Did)

  /**
   The shared state, then what only the proofs look at: a clock that counts steps and the times of all increments of the
   generation. A returned identity keeps the past of the lookup that resolved it.
   */
  datatype State = State(
    generation: u64, cache: map<Did, Entry>, lock: Option<Thread>, threads: map<Thread, Phase>,
    clock: nat, purges: seq<nat>)

  datatype Step =
    | Load(t: Thread, did: Did)
    | Check(t: Thread, expired: bool)
    | Resolve(t: Thread, answer: Option<Document>)
    | ResolveHandle(t: Thread, resolved: Option<Did>)
    | Lock(t: Thread)
    | Store(t: Thread, victim: Did)
    | Increment(t: Thread, did: Did)
    | Remove(t: Thread)

  const INITIAL := State(0, map[], None, map[], 0, [])

  function PhaseOf(s: State, t: Thread): Phase {
    if t in s.threads then s.threads[t] else Idle
  }

  function Goto(s: State, t: Thread, p: Phase): State {
    s.(threads := s.threads[t := p])
  }

  /** `verify_declared_handle`. */
  function VerifyDeclaredHandle(declared: Handle, resolved: Option<Did>, did: Did): (h: Option<Handle>)
    ensures h == Some(declared) <==> resolved == Some(did)
    ensures h.Some? ==> h.value == declared
  {
    match resolved
    case Some(d) => if d == did then Some(declared) else None
    case None => None
  }

  /** The cache with one entry evicted if it is full and lacks `did`, and then the entry for `did`. */
  function Insert(cache: map<Did, Entry>, did: Did, entry: Entry, victim: Did): map<Did, Entry> {
    if |cache| >= CAPACITY && did !in cache && victim in cache then (cache - {victim})[did := entry]
    else cache[did := entry]
  }

  /** Whether the step's choice of a victim is one the code can make: some entry, if one has to go. */
  predicate VictimOk(cache: map<Did, Entry>, did: Did, victim: Did) {
    |cache| >= CAPACITY && did !in cache ==> victim in cache
  }

  function Act(s: State, step: Step): State {
    var p := PhaseOf(s, step.t);
    match step
    case Load(t, did) =>
      if p.Idle? || p.Returned? then Goto(s, t, Checking(did, s.generation, Past(s.clock, |s.purges|, s.clock, s.clock, s.clock))) else s
    case Check(t, expired) =>
      if !p.Checking? || s.lock.Some? then s
      else if p.did in s.cache && !expired && s.cache[p.did].generation == p.generation then
        Goto(s, t, Returned(p.did, p.past.loaded, s.cache[p.did].past, s.cache[p.did].identity))
      else Goto(s, t, Resolving(p.did, p.generation, p.past.(began := s.clock)))
    case Resolve(t, answer) =>
      if !p.Resolving? then s
      else (match answer
            case None => Goto(s, t, Idle)
            case Some(document) =>
              var past := p.past.(fetched := s.clock);
              if document.declared.Some? then Goto(s, t, Verifying(p.did, p.generation, past, document))
              else Goto(s, t, Storing(p.did, p.generation, past, Identity(document, None))))
    case ResolveHandle(t, resolved) =>
      if !p.Verifying? || p.document.declared.None? then s
      else
        var declared := p.document.declared.value;
        var handle := VerifyDeclaredHandle(declared, resolved, p.did);
        Goto(s, t, Storing(p.did, p.generation, p.past.(checked := s.clock), Identity(p.document, handle)))
    case Lock(t) =>
      if !p.Storing? || s.lock.Some? then s
      else if s.generation != p.generation then Goto(s, t, Returned(p.did, p.past.loaded, p.past, p.identity))
      else Goto(s, t, Holding(p.did, p.generation, p.past, p.identity)).(lock := Some(t))
    case Store(t, victim) =>
      if !p.Holding? || !VictimOk(s.cache, p.did, victim) then s
      else Goto(s, t, Returned(p.did, p.past.loaded, p.past, p.identity)).(
             cache := Insert(s.cache, p.did, Entry(p.identity, p.generation, p.past), victim), lock := None)
    case Increment(t, did) =>
      if p.Idle? || p.Returned? then
        Goto(s, t, Purging(did)).(generation := (s.generation + 1) % U64_LIMIT, purges := s.purges + [s.clock])
      else s
    case Remove(t) =>
      if !p.Purging? || s.lock.Some? then s
      else Goto(s, t, Idle).(cache := s.cache - {p.did})
  }

  function Apply(s: State, step: Step): State {
    Act(s, step).(clock := s.clock + 1)
  }

  function Run(s: State, steps: seq<Step>): State
    decreases |steps|
  {
    if steps == [] then s else Run(Apply(s, steps[0]), steps[1..])
  }

  // ---------- The invariant ----------

  /** The first `seen` purges, and no others, came before time `loaded`. */
  ghost predicate Seen(purges: seq<nat>, loaded: nat, seen: nat) {
    && seen <= |purges|
    && (forall i :: 0 <= i < seen ==> purges[i] < loaded)
    && (forall i :: seen <= i < |purges| ==> loaded <= purges[i])
  }

  /** No purge that a lookup can have seen came after its identity's resolution began. */
  ghost predicate Fresh(purges: seq<nat>, loaded: nat, began: nat) {
    forall i :: 0 <= i < |purges| && purges[i] < loaded ==> purges[i] < began
  }

  ghost predicate PastOk(clock: nat, purges: seq<nat>, generation: u64, past: Past) {
    && past.loaded <= past.began < clock
    && Seen(purges, past.loaded, past.seen)
    && generation == past.seen % U64_LIMIT
  }

  ghost predicate PhaseOk(clock: nat, purges: seq<nat>, p: Phase) {
    match p
    case Idle => true
    case Purging(_) => true
    case Returned(_, loaded, past, _) => loaded < clock && (|purges| < U64_LIMIT ==> Fresh(purges, loaded, past.began))
    case _ => PastOk(clock, purges, p.generation, p.past)
  }

  ghost predicate EntryOk(clock: nat, purges: seq<nat>, e: Entry) {
    PastOk(clock, purges, e.generation, e.past)
  }

  /** The lock is held by the one thread that is about to store, and by no other. */
  ghost predicate LockOk(s: State) {
    && (forall t :: t in s.threads && s.threads[t].Holding? ==> s.lock == Some(t))
    && (s.lock.Some? ==> s.lock.value in s.threads && s.threads[s.lock.value].Holding?)
  }

  ghost predicate Inv(s: State) {
    && s.generation == |s.purges| % U64_LIMIT
    && (forall i :: 0 <= i < |s.purges| ==> s.purges[i] < s.clock)
    && (forall t :: t in s.threads ==> PhaseOk(s.clock, s.purges, s.threads[t]))
    && (forall did :: did in s.cache ==> EntryOk(s.clock, s.purges, s.cache[did]))
    && |s.cache| <= CAPACITY
    && LockOk(s)
  }

  /** What a step does to the history. */
  ghost predicate Extends(s: State, u: State) {
    && u.clock == s.clock + 1
    && (u.purges == s.purges || u.purges == s.purges + [s.clock])
  }

  lemma PastKeeps(s: State, u: State, generation: u64, past: Past)
    requires Extends(s, u) && PastOk(s.clock, s.purges, generation, past)
    ensures PastOk(u.clock, u.purges, generation, past)
  {
  }

  lemma PhaseKeeps(s: State, u: State, p: Phase)
    requires Extends(s, u) && PhaseOk(s.clock, s.purges, p)
    ensures PhaseOk(u.clock, u.purges, p)
  {
    hide PastOk;
    match p {
      case Idle =>
      case Purging(_) =>
      case Returned(_, _, _, _) =>
      case _ => PastKeeps(s, u, p.generation, p.past);
    }
  }

  lemma EntryKeeps(s: State, u: State, e: Entry)
    requires Extends(s, u) && EntryOk(s.clock, s.purges, e)
    ensures EntryOk(u.clock, u.purges, e)
  {
    hide PastOk;
    PastKeeps(s, u, e.generation, e.past);
  }

  lemma ActExtends(s: State, step: Step)
    ensures Extends(s, Apply(s, step))
    ensures forall t :: t in Apply(s, step).threads && t != step.t ==> t in s.threads && Apply(s, step).threads[t] == s.threads[t]
  {
    hide Insert, VerifyDeclaredHandle, VictimOk;
  }

  /** An entry of the caller's own generation, served while no 2^64 purges have gone by, is as fresh as the caller's load. */
  lemma HitIsFresh(s: State, generation: u64, mine: Past, past: Past)
    requires |s.purges| < U64_LIMIT
    requires PastOk(s.clock, s.purges, generation, mine) && PastOk(s.clock, s.purges, generation, past)
    ensures Fresh(s.purges, mine.loaded, past.began)
  {
    assert mine.seen == past.seen;
  }

  /** A thread's own resolution began after its load. */
  lemma OwnIsFresh(s: State, generation: u64, mine: Past)
    requires PastOk(s.clock, s.purges, generation, mine)
    ensures Fresh(s.purges, mine.loaded, mine.began)
  {
  }

  lemma ActorOk(s: State, step: Step)
    requires Inv(s)
    ensures var u := Apply(s, step); PhaseOk(u.clock, u.purges, PhaseOf(u, step.t))
  {
    hide PastOk, Fresh, Insert, VictimOk, VerifyDeclaredHandle, Inv, EntryOk;
    var u, p := Apply(s, step), PhaseOf(s, step.t);
    ActExtends(s, step);
    PhaseOfOk(s, step.t);
    PhaseKeeps(s, u, p);
    match step {
      case Load(t, did) => LoadOk(s);
      case Check(t, expired) =>
        if p.Checking? && s.lock.None? {
          if p.did in s.cache {
            var e := s.cache[p.did];
            CachedOk(s, p.did);
            if e.generation == p.generation && |s.purges| < U64_LIMIT {
              HitIsFresh(s, p.generation, p.past, e.past);
            }
            PastBounds(s.clock, s.purges, p.generation, p.past);
          }
          LaterStart(s, p.generation, p.past);
        }
      case Resolve(t, answer) =>
        if p.Resolving? {
          LaterTimes(s, p.generation, p.past);
        }
      case ResolveHandle(t, resolved) =>
        if p.Verifying? {
          LaterTimes(s, p.generation, p.past);
        }
      case Lock(t) =>
        if p.Storing? {
          OwnIsFresh(s, p.generation, p.past);
          PastBounds(s.clock, s.purges, p.generation, p.past);
        }
      case Store(t, victim) =>
        if p.Holding? {
          OwnIsFresh(s, p.generation, p.past);
          PastBounds(s.clock, s.purges, p.generation, p.past);
        }
      case _ =>
    }
  }

  lemma PhaseOfOk(s: State, t: Thread)
    requires Inv(s)
    ensures PhaseOk(s.clock, s.purges, PhaseOf(s, t))
  {
    hide PastOk, Fresh, EntryOk;
  }

  lemma CachedOk(s: State, did: Did)
    requires Inv(s) && did in s.cache
    ensures var e := s.cache[did];
            PastOk(s.clock, s.purges, e.generation, e.past)
  {
    hide PastOk, PhaseOk;
    assert EntryOk(s.clock, s.purges, s.cache[did]);
  }

  lemma PastBounds(clock: nat, purges: seq<nat>, generation: u64, past: Past)
    requires PastOk(clock, purges, generation, past)
    ensures past.loaded < clock
  {
  }

  lemma LoadOk(s: State)
    requires Inv(s)
    ensures PastOk(s.clock + 1, s.purges, s.generation, Past(s.clock, |s.purges|, s.clock, s.clock, s.clock))
  {
  }

  lemma LaterStart(s: State, generation: u64, past: Past)
    requires PastOk(s.clock, s.purges, generation, past)
    ensures PastOk(s.clock + 1, s.purges, generation, past.(began := s.clock))
  {
  }

  lemma LaterTimes(s: State, generation: u64, past: Past)
    requires PastOk(s.clock, s.purges, generation, past)
    ensures PastOk(s.clock + 1, s.purges, generation, past.(fetched := s.clock))
    ensures PastOk(s.clock + 1, s.purges, generation, past.(checked := s.clock))
  {
  }

  lemma InsertBound(cache: map<Did, Entry>, did: Did, entry: Entry, victim: Did)
    requires |cache| <= CAPACITY && VictimOk(cache, did, victim)
    ensures |Insert(cache, did, entry, victim)| <= CAPACITY
    ensures forall k :: k in Insert(cache, did, entry, victim) ==>
              (k == did && Insert(cache, did, entry, victim)[k] == entry) || (k in cache && Insert(cache, did, entry, victim)[k] == cache[k])
  {
    var kept := if |cache| >= CAPACITY && did !in cache then cache - {victim} else cache;
    var after := Insert(cache, did, entry, victim);
    if |cache| >= CAPACITY && did !in cache {
      assert kept.Keys == cache.Keys - {victim};
      assert |kept.Keys| == |cache.Keys| - 1;
    }
    assert after.Keys == kept.Keys + {did};
    if did in kept {
      assert after.Keys == kept.Keys;
    }
    assert |after| == |after.Keys| && |kept| == |kept.Keys| && |cache| == |cache.Keys|;
  }

  lemma CacheOk(s: State, step: Step)
    requires Inv(s)
    ensures var u := Apply(s, step);
            && |u.cache| <= CAPACITY
            && forall did :: did in u.cache ==> EntryOk(u.clock, u.purges, u.cache[did])
  {
    hide PastOk, Insert, PhaseOk, EntryOk;
    var u, p := Apply(s, step), PhaseOf(s, step.t);
    ActExtends(s, step);
    forall did | did in s.cache ensures EntryOk(u.clock, u.purges, s.cache[did]) {
      EntryKeeps(s, u, s.cache[did]);
    }
    CacheAfter(s, step);
    hide Apply, PhaseOf, VictimOk;
    if step.Store? && p.Holding? && VictimOk(s.cache, p.did, step.victim) {
      var entry := Entry(p.identity, p.generation, p.past);
      InsertBound(s.cache, p.did, entry, step.victim);
      StoredOk(s, step.t);
      EntryKeeps(s, u, entry);
    } else if step.Remove? && p.Purging? {
      SmallerMap(s.cache, p.did);
    }
  }

  /** What a step does to the cache. */
  lemma CacheAfter(s: State, step: Step)
    ensures var p := PhaseOf(s, step.t);
            Apply(s, step).cache
            == if step.Store? && p.Holding? && VictimOk(s.cache, p.did, step.victim) then
                 Insert(s.cache, p.did, Entry(p.identity, p.generation, p.past), step.victim)
               else if step.Remove? && p.Purging? && s.lock.None? then s.cache - {p.did}
               else s.cache
  {
    hide Insert, PhaseOf, VictimOk, VerifyDeclaredHandle;
  }

  lemma SmallerMap(cache: map<Did, Entry>, did: Did)
    ensures |cache - {did}| <= |cache|
  {
    var rest := cache - {did};
    if did in cache {
      assert cache.Keys == rest.Keys + {did};
    } else {
      assert rest == cache;
    }
    assert |rest| == |rest.Keys| && |cache| == |cache.Keys|;
  }

  lemma StoredOk(s: State, t: Thread)
    requires Inv(s) && PhaseOf(s, t).Holding?
    ensures var p := PhaseOf(s, t);
            EntryOk(s.clock, s.purges, Entry(p.identity, p.generation, p.past))
  {
    hide PastOk;
    assert PhaseOk(s.clock, s.purges, s.threads[t]);
  }

  lemma InvKept(s: State, step: Step)
    requires Inv(s)
    ensures Inv(Apply(s, step))
  {
    hide PhaseOk, EntryOk, PhaseOf, Insert, LockOk;
    var u := Apply(s, step);
    ActExtends(s, step);
    ActorOk(s, step);
    CacheOk(s, step);
    CounterKept(s, step);
    LockKept(s, step);
    forall t | t in u.threads ensures PhaseOk(u.clock, u.purges, u.threads[t]) {
      if t == step.t {
        PhaseThere(u, t);
      } else {
        PhaseKeeps(s, u, s.threads[t]);
      }
    }
  }

  lemma LockKept(s: State, step: Step)
    requires LockOk(s)
    ensures LockOk(Apply(s, step))
  {
    hide Insert, VictimOk, VerifyDeclaredHandle;
  }

  lemma PhaseThere(s: State, t: Thread)
    requires t in s.threads
    ensures PhaseOf(s, t) == s.threads[t]
  {
  }

  lemma CounterKept(s: State, step: Step)
    requires Inv(s)
    ensures var u := Apply(s, step);
            u.generation == |u.purges| % U64_LIMIT && forall i :: 0 <= i < |u.purges| ==> u.purges[i] < u.clock
  {
    CountersAfter(s, step);
    hide PhaseOk, EntryOk, Apply;
  }

  /** What a step does to the generation and the times of its increments. */
  lemma CountersAfter(s: State, step: Step)
    ensures var u := Apply(s, step);
            && u.clock == s.clock + 1
            && ((u.generation == s.generation && u.purges == s.purges)
                || (u.generation == (s.generation + 1) % U64_LIMIT && u.purges == s.purges + [s.clock]))
  {
    hide Insert, VictimOk, VerifyDeclaredHandle, PhaseOf;
  }

  lemma {:induction false} RunKeeps(s: State, steps: seq<Step>)
    requires Inv(s)
    ensures Inv(Run(s, steps))
    decreases |steps|
  {
    hide Inv;
    if steps != [] {
      InvKept(s, steps[0]);
      RunKeeps(Apply(s, steps[0]), steps[1..]);
    }
  }

  lemma Starts()
    ensures Inv(INITIAL)
  {
  }

  // ---------- What every run keeps ----------

  /** In every run with fewer than 2^64 purges, no result began to be resolved before a purge its lookup had seen. */
  lemma ResultsAreFresh(steps: seq<Step>, t: Thread)
    requires |Run(INITIAL, steps).purges| < U64_LIMIT && PhaseOf(Run(INITIAL, steps), t).Returned?
    ensures var s := Run(INITIAL, steps);
            Fresh(s.purges, PhaseOf(s, t).loaded, PhaseOf(s, t).past.began)
  {
    hide Run;
    Starts();
    RunKeeps(INITIAL, steps);
    var s := Run(INITIAL, steps);
    assert PhaseOk(s.clock, s.purges, s.threads[t]);
  }

  /** No two threads hold the lock, and the cache is never over its capacity. */
  lemma OneHolder(steps: seq<Step>, t: Thread, v: Thread)
    ensures PhaseOf(Run(INITIAL, steps), t).Holding? && PhaseOf(Run(INITIAL, steps), v).Holding? ==> t == v
    ensures |Run(INITIAL, steps).cache| <= 1024
  {
    hide Run, PhaseOk, EntryOk;
    Starts();
    RunKeeps(INITIAL, steps);
  }

  /**
   The cache gains only the entry of the thread that holds the lock. It loses only the purged entry, or one entry evicted
   for a new DID when it is full; an expired entry is never served.
   */
  lemma CacheChanges(s: State, step: Step)
    ensures var p := PhaseOf(s, step.t);
            var u := Apply(s, step);
            && (forall k :: k in u.cache && !(k in s.cache && s.cache[k] == u.cache[k]) ==>
                  step.Store? && p.Holding? && k == p.did && u.cache[k] == Entry(p.identity, p.generation, p.past))
            && (forall k :: k in s.cache && k !in u.cache ==>
                  || (step.Remove? && p.Purging? && k == p.did)
                  || (step.Store? && p.Holding? && k == step.victim && |s.cache| >= 1024 && p.did !in s.cache))
            && (step.Remove? && p.Purging? && s.lock.None? ==> p.did !in u.cache)
            && (step.Check? && step.expired ==> PhaseOf(u, step.t).Returned? ==> p.Returned?)
  {
    hide VerifyDeclaredHandle;
    CacheAfter(s, step);
    if step.Check? && step.expired {
      ExpiredIsResolved(s, step);
    }
    hide Apply, PhaseOf;
  }

  lemma ExpiredIsResolved(s: State, step: Step)
    requires step.Check? && step.expired
    ensures PhaseOf(Apply(s, step), step.t).Returned? ==> PhaseOf(s, step.t).Returned?
  {
  }

  // ---------- The exact limit ----------

  /** Every result in every run with `n` purges is fresh. */
  ghost predicate AlwaysFresh(n: nat) {
    forall steps, t ::
      |Run(INITIAL, steps).purges| == n && PhaseOf(Run(INITIAL, steps), t).Returned? ==>
        Fresh(Run(INITIAL, steps).purges, PhaseOf(Run(INITIAL, steps), t).loaded, PhaseOf(Run(INITIAL, steps), t).past.began)
  }

  const KEPT: Did := [1]
  const PURGED: Did := [2]
  const DOCUMENT := Document([], None)

  /** A lookup that resolves `KEPT` and stores it. */
  const FILL: seq<Step> := [Load(0, KEPT), Check(0, false), Resolve(0, Some(DOCUMENT)), Lock(0), Store(0, KEPT)]

  /** A lookup that finds it. */
  const HIT: seq<Step> := [Load(0, KEPT), Check(0, false)]

  /** `k` purges of another DID. */
  function Purges(k: nat): seq<Step> {
    if k == 0 then [] else [Increment(1, PURGED), Remove(1)] + Purges(k - 1)
  }

  lemma {:induction false} RunAppend(s: State, a: seq<Step>, b: seq<Step>)
    ensures Run(s, a + b) == Run(Run(s, a), b)
    decreases |a|
  {
    hide Apply;
    if a == [] {
      assert a + b == b;
    } else {
      assert (a + b)[1..] == a[1..] + b;
      RunAppend(Apply(s, a[0]), a[1..], b);
    }
  }

  ghost predicate Quiet(s: State) {
    && s.lock.None? && PhaseOf(s, 1).Idle? && PURGED !in s.cache
    && s.generation == |s.purges| % U64_LIMIT
  }

  lemma OnePurge(s: State)
    requires Quiet(s)
    ensures var u := Apply(Apply(s, Increment(1, PURGED)), Remove(1));
            && Quiet(u) && u.cache == s.cache && PhaseOf(u, 0) == PhaseOf(s, 0)
            && u.purges == s.purges + [s.clock]
  {
    assert s.cache - {PURGED} == s.cache;
  }

  lemma {:induction false} ManyPurges(s: State, k: nat)
    requires Quiet(s)
    ensures var u := Run(s, Purges(k));
            && Quiet(u) && u.cache == s.cache && PhaseOf(u, 0) == PhaseOf(s, 0)
            && |u.purges| == |s.purges| + k && s.purges <= u.purges && (k > 0 ==> u.purges[|s.purges|] == s.clock)
            && u.clock >= s.clock + k
    decreases k
  {
    hide Quiet, Act;
    if k > 0 {
      OnePurge(s);
      var t := Apply(Apply(s, Increment(1, PURGED)), Remove(1));
      TwoSteps(s, Increment(1, PURGED), Remove(1), Purges(k - 1));
      ManyPurges(t, k - 1);
    }
  }

  lemma TwoSteps(s: State, a: Step, b: Step, rest: seq<Step>)
    ensures Run(s, [a, b] + rest) == Run(Apply(Apply(s, a), b), rest)
  {
    hide Apply;
    assert ([a, b] + rest)[1..] == [b] + rest && ([b] + rest)[1..] == rest;
  }

  lemma Filled()
    ensures var s := Run(INITIAL, FILL);
            && Quiet(s) && s.purges == [] && s.clock == 5
            && KEPT in s.cache && s.cache[KEPT] == Entry(Identity(DOCUMENT, None), 0, Past(0, 0, 1, 2, 0))
            && PhaseOf(s, 0).Returned?
  {
    hide Run;
    var a := Apply(INITIAL, FILL[0]);
    var b := Apply(a, FILL[1]);
    var c := Apply(b, FILL[2]);
    var d := Apply(c, FILL[3]);
    var e := Apply(d, FILL[4]);
    assert PhaseOf(a, 0) == Checking(KEPT, 0, Past(0, 0, 0, 0, 0));
    assert PhaseOf(b, 0) == Resolving(KEPT, 0, Past(0, 0, 1, 0, 0));
    assert PhaseOf(c, 0) == Storing(KEPT, 0, Past(0, 0, 1, 2, 0), Identity(DOCUMENT, None));
    assert PhaseOf(d, 0) == Holding(KEPT, 0, Past(0, 0, 1, 2, 0), Identity(DOCUMENT, None));
    TwoSteps(INITIAL, FILL[0], FILL[1], FILL[2..]);
    assert FILL == [FILL[0], FILL[1]] + FILL[2..];
    TwoSteps(b, FILL[2], FILL[3], FILL[4..]);
    assert FILL[2..] == [FILL[2], FILL[3]] + FILL[4..];
    OneStep(d, FILL[4]);
    assert FILL[4..] == [FILL[4]];
  }

  lemma OneStep(s: State, a: Step)
    ensures Run(s, [a]) == Apply(s, a)
  {
    assert [a][1..] == [];
  }

  lemma HitsOld(s: State)
    requires Quiet(s) && s.generation == 0 && PhaseOf(s, 0).Returned?
    requires KEPT in s.cache && s.cache[KEPT] == Entry(Identity(DOCUMENT, None), 0, Past(0, 0, 1, 2, 0))
    ensures var u := Run(s, HIT);
            Quiet(u) && u.purges == s.purges && PhaseOf(u, 0) == Returned(KEPT, s.clock, Past(0, 0, 1, 2, 0), Identity(DOCUMENT, None))
  {
    var a := Apply(s, HIT[0]);
    assert PhaseOf(a, 0) == Checking(KEPT, 0, Past(s.clock, |s.purges|, s.clock, s.clock, s.clock));
    TwoSteps(s, HIT[0], HIT[1], []);
    assert HIT == [HIT[0], HIT[1]] + [];
  }

  /** The generation counter has 64 bits: after 2^64 purges an old entry can be served again. */
  lemma StaleAfterWrap(n: nat)
    requires n >= U64_LIMIT
    ensures !AlwaysFresh(n)
  {
    hide Run, Quiet, PhaseOf;
    var first := Run(INITIAL, FILL);
    Filled();
    var wrapped := Run(first, Purges(U64_LIMIT));
    ManyPurges(first, U64_LIMIT);
    QuietCounts(wrapped);
    HitsOld(wrapped);
    var hit := Run(wrapped, HIT);
    ManyPurges(hit, n - U64_LIMIT);
    var last := Run(hit, Purges(n - U64_LIMIT));
    RunAppend(INITIAL, FILL, Purges(U64_LIMIT));
    RunAppend(INITIAL, FILL + Purges(U64_LIMIT), HIT);
    var steps := FILL + Purges(U64_LIMIT) + HIT + Purges(n - U64_LIMIT);
    RunAppend(INITIAL, FILL + Purges(U64_LIMIT) + HIT, Purges(n - U64_LIMIT));
    assert Run(INITIAL, steps) == last;
    assert last.purges[0] == 5;
    assert !Fresh(last.purges, wrapped.clock, 1);
    assert PhaseOf(Run(INITIAL, steps), 0).Returned?;
  }

  lemma QuietCounts(s: State)
    requires Quiet(s)
    ensures s.generation == |s.purges| % U64_LIMIT
  {
  }

  /** No run with `n` purges returns a stale identity exactly when `n` is below 2^64. */
  lemma FreshUntilWrap(n: nat)
    ensures AlwaysFresh(n) <==> n < U64_LIMIT
  {
    if n >= U64_LIMIT {
      StaleAfterWrap(n);
    } else {
      hide Run;
      forall steps, t | |Run(INITIAL, steps).purges| == n && PhaseOf(Run(INITIAL, steps), t).Returned?
        ensures Fresh(Run(INITIAL, steps).purges, PhaseOf(Run(INITIAL, steps), t).loaded, PhaseOf(Run(INITIAL, steps), t).past.began)
      {
        ResultsAreFresh(steps, t);
      }
    }
  }
}
