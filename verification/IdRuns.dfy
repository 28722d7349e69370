/**
  Whole runs of the identification table: allocations and releases in any order, and
  calls of `ipv4_transmit_datagram` as allocate, send and release.
 */
module IdRuns {
  import opened Bytes
  import opened IdSearch
  import opened IdTable

  /** The entries marked in the table, and the identifications handed out and not released. */
  datatype State = State(used: set<nat>, live: multiset<nat>)

  datatype Event = Acquire(start: nat) | Release(id: nat)

  const INITIAL := State({}, multiset{})

  /** One step, or `None` if it cannot happen: a search that hangs, a release of what is not live. */
  function Step(s: State, e: Event): Option<State> {
    match e
    case Acquire(start) =>
      if start >= MODULUS then None else
      (match Allocate(s.used, start)
       case None => None
       case Some(a) => Some(State(a.used, s.live + multiset{a.id})))
    case Release(id) =>
      if id !in s.live then None else Some(State(s.used - {id}, s.live - multiset{id}))
  }

  function Run(s: State, es: seq<Event>): Option<State>
    decreases |es|
  {
    if es == [] then Some(s) else
    match Step(s, es[0])
    case None => None
    case Some(t) => Run(t, es[1..])
  }

  /**
    `allocate_ipv4_id` is the step that acquires from the first entry of the new block,
    whatever identifications are live.
   */
  method AcquireStep(table: Table, random: nat, ghost live: multiset<nat>) returns (id: word)
    requires table.Valid()
    requires Terminates(table.inUse, StartEntry(table.lastBlock, random))
    modifies table, table.used
    ensures table.Valid()
    ensures Step(State(old(table.inUse), live), Acquire(8 * table.lastBlock))
            == Some(State(table.inUse, live + multiset{id}))
    ensures 8 * table.lastBlock == StartEntry(old(table.lastBlock), random)
  {
    ghost var rounds;
    id, rounds := table.AllocateId(random);
  }

  /** `free_ipv4_id` of a live identification is the step that releases it. */
  method ReleaseStep(table: Table, id: word, ghost live: multiset<nat>)
    requires table.Valid() && id as nat in live
    modifies table`inUse, table.used
    ensures table.Valid()
    ensures Step(State(old(table.inUse), live), Release(id)) == Some(State(table.inUse, live - multiset{id}))
  {
    table.FreeId(id);
  }

  /** `ip_initialise` is the start of a run. */
  method Fresh(random: nat) returns (table: Table)
    ensures fresh(table) && fresh(table.used) && table.Valid()
    ensures State(table.inUse, multiset{}) == INITIAL
  {
    table := new Table.Initialise(random);
  }

  /** The marks are the live identifications, each handed out once, and possibly 0. */
  predicate Consistent(s: State) {
    && s.live == multiset(s.used - {0})
    && forall x :: x in s.live ==> 0 < x < MODULUS
  }

  lemma StepConsistent(s: State, e: Event)
    requires Consistent(s) && Step(s, e).Some?
    ensures Consistent(Step(s, e).value)
  {
    match e
    case Acquire(start) =>
      AllocateGives(s.used, start);
      var a := Allocate(s.used, start).value;
      AddToMultiset(s.used - {0}, a.id);
    case Release(id) =>
      assert (s.used - {id}) - {0} == (s.used - {0}) - {id};
      RemoveFromMultiset(s.used - {0}, id);
  }

  lemma AddToMultiset(ids: set<nat>, id: nat)
    requires id !in ids
    ensures multiset(ids + {id}) == multiset(ids) + multiset{id}
  {
  }

  lemma RemoveFromMultiset(ids: set<nat>, id: nat)
    requires id in ids
    ensures multiset(ids - {id}) == multiset(ids) - multiset{id}
  {
  }

  lemma {:induction false} RunConsistent(s: State, es: seq<Event>)
    requires Consistent(s) && Run(s, es).Some?
    ensures Consistent(Run(s, es).value)
    decreases |es|
  {
    if es == [] {
    } else {
      StepConsistent(s, es[0]);
      RunConsistent(Step(s, es[0]).value, es[1..]);
    }
  }

  /** An identification as a receiver reads it: stored in host order, read big-endian. */
  function OnWire(id: word): word {
    var b := Store(LittleEndian, id);
    Load(BigEndian, b[0], b[1])
  }

  lemma OnWireInjective(x: word, y: word)
    ensures OnWire(x) == OnWire(y) <==> x == y
    ensures OnWire(x) == 0 <==> x == 0
  {
  }

  /**
    In every state a run can reach, no identification is live twice, all live ones are in
    1..65534, the marks are exactly the live ones and possibly 0, and the live ones differ
    on the wire too, although they are stored without `htons`.
   */
  lemma LiveIdsAreUnique(es: seq<Event>)
    requires Run(INITIAL, es).Some?
    ensures var s := Run(INITIAL, es).value;
            && (forall x :: s.live[x] <= 1)
            && (forall x :: x in s.live ==> 0 < x < MODULUS)
            && (forall x :: x != 0 ==> (x in s.used <==> x in s.live))
            && (forall x, y :: x in s.live && y in s.live && x != y ==> OnWire(x) != OnWire(y))
  {
    RunConsistent(INITIAL, es);
    forall x: word, y: word | x != y
      ensures OnWire(x) != OnWire(y)
    {
      OnWireInjective(x, y);
    }
  }

  /** With at most 21843 live identifications, no start can hang, in any reachable state. */
  lemma NeverHangsBelowCapacity(es: seq<Event>, start: nat)
    requires Run(INITIAL, es).Some? && start < MODULUS
    requires |Run(INITIAL, es).value.live| <= 21843
    ensures Terminates(Run(INITIAL, es).value.used, start)
    ensures Run(INITIAL, es + [Acquire(start)]).Some?
  {
    var s := Run(INITIAL, es).value;
    RunConsistent(INITIAL, es);
    CapacitySuffices(s.used, start);
    TerminatesIff(s.used, start);
    RunSnoc(INITIAL, es, Acquire(start));
  }

  lemma {:induction false} RunSnoc(s: State, es: seq<Event>, e: Event)
    requires Run(s, es).Some?
    ensures Run(s, es + [e]) == Step(Run(s, es).value, e)
    decreases |es|
  {
    if es == [] {
      assert es + [e] == [e];
      assert [e][1..] == [];
    } else {
      RunSnoc(Step(s, es[0]).value, es[1..], e);
      assert (es + [e])[1..] == es[1..] + [e];
    }
  }

  function Repeat<T>(x: T, n: nat): seq<T> {
    seq(n, _ => x)
  }

  /** Allocating `n` times from entry 0 hands out 3, 6, ..., 3n. */
  lemma {:induction false} FillFromZero(n: nat)
    requires n < CLASS
    ensures Run(INITIAL, Repeat(Acquire(0), n)).Some?
    ensures Run(INITIAL, Repeat(Acquire(0), n)).value.used == Multiples(0, n) + (if n == 0 then {} else {0})
  {
    if n == 0 {
    } else {
      var es := Repeat(Acquire(0), n - 1);
      FillFromZero(n - 1);
      assert Repeat(Acquire(0), n) == es + [Acquire(0)];
      RunSnoc(INITIAL, es, Acquire(0));
      NextFromZero(Run(INITIAL, es).value.used, n);
    }
  }

  lemma NextFromZero(used: set<nat>, n: nat)
    requires 0 < n < CLASS
    requires used - {0} == Multiples(0, n - 1)
    ensures Allocate(used, 0) == Some(Allocation(STEP * n, Multiples(0, n) + {0}))
  {
    FirstFreeFromZero(used, n);
    assert Visit(0, n) == STEP * n;
    MultiplesNext(0, n);
    assert PassesZero(0, n);
    assert used + {STEP * n} + {0} == (used - {0}) + {STEP * n} + {0};
  }

  lemma FirstFreeFromZero(used: set<nat>, n: nat)
    requires 0 < n < CLASS
    requires used - {0} == Multiples(0, n - 1)
    ensures FirstFree(used, 0) == n
  {
    forall k: nat | k <= n
      ensures Takes(used, 0, k) <==> k == n
    {
      assert Visit(0, k) == STEP * k;
      assert STEP * k in used - {0} <==> k != 0 && STEP * k in used;
    }
    var k := FirstFree(used, 0);
    assert Takes(used, 0, n);
    assert k <= n;
    assert Takes(used, 0, k);
  }

  /**
    The bound is tight in a state that a run does reach: 21844 allocations from block 0
    leave a table in which every start divisible by 3 hangs.
   */
  lemma CapacityIsReached(start: nat)
    requires start < MODULUS && start % 3 == 0
    ensures var r := Run(INITIAL, Repeat(Acquire(0), 21844));
            && r.Some?
            && |r.value.live| == 21844
            && !Terminates(r.value.used, start)
            && Run(INITIAL, Repeat(Acquire(0), 21844) + [Acquire(start)]) == None
  {
    var es := Repeat(Acquire(0), CLASS - 1);
    FillFromZero(CLASS - 1);
    var s := Run(INITIAL, es).value;
    RunConsistent(INITIAL, es);
    assert 0 !in Multiples(0, CLASS - 1);
    assert s.used - {0} == Multiples(0, CLASS - 1);
    CapacityIsTight(s.used, start);
    TerminatesIff(s.used, start);
    RunSnoc(INITIAL, es, Acquire(start));
  }

  // Runs of `ipv4_transmit_datagram`.

  /** How a call ends: no header, a header but no packet buffer, or a packet on the link. */
  datatype Outcome = NoHeader | NoBuffer | Sent

  datatype Call = Call(start: nat, outcome: Outcome)

  /** The marks after a call, or `None` if it never returns. */
  function Transmit(used: set<nat>, c: Call): Option<set<nat>>
    requires c.start < MODULUS
  {
    if c.outcome == NoHeader then Some(used) else
    match Allocate(used, c.start)
    case None => None
    case Some(a) => Some(if c.outcome == NoBuffer then a.used else a.used - {a.id})
  }

  predicate ValidCalls(cs: seq<Call>) {
    forall c :: c in cs ==> c.start < MODULUS
  }

  function TransmitAll(used: set<nat>, cs: seq<Call>): Option<set<nat>>
    requires ValidCalls(cs)
    decreases |cs|
  {
    if cs == [] then Some(used) else
    assert cs[0] in cs;
    match Transmit(used, cs[0])
    case None => None
    case Some(u) => TransmitAll(u, cs[1..])
  }

  function Leaks(cs: seq<Call>): nat {
    if cs == [] then 0 else (if cs[0].outcome == NoBuffer then 1 else 0) + Leaks(cs[1..])
  }

  /** A call that gets no buffer keeps one identification marked; any other keeps none. */
  lemma TransmitConserves(used: set<nat>, c: Call)
    requires c.start < MODULUS && Transmit(used, c).Some?
    ensures var u := Transmit(used, c).value;
            && (c.outcome != NoBuffer ==> u - {0} == used - {0})
            && (c.outcome == NoBuffer ==> used - {0} < u - {0})
            && |u - {0}| == |used - {0}| + (if c.outcome == NoBuffer then 1 else 0)
  {
    if c.outcome != NoHeader {
      AllocateGives(used, c.start);
      var a := Allocate(used, c.start).value;
      assert (a.used - {a.id}) - {0} == used - {0};
    }
  }

  lemma {:induction false} TransmitAllConserves(used: set<nat>, cs: seq<Call>)
    requires ValidCalls(cs) && TransmitAll(used, cs).Some?
    ensures |TransmitAll(used, cs).value - {0}| == |used - {0}| + Leaks(cs)
    decreases |cs|
  {
    if cs == [] {
    } else {
      assert cs[0] in cs;
      TransmitConserves(used, cs[0]);
      TransmitAllConserves(Transmit(used, cs[0]).value, cs[1..]);
    }
  }

  /**
    After any run of calls from a fresh table, the nonzero identifications still marked
    are as many as the calls that got a header but no packet buffer.
   */
  lemma MarkedAreLeaked(cs: seq<Call>)
    requires ValidCalls(cs) && TransmitAll({}, cs).Some?
    ensures |TransmitAll({}, cs).value - {0}| == Leaks(cs)
  {
    TransmitAllConserves({}, cs);
    assert {} - {0} == {};
  }

  /** Runs with at most 21843 such calls always complete, whatever the starts are. */
  lemma {:induction false} TransmitsComplete(used: set<nat>, cs: seq<Call>)
    requires ValidCalls(cs)
    requires |used - {0}| + Leaks(cs) <= 21843
    ensures TransmitAll(used, cs).Some?
    decreases |cs|
  {
    if cs == [] {
    } else {
      assert cs[0] in cs;
      CapacitySuffices(used, cs[0].start);
      TerminatesIff(used, cs[0].start);
      TransmitConserves(used, cs[0]);
      TransmitsComplete(Transmit(used, cs[0]).value, cs[1..]);
    }
  }

  /** Calls that all have a packet buffer leave the nonzero marks as they were. */
  lemma {:induction false} MarksKept(used: set<nat>, cs: seq<Call>)
    requires ValidCalls(cs) && TransmitAll(used, cs).Some? && Leaks(cs) == 0
    ensures TransmitAll(used, cs).value - {0} == used - {0}
    decreases |cs|
  {
    if cs == [] {
    } else {
      assert cs[0] in cs;
      TransmitConserves(used, cs[0]);
      MarksKept(Transmit(used, cs[0]).value, cs[1..]);
    }
  }

  /** The marks after a send from `s` and then the calls `cs`. */
  function MarksBetween(used: set<nat>, s: nat, cs: seq<Call>): Option<set<nat>>
    requires s < MODULUS && ValidCalls(cs)
  {
    match Transmit(used, Call(s, Sent))
    case None => None
    case Some(u) => TransmitAll(u, cs)
  }

  /** Whether a search from `s` and a later one from `t` hand out the same identification. */
  predicate SameId(used: set<nat>, s: nat, later: set<nat>, t: nat)
    requires s < MODULUS && t < MODULUS
  {
    Allocate(used, s).Some? && HandsOut(later, t, Allocate(used, s).value.id)
  }

  /**
    An identification is free again as soon as its datagram is sent. After a send from `s`
    and any calls that all have a packet buffer, a search from `t` finds the same one
    exactly when `t` is in the same class and meets nothing free before it; in particular
    when `t` is `s`.
   */
  lemma ReleasedIdIsReused(used: set<nat>, s: nat, cs: seq<Call>, t: nat)
    requires s < MODULUS && t < MODULUS && ValidCalls(cs) && Leaks(cs) == 0
    requires MarksBetween(used, s, cs).Some?
    ensures Allocate(used, s).Some? && Allocate(used, s).value.id < MODULUS
    ensures SameId(used, s, MarksBetween(used, s, cs).value, t) <==>
            s % STEP == t % STEP && NothingFreeBefore(used, t, Allocate(used, s).value.id)
    ensures s == t ==> SameId(used, s, MarksBetween(used, s, cs).value, t)
  {
    var v, x := MarksBetween(used, s, cs).value, Allocate(used, s).value.id;
    AllocateGives(used, s);
    NonzeroMarksBetween(used, s, cs);
    AllocatesIff(used, t, x);
    AllocateIgnoresZero(used, v, t, x);
  }

  lemma NonzeroMarksBetween(used: set<nat>, s: nat, cs: seq<Call>)
    requires s < MODULUS && ValidCalls(cs) && Leaks(cs) == 0
    requires MarksBetween(used, s, cs).Some?
    ensures MarksBetween(used, s, cs).value - {0} == used - {0}
  {
    TransmitConserves(used, Call(s, Sent));
    MarksKept(Transmit(used, Call(s, Sent)).value, cs);
  }

  lemma AllocateIgnoresZero(used: set<nat>, u: set<nat>, start: nat, x: nat)
    requires used - {0} == u - {0} && start < MODULUS
    ensures HandsOut(used, start, x) <==> HandsOut(u, start, x)
  {
    SearchIgnoresZero(used, u, start);
  }

  /** With calls between them that do leak, the later search decides on the marks it meets. */
  lemma ReusedAfterAnyRun(used: set<nat>, s: nat, cs: seq<Call>, t: nat)
    requires s < MODULUS && t < MODULUS && ValidCalls(cs)
    requires MarksBetween(used, s, cs).Some?
    ensures Allocate(used, s).Some? && Allocate(used, s).value.id < MODULUS
    ensures SameId(used, s, MarksBetween(used, s, cs).value, t) <==>
            && Allocate(used, s).value.id !in MarksBetween(used, s, cs).value
            && s % STEP == t % STEP
            && NothingFreeBefore(MarksBetween(used, s, cs).value, t, Allocate(used, s).value.id)
  {
    AllocateGives(used, s);
    AllocatesIff(MarksBetween(used, s, cs).value, t, Allocate(used, s).value.id);
  }

  /** Without marks a search from the first entry of a block takes that entry, or 3 from block 0. */
  lemma FirstOfBlock(used: set<nat>, start: nat)
    requires start < MODULUS && used - {0} == {}
    ensures Allocate(used, start).Some?
    ensures Allocate(used, start).value.id == if start == 0 then STEP else start
  {
    forall x: nat | x != 0
      ensures x !in used
    {
      assert x !in used - {0};
    }
    assert Visit(start, 0) == start;
    assert start == 0 ==> Visit(start, 1) == STEP;
    assert Takes(used, start, if start == 0 then 1 else 0);
    assert start == 0 ==> !Takes(used, start, 0);
  }

  /**
    While nothing has leaked, two sends share an identification if and only if they start
    in the same block, whatever calls with a packet buffer lie between them.
   */
  lemma SameBlockSharesId(used: set<nat>, cs: seq<Call>, last: nat, random: nat, last': nat, random': nat)
    requires used - {0} == {} && ValidCalls(cs) && Leaks(cs) == 0
    requires MarksBetween(used, StartEntry(last, random), cs).Some?
    ensures SameId(used, StartEntry(last, random),
                   MarksBetween(used, StartEntry(last, random), cs).value, StartEntry(last', random'))
       <==> NextBlock(last, random) == NextBlock(last', random')
  {
    var s, t := StartEntry(last, random), StartEntry(last', random');
    NonzeroMarksBetween(used, s, cs);
    FirstOfBlock(used, s);
    FirstOfBlock(MarksBetween(used, s, cs).value, t);
  }

  lemma SearchIgnoresZero(used: set<nat>, u: set<nat>, start: nat)
    requires used - {0} == u - {0}
    ensures FirstFree(used, start) == FirstFree(u, start)
  {
    forall k: nat
      ensures Takes(used, start, k) <==> Takes(u, start, k)
    {
      var x := Visit(start, k);
      assert x != 0 ==> (x in used <==> x in used - {0}) && (x in u <==> x in u - {0});
    }
    var j, k := FirstFree(used, start), FirstFree(u, start);
    assert j < CLASS ==> Takes(u, start, j);
    assert k < CLASS ==> Takes(used, start, k);
  }

  /** Calls that get no buffer use up the table just as allocations do. */
  lemma {:induction false} LeakingIsAcquiring(s: State, n: nat)
    ensures TransmitAll(s.used, Repeat(Call(0, NoBuffer), n)) ==
            match Run(s, Repeat(Acquire(0), n)) case None => None case Some(t) => Some(t.used)
    decreases n
  {
    if n == 0 {
    } else {
      var cs, es := Repeat(Call(0, NoBuffer), n), Repeat(Acquire(0), n);
      assert cs[1..] == Repeat(Call(0, NoBuffer), n - 1);
      assert es[1..] == Repeat(Acquire(0), n - 1);
      var next := Step(s, es[0]);
      if next.Some? {
        LeakingIsAcquiring(next.value, n - 1);
      }
    }
  }

  /** And that bound is tight: 21844 of them from block 0, and the next call never returns. */
  lemma LeaksCanHang()
    ensures TransmitAll({}, Repeat(Call(0, NoBuffer), 21844)).Some?
    ensures TransmitAll({}, Repeat(Call(0, NoBuffer), 21845)).None?
  {
    LeakingIsAcquiring(INITIAL, CLASS - 1);
    LeakingIsAcquiring(INITIAL, CLASS);
    CapacityIsReached(0);
    assert Repeat(Acquire(0), CLASS) == Repeat(Acquire(0), CLASS - 1) + [Acquire(0)];
  }
}
