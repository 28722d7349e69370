/**
  The search for a free IPv4 identification in `allocate_ipv4_id` of `src/ip.c`, on the
  set of identifications in use.

  The search steps by 3 modulo 65535. Since 3 divides 65535 it never leaves the residue
  class of its start, and it never meets 65535. It may mark 0 as used on its way, but it
  goes on until it holds an identification other than 0.
 */
module IdSearch {
  import opened Bytes

  const MODULUS: nat := 65535
  const STEP: nat := 3

  /** The size of a residue class: 65535 / 3. */
  const CLASS: nat := 21845

  /** The search in the middle of its loop: `id` is 0 until the loop can end. */
  datatype Search = Search(used: set<nat>, entry: nat, id: nat)

  /** One round of the loop; a search that holds an identification has ended. */
  function Round(s: Search): Search {
    if s.id != 0 then s
    else if s.entry !in s.used then Search(s.used + {s.entry}, s.entry, s.entry)
    else s.(entry := (s.entry + STEP) % MODULUS)
  }

  function Rounds(s: Search, n: nat): Search {
    if n == 0 then s else Round(Rounds(s, n - 1))
  }

  function Begin(used: set<nat>, start: nat): Search {
    Search(used, start, 0)
  }

  ghost predicate Terminates(used: set<nat>, start: nat) {
    exists n: nat :: Rounds(Begin(used, start), n).id != 0
  }

  /** The residue class of `start` holds an identification other than 0 that is not in use. */
  ghost predicate HasFree(used: set<nat>, start: nat) {
    exists x: nat :: 0 < x < MODULUS && x % STEP == start % STEP && x !in used
  }

  // The order in which entries are visited.

  function Visit(start: nat, k: nat): nat {
    (start + STEP * k) % MODULUS
  }

  /** The entries visited are those of the start's residue class. */
  lemma VisitStaysInClass(start: nat, k: nat)
    ensures Visit(start, k) == (start + 3 * k) % 65535
    ensures Visit(start, k) < MODULUS && Visit(start, k) % 3 == start % 3
  {
  }

  function IndexOf(start: nat, x: nat): nat
    requires start < MODULUS && x < MODULUS
  {
    if x >= start then (x - start) / STEP else (x + MODULUS - start) / STEP
  }

  /** Every entry of the class is visited, and exactly once in 21845 steps. */
  lemma VisitCovers(start: nat, x: nat, k: nat)
    requires start < MODULUS && x < MODULUS && x % STEP == start % STEP && k < CLASS
    ensures IndexOf(start, x) < CLASS
    ensures Visit(start, k) == x <==> k == IndexOf(start, x)
  {
  }

  lemma VisitNext(start: nat, k: nat)
    ensures (Visit(start, k) + STEP) % MODULUS == Visit(start, k + 1)
  {
  }

  // What the search finds.

  predicate Takes(used: set<nat>, start: nat, k: nat) {
    Visit(start, k) != 0 && Visit(start, k) !in used
  }

  /** The first visit, at or after `from`, that ends the search; 21845 if there is none. */
  function FirstFree(used: set<nat>, start: nat, from: nat := 0): (k: nat)
    requires from <= CLASS
    ensures from <= k <= CLASS
    ensures forall j :: from <= j < k ==> !Takes(used, start, j)
    ensures k < CLASS ==> Takes(used, start, k)
    decreases CLASS - from
  {
    if from == CLASS || Takes(used, start, from) then from else FirstFree(used, start, from + 1)
  }

  lemma FirstFreeExists(used: set<nat>, start: nat)
    requires start < MODULUS
    ensures HasFree(used, start) <==> FirstFree(used, start) < CLASS
  {
    var k := FirstFree(used, start);
    if k < CLASS {
      VisitStaysInClass(start, k);
    }
    if x: nat :| 0 < x < MODULUS && x % STEP == start % STEP && x !in used {
      VisitCovers(start, x, 0);
      VisitCovers(start, x, IndexOf(start, x));
      assert Takes(used, start, IndexOf(start, x));
    }
  }

  /** Whether entry 0 is visited before visit `k`. */
  predicate PassesZero(start: nat, k: nat)
    requires start < MODULUS
  {
    start % STEP == 0 && IndexOf(start, 0) < k
  }

  datatype Allocation = Allocation(id: nat, used: set<nat>)

  /** The outcome: the first free identification in visiting order, if there is one. */
  function Allocate(used: set<nat>, start: nat): Option<Allocation>
    requires start < MODULUS
  {
    var k := FirstFree(used, start);
    if k == CLASS then None
    else Some(Allocation(Visit(start, k), used + {Visit(start, k)} + (if PassesZero(start, k) then {0} else {})))
  }

  /** The rounds it takes: one a visit, and one more to mark 0. */
  function RoundsNeeded(used: set<nat>, start: nat): nat
    requires start < MODULUS
  {
    var k := FirstFree(used, start);
    k + 1 + (if PassesZero(start, k) && 0 !in used then 1 else 0)
  }

  /** The search after `n` rounds without an identification. */
  function SearchAt(used: set<nat>, start: nat, n: nat): Search
    requires start < MODULUS
  {
    if 0 !in used && PassesZero(start, n) then Search(used + {0}, Visit(start, n - 1), 0)
    else Search(used, Visit(start, n), 0)
  }

  lemma {:induction false} RoundsAre(used: set<nat>, start: nat, n: nat)
    requires start < MODULUS
    requires n < RoundsNeeded(used, start) && FirstFree(used, start) < CLASS
    ensures Rounds(Begin(used, start), n) == SearchAt(used, start, n)
  {
    if n > 0 {
      RoundsAre(used, start, n - 1);
      RoundAdvances(used, start, n - 1);
    } else {
      assert Visit(start, 0) == start;
    }
  }

  lemma RoundAdvances(used: set<nat>, start: nat, n: nat)
    requires start < MODULUS
    requires n + 1 < RoundsNeeded(used, start) && FirstFree(used, start) < CLASS
    ensures Round(SearchAt(used, start, n)) == SearchAt(used, start, n + 1)
  {
    if 0 !in used && PassesZero(start, n) {
      assert !Takes(used, start, n - 1);
      VisitNext(start, n - 1);
    } else {
      NotYetFound(used, start, n);
      VisitNext(start, n);
    }
  }

  /** Before 0 is passed, a round meets a used entry, or meets 0 and marks it. */
  lemma NotYetFound(used: set<nat>, start: nat, n: nat)
    requires start < MODULUS
    requires n + 1 < RoundsNeeded(used, start) && FirstFree(used, start) < CLASS
    requires !(0 !in used && PassesZero(start, n))
    ensures Visit(start, n) in used <==> !(0 !in used && PassesZero(start, n + 1))
    ensures Visit(start, n) !in used ==> Visit(start, n) == 0
  {
    assert n < FirstFree(used, start);
    assert !Takes(used, start, n);
    ZeroVisit(start, n);
  }

  lemma ZeroVisit(start: nat, n: nat)
    requires start < MODULUS && n < CLASS
    ensures Visit(start, n) == 0 <==> PassesZero(start, n + 1) && !PassesZero(start, n)
  {
  }

  /**
    When the class has a free identification the loop ends, after at most 21846 rounds,
    holding the first one in visiting order; the set of used entries gains it, and gains 0
    if 0 was met on the way, and nothing else.
   */
  lemma SearchFinds(used: set<nat>, start: nat)
    requires start < MODULUS && HasFree(used, start)
    ensures RoundsNeeded(used, start) <= 21846
    ensures forall n: nat :: n < RoundsNeeded(used, start) ==> Rounds(Begin(used, start), n).id == 0
    ensures Allocate(used, start).Some?
    ensures var a := Allocate(used, start).value;
            Rounds(Begin(used, start), RoundsNeeded(used, start)) == Search(a.used, a.id, a.id)
  {
    FirstFreeExists(used, start);
    forall n: nat | n < RoundsNeeded(used, start)
      ensures Rounds(Begin(used, start), n).id == 0
    {
      RoundsAre(used, start, n);
    }
    LastRound(used, start);
  }

  lemma LastRound(used: set<nat>, start: nat)
    requires start < MODULUS && FirstFree(used, start) < CLASS
    ensures var a := Allocate(used, start).value;
            Rounds(Begin(used, start), RoundsNeeded(used, start)) == Search(a.used, a.id, a.id)
  {
    var k, n := FirstFree(used, start), RoundsNeeded(used, start) - 1;
    RoundsAre(used, start, n);
    var s := SearchAt(used, start, n);
    assert s.entry == Visit(start, k);
    var a := Allocate(used, start).value;
    assert s.used + {Visit(start, k)} == a.used;
  }

  /** When it has none, the loop goes round for ever. */
  lemma {:induction false} SearchHangs(used: set<nat>, start: nat, n: nat)
    requires start < MODULUS && !HasFree(used, start)
    ensures var s := Rounds(Begin(used, start), n);
            s.id == 0 && s.entry < MODULUS && s.entry % STEP == start % STEP && used <= s.used
  {
    if n == 0 {
    } else {
      SearchHangs(used, start, n - 1);
      var e := Rounds(Begin(used, start), n - 1).entry;
      VisitStaysInClass(e, 1);
    }
  }

  /** The loop ends exactly when the start's residue class has a free identification. */
  lemma TerminatesIff(used: set<nat>, start: nat)
    requires start < MODULUS
    ensures Terminates(used, start) <==> HasFree(used, start)
    ensures Terminates(used, start) <==> Allocate(used, start).Some?
  {
    FirstFreeExists(used, start);
    if HasFree(used, start) {
      SearchFinds(used, start);
      var a := Allocate(used, start).value;
      assert Rounds(Begin(used, start), RoundsNeeded(used, start)).id == a.id != 0;
    } else {
      forall n: nat ensures Rounds(Begin(used, start), n).id == 0 {
        SearchHangs(used, start, n);
      }
    }
  }

  /** The same in numbers. */
  lemma TerminatesInNumbers(used: set<nat>, start: nat)
    requires start < 65535
    ensures Terminates(used, start) <==> exists x: nat :: 0 < x < 65535 && x % 3 == start % 3 && x !in used
  {
    TerminatesIff(used, start);
  }

  /** An identification handed out was free, lies in 1..65534 and in the start's class. */
  lemma AllocateGives(used: set<nat>, start: nat)
    requires start < MODULUS && Allocate(used, start).Some?
    ensures var a := Allocate(used, start).value;
            && 0 < a.id < 65535
            && a.id % 3 == start % 3
            && a.id !in used
            && a.used - {0} == used - {0} + {a.id}
            && used <= a.used
  {
    VisitStaysInClass(start, FirstFree(used, start));
  }

  /** What the code relies on: the number of rounds, and what the last one leaves. */
  lemma SearchOutcome(used: set<nat>, start: nat) returns (n: nat, a: Allocation)
    requires start < MODULUS && Terminates(used, start)
    ensures 0 < n <= 21846
    ensures forall i: nat :: i < n ==> Rounds(Begin(used, start), i).id == 0
    ensures Rounds(Begin(used, start), n) == Search(a.used, a.id, a.id)
    ensures Allocate(used, start) == Some(a)
    ensures a.id != 0 && a.id !in used
  {
    TerminatesIff(used, start);
    SearchFinds(used, start);
    AllocateGives(used, start);
    n, a := RoundsNeeded(used, start), Allocate(used, start).value;
  }

  /** Nothing that the search visits before it comes to `x` would end it. */
  predicate NothingFreeBefore(used: set<nat>, start: nat, x: nat)
    requires start < MODULUS && x < MODULUS
  {
    forall k :: 0 <= k < IndexOf(start, x) ==> !Takes(used, start, k)
  }

  predicate HandsOut(used: set<nat>, start: nat, x: nat)
    requires start < MODULUS
  {
    Allocate(used, start).Some? && Allocate(used, start).value.id == x
  }

  /**
    Which identification a search hands out: `x`, exactly when it is free, in the class of
    the start, and nothing the search visits before it would end the search.
   */
  lemma AllocatesIff(used: set<nat>, start: nat, x: nat)
    requires start < MODULUS && 0 < x < MODULUS
    ensures HandsOut(used, start, x) <==>
            x !in used && x % STEP == start % STEP && NothingFreeBefore(used, start, x)
  {
    var i, k := IndexOf(start, x), FirstFree(used, start);
    if HandsOut(used, start, x) {
      VisitStaysInClass(start, k);
      VisitCovers(start, x, k);
    } else if x % STEP == start % STEP && x !in used {
      VisitCovers(start, x, 0);
      VisitCovers(start, x, i);
      assert Takes(used, start, i) && Visit(start, i) == x;
      assert k < i;
    }
  }

  // How many identifications can be in use before some start hangs.

  /** The first `n` entries after `c` in its residue class. */
  function Multiples(c: nat, n: nat): set<nat> {
    set x: nat | c < x <= c + STEP * n && x % STEP == c % STEP
  }

  lemma {:induction false} MultiplesCount(c: nat, n: nat)
    ensures |Multiples(c, n)| == n
  {
    if n == 0 {
    } else {
      MultiplesCount(c, n - 1);
      MultiplesNext(c, n);
    }
  }

  lemma MultiplesNext(c: nat, n: nat)
    requires n > 0
    ensures Multiples(c, n) == Multiples(c, n - 1) + {c + STEP * n}
    ensures c + STEP * n !in Multiples(c, n - 1)
  {
  }

  /** With at most 21843 identifications in use, every start finds a free one. */
  lemma CapacitySuffices(used: set<nat>, start: nat)
    requires start < MODULUS && |used - {0}| <= 21843
    ensures HasFree(used, start)
  {
    var c := start % STEP;
    var ids := Multiples(c, CLASS - 1);
    MultiplesCount(c, CLASS - 1);
    assert forall x :: x in ids ==> 0 < x < MODULUS && x % STEP == start % STEP;
    if ids <= used - {0} {
      SubsetSize(ids, used - {0});
    } else {
      var x :| x in ids && x !in used - {0};
      assert x !in used;
    }
  }

  lemma SubsetSize(a: set<nat>, b: set<nat>)
    requires a <= b
    ensures |a| <= |b|
  {
    assert b == a + (b - a);
  }

  /**
    One more can be too many: with all 21844 nonzero multiples of 3 in use every start
    that is a multiple of 3 hangs, although 43690 identifications are free.
   */
  lemma CapacityIsTight(used: set<nat>, start: nat)
    requires start < MODULUS && start % 3 == 0
    requires used - {0} == Multiples(0, CLASS - 1)
    ensures |used - {0}| == 21844
    ensures !Terminates(used, start)
    ensures |set x: nat | 0 < x < 65535 && x !in used| == 43690
  {
    MultiplesCount(0, CLASS - 1);
    TerminatesIff(used, start);
    forall x: nat | 0 < x < MODULUS
      ensures x in used <==> x % STEP == 0
    {
      assert x in used <==> x in used - {0};
    }
    FreeCount(used);
  }

  lemma FreeCount(used: set<nat>)
    requires forall x: nat :: 0 < x < MODULUS ==> (x in used <==> x % STEP == 0)
    ensures |set x: nat | 0 < x < MODULUS && x !in used| == 2 * CLASS
  {
    OtherClassesCount();
    assert (set x: nat | 0 < x < MODULUS && x !in used) == (set x: nat | 0 < x < MODULUS && x % STEP != 0);
  }

  lemma OtherClassesCount()
    ensures |set x: nat | 0 < x < MODULUS && x % STEP != 0| == 2 * CLASS
  {
    var ones, twos := Multiples(1, CLASS - 1) + {1}, Multiples(2, CLASS - 1) + {2};
    MultiplesCount(1, CLASS - 1);
    MultiplesCount(2, CLASS - 1);
    var others := set x: nat | 0 < x < MODULUS && x % STEP != 0;
    assert ones !! twos;
    assert others == ones + twos;
  }
}
