/**
  The table of IPv4 identifications in use: the static state of `src/ip.c` and the
  functions that change it.
 */
module IdTable {
  import opened Bytes
  import opened Bitmap
  import opened IdSearch

  const TABLE_BYTES: nat := 65536 / 8
  const MAX_BLOCKS: nat := 1024

  /** The block a search starts in; `random` is what `rand()` gave. */
  function NextBlock(lastBlock: nat, random: nat): nat {
    (lastBlock + random) % MAX_BLOCKS
  }

  /** It is below 1024, and differs from the last block by `random` modulo 1024. */
  lemma NextBlockIs(lastBlock: nat, random: nat)
    ensures NextBlock(lastBlock, random) < 1024
    ensures (lastBlock + random - NextBlock(lastBlock, random)) % 1024 == 0
    ensures StartEntry(lastBlock, random) == 8 * NextBlock(lastBlock, random)
  {
  }

  /** The entry a search starts at: the first of its block. */
  function StartEntry(lastBlock: nat, random: nat): (entry: nat)
    ensures entry < MODULUS && entry % 8 == 0
  {
    NextBlock(lastBlock, random) * 8
  }

  class Table {
    const used: array<bv8>
    var lastBlock: nat

    /** The identifications in use: the entries set in the bitmap. */
    ghost var inUse: set<nat>

    ghost predicate Valid()
      reads this, used
    {
      used.Length == TABLE_BYTES && inUse == Members(used[..])
    }

    constructor Initialise(random: nat)
      ensures Valid() && fresh(used) && used.Length == 8192
      ensures inUse == {} && lastBlock == random % 0x1000
    {
      lastBlock := random % 0x1000;
      used := new bv8[TABLE_BYTES](_ => 0);
      inUse := {};
      new;
      ZeroedIsEmpty(used[..]);
    }

    /** The body of the search loop: takes a free entry, or moves on from a used one. */
    method ProbeEntry(entry: word) returns (next: word, id: word)
      requires Valid() && entry < MODULUS
      modifies `inUse, used
      ensures Valid() && next < MODULUS
      ensures Search(inUse, next, id) == Round(Search(old(inUse), entry, 0))
      ensures if entry in old(inUse) then next == (entry + 3) % 65535 && id == 0 && inUse == old(inUse)
              else next == id == entry && inUse == old(inUse) + {entry}
    {
      next, id := entry, 0;
      assert entry in inUse <==> Get(used[..], entry);
      if !Get(used[..], entry) {
        id := entry;
        Set(used, id);
        inUse := inUse + {id};
      } else {
        next := (entry + 3) % 65535;
      }
    }

    /** The search loop. The C loop has no way out but an identification other than 0. */
    method FindFree(start: word) returns (id: word, ghost rounds: nat)
      requires Valid() && start < MODULUS && Terminates(inUse, start)
      modifies `inUse, used
      ensures Valid()
      ensures Allocate(old(inUse), start) == Some(Allocation(id, inUse))
      ensures id != 0
      ensures rounds <= 21846
    {
      ghost var first := Begin(inUse, start);
      ghost var n, found := SearchOutcome(inUse, start);
      var entry: word := start;
      id, rounds := 0, 0;
      while id == 0
        invariant Valid() && rounds <= n && entry < MODULUS
        invariant Search(inUse, entry, id) == Rounds(first, rounds)
        decreases n - rounds
      {
        entry, id := ProbeEntry(entry);
        rounds := rounds + 1;
      }
      assert rounds == n;
    }

    /**
      `allocate_ipv4_id`. It demands that the class of its start holds a free
      identification: `TerminatesIff` shows that it does not end in any other case.
     */
    method AllocateId(random: nat) returns (id: word, ghost rounds: nat)
      requires Valid()
      requires Terminates(inUse, StartEntry(lastBlock, random))
      modifies this, used
      ensures Valid()
      ensures lastBlock == NextBlock(old(lastBlock), random)
      ensures lastBlock < 1024 && (old(lastBlock) + random - lastBlock) % 1024 == 0
      ensures Allocate(old(inUse), 8 * lastBlock) == Some(Allocation(id, inUse))
      ensures StartEntry(old(lastBlock), random) == 8 * lastBlock
      ensures id != 0
      ensures rounds <= 21846
    {
      NextBlockIs(lastBlock, random);
      var currentBlock := (lastBlock + random) % MAX_BLOCKS;
      lastBlock := currentBlock;
      id, rounds := FindFree(currentBlock * 8);
    }

    method FreeId(id: word)
      requires Valid()
      modifies `inUse, used
      ensures Valid()
      ensures inUse == old(inUse) - {id}
    {
      Clear(used, id);
      inUse := inUse - {id};
    }
  }

  /** All identifications of a residue class but 0 are in use. */
  ghost predicate ClassFull(used: set<nat>, c: nat) {
    forall x: nat :: 0 < x < MODULUS && x % STEP == c ==> x in used
  }

  /**
    Which block is tried first is up to `rand()`, and the blocks reach all three residue
    classes: some call can hang exactly when one of the classes is full.
   */
  lemma SomeStartHangsIff(used: set<nat>, lastBlock: nat)
    ensures (exists random: nat :: !Terminates(used, StartEntry(lastBlock, random)))
       <==> exists c: nat :: c < STEP && ClassFull(used, c)
  {
    if random: nat :| !Terminates(used, StartEntry(lastBlock, random)) {
      HangsIff(used, StartEntry(lastBlock, random));
      assert StartEntry(lastBlock, random) % STEP < STEP;
    }
    if c: nat :| c < STEP && ClassFull(used, c) {
      var random := BlockFor(lastBlock, 2 * c);
      HangsIff(used, StartEntry(lastBlock, random));
    }
  }

  lemma HangsIff(used: set<nat>, start: nat)
    requires start < MODULUS
    ensures !Terminates(used, start) <==> ClassFull(used, start % STEP)
  {
    TerminatesIff(used, start);
  }

  /** Any block can come up. */
  lemma BlockFor(lastBlock: nat, block: nat) returns (random: nat)
    requires block < MAX_BLOCKS
    ensures StartEntry(lastBlock, random) == 8 * block
  {
    random := (MAX_BLOCKS - lastBlock % MAX_BLOCKS) + block;
    var q := lastBlock / MAX_BLOCKS;
    assert lastBlock + random == MAX_BLOCKS * (q + 1) + block;
  }
}
