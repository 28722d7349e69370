/**
  The bitmap of `src/include/bitmap.h`: bytes, eight entries to each, and the set of
  entries that it stands for.
 */
module Bitmap {

  function Index(entry: nat): nat {
    entry / 8
  }

  function Bit(entry: nat): bv8 {
    1 << (entry % 8)
  }

  predicate Get(bytes: seq<bv8>, entry: nat)
    requires Index(entry) < |bytes|
  {
    bytes[Index(entry)] & Bit(entry) != 0
  }

  /** The entries that are set. */
  ghost function Members(bytes: seq<bv8>): set<nat> {
    set e: nat | e < 8 * |bytes| && Get(bytes, e)
  }

  function SetBit(bytes: seq<bv8>, entry: nat): seq<bv8>
    requires Index(entry) < |bytes|
  {
    bytes[Index(entry) := bytes[Index(entry)] | Bit(entry)]
  }

  function ClearBit(bytes: seq<bv8>, entry: nat): seq<bv8>
    requires Index(entry) < |bytes|
  {
    bytes[Index(entry) := bytes[Index(entry)] & !Bit(entry)]
  }

  method Set(bitmap: array<bv8>, entry: nat)
    requires Index(entry) < bitmap.Length
    modifies bitmap
    ensures bitmap[..] == SetBit(old(bitmap[..]), entry)
    ensures Members(bitmap[..]) == old(Members(bitmap[..])) + {entry}
  {
    bitmap[Index(entry)] := bitmap[Index(entry)] | Bit(entry);
    SetInserts(old(bitmap[..]), entry);
  }

  method Clear(bitmap: array<bv8>, entry: nat)
    requires Index(entry) < bitmap.Length
    modifies bitmap
    ensures bitmap[..] == ClearBit(old(bitmap[..]), entry)
    ensures Members(bitmap[..]) == old(Members(bitmap[..])) - {entry}
  {
    bitmap[Index(entry)] := bitmap[Index(entry)] & !Bit(entry);
    ClearRemoves(old(bitmap[..]), entry);
  }

  /** Setting an entry changes what that entry reads as, and no other, in any byte. */
  lemma GetAfterSet(bytes: seq<bv8>, entry: nat, e: nat)
    requires Index(entry) < |bytes| && Index(e) < |bytes|
    ensures Get(SetBit(bytes, entry), e) <==> e == entry || Get(bytes, e)
  {
  }

  /** Clearing an entry changes what that entry reads as, and no other, in any byte. */
  lemma GetAfterClear(bytes: seq<bv8>, entry: nat, e: nat)
    requires Index(entry) < |bytes| && Index(e) < |bytes|
    ensures Get(ClearBit(bytes, entry), e) <==> e != entry && Get(bytes, e)
  {
  }

  /** On the set of entries, setting is insertion. */
  lemma SetInserts(bytes: seq<bv8>, entry: nat)
    requires Index(entry) < |bytes|
    ensures Members(SetBit(bytes, entry)) == Members(bytes) + {entry}
  {
    forall e: nat | e < 8 * |bytes|
      ensures Get(SetBit(bytes, entry), e) <==> e == entry || Get(bytes, e)
    {
      GetAfterSet(bytes, entry, e);
    }
  }

  /** On the set of entries, clearing is removal. */
  lemma ClearRemoves(bytes: seq<bv8>, entry: nat)
    requires Index(entry) < |bytes|
    ensures Members(ClearBit(bytes, entry)) == Members(bytes) - {entry}
  {
    forall e: nat | e < 8 * |bytes|
      ensures Get(ClearBit(bytes, entry), e) <==> e != entry && Get(bytes, e)
    {
      GetAfterClear(bytes, entry, e);
    }
  }

  /** Entry `8 * i + j` is bit `j` of byte `i`, the least significant bit being bit 0. */
  lemma BitOfEntry(bytes: seq<bv8>, i: nat, j: nat)
    requires i < |bytes| && j < 8 && bytes[i] == 0
    ensures Index(8 * i + j) == i
    ensures SetBit(bytes, 8 * i + j) == bytes[i := [1, 2, 4, 8, 16, 32, 64, 128][j]]
  {
    assert Index(8 * i + j) == i && (8 * i + j) % 8 == j;
    PowerOfTwo(j);
  }

  lemma PowerOfTwo(j: nat)
    requires j < 8
    ensures (0 as bv8) | (1 << j) == [1, 2, 4, 8, 16, 32, 64, 128][j]
  {
    assert j in {0, 1, 2, 3, 4, 5, 6, 7};
  }

  /** Zeroed bytes stand for the empty set. */
  lemma ZeroedIsEmpty(bytes: seq<bv8>)
    requires forall i :: 0 <= i < |bytes| ==> bytes[i] == 0
    ensures Members(bytes) == {}
  {
  }
}
