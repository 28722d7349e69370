/**
  The Internet checksum: `csum` of `src/csum.c`.

  The code adds 16-bit words, loaded in host order, into a 64-bit accumulator, folds the
  carries back in and complements. The mathematics is residues modulo 65535 with two
  representatives of zero: 0 for the sum that is 0, 65535 for every other multiple.
 */
module Csum {
  import opened Bytes

  const ACCUMULATOR: nat := 0x1_0000_0000_0000_0000

  /** The sum of the words; a last odd byte counts as the high byte of a word. */
  function WordSum(o: ByteOrder, data: seq<byte>): nat {
    if data == [] then 0
    else if |data| == 1 then data[0] as nat * 0x100
    else Load(o, data[0], data[1]) as nat + WordSum(o, data[2..])
  }

  /** The fold loop as a function. */
  function Fold(sum: nat): word {
    if sum < 0x1_0000 then sum else Fold(sum % 0x1_0000 + sum / 0x1_0000)
  }

  /** The number of rounds of the fold loop. */
  function FoldRounds(sum: nat): nat {
    if sum < 0x1_0000 then 0 else 1 + FoldRounds(sum % 0x1_0000 + sum / 0x1_0000)
  }

  function Checksum(o: ByteOrder, data: seq<byte>): word {
    0xFFFF - Fold(WordSum(o, data))
  }

  /** The word loop and the odd byte after it. The accumulator is 64 bits wide. */
  method AddWords(o: ByteOrder, data: seq<byte>) returns (sum: nat)
    ensures sum == WordSum(o, data) % 0x1_0000_0000_0000_0000
  {
    sum := 0;
    var next, size := 0, |data|;
    ghost var total: nat := 0;
    while size > 1
      invariant 0 <= size && next + size == |data|
      invariant sum == total % ACCUMULATOR
      invariant total + WordSum(o, data[next..]) == WordSum(o, data)
    {
      ghost var rest := data[next..];
      var w: nat := Load(o, data[next], data[next + 1]);
      assert rest[2..] == data[next + 2..];
      WrapAdd(total, w);
      sum := (sum + w) % ACCUMULATOR;
      total := total + w;
      next := next + 2;
      size := size - 2;
    }
    if size > 0 {
      var t: nat := data[next] as nat * 0x100;
      assert data[next..] == [data[next]];
      WrapAdd(total, t);
      sum := (sum + t) % ACCUMULATOR;
      total := total + t;
    }
    assert total == WordSum(o, data);
  }

  /**
    `csum`: the words, the fold loop and the complement. A buffer of up to 2^49 bytes cannot
    overflow the accumulator.
   */
  method Compute(o: ByteOrder, data: seq<byte>) returns (c: word, ghost rounds: nat)
    ensures c == 0xFFFF - Fold(WordSum(o, data) % ACCUMULATOR)
    ensures |data| <= 0x2_0000_0000_0000 ==> c == Checksum(o, data)
    ensures rounds == FoldRounds(WordSum(o, data) % ACCUMULATOR)
  {
    var sum := AddWords(o, data);
    ghost var kept := sum;
    rounds := 0;
    while sum / 0x1_0000 != 0
      invariant Fold(sum) == Fold(kept)
      invariant rounds + FoldRounds(sum) == FoldRounds(kept)
      decreases sum
    {
      sum := sum % 0x1_0000 + sum / 0x1_0000;
      rounds := rounds + 1;
    }
    c := 0xFFFF - sum;
    WordSumFits(o, data);
  }

  lemma WrapAdd(a: nat, b: nat)
    ensures (a % ACCUMULATOR + b) % ACCUMULATOR == (a + b) % ACCUMULATOR
  {
  }

  lemma WordSumFits(o: ByteOrder, data: seq<byte>)
    ensures |data| <= 0x2_0000_0000_0000 ==> WordSum(o, data) % ACCUMULATOR == WordSum(o, data)
  {
    WordSumBound(o, data);
  }

  lemma {:induction false} WordSumBound(o: ByteOrder, data: seq<byte>)
    ensures 2 * WordSum(o, data) <= 0xFFFF * (|data| + 1)
    ensures |data| % 2 == 0 ==> 2 * WordSum(o, data) <= 0xFFFF * |data|
  {
    if |data| <= 1 {
    } else {
      WordSumBound(o, data[2..]);
    }
  }

  // The fold loop: what it keeps, how long it runs, what it ends with.

  /** Each round makes the sum smaller, keeps its residue, and keeps it from vanishing. */
  lemma FoldRound(sum: nat)
    requires sum >= 0x1_0000
    ensures var s := sum % 0x1_0000 + sum / 0x1_0000; 0 < s < sum && s % 0xFFFF == sum % 0xFFFF
  {
  }

  lemma Shift(a: nat, k: nat)
    ensures (a + 0xFFFF * k) % 0xFFFF == a % 0xFFFF
  {
  }

  /** Two rounds are enough for every buffer of at most 65535 bytes. */
  lemma AtMostTwoRounds(o: ByteOrder, data: seq<byte>)
    requires |data| <= 0xFFFF
    ensures FoldRounds(WordSum(o, data)) <= 2
    ensures WordSum(o, data) < ACCUMULATOR
  {
    WordSumBound(o, data);
    TwoRounds(WordSum(o, data));
  }

  lemma TwoRounds(sum: nat)
    requires sum < 0x1_0000_0000
    ensures FoldRounds(sum) <= 2
  {
    if sum >= 0x1_0000 {
      var s := sum % 0x1_0000 + sum / 0x1_0000;
      assert s <= 0x1_FFFE;
      if s >= 0x1_0000 {
        var t := s % 0x1_0000 + s / 0x1_0000;
        assert t < 0x1_0000;
        assert FoldRounds(t) == 0;
        assert FoldRounds(s) == 1;
      }
    }
  }

  /** The representative of `n` modulo 65535 that is 0 only for 0. */
  function Residue(n: nat): word {
    if n == 0 then 0 else (n - 1) % 0xFFFF + 1
  }

  lemma {:induction false} FoldIsResidue(sum: nat)
    ensures Fold(sum) == Residue(sum)
  {
    if sum < 0x1_0000 {
    } else {
      var s := sum % 0x1_0000 + sum / 0x1_0000;
      FoldRound(sum);
      FoldIsResidue(s);
      SameResidue(s, sum);
    }
  }

  /** Two sums fold alike exactly when they are congruent and vanish together. */
  lemma SameResidue(a: nat, b: nat)
    ensures Residue(a) == Residue(b) <==> (a % 0xFFFF == b % 0xFFFF && (a == 0 <==> b == 0))
  {
    ResidueMod(a);
    ResidueMod(b);
  }

  lemma ResidueMod(n: nat)
    ensures Residue(n) == if n == 0 then 0 else if n % 0xFFFF == 0 then 0xFFFF else n % 0xFFFF
  {
  }
}
