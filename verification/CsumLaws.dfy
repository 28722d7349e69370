/** What section 2 of RFC 1071 promises of the checksum, proved of `csum`. */
module CsumLaws {
  import opened Bytes
  import opened Seqs
  import opened Csum

  // Adding the words one at a time with end-around carry.

  function OnesAdd(a: word, b: word): word {
    if a + b < 0x1_0000 then a + b else a + b - 0xFFFF
  }

  function OnesAccumulate(acc: word, ws: seq<word>): word
    decreases |ws|
  {
    if ws == [] then acc else OnesAccumulate(OnesAdd(acc, ws[0]), ws[1..])
  }

  function Words(o: ByteOrder, data: seq<byte>): seq<word> {
    if data == [] then []
    else if |data| == 1 then [Load(BigEndian, data[0], 0)]
    else [Load(o, data[0], data[1])] + Words(o, data[2..])
  }

  function Total(ws: seq<word>): nat {
    if ws == [] then 0 else ws[0] as nat + Total(ws[1..])
  }

  lemma {:induction false} TotalOfWords(o: ByteOrder, data: seq<byte>)
    ensures Total(Words(o, data)) == WordSum(o, data)
  {
    if |data| <= 1 {
    } else {
      TotalOfWords(o, data[2..]);
      assert Words(o, data)[1..] == Words(o, data[2..]);
    }
  }

  /** End-around carry adds residues. */
  lemma OnesAddResidue(a: nat, b: nat)
    ensures OnesAdd(Residue(a), Residue(b)) == Residue(a + b)
  {
    var x, y := Residue(a), Residue(b);
    var z := OnesAdd(x, y);
    var k := ResidueQuotient(a) + ResidueQuotient(b) + (if x as int + y as int < 0x1_0000 then 0 else 1);
    assert a + b == z + 0xFFFF * k;
    Shift(z, k);
    SameResidue(z, a + b);
    ResidueOfWord(z);
  }

  function ResidueQuotient(n: nat): (k: nat)
    ensures n == Residue(n) + 0xFFFF * k
    ensures Residue(n) == 0 <==> n == 0
  {
    if n == 0 then 0 else (n - 1) / 0xFFFF
  }

  lemma ResidueOfWord(w: word)
    ensures Residue(w) == w
  {
  }

  lemma {:induction false} OnesAccumulateResidue(a: nat, ws: seq<word>)
    ensures OnesAccumulate(Residue(a), ws) == Residue(a + Total(ws))
    decreases |ws|
  {
    if ws == [] {
    } else {
      ResidueOfWord(ws[0]);
      OnesAddResidue(a, ws[0]);
      OnesAccumulateResidue(a + ws[0], ws[1..]);
    }
  }

  lemma {:induction false} TotalRemove(ws: seq<word>, i: nat)
    requires i < |ws|
    ensures Total(ws) == ws[i] + Total(ws[..i] + ws[i + 1..])
  {
    var rest := ws[..i] + ws[i + 1..];
    if i == 0 {
      assert rest == ws[1..];
    } else {
      TotalRemove(ws[1..], i - 1);
      assert rest[1..] == ws[1..][..i - 1] + ws[1..][i..];
      assert rest[0] == ws[0];
    }
  }

  lemma RemoveOne(ws: seq<word>, i: nat)
    requires i < |ws|
    ensures multiset(ws[..i] + ws[i + 1..]) == multiset(ws) - multiset{ws[i]}
  {
    assert ws == ws[..i] + [ws[i]] + ws[i + 1..];
  }

  lemma {:induction false} TotalPermutes(ws: seq<word>, vs: seq<word>)
    requires multiset(ws) == multiset(vs)
    ensures Total(ws) == Total(vs)
    decreases |ws|
  {
    if ws == [] {
      assert |multiset(vs)| == 0;
    } else {
      assert ws[0] in multiset(vs);
      var i :| 0 <= i < |vs| && vs[i] == ws[0];
      var rest := vs[..i] + vs[i + 1..];
      RemoveOne(vs, i);
      RemoveOne(ws, 0);
      assert ws[..0] + ws[1..] == ws[1..];
      TotalPermutes(ws[1..], rest);
      TotalRemove(vs, i);
    }
  }

  /**
    Deferring the carries does not matter: the checksum is the complement of adding the
    words one at a time with end-around carry, in any order.
   */
  lemma OrderIndependent(o: ByteOrder, data: seq<byte>, ws: seq<word>)
    requires multiset(ws) == multiset(Words(o, data))
    ensures Checksum(o, data) == 0xFFFF - OnesAccumulate(0, ws)
  {
    TotalPermutes(ws, Words(o, data));
    TotalOfWords(o, data);
    OnesAccumulateResidue(0, ws);
    FoldIsResidue(WordSum(o, data));
  }

  lemma {:induction false} WordSumConcat(o: ByteOrder, a: seq<byte>, b: seq<byte>)
    requires |a| % 2 == 0
    ensures WordSum(o, a + b) == WordSum(o, a) + WordSum(o, b)
  {
    if a == [] {
      assert a + b == b;
    } else {
      WordSumConcat(o, a[2..], b);
      assert (a + b)[2..] == a[2..] + b;
    }
  }

  /** Sums of pieces cut at even offsets combine with end-around carry. */
  lemma EvenSplit(o: ByteOrder, a: seq<byte>, b: seq<byte>)
    requires |a| % 2 == 0
    ensures Fold(WordSum(o, a + b)) == OnesAdd(Fold(WordSum(o, a)), Fold(WordSum(o, b)))
  {
    WordSumConcat(o, a, b);
    FoldIsResidue(WordSum(o, a + b));
    FoldIsResidue(WordSum(o, a));
    FoldIsResidue(WordSum(o, b));
    OnesAddResidue(WordSum(o, a), WordSum(o, b));
  }

  // Byte order.

  /** Swapping the bytes of a word multiplies it by 256, modulo 65535. */
  lemma BswapIsTimes256(w: word)
    ensures 0x100 * w == Bswap16(w) + 0xFFFF * (w / 0x100)
    ensures Bswap16(w) == 0 <==> w == 0
  {
  }

  lemma {:induction false} SwappedSum(data: seq<byte>) returns (k: nat)
    requires |data| % 2 == 0
    ensures 0x100 * WordSum(LittleEndian, data) == WordSum(BigEndian, data) + 0xFFFF * k
    ensures WordSum(LittleEndian, data) == 0 <==> WordSum(BigEndian, data) == 0
  {
    if data == [] {
      k := 0;
    } else {
      k := SwappedSum(data[2..]);
      k := k + data[1];
    }
  }

  lemma ModMul(a: nat, b: nat)
    requires a % 0xFFFF == b % 0xFFFF
    ensures (0x100 * a) % 0xFFFF == (0x100 * b) % 0xFFFF
  {
    var p, q := a / 0xFFFF, b / 0xFFFF;
    if p >= q {
      assert 0x100 * a == 0x100 * b + 0xFFFF * (0x100 * (p - q));
      Shift(0x100 * b, 0x100 * (p - q));
    } else {
      assert 0x100 * b == 0x100 * a + 0xFFFF * (0x100 * (q - p));
      Shift(0x100 * a, 0x100 * (q - p));
    }
  }

  lemma ResidueSwapped(little: nat, big: nat, k: nat)
    requires 0x100 * little == big + 0xFFFF * k
    requires little == 0 <==> big == 0
    ensures Residue(big) == Bswap16(Residue(little))
  {
    var w := Residue(little);
    var x := Bswap16(w);
    BswapIsTimes256(w);
    ResidueOfWord(w);
    SameResidue(w, little);
    ModMul(w, little);
    Shift(x, w / 0x100);
    Shift(big, k);
    ResidueOfWord(x);
    SameResidue(x, big);
  }

  lemma BswapComplement(w: word)
    ensures Bswap16(0xFFFF - w) == 0xFFFF - Bswap16(w)
  {
  }

  /**
    Section 2(B) of RFC 1071: on an even number of bytes the two byte orders give swapped
    checksums, so what is stored in host order is the same two bytes on every host.
   */
  lemma ByteOrderIndependent(data: seq<byte>)
    requires |data| % 2 == 0
    ensures Checksum(BigEndian, data) == Bswap16(Checksum(LittleEndian, data))
    ensures Store(BigEndian, Checksum(BigEndian, data)) == Store(LittleEndian, Checksum(LittleEndian, data))
  {
    var l, b := WordSum(LittleEndian, data), WordSum(BigEndian, data);
    var k := SwappedSum(data);
    ResidueSwapped(l, b, k);
    FoldIsResidue(l);
    FoldIsResidue(b);
    BswapComplement(Fold(l));
    StoreSwapped(Checksum(LittleEndian, data));
  }

  lemma StoreSwapped(w: word)
    ensures Store(BigEndian, Bswap16(w)) == Store(LittleEndian, w)
  {
  }

  /** The two bytes of every word swapped. */
  function SwapPairs(data: seq<byte>): seq<byte> {
    if |data| < 2 then data else [data[1], data[0]] + SwapPairs(data[2..])
  }

  lemma {:induction false} SwapPairsSum(data: seq<byte>)
    requires |data| % 2 == 0
    ensures |SwapPairs(data)| == |data|
    ensures WordSum(LittleEndian, SwapPairs(data)) == WordSum(BigEndian, data)
    ensures WordSum(BigEndian, SwapPairs(data)) == WordSum(LittleEndian, data)
  {
    if data == [] {
    } else {
      SwapPairsSum(data[2..]);
      assert SwapPairs(data)[2..] == SwapPairs(data[2..]);
    }
  }

  /** The checksum of the swapped words is the swapped checksum of the words. */
  lemma SwappedWords(o: ByteOrder, data: seq<byte>)
    requires |data| % 2 == 0
    ensures Checksum(o, SwapPairs(data)) == Bswap16(Checksum(o, data))
  {
    SwapPairsSum(data);
    ByteOrderIndependent(data);
    BswapChangesByteOrder(Checksum(LittleEndian, data), 0, 0);
  }

  // An odd number of bytes.

  /** On a big-endian host the odd byte is padded with a zero after it, as RFC 1071 asks. */
  lemma OddBigEndian(data: seq<byte>)
    requires |data| % 2 == 1
    ensures Checksum(BigEndian, data) == Checksum(BigEndian, data + [0])
  {
    var n := |data| - 1;
    OddTail(BigEndian, data);
    assert data + [0] == data[..n] + [data[n], 0];
    WordSumConcat(BigEndian, data[..n], [data[n], 0]);
    WordSumPair(BigEndian, data[n], 0);
  }

  lemma OddTail(o: ByteOrder, data: seq<byte>)
    requires |data| % 2 == 1
    ensures WordSum(o, data) == WordSum(o, data[..|data| - 1]) + data[|data| - 1] as nat * 0x100
  {
    var n := |data| - 1;
    assert data == data[..n] + [data[n]];
    WordSumConcat(o, data[..n], [data[n]]);
  }

  lemma WordSumPair(o: ByteOrder, b0: byte, b1: byte)
    ensures WordSum(o, [b0, b1]) == Load(o, b0, b1)
  {
  }

  /** On a little-endian host the zero goes in before the odd byte. */
  lemma OddLittleEndian(data: seq<byte>)
    requires |data| % 2 == 1
    ensures var n := |data| - 1;
            Checksum(LittleEndian, data) == Checksum(LittleEndian, data[..n] + [0, data[n]])
  {
    var n := |data| - 1;
    OddTail(LittleEndian, data);
    WordSumConcat(LittleEndian, data[..n], [0, data[n]]);
    WordSumPair(LittleEndian, 0, data[n]);
  }

  lemma DifferByTail(s: nat, b: byte)
    ensures Residue(s + b as nat * 0x100) == Residue(s + b) <==> b == 0
  {
  }

  /**
    The two bytes a little-endian host stores for an odd number of bytes are those of
    RFC 1071 if and only if the last byte is 0.
   */
  lemma OddLengthStandardIff(data: seq<byte>)
    requires |data| % 2 == 1
    ensures Store(LittleEndian, Checksum(LittleEndian, data)) == Store(BigEndian, Checksum(BigEndian, data + [0]))
       <==> data[|data| - 1] == 0
  {
    var n := |data| - 1;
    var s := WordSum(LittleEndian, data[..n]);
    OddTail(LittleEndian, data);
    assert data + [0] == data[..n] + [data[n], 0];
    WordSumConcat(LittleEndian, data[..n], [data[n], 0]);
    WordSumPair(LittleEndian, data[n], 0);
    FoldIsResidue(s + data[n] as nat * 0x100);
    FoldIsResidue(s + data[n]);
    DifferByTail(s, data[n]);
    ByteOrderIndependent(data + [0]);
    StoreInjective(LittleEndian, Checksum(LittleEndian, data), Checksum(LittleEndian, data + [0]));
  }

  lemma StoreInjective(o: ByteOrder, v: word, w: word)
    ensures Store(o, v) == Store(o, w) <==> v == w
  {
  }

  // Filling in a checksum field, and checking it.

  /** `data` with the word at offset `i` replaced. */
  function Patch(o: ByteOrder, data: seq<byte>, i: nat, w: word): seq<byte>
    requires i + 2 <= |data|
  {
    data[..i] + Store(o, w) + data[i + 2..]
  }

  lemma WordSumPatch(o: ByteOrder, data: seq<byte>, i: nat, w: word)
    requires i + 2 <= |data| && i % 2 == 0
    ensures WordSum(o, Patch(o, data, i, w)) == WordSum(o, data[..i]) + w + WordSum(o, data[i + 2..])
  {
    var a, m, b := data[..i], Store(o, w), data[i + 2..];
    Assoc(a, m, b);
    WordSumConcat(o, a, m + b);
    WordSumConcat(o, m, b);
    WordSumPair(o, m[0], m[1]);
    assert m == [m[0], m[1]];
    LoadStore(o, w);
  }

  /**
    A receiver accepts a word in the checksum field exactly when it is the checksum taken
    with that field zero, or its other representation: 0xFFFF where the checksum is 0.
   */
  lemma AcceptedIff(o: ByteOrder, data: seq<byte>, i: nat, w: word)
    requires i + 2 <= |data| && i % 2 == 0
    ensures var c := Checksum(o, Patch(o, data, i, 0));
            Checksum(o, Patch(o, data, i, w)) == 0 <==> w == c || (c == 0 && w == 0xFFFF)
  {
    var r := WordSum(o, data[..i]) + WordSum(o, data[i + 2..]);
    WordSumPatch(o, data, i, 0);
    WordSumPatch(o, data, i, w);
    FoldIsResidue(r);
    FoldIsResidue(r + w);
    CompletesToOnes(r, w);
  }

  lemma CompletesToOnes(r: nat, w: word)
    ensures Residue(r + w) == 0xFFFF <==> w == 0xFFFF - Residue(r) || (Residue(r) == 0xFFFF && w == 0xFFFF)
  {
  }

  /** Putting the checksum in its zeroed field makes the whole buffer sum to all ones. */
  lemma SelfVerifies(o: ByteOrder, data: seq<byte>, i: nat)
    requires i + 2 <= |data| && i % 2 == 0
    ensures Checksum(o, Patch(o, data, i, Checksum(o, Patch(o, data, i, 0)))) == 0
  {
    AcceptedIff(o, data, i, Checksum(o, Patch(o, data, i, 0)));
  }

  /**
    A buffer that verifies stops verifying when any one of its words is changed, unless
    the change is between 0x0000 and 0xFFFF and the rest of the buffer is not all zero.
   */
  lemma SingleWordError(o: ByteOrder, data: seq<byte>, i: nat, v: word, w: word)
    requires i + 2 <= |data| && i % 2 == 0
    requires v != w && Checksum(o, Patch(o, data, i, v)) == 0
    ensures Checksum(o, Patch(o, data, i, w)) == 0
       <==> {v, w} == {0, 0xFFFF} && WordSum(o, Patch(o, data, i, 0)) != 0
  {
    AcceptedIff(o, data, i, v);
    AcceptedIff(o, data, i, w);
    WordSumPatch(o, data, i, 0);
    FoldIsResidue(WordSum(o, Patch(o, data, i, 0)));
    assert {v, w} == {0, 0xFFFF} <==> (v == 0 && w == 0xFFFF) || (v == 0xFFFF && w == 0) by {
      assert v in {v, w} && w in {v, w};
      assert 0 in {0, 0xFFFF} && 0xFFFF in {0, 0xFFFF};
    }
  }
}
