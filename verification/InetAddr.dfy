/**
  Dotted-decimal addresses: `inet_addr` of `src/data_util.c`, with `strtok` and `atoi` as
  functions on character sequences.
 */
module InetAddr {
  import opened Bytes
  import opened Seqs

  // `strtok(…, ".")`: skips dots, takes what comes up to the next dot, and goes on after it.

  function SkipDots(s: string): (t: string)
    ensures |t| <= |s|
    ensures t != [] ==> t[0] != '.'
  {
    if s != [] && s[0] == '.' then SkipDots(s[1..]) else s
  }

  function FieldLength(s: string): (n: nat)
    ensures n <= |s| && '.' !in s[..n]
    ensures n < |s| ==> s[n] == '.'
  {
    if s == [] || s[0] == '.' then 0 else
    var n := 1 + FieldLength(s[1..]);
    assert s[..n] == [s[0]] + s[1..][..n - 1];
    n
  }

  /** The next token and what is left after it; no token when only dots are left. */
  function StrTok(s: string): (r: (Option<string>, string))
    ensures r.0.Some? ==> r.0.value != [] && |r.1| < |s|
  {
    var t := SkipDots(s);
    var n := FieldLength(t);
    if t == [] then (None, []) else (Some(t[..n]), if n < |t| then t[n + 1..] else [])
  }

  function Tokens(s: string): seq<string>
    decreases |s|
  {
    var (tok, rest) := StrTok(s);
    if tok.None? then [] else [tok.value] + Tokens(rest)
  }

  function KeepUnlessDot(c: char): string {
    if c == '.' then [] else [c]
  }

  function WithoutDots(s: string): string {
    Flat(KeepUnlessDot, s)
  }

  function Concat(toks: seq<string>): string {
    Flat(Whole, toks)
  }

  lemma {:induction false} SkipDotsKeeps(s: string)
    ensures WithoutDots(SkipDots(s)) == WithoutDots(s)
  {
    if s == [] || s[0] != '.' {
    } else {
      SkipDotsKeeps(s[1..]);
      DotDropped(s, 0);
      assert s[0..] == s;
    }
  }

  lemma FieldKeeps(t: string, n: nat)
    requires n <= |t| && '.' !in t[..n]
    ensures WithoutDots(t) == t[..n] + WithoutDots(t[n..])
  {
    FlatUnchanged(KeepUnlessDot, t[..n]);
    FlatConcat(KeepUnlessDot, t[..n], t[n..]);
    assert t == t[..n] + t[n..];
  }

  lemma DotDropped(t: string, n: nat)
    requires n < |t| && t[n] == '.'
    ensures WithoutDots(t[n..]) == WithoutDots(t[n + 1..])
  {
    FlatHead(KeepUnlessDot, t[n..]);
    assert t[n..][1..] == t[n + 1..];
    assert [] + WithoutDots(t[n + 1..]) == WithoutDots(t[n + 1..]);
  }

  lemma StrTokKeeps(s: string)
    requires StrTok(s).0.Some?
    ensures var (tok, rest) := StrTok(s);
            '.' !in tok.value && WithoutDots(s) == tok.value + WithoutDots(rest)
  {
    var t := SkipDots(s);
    var n := FieldLength(t);
    SkipDotsKeeps(s);
    FieldKeeps(t, n);
    if n < |t| {
      DotDropped(t, n);
    } else {
      assert t[n..] == [];
    }
  }

  /** The tokens are non-empty, hold no dot, and together hold every other character, in order. */
  lemma {:induction false} TokensPartition(s: string)
    ensures Concat(Tokens(s)) == WithoutDots(s)
    ensures forall i :: 0 <= i < |Tokens(s)| ==> Tokens(s)[i] != [] && '.' !in Tokens(s)[i]
    decreases |s|
  {
    var (tok, rest) := StrTok(s);
    if tok.Some? {
      StrTokKeeps(s);
      TokensPartition(rest);
      FlatHead(Whole, Tokens(s));
      assert Tokens(s)[1..] == Tokens(rest);
    } else {
      SkipDotsKeeps(s);
      assert SkipDots(s) == [];
    }
  }

  // `atoi`: white space, a sign, and the digits up to the first other character.

  predicate IsSpace(c: char) {
    c == ' ' || '\t' <= c <= '\r'
  }

  predicate IsDigit(c: char) {
    '0' <= c <= '9'
  }

  function Digit(c: char): nat
    requires IsDigit(c)
  {
    c as int - '0' as int
  }

  function SkipSpace(s: string): string {
    if s != [] && IsSpace(s[0]) then SkipSpace(s[1..]) else s
  }

  function ReadDigits(s: string, acc: nat): nat
    decreases |s|
  {
    if s == [] || !IsDigit(s[0]) then acc else ReadDigits(s[1..], 10 * acc + Digit(s[0]))
  }

  function Atoi(s: string): int {
    var t := SkipSpace(s);
    if t != [] && t[0] == '-' then -(ReadDigits(t[1..], 0) as int)
    else if t != [] && t[0] == '+' then ReadDigits(t[1..], 0)
    else ReadDigits(t, 0)
  }

  /** The byte that an assignment of `atoi(tok)` to a `uint8_t` keeps. */
  function Octet(tok: string): byte {
    Atoi(tok) % 0x100
  }

  /**
    The address of a list of tokens: 0 without any, a null dereference with one to three,
    and otherwise the first four, the first of them in the low byte.
   */
  function AddressOf(toks: seq<string>): Option<dword> {
    if toks == [] then Some(0)
    else if |toks| < 4 then None
    else Some(LowOctets(toks, 4))
  }

  function Weight(i: nat): nat
    requires i <= 4
  {
    if i == 0 then 1 else if i == 1 then 0x100 else if i == 2 then 0x1_0000
    else if i == 3 then 0x100_0000 else 0x1_0000_0000
  }

  function LowOctets(toks: seq<string>, i: nat): (r: nat)
    requires i <= 4 && i <= |toks|
    ensures r < Weight(i)
  {
    if i == 0 then 0 else LowOctets(toks, i - 1) + Octet(toks[i - 1]) as nat * Weight(i - 1)
  }

  /** `None` stands for the null pointer that `atoi` is given when the tokens run out. */
  method Parse(ip: string) returns (r: Option<dword>)
    ensures r == AddressOf(Tokens(ip))
  {
    var ret: nat := 0;
    var (tok, rest) := StrTok(ip);
    if tok.None? {
      return Some(0);
    }
    ghost var toks, left := Tokens(ip), ip;
    for i := 0 to 4
      invariant i <= |toks| && ret == LowOctets(toks, i)
      invariant (tok, rest) == StrTok(left) && toks[i..] == Tokens(left)
    {
      if tok.None? {
        return None;
      }
      NextToken(toks, i, left);
      var val: byte := Octet(tok.value);
      // The bits from `8 * i` up are still clear, so the disjunction is a sum.
      ret := ret + val * Weight(i);
      left := rest;
      var next := StrTok(rest);
      tok, rest := next.0, next.1;
    }
    return Some(ret);
  }

  lemma NextToken(toks: seq<string>, i: nat, left: string)
    requires i <= |toks| && toks[i..] == Tokens(left) && StrTok(left).0.Some?
    ensures i < |toks| && toks[i] == StrTok(left).0.value && toks[i + 1..] == Tokens(StrTok(left).1)
  {
  }

  // Fields with dots between them.

  predicate IsField(s: string) {
    s != [] && '.' !in s
  }

  predicate AreFields(fields: seq<string>) {
    forall i :: 0 <= i < |fields| ==> IsField(fields[i])
  }

  function Join(fields: seq<string>): string {
    if fields == [] then ""
    else if |fields| == 1 then fields[0]
    else fields[0] + "." + Join(fields[1..])
  }

  lemma {:induction false} FieldLengthOf(a: string, s: string)
    requires '.' !in a && (s != [] ==> s[0] == '.')
    ensures FieldLength(a + s) == |a|
  {
    if a == [] {
      assert a + s == s;
    } else {
      assert a[0] in a;
      assert forall ch :: ch in a[1..] ==> ch in a;
      assert (a + s)[1..] == a[1..] + s;
      FieldLengthOf(a[1..], s);
    }
  }

  lemma TokensField(a: string, s: string)
    requires IsField(a)
    ensures Tokens(a + "." + s) == [a] + Tokens(s)
  {
    assert a[0] in a;
    var t := a + "." + s;
    assert t == a + ("." + s);
    FieldLengthOf(a, "." + s);
    assert SkipDots(t) == t;
    assert t[..|a|] == a && t[|a| + 1..] == s;
    assert StrTok(t) == (Some(a), s);
  }

  lemma TokensLast(a: string)
    requires IsField(a)
    ensures Tokens(a) == [a]
  {
    assert a[0] in a;
    assert a + "" == a;
    FieldLengthOf(a, "");
    assert SkipDots(a) == a;
    assert StrTok(a) == (Some(a[..|a|]), "");
    assert Tokens("") == [];
  }

  lemma {:induction false} TokensJoin(fields: seq<string>)
    requires AreFields(fields)
    ensures Tokens(Join(fields)) == fields
  {
    if fields == [] {
    } else if |fields| == 1 {
      TokensLast(fields[0]);
    } else {
      TokensJoin(fields[1..]);
      TokensField(fields[0], Join(fields[1..]));
    }
  }

  // Any run of dots separates, and dots at either end do not count.

  predicate AreDots(s: string) {
    forall i :: 0 <= i < |s| ==> s[i] == '.'
  }

  /** Dots before, between and after the fields; at least one between any two. */
  predicate Separate(dots: seq<string>, fields: seq<string>) {
    && |dots| == |fields| + 1
    && (forall i :: 0 <= i < |dots| ==> AreDots(dots[i]))
    && forall i :: 0 < i < |fields| ==> dots[i] != ""
  }

  function Spread(dots: seq<string>, fields: seq<string>): string
    requires |dots| == |fields| + 1
  {
    if fields == [] then dots[0] else dots[0] + (fields[0] + Spread(dots[1..], fields[1..]))
  }

  lemma {:induction false} TokensAfterDots(dots: string, s: string)
    requires AreDots(dots)
    ensures Tokens(dots + s) == Tokens(s)
  {
    SkipDotsAfter(dots, s);
    assert StrTok(dots + s) == StrTok(s);
  }

  lemma {:induction false} SkipDotsAfter(dots: string, s: string)
    requires AreDots(dots)
    ensures SkipDots(dots + s) == SkipDots(s)
  {
    if dots == "" {
      assert dots + s == s;
    } else {
      assert (dots + s)[1..] == dots[1..] + s;
      SkipDotsAfter(dots[1..], s);
    }
  }

  /** The tokens of any string, that is of any fields with dots around them, are those fields. */
  lemma {:induction false} TokensSpread(dots: seq<string>, fields: seq<string>)
    requires AreFields(fields) && Separate(dots, fields)
    ensures Tokens(Spread(dots, fields)) == fields
    decreases |fields|
  {
    if fields == [] {
      assert dots[0] + "" == dots[0];
      TokensAfterDots(dots[0], "");
      assert Tokens("") == [];
    } else {
      var rest := Spread(dots[1..], fields[1..]);
      TokensAfterDots(dots[0], fields[0] + rest);
      TokensSpread(dots[1..], fields[1..]);
      SpreadStarts(dots[1..], fields[1..]);
      FieldThenDots(fields[0], rest);
    }
  }

  /** Every string is fields with dots around them, so this is all that `strtok` does. */
  lemma {:induction false} EveryStringIsSpread(s: string) returns (dots: seq<string>, fields: seq<string>)
    ensures AreFields(fields) && Separate(dots, fields)
    ensures Spread(dots, fields) == s
  {
    if s == "" {
      dots, fields := [""], [];
    } else {
      var ds, fs := EveryStringIsSpread(s[1..]);
      assert s == [s[0]] + s[1..];
      if s[0] == '.' {
        dots, fields := ds[0 := "." + ds[0]], fs;
        assert dots[1..] == ds[1..];
      } else if ds[0] == "" && fs != [] {
        dots, fields := ds, fs[0 := [s[0]] + fs[0]];
        assert fields[1..] == fs[1..];
        assert '.' !in fields[0];
      } else {
        dots, fields := [""] + ds, [[s[0]]] + fs;
        assert dots[1..] == ds && fields[1..] == fs;
      }
    }
  }

  lemma SpreadStarts(dots: seq<string>, fields: seq<string>)
    requires |dots| == |fields| + 1 && AreDots(dots[0]) && (fields != [] ==> dots[0] != "")
    ensures var s := Spread(dots, fields); s != "" ==> s[0] == '.'
  {
  }

  lemma FieldThenDots(a: string, rest: string)
    requires IsField(a) && (rest != "" ==> rest[0] == '.')
    ensures Tokens(a + rest) == [a] + Tokens(rest)
  {
    if rest == "" {
      assert a + rest == a;
      TokensLast(a);
      assert Tokens("") == [];
    } else {
      assert rest == "." + rest[1..];
      Assoc(a, ".", rest[1..]);
      TokensField(a, rest[1..]);
      TokensAfterDots(".", rest[1..]);
    }
  }

  /** The bytes of an address on a little-endian host are its first four fields, in order. */
  lemma AddressBytes(fields: seq<string>)
    requires AreFields(fields) && |fields| >= 4
    ensures var r := AddressOf(Tokens(Join(fields)));
            r.Some? && StoreDword(r.value) == [Octet(fields[0]), Octet(fields[1]), Octet(fields[2]), Octet(fields[3])]
  {
    TokensJoin(fields);
    FirstFourOctets(fields);
  }

  lemma FirstFourOctets(toks: seq<string>)
    requires |toks| >= 4
    ensures LowOctets(toks, 4) < 0x1_0000_0000
    ensures StoreDword(LowOctets(toks, 4)) == [Octet(toks[0]), Octet(toks[1]), Octet(toks[2]), Octet(toks[3])]
  {
    var a: nat, b: nat, c: nat, d: nat := Octet(toks[0]), Octet(toks[1]), Octet(toks[2]), Octet(toks[3]);
    assert LowOctets(toks, 1) == a;
    assert LowOctets(toks, 2) == a + 0x100 * b;
    assert LowOctets(toks, 3) == a + 0x100 * b + 0x1_0000 * c;
    DwordFrom(a, b, c, d);
  }

  // Decimal numerals, and printing an address.

  predicate IsDecimal(s: string) {
    s != [] && forall i :: 0 <= i < |s| ==> IsDigit(s[i])
  }

  function Value(s: string): nat
    requires forall i :: 0 <= i < |s| ==> IsDigit(s[i])
  {
    if s == [] then 0 else 10 * Value(s[..|s| - 1]) + Digit(s[|s| - 1])
  }

  lemma {:induction false} ReadDigitsSnoc(s: string, c: char, acc: nat)
    requires (forall i :: 0 <= i < |s| ==> IsDigit(s[i])) && IsDigit(c)
    ensures ReadDigits(s + [c], acc) == 10 * ReadDigits(s, acc) + Digit(c)
    decreases |s|
  {
    if s == [] {
      assert s + [c] == [c];
      assert ReadDigits([c][1..], 10 * acc + Digit(c)) == 10 * acc + Digit(c);
    } else {
      assert (s + [c])[1..] == s[1..] + [c];
      ReadDigitsSnoc(s[1..], c, 10 * acc + Digit(s[0]));
    }
  }

  lemma {:induction false} ReadDigitsValue(s: string)
    requires forall i :: 0 <= i < |s| ==> IsDigit(s[i])
    ensures ReadDigits(s, 0) == Value(s)
  {
    if s == [] {
    } else {
      var n := |s| - 1;
      ReadDigitsValue(s[..n]);
      ReadDigitsSnoc(s[..n], s[n], 0);
      assert s[..n] + [s[n]] == s;
    }
  }

  /** The decimal value, in numbers. */
  lemma ValueIs(s: string, c: char)
    requires (forall i :: 0 <= i < |s| ==> '0' <= s[i] <= '9') && '0' <= c <= '9'
    ensures Value("") == 0 && Value(s + [c]) == 10 * Value(s) + (c as int - 48)
  {
    assert (s + [c])[..|s|] == s;
  }

  // What `atoi` makes of any string at all.

  /** Any string is white space, a sign or none, digits, and a rest that they do not extend into. */
  datatype Numeric = Numeric(space: string, sign: string, digits: string, rest: string)

  predicate IsNumeric(n: Numeric) {
    && (forall i :: 0 <= i < |n.space| ==> n.space[i] as int in {9, 10, 11, 12, 13, 32})
    && (n.sign == "" || n.sign == "+" || n.sign == "-")
    && (forall i :: 0 <= i < |n.digits| ==> '0' <= n.digits[i] <= '9')
    && (n.rest != "" ==> !('0' <= n.rest[0] <= '9'))
    && (n.sign == "" && n.digits == "" && n.rest != "" ==>
          n.rest[0] as int !in {9, 10, 11, 12, 13, 32} && n.rest[0] != '+' && n.rest[0] != '-')
  }

  function Text(n: Numeric): string {
    n.space + (n.sign + (n.digits + n.rest))
  }

  function Signed(n: Numeric): int
    requires IsNumeric(n)
  {
    if n.sign == "-" then -(Value(n.digits) as int) else Value(n.digits)
  }

  lemma {:induction false} ReadDigitsStops(digits: string, rest: string, acc: nat)
    requires forall i :: 0 <= i < |digits| ==> IsDigit(digits[i])
    requires rest != "" ==> !IsDigit(rest[0])
    ensures ReadDigits(digits + rest, acc) == ReadDigits(digits, acc)
    decreases |digits|
  {
    if digits == "" {
      assert digits + rest == rest;
    } else {
      assert (digits + rest)[1..] == digits[1..] + rest;
      ReadDigitsStops(digits[1..], rest, 10 * acc + Digit(digits[0]));
    }
  }

  lemma {:induction false} SkipSpaceStops(space: string, s: string)
    requires forall i :: 0 <= i < |space| ==> IsSpace(space[i])
    requires s != "" ==> !IsSpace(s[0])
    ensures SkipSpace(space + s) == s
    decreases |space|
  {
    if space == "" {
      assert space + s == s;
    } else {
      assert (space + s)[1..] == space[1..] + s;
      SkipSpaceStops(space[1..], s);
    }
  }

  /**
    `atoi` skips white space, takes one sign, and reads the digits up to the first other
    character, whatever comes after it.
   */
  lemma AtoiReads(n: Numeric)
    requires IsNumeric(n)
    ensures Atoi(Text(n)) == Signed(n)
  {
    var numeral := n.digits + n.rest;
    var t := n.sign + numeral;
    ReadDigitsStops(n.digits, n.rest, 0);
    ReadDigitsValue(n.digits);
    SkipSpaceStops(n.space, t);
    if n.sign == "" {
      assert t == numeral;
    } else {
      assert t[0] == n.sign[0] && t[1..] == numeral;
    }
  }

  /** And every string is of that form, so this is all that `atoi` does. */
  lemma {:induction false} EveryStringIsNumeric(s: string) returns (n: Numeric)
    ensures IsNumeric(n) && Text(n) == s
  {
    if s == "" {
      n := Numeric("", "", "", "");
    } else if s[0] as int in {9, 10, 11, 12, 13, 32} {
      var m := EveryStringIsNumeric(s[1..]);
      n := m.(space := [s[0]] + m.space);
      assert Text(n) == [s[0]] + Text(m) == s;
    } else if s[0] == '+' || s[0] == '-' {
      var d, r := SplitDigits(s[1..]);
      n := Numeric("", [s[0]], d, r);
      assert Text(n) == [s[0]] + s[1..] == s;
    } else {
      var d, r := SplitDigits(s);
      n := Numeric("", "", d, r);
      assert Text(n) == s;
    }
  }

  lemma {:induction false} SplitDigits(s: string) returns (d: string, r: string)
    ensures s == d + r && (forall i :: 0 <= i < |d| ==> '0' <= d[i] <= '9')
    ensures r != "" ==> !('0' <= r[0] <= '9')
  {
    if s == "" || !('0' <= s[0] <= '9') {
      d, r := "", s;
    } else {
      var d', r' := SplitDigits(s[1..]);
      d, r := [s[0]] + d', r';
      assert s == [s[0]] + s[1..];
    }
  }

  /** So the bytes of the address are the numbers that the first four fields begin with. */
  lemma NumericAddress(ns: seq<Numeric>)
    requires |ns| >= 4
    requires forall i :: 0 <= i < |ns| ==> IsNumeric(ns[i]) && IsField(Text(ns[i]))
    ensures var r := AddressOf(Tokens(Join(Map(Text, ns))));
            && r.Some?
            && StoreDword(r.value) == [Signed(ns[0]) % 0x100, Signed(ns[1]) % 0x100,
                                       Signed(ns[2]) % 0x100, Signed(ns[3]) % 0x100]
  {
    forall i | 0 <= i < 4
      ensures Octet(Map(Text, ns)[i]) == Signed(ns[i]) % 0x100
    {
      AtoiReads(ns[i]);
    }
    AddressBytes(Map(Text, ns));
  }

  /** A decimal numeral is a field, and `atoi` reads its value. */
  lemma AtoiDecimal(s: string)
    requires IsDecimal(s)
    ensures IsField(s) && Atoi(s) == Value(s)
  {
    ReadDigitsValue(s);
    assert IsDigit(s[0]);
    assert SkipSpace(s) == s;
  }

  predicate AreDecimal(fields: seq<string>) {
    forall i :: 0 <= i < |fields| ==> IsDecimal(fields[i])
  }

  /** Four decimal numerals, or more, give the first four values, each modulo 256. */
  lemma DecimalAddress(fields: seq<string>)
    requires AreDecimal(fields) && |fields| >= 4
    ensures var r := AddressOf(Tokens(Join(fields)));
            && r.Some?
            && StoreDword(r.value) == [Value(fields[0]) % 0x100, Value(fields[1]) % 0x100,
                                       Value(fields[2]) % 0x100, Value(fields[3]) % 0x100]
  {
    forall i | 0 <= i < |fields|
      ensures IsField(fields[i]) && Atoi(fields[i]) == Value(fields[i])
    {
      AtoiDecimal(fields[i]);
    }
    AddressBytes(fields);
  }

  /** Fewer than four fields run out of tokens; without any field the address is 0. */
  lemma TooFewFields(fields: seq<string>)
    requires AreFields(fields) && |fields| < 4
    ensures AddressOf(Tokens(Join(fields))) == if fields == [] then Some(0) else None
  {
    TokensJoin(fields);
  }

  function Numeral(n: nat): string {
    (if n < 10 then "" else Numeral(n / 10)) + [('0' as int + n % 10) as char]
  }

  lemma {:induction false} NumeralValue(n: nat)
    ensures IsDecimal(Numeral(n)) && Value(Numeral(n)) == n
  {
    var c := ('0' as int + n % 10) as char;
    DigitChar(n % 10);
    if n >= 10 {
      NumeralValue(n / 10);
      ValueSnoc(Numeral(n / 10), c);
    } else {
      ValueSnoc("", c);
    }
  }

  lemma DigitChar(n: nat)
    requires n < 10
    ensures var c := ('0' as int + n) as char; IsDigit(c) && Digit(c) == n
  {
  }

  lemma ValueSnoc(s: string, c: char)
    requires (forall i :: 0 <= i < |s| ==> IsDigit(s[i])) && IsDigit(c)
    ensures IsDecimal(s + [c]) && Value(s + [c]) == 10 * Value(s) + Digit(c)
  {
  }

  /** The dotted-decimal form of an address, its low byte first. */
  function Print(addr: dword): string {
    var b := StoreDword(addr);
    Join([Numeral(b[0]), Numeral(b[1]), Numeral(b[2]), Numeral(b[3])])
  }

  /** Parsing what was printed gives the address back, for every address. */
  lemma PrintRoundTrip(addr: dword)
    ensures AddressOf(Tokens(Print(addr))) == Some(addr)
  {
    var b := StoreDword(addr);
    var fields := [Numeral(b[0]), Numeral(b[1]), Numeral(b[2]), Numeral(b[3])];
    NumeralValue(b[0]);
    NumeralValue(b[1]);
    NumeralValue(b[2]);
    NumeralValue(b[3]);
    DecimalAddress(fields);
    SameBytes(AddressOf(Tokens(Join(fields))), addr, b);
  }

  lemma SameBytes(r: Option<dword>, addr: dword, b: seq<byte>)
    requires |b| == 4 && StoreDword(addr) == b
    requires r.Some? && StoreDword(r.value) == [b[0] % 0x100, b[1] % 0x100, b[2] % 0x100, b[3] % 0x100]
    ensures r == Some(addr)
  {
    assert StoreDword(r.value) == b;
    StoreDwordInjective(r.value, addr);
  }
}
