/** Base58 with the XRP alphabet: codec/addresscodec/base58.go and the tables of
    codec/addresscodec/alphabet.go. Encoding and decoding are both a change of base that
    keeps the number of leading zeros. */
module Base58 {
  /** 58 to the tenth. */
  const RADIX10: nat := 430804206899405824
  const INVALID: nat := 255

  // ------------------------------------------------------------------ change of base

  predicate Base(base: nat) {
    base == 58 || base == 256
  }

  /** A number's digits, most significant first, without leading zeros. */
  function Digits(x: nat, base: nat): (ds: seq<nat>)
    requires Base(base)
    ensures forall i :: 0 <= i < |ds| ==> ds[i] < base
  {
    if x == 0 then [] else Digits(x / base, base) + [x % base]
  }

  /** A number with one more digit. */
  function Push(y: nat, d: nat, base: nat): nat
    requires Base(base)
  {
    y * base + d
  }

  /** The number a sequence of digits stands for. */
  function Number(ds: seq<nat>, base: nat): nat
    requires Base(base)
    decreases |ds|
  {
    if ds == [] then 0 else Push(Number(ds[..|ds| - 1], base), ds[|ds| - 1], base)
  }

  function LeadingZeros(ds: seq<nat>): (n: nat)
    ensures n <= |ds| && (n < |ds| ==> ds[n] != 0) && forall i :: 0 <= i < n ==> ds[i] == 0
  {
    if ds == [] || ds[0] != 0 then 0 else 1 + LeadingZeros(ds[1..])
  }

  function Zeros(n: nat): (ds: seq<nat>)
    ensures |ds| == n && forall i :: 0 <= i < n ==> ds[i] == 0
  {
    seq(n, i => 0)
  }

  /** The change of base both directions perform: the value in the other base, with as
      many leading zeros as before. */
  function Convert(ds: seq<nat>, from: nat, to: nat): (es: seq<nat>)
    requires Base(from) && Base(to)
    ensures forall i :: 0 <= i < |es| ==> es[i] < to
  {
    Zeros(LeadingZeros(ds)) + Digits(Number(ds, from), to)
  }

  lemma {:induction false} NumberOfDigits(x: nat, base: nat)
    requires Base(base)
    ensures Number(Digits(x, base), base) == x
    ensures x > 0 ==> Digits(x, base) != [] && Digits(x, base)[0] != 0
    decreases x
  {
    if x > 0 {
      NumberOfDigits(x / base, base);
      var ds := Digits(x, base);
      assert ds[..|ds| - 1] == Digits(x / base, base);
      PushTogether(x, base);
      hide Push;
    }
  }

  lemma {:induction false} PushBack(y: nat, d: nat, base: nat)
    requires Base(base) && d < base
    ensures Push(y, d, base) / base == y && Push(y, d, base) % base == d
    ensures y > 0 || d > 0 ==> Push(y, d, base) > 0
  {
    if base == 58 {
      assert (y * 58 + d) / 58 == y;
    } else {
      assert (y * 256 + d) / 256 == y;
    }
  }

  lemma {:induction false} PushTogether(x: nat, base: nat)
    requires Base(base)
    ensures Push(x / base, x % base, base) == x
  {
  }

  lemma {:induction false} DigitsOfNumber(ds: seq<nat>, base: nat)
    requires Base(base) && (forall i :: 0 <= i < |ds| ==> ds[i] < base) && (ds != [] ==> ds[0] != 0)
    ensures Digits(Number(ds, base), base) == ds
    ensures ds != [] ==> Number(ds, base) > 0
    decreases |ds|
  {
    if ds != [] {
      var n := |ds| - 1;
      DigitsOfNumber(ds[..n], base);
      var y := Number(ds[..n], base);
      PushBack(y, ds[n], base);
      hide Push;
      assert ds == ds[..n] + [ds[n]];
    }
  }

  /** Leading zeros carry no value. */
  lemma {:induction false} ZerosAreWorthless(n: nat, ds: seq<nat>, base: nat)
    requires Base(base)
    ensures Number(Zeros(n) + ds, base) == Number(ds, base)
    decreases n + |ds|
  {
    var all := Zeros(n) + ds;
    if ds != [] {
      assert all[..|all| - 1] == Zeros(n) + ds[..|ds| - 1];
      ZerosAreWorthless(n, ds[..|ds| - 1], base);
    } else if n > 0 {
      assert all[..|all| - 1] == Zeros(n - 1) + [];
      ZerosAreWorthless(n - 1, [], base);
    }
  }

  lemma {:induction false} CountsZeros(n: nat, ds: seq<nat>)
    requires ds != [] ==> ds[0] != 0
    ensures LeadingZeros(Zeros(n) + ds) == n
    decreases n
  {
    if n > 0 {
      assert (Zeros(n) + ds)[1..] == Zeros(n - 1) + ds;
      CountsZeros(n - 1, ds);
    } else {
      assert Zeros(n) + ds == ds;
    }
  }

  /** Changing the base and back is the identity on all digit sequences: base 58 and
      bytes are in one-to-one correspondence. */
  lemma {:induction false} ConvertInverts(ds: seq<nat>, from: nat, to: nat)
    requires Base(from) && Base(to) && forall i :: 0 <= i < |ds| ==> ds[i] < from
    ensures Convert(Convert(ds, from, to), to, from) == ds
  {
    var k := LeadingZeros(ds);
    var rest := ds[k..];
    assert ds == Zeros(k) + rest;
    ZerosAreWorthless(k, rest, from);
    DigitsOfNumber(rest, from);
    var x := Number(rest, from);
    NumberOfDigits(x, to);
    CountsZeros(k, Digits(x, to));
    ZerosAreWorthless(k, Digits(x, to), to);
  }

  // ---------------------------------------------------------------------- alphabet

  /** The characters of xrpAlphabet. */
  function Character(digit: nat): char
    requires digit < 58
  {
    if digit < 15 then
      match digit
      case 0 => 'r'
      case 1 => 'p'
      case 2 => 's'
      case 3 => 'h'
      case 4 => 'n'
      case 5 => 'a'
      case 6 => 'f'
      case 7 => '3'
      case 8 => '9'
      case 9 => 'w'
      case 10 => 'B'
      case 11 => 'U'
      case 12 => 'D'
      case 13 => 'N'
      case _ => 'E'
    else if digit < 30 then
      match digit
      case 15 => 'G'
      case 16 => 'H'
      case 17 => 'J'
      case 18 => 'K'
      case 19 => 'L'
      case 20 => 'M'
      case 21 => '4'
      case 22 => 'P'
      case 23 => 'Q'
      case 24 => 'R'
      case 25 => 'S'
      case 26 => 'T'
      case 27 => '7'
      case 28 => 'V'
      case _ => 'W'
    else if digit < 45 then
      match digit
      case 30 => 'X'
      case 31 => 'Y'
      case 32 => 'Z'
      case 33 => '2'
      case 34 => 'b'
      case 35 => 'c'
      case 36 => 'd'
      case 37 => 'e'
      case 38 => 'C'
      case 39 => 'g'
      case 40 => '6'
      case 41 => '5'
      case 42 => 'j'
      case 43 => 'k'
      case _ => 'm'
    else
      match digit
      case 45 => '8'
      case 46 => 'o'
      case 47 => 'F'
      case 48 => 'q'
      case 49 => 'i'
      case 50 => '1'
      case 51 => 't'
      case 52 => 'u'
      case 53 => 'v'
      case 54 => 'A'
      case 55 => 'x'
      case 56 => 'y'
      case _ => 'z'
  }

  /** The table b58: 255 for characters outside the alphabet. */
  function Value(c: char): nat {
    if c < 'A' then
      match c
      case '1' => 50
      case '2' => 33
      case '3' => 7
      case '4' => 21
      case '5' => 41
      case '6' => 40
      case '7' => 27
      case '8' => 45
      case '9' => 8
      case _ => INVALID
    else if c < 'a' then
      match c
      case 'A' => 54
      case 'B' => 10
      case 'C' => 38
      case 'D' => 12
      case 'E' => 14
      case 'F' => 47
      case 'G' => 15
      case 'H' => 16
      case 'J' => 17
      case 'K' => 18
      case 'L' => 19
      case 'M' => 20
      case 'N' => 13
      case 'P' => 22
      case 'Q' => 23
      case 'R' => 24
      case 'S' => 25
      case 'T' => 26
      case 'U' => 11
      case 'V' => 28
      case 'W' => 29
      case 'X' => 30
      case 'Y' => 31
      case 'Z' => 32
      case _ => INVALID
    else
      match c
      case 'a' => 5
      case 'b' => 34
      case 'c' => 35
      case 'd' => 36
      case 'e' => 37
      case 'f' => 6
      case 'g' => 39
      case 'h' => 3
      case 'i' => 49
      case 'j' => 42
      case 'k' => 43
      case 'm' => 44
      case 'n' => 4
      case 'o' => 46
      case 'p' => 1
      case 'q' => 48
      case 'r' => 0
      case 's' => 2
      case 't' => 51
      case 'u' => 52
      case 'v' => 53
      case 'w' => 9
      case 'x' => 55
      case 'y' => 56
      case 'z' => 57
      case _ => INVALID
  }

  lemma {:induction false} AlphabetInverts(digit: nat)
    requires digit < 58
    ensures Value(Character(digit)) == digit
  {
    if digit < 15 {
      FirstQuarter(digit);
    } else if digit < 30 {
      SecondQuarter(digit);
    } else if digit < 45 {
      ThirdQuarter(digit);
    } else {
      LastQuarter(digit);
    }
  }

  lemma {:induction false} FirstQuarter(digit: nat)
    requires digit < 15
    ensures Value(Character(digit)) == digit
  {
  }

  lemma {:induction false} SecondQuarter(digit: nat)
    requires 15 <= digit < 30
    ensures Value(Character(digit)) == digit
  {
  }

  lemma {:induction false} ThirdQuarter(digit: nat)
    requires 30 <= digit < 45
    ensures Value(Character(digit)) == digit
  {
  }

  lemma {:induction false} LastQuarter(digit: nat)
    requires 45 <= digit < 58
    ensures Value(Character(digit)) == digit
  {
  }

  lemma {:induction false} ValueInverts(c: char)
    ensures Value(c) < 58 || Value(c) == INVALID
    ensures Value(c) < 58 ==> Character(Value(c)) == c
  {
  }

  // ------------------------------------------------------------------ text and bytes

  predicate AllBelow(ds: seq<nat>, bound: nat) {
    forall i :: 0 <= i < |ds| ==> ds[i] < bound
  }

  function Text(ds: seq<nat>): (s: string)
    requires AllBelow(ds, 58)
    ensures |s| == |ds| && forall i :: 0 <= i < |s| ==> s[i] == Character(ds[i])
  {
    seq(|ds|, i requires 0 <= i < |ds| => Character(ds[i]))
  }

  predicate InAlphabet(s: string) {
    forall i :: 0 <= i < |s| ==> Value(s[i]) < 58
  }

  function Values(s: string): (ds: seq<nat>)
    ensures |ds| == |s| && forall i :: 0 <= i < |s| ==> ds[i] == Value(s[i])
  {
    seq(|s|, i requires 0 <= i < |s| => Value(s[i]))
  }

  /** What encoding yields, digit by digit. */
  function Encoded(b: seq<nat>): string {
    Text(Convert(b, 256, 58))
  }

  /** What decoding yields: nothing for a string outside the alphabet. */
  function Decoded(s: string): seq<nat> {
    if InAlphabet(s) then Convert(Values(s), 58, 256) else []
  }

  lemma {:induction false} TextValues(ds: seq<nat>)
    requires AllBelow(ds, 58)
    ensures InAlphabet(Text(ds)) && Values(Text(ds)) == ds
  {
    hide Value, Character;
    forall i | 0 <= i < |ds|
      ensures Value(Text(ds)[i]) == ds[i]
    {
      AlphabetInverts(ds[i]);
    }
  }

  lemma {:induction false} ValuesText(s: string)
    requires InAlphabet(s)
    ensures AllBelow(Values(s), 58) && Text(Values(s)) == s
  {
    hide Value, Character;
    forall i | 0 <= i < |s|
      ensures Text(Values(s))[i] == s[i]
    {
      ValueInverts(s[i]);
    }
  }

  /** Decoding undoes encoding, for all bytes. */
  lemma {:induction false} DecodeUndoesEncode(b: seq<nat>)
    requires AllBelow(b, 256)
    ensures InAlphabet(Encoded(b)) && Decoded(Encoded(b)) == b
  {
    hide Value, Character, Convert;
    TextValues(Convert(b, 256, 58));
    ConvertInverts(b, 256, 58);
  }

  /** Encoding undoes decoding, for all strings over the alphabet. */
  lemma {:induction false} EncodeUndoesDecode(s: string)
    requires InAlphabet(s)
    ensures AllBelow(Decoded(s), 256) && Encoded(Decoded(s)) == s
  {
    hide Value, Character, Convert;
    ValuesText(s);
    ConvertInverts(Values(s), 58, 256);
  }

  // --------------------------------------------------------------- the encoder

  /** Base-58 digits, least significant first. */
  function Little(x: nat): (ds: seq<nat>)
    ensures AllBelow(ds, 58)
  {
    if x == 0 then [] else [x % 58] + Little(x / 58)
  }

  /** The lowest n digits, zeros included. */
  function Lowest(m: nat, n: nat): (ds: seq<nat>)
    ensures |ds| == n && AllBelow(ds, 58)
  {
    if n == 0 then [] else [m % 58] + Lowest(m / 58, n - 1)
  }

  function Power(n: nat): nat {
    if n == 0 then 1 else 58 * Power(n - 1)
  }

  lemma {:induction false} DivideDown(a: nat, m: nat)
    ensures (58 * a + m) / 58 == a + m / 58 && (58 * a + m) % 58 == m % 58
  {
  }

  function Scaled(q: nat, n: nat): nat {
    q * Power(n)
  }

  lemma {:induction false} ScaledStep(q: nat, n: nat)
    requires n > 0
    ensures Scaled(q, n) == 58 * Scaled(q, n - 1)
  {
    assert q * (58 * Power(n - 1)) == 58 * (q * Power(n - 1));
  }

  /** A number above a power of the base is its low digits and the rest. */
  lemma {:induction false} LittleSplit(q: nat, m: nat, n: nat)
    requires q > 0 && m < Power(n)
    ensures Little(Scaled(q, n) + m) == Lowest(m, n) + Little(q)
    decreases n
  {
    if n > 0 {
      ScaledStep(q, n);
      DivideDown(Scaled(q, n - 1), m);
      ScaledPositive(q, n);
      hide Scaled;
      LittleSplit(q, m / 58, n - 1);
    }
  }

  lemma {:induction false} ScaledPositive(q: nat, n: nat)
    requires q > 0
    ensures Scaled(q, n) > 0
    decreases n
  {
    if n > 0 {
      ScaledStep(q, n);
      hide Scaled;
      ScaledPositive(q, n - 1);
    }
  }

  lemma {:induction false} PowerTen()
    ensures Power(10) == RADIX10
  {
    assert Power(5) == 656356768;
    assert Power(10) == 58 * (58 * (58 * (58 * (58 * Power(5)))));
  }

  /** One turn of the chunked conversion. */
  lemma {:induction false} ChunkSplit(x: nat)
    requires x / RADIX10 > 0
    ensures Little(x) == Lowest(x % RADIX10, 10) + Little(x / RADIX10)
  {
    PowerTen();
    LittleSplit(x / RADIX10, x % RADIX10, 10);
    assert Scaled(x / RADIX10, 10) == (x / RADIX10) * RADIX10;
  }

  function Reversed<T>(s: seq<T>): (r: seq<T>)
    ensures |r| == |s| && forall i :: 0 <= i < |s| ==> r[i] == s[|s| - 1 - i]
  {
    seq(|s|, i requires 0 <= i < |s| => s[|s| - 1 - i])
  }

  lemma {:induction false} LittleIsReversed(x: nat)
    ensures Reversed(Little(x)) == Digits(x, 58)
    decreases x
  {
    if x > 0 {
      LittleIsReversed(x / 58);
      assert Reversed(Little(x)) == Reversed(Little(x / 58)) + [x % 58];
    }
  }

  /** The digits of the last chunk, without leading zeros. */
  method AppendAll(answer: string, m: nat, ghost ds: seq<nat>) returns (answer': string)
    requires AllBelow(ds, 58) && answer == Text(ds)
    ensures AllBelow(ds + Little(m), 58) && answer' == Text(ds + Little(m))
  {
    hide Character;
    answer' := answer;
    var rest: nat := m;
    ghost var done: seq<nat> := ds;
    while rest > 0
      invariant AllBelow(done, 58) && answer' == Text(done) && done + Little(rest) == ds + Little(m)
      decreases rest
    {
      assert done + ([rest % 58] + Little(rest / 58)) == (done + [rest % 58]) + Little(rest / 58);
      answer' := answer' + [Character(rest % 58)];
      done := done + [rest % 58];
      rest := rest / 58;
    }
    assert done + [] == done;
  }

  /** The ten digits of a chunk. */
  method AppendTen(answer: string, m: nat, ghost ds: seq<nat>) returns (answer': string)
    requires AllBelow(ds, 58) && answer == Text(ds)
    ensures AllBelow(ds + Lowest(m, 10), 58) && answer' == Text(ds + Lowest(m, 10))
  {
    hide Character;
    answer' := answer;
    var rest: nat := m;
    ghost var done: seq<nat> := ds;
    for i := 0 to 10
      invariant AllBelow(done, 58) && answer' == Text(done) && done + Lowest(rest, 10 - i) == ds + Lowest(m, 10)
    {
      LowestStep(rest, 10 - i);
      assert done + ([rest % 58] + Lowest(rest / 58, 9 - i)) == (done + [rest % 58]) + Lowest(rest / 58, 9 - i);
      answer' := answer' + [Character(rest % 58)];
      done := done + [rest % 58];
      rest := rest / 58;
    }
    assert done + [] == done;
  }

  lemma {:induction false} LowestStep(m: nat, n: nat)
    requires n > 0
    ensures Lowest(m, n) == [m % 58] + Lowest(m / 58, n - 1)
  {
  }

  /** The conversion loop: ten digits at a time. */
  method AppendDigits(v: nat) returns (answer: string)
    ensures answer == Text(Little(v))
  {
    hide Character;
    answer := [];
    var x: nat := v;
    ghost var ds: seq<nat> := [];
    while x > 0
      invariant AllBelow(ds, 58) && answer == Text(ds) && ds + Little(x) == Little(v)
      decreases x
    {
      var quotient, m := x / RADIX10, x % RADIX10;
      if quotient == 0 {
        assert m == x;
        answer := AppendAll(answer, m, ds);
        ds := ds + Little(m);
        assert ds + [] == ds;
      } else {
        ChunkSplit(x);
        assert ds + (Lowest(m, 10) + Little(quotient)) == (ds + Lowest(m, 10)) + Little(quotient);
        answer := AppendTen(answer, m, ds);
        ds := ds + Lowest(m, 10);
      }
      x := quotient;
    }
    assert ds + [] == ds;
  }

  /** The reversal in place. */
  method Reverse(s: string) returns (r: string)
    ensures r == Reversed(s)
  {
    r := s;
    var n := |s|;
    for i := 0 to n / 2
      invariant |r| == n
      invariant forall j :: 0 <= j < i ==> r[j] == s[n - 1 - j] && r[n - 1 - j] == s[j]
      invariant forall j :: i <= j < n - i ==> r[j] == s[j]
    {
      r := r[i := r[n - 1 - i]][n - 1 - i := r[i]];
    }
    assert forall j :: 0 <= j < n ==> r[j] == s[n - 1 - j];
  }

  /** One zero character for each leading zero byte. */
  method AppendZeros(answer: string, b: seq<nat>, ghost ds: seq<nat>) returns (answer': string)
    requires AllBelow(ds, 58) && answer == Text(ds)
    ensures AllBelow(ds + Zeros(LeadingZeros(b)), 58) && answer' == Text(ds + Zeros(LeadingZeros(b)))
  {
    hide Character;
    answer' := answer;
    var i := 0;
    assert ds + Zeros(0) == ds;
    while i < |b| && b[i] == 0
      invariant 0 <= i <= |b| && forall j :: 0 <= j < i ==> b[j] == 0
      invariant AllBelow(ds + Zeros(i), 58) && answer' == Text(ds + Zeros(i))
    {
      assert ds + Zeros(i + 1) == (ds + Zeros(i)) + [0];
      answer' := answer' + [Character(0)];
      i := i + 1;
    }
    FirstNonZero(b, i);
  }

  lemma {:induction false} ReversedText(x: nat, k: nat)
    ensures AllBelow(Little(x) + Zeros(k), 58) && AllBelow(Zeros(k) + Digits(x, 58), 58)
    ensures Reversed(Text(Little(x) + Zeros(k))) == Text(Zeros(k) + Digits(x, 58))
  {
    LittleIsReversed(x);
    hide Little, Digits, Character;
    var a, b := Little(x) + Zeros(k), Zeros(k) + Digits(x, 58);
    assert |a| == |b|;
    forall i | 0 <= i < |a|
      ensures a[|a| - 1 - i] == b[i]
    {
      assert i >= k ==> Digits(x, 58)[i - k] == Reversed(Little(x))[i - k];
    }
  }

  /** EncodeBase58: the chunked conversion is the digit-by-digit one. */
  method EncodeBase58(b: seq<nat>) returns (s: string)
    requires AllBelow(b, 256)
    ensures s == Encoded(b)
  {
    var v := Number(b, 256);
    hide Number, Little, Digits, Character;
    var answer := AppendDigits(v);
    answer := AppendZeros(answer, b, Little(v));
    ReversedText(v, LeadingZeros(b));
    s := Reverse(answer);
  }

  // --------------------------------------------------------------- the decoder

  /** Appending digits scales the number by a power of the base. */
  lemma {:induction false} NumberAppend(a: seq<nat>, b: seq<nat>)
    ensures Number(a + b, 58) == Scaled(Number(a, 58), |b|) + Number(b, 58)
    decreases |b|
  {
    if b == [] {
      assert a + b == a;
    } else {
      var n := |b| - 1;
      NumberAppend(a, b[..n]);
      assert (a + b)[..|a + b| - 1] == a + b[..n];
      ScaledStep(Number(a, 58), |b|);
    }
  }

  lemma {:induction false} PowerFits(n: nat)
    requires n <= 10
    ensures Power(n) <= RADIX10
    decreases 10 - n
  {
    if n == 10 {
      PowerTen();
    } else {
      PowerFits(n + 1);
    }
  }

  lemma {:induction false} NumberFits(ds: seq<nat>)
    requires AllBelow(ds, 58)
    ensures Number(ds, 58) < Power(|ds|)
    decreases |ds|
  {
    if ds != [] {
      NumberFits(ds[..|ds| - 1]);
    }
  }

  /** One chunk of at most ten characters; the running total stays below 58 to the tenth,
      so it fits 64 bits. */
  method DecodeChunk(s: string, at: nat, n: nat) returns (ok: bool, total: nat)
    requires at + n <= |s| && n <= 10
    ensures ok == InAlphabet(s[at..at + n])
    ensures ok ==> total == Number(Values(s[at..at + n]), 58) < 0x1_0000_0000_0000_0000
  {
    hide Value, Character;
    total := 0;
    for i := 0 to n
      invariant InAlphabet(s[at..at + i]) && total == Number(Values(s[at..at + i]), 58)
    {
      var tmp := Value(s[at + i]);
      ValueInverts(s[at + i]);
      assert s[at..at + n][i] == s[at + i];
      if tmp == INVALID {
        return false, 0;
      }
      assert s[at..at + i + 1] == s[at..at + i] + [s[at + i]];
      var before, after := Values(s[at..at + i]), Values(s[at..at + i + 1]);
      assert after[..|after| - 1] == before && after[|after| - 1] == tmp;
      total := total * 58 + tmp;
    }
    NumberFits(Values(s[at..at + n]));
    PowerFits(n);
    ok := true;
  }

  /** The first characters are read, and x is their number. */
  ghost predicate ReadSoFar(s: string, at: nat, x: nat) {
    at <= |s| && InAlphabet(s[..at]) && x == Number(Values(s[..at]), 58)
  }

  lemma {:induction false} ReadNone(s: string)
    ensures ReadSoFar(s, 0, 0)
  {
  }

  lemma {:induction false} ReadMore(s: string, at: nat, next: nat, x: nat)
    requires ReadSoFar(s, at, x) && at <= next <= |s| && InAlphabet(s[at..next])
    ensures ReadSoFar(s, next, Scaled(x, next - at) + Number(Values(s[at..next]), 58))
  {
    hide Value, Number, Scaled;
    GoodChunk(s, at, next);
    assert Values(s[..next]) == Values(s[..at]) + Values(s[at..next]);
    NumberAppend(Values(s[..at]), Values(s[at..next]));
  }

  lemma {:induction false} ReadAll(s: string, x: nat)
    requires ReadSoFar(s, |s|, x)
    ensures InAlphabet(s) && x == Number(Values(s), 58)
  {
    assert s[..|s|] == s;
  }

  /** The conversion loop of the decoder. */
  method DecodeNumber(s: string) returns (ok: bool, x: nat)
    ensures ok == InAlphabet(s) && (ok ==> x == Number(Values(s), 58))
  {
    hide Value, Number, Scaled, InAlphabet, Values, ReadSoFar;
    x := 0;
    var at: nat := 0;
    ReadNone(s);
    while at < |s|
      invariant 0 <= at <= |s| && ReadSoFar(s, at, x)
    {
      var n := if |s| - at < 10 then |s| - at else 10;
      var total;
      ok, total := DecodeChunk(s, at, n);
      if !ok {
        BadChunk(s, at, at + n);
        return;
      }
      ReadMore(s, at, at + n, x);
      x := Scaled(x, n) + total;
      at := at + n;
    }
    ReadAll(s, x);
    ok := true;
  }

  lemma {:induction false} GoodChunk(s: string, at: nat, next: nat)
    requires at <= next <= |s| && InAlphabet(s[..at]) && InAlphabet(s[at..next])
    ensures InAlphabet(s[..next])
  {
    hide Value;
    forall i | 0 <= i < next
      ensures Value(s[..next][i]) < 58
    {
      assert i < at ==> s[..at][i] == s[i];
      assert i >= at ==> s[at..next][i - at] == s[i];
    }
  }

  lemma {:induction false} BadChunk(s: string, at: nat, next: nat)
    requires at <= next <= |s| && !InAlphabet(s[at..next])
    ensures !InAlphabet(s)
  {
    hide Value;
    var i :| 0 <= i < next - at && Value(s[at..next][i]) >= 58;
    assert Value(s[at + i]) >= 58;
  }

  /** DecodeBase58. */
  method DecodeBase58(s: string) returns (b: seq<nat>)
    ensures b == Decoded(s) && AllBelow(b, 256)
  {
    hide Value, Character, Number, Digits;
    var ok, x := DecodeNumber(s);
    if !ok {
      return [];
    }
    var numZeros := 0;
    while numZeros < |s| && s[numZeros] == Character(0)
      invariant 0 <= numZeros <= |s| && forall i :: 0 <= i < numZeros ==> Values(s)[i] == 0
    {
      AlphabetInverts(0);
      numZeros := numZeros + 1;
    }
    ValuesText(s);
    FirstNonZero(Values(s), numZeros);
    b := Zeros(numZeros) + Digits(x, 256);
  }

  lemma {:induction false} FirstNonZero(ds: seq<nat>, n: nat)
    requires n <= |ds| && (forall i :: 0 <= i < n ==> ds[i] == 0) && (n < |ds| ==> ds[n] != 0)
    ensures LeadingZeros(ds) == n
  {
  }
}
