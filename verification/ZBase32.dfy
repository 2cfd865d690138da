/** z-base-32 as internal/recovery/recovery.go and internal/identity/identity.go stream it:
    an accumulator that is never cleared and wraps at the machine word, against the
    bit-string specification (big-endian bits in groups of five, zero padded). */
module ZBase32 {
  import opened ByteText

  type Bits = seq<bool>

  function Pow2(n: nat): (p: nat)
    ensures p > 0
  {
    if n == 0 then 1 else 2 * Pow2(n - 1)
  }

  /** The number a bit string writes, most significant bit first. */
  function Val(b: Bits): nat {
    if b == [] then 0 else 2 * Val(b[..|b| - 1]) + if b[|b| - 1] then 1 else 0
  }

  /** The w low bits of n, most significant first. */
  function BitsOf(n: nat, w: nat): (b: Bits)
    ensures |b| == w
  {
    if w == 0 then [] else BitsOf(n / 2, w - 1) + [n % 2 == 1]
  }

  lemma {:induction false} ValBound(b: Bits)
    ensures Val(b) < Pow2(|b|)
  {
    if b != [] {
      ValBound(b[..|b| - 1]);
    }
  }

  lemma {:induction false} ValBits(b: Bits)
    ensures BitsOf(Val(b), |b|) == b
  {
    if b != [] {
      var init := b[..|b| - 1];
      ValBits(init);
      assert Val(b) / 2 == Val(init) && (Val(b) % 2 == 1) == b[|b| - 1];
      assert b == init + [b[|b| - 1]];
    }
  }

  lemma {:induction false} BitsVal(n: nat, w: nat)
    requires n < Pow2(w)
    ensures Val(BitsOf(n, w)) == n
  {
    if w > 0 {
      BitsVal(n / 2, w - 1);
      var b := BitsOf(n, w);
      assert b[..w - 1] == BitsOf(n / 2, w - 1);
    }
  }

  lemma {:induction false} ValConcat(a: Bits, b: Bits)
    ensures Val(a + b) == Val(a) * Pow2(|b|) + Val(b)
  {
    if b == [] {
      assert a + b == a;
    } else {
      var n := |b| - 1;
      var init, last := b[..n], b[n];
      assert a + b == (a + init) + [last] && b == init + [last];
      ValConcat(a, init);
      ValSnoc(a + init, last);
      ValSnoc(init, last);
      Doubled(Val(a), Pow2(n));
    }
  }

  lemma ValSnoc(init: Bits, last: bool)
    ensures Val(init + [last]) == 2 * Val(init) + if last then 1 else 0
  {
    assert (init + [last])[..|init|] == init;
  }

  lemma Doubled(x: nat, p: nat)
    ensures 2 * (x * p) == x * (2 * p)
  {
  }

  lemma Pow2Small()
    ensures Pow2(0) == 1 && Pow2(1) == 2 && Pow2(2) == 4 && Pow2(3) == 8 && Pow2(4) == 16
    ensures Pow2(5) == 32 && Pow2(6) == 64 && Pow2(7) == 128 && Pow2(8) == 256
    ensures Pow2(9) == 512 && Pow2(10) == 1024 && Pow2(11) == 2048 && Pow2(12) == 4096
  {
    assert Pow2(4) == 16;
    assert Pow2(8) == 256;
  }

  // ---------- the specification ----------

  function Zeros(n: nat): (z: Bits)
    ensures |z| == n
  {
    seq(n, _ => false)
  }

  function BitsOfBytes(b: Bytes): (r: Bits)
    ensures |r| == 8 * |b|
  {
    if b == [] then [] else BitsOf(b[0] as nat, 8) + BitsOfBytes(b[1..])
  }

  type Symbol = n: nat | n < 32

  /** The alphabet "ybndrfg8ejkmcpqxot1uwisza345h769". */
  function Letter(i: Symbol): byte {
    match i
    case 0 => 121 case 1 => 98 case 2 => 110 case 3 => 100
    case 4 => 114 case 5 => 102 case 6 => 103 case 7 => 56
    case 8 => 101 case 9 => 106 case 10 => 107 case 11 => 109
    case 12 => 99 case 13 => 112 case 14 => 113 case 15 => 120
    case 16 => 111 case 17 => 116 case 18 => 49 case 19 => 117
    case 20 => 119 case 21 => 105 case 22 => 115 case 23 => 122
    case 24 => 97 case 25 => 51 case 26 => 52 case 27 => 53
    case 28 => 104 case 29 => 55 case 30 => 54 case _ => 57
  }

  /** Where a character stands in the alphabet, -1 when it does not. */
  function IndexOf(c: byte): (i: int)
    ensures -1 <= i < 32
  {
    match c
    case 121 => 0 case 98 => 1 case 110 => 2 case 100 => 3
    case 114 => 4 case 102 => 5 case 103 => 6 case 56 => 7
    case 101 => 8 case 106 => 9 case 107 => 10 case 109 => 11
    case 99 => 12 case 112 => 13 case 113 => 14 case 120 => 15
    case 111 => 16 case 116 => 17 case 49 => 18 case 117 => 19
    case 119 => 20 case 105 => 21 case 115 => 22 case 122 => 23
    case 97 => 24 case 51 => 25 case 52 => 26 case 53 => 27
    case 104 => 28 case 55 => 29 case 54 => 30 case 57 => 31
    case _ => -1
  }

  /** IndexOf finds exactly the letters, each at its own place. */
  lemma LetterIndex(i: Symbol, c: byte)
    ensures IndexOf(c) == i <==> Letter(i) == c
  {
  }

  function Symbols(b: Bits): seq<Symbol>
    decreases |b|
  {
    if b == [] then []
    else if |b| < 5 then [Five(b + Zeros(5 - |b|))]
    else [Five(b[..5])] + Symbols(b[5..])
  }

  lemma {:induction false} SymbolsCount(b: Bits)
    ensures |Symbols(b)| == (|b| + 4) / 5
    decreases |b|
  {
    if |b| >= 5 {
      SymbolsCount(b[5..]);
    }
  }

  function Five(b: Bits): Symbol
    requires |b| == 5
  {
    ValBound(b);
    Pow2Small();
    Val(b)
  }

  function Eight(b: Bits): byte
    requires |b| == 8
  {
    ValBound(b);
    Pow2Small();
    Val(b) as byte
  }

  function Text(s: seq<Symbol>): (t: Bytes)
    ensures |t| == |s|
    ensures forall k :: 0 <= k < |s| ==> t[k] == Letter(s[k])
  {
    seq(|s|, k requires 0 <= k < |s| => Letter(s[k]))
  }

  /** Big-endian bits in groups of five, the last group zero padded. */
  function Encoded(b: Bytes): Bytes { Text(Symbols(BitsOfBytes(b))) }

  function BitsOfSymbols(s: seq<Symbol>): (r: Bits)
    ensures |r| == 5 * |s|
  {
    if s == [] then [] else BitsOf(s[0], 5) + BitsOfSymbols(s[1..])
  }

  /** Whole bytes only: a trailing partial byte is dropped. */
  function BytesOfBits(b: Bits): (r: Bytes)
    ensures |r| == |b| / 8
    decreases |b|
  {
    if |b| < 8 then [] else [Eight(b[..8])] + BytesOfBits(b[8..])
  }

  predicate InAlphabet(t: Bytes) { forall k :: 0 <= k < |t| ==> IndexOf(t[k]) >= 0 }

  function SymbolsOf(t: Bytes): (s: seq<Symbol>)
    requires InAlphabet(t)
    ensures |s| == |t|
    ensures forall k :: 0 <= k < |t| ==> s[k] == IndexOf(t[k])
  {
    seq(|t|, k requires 0 <= k < |t| => IndexOf(t[k]) as Symbol)
  }

  /** The bytes a text stands for, or None when a character is foreign. */
  function Decoded(t: Bytes): Option<Bytes> {
    if InAlphabet(t) then Some(BytesOfBits(BitsOfSymbols(SymbolsOf(t)))) else None
  }

  // ---------- round trip ----------

  lemma SplitAt(a: Bits, b: Bits, k: nat)
    requires k <= |a|
    ensures (a + b)[..k] == a[..k] && (a + b)[k..] == a[k..] + b
  {
  }

  lemma {:induction false} SymbolsConcat(a: Bits, b: Bits)
    requires |a| % 5 == 0
    ensures Symbols(a + b) == Symbols(a) + Symbols(b)
    decreases |a|
  {
    hide Five, Zeros;
    if a == [] {
      assert a + b == b;
    } else {
      SplitAt(a, b, 5);
      SymbolsConcat(a[5..], b);
    }
  }

  lemma {:induction false} BytesOfBitsConcat(a: Bits, b: Bits)
    requires |a| % 8 == 0
    ensures BytesOfBits(a + b) == BytesOfBits(a) + BytesOfBits(b)
    decreases |a|
  {
    hide Eight;
    if a == [] {
      assert a + b == b;
    } else {
      SplitAt(a, b, 8);
      BytesOfBitsConcat(a[8..], b);
    }
  }

  /** Symbols read back as the bits they came from, followed by the padding. */
  lemma {:induction false} BitsOfSymbolsBack(b: Bits)
    ensures var r := BitsOfSymbols(Symbols(b));
            b <= r && |r| - |b| < 5 && r == b + Zeros(|r| - |b|)
    decreases |b|
  {
    if b == [] {
    } else if |b| < 5 {
      ShortBack(b);
    } else {
      hide Zeros, Symbols, BitsOfSymbols, Val, BitsOf;
      ValBits(b[..5]);
      BitsOfSymbolsBack(b[5..]);
      FirstFive(b);
      assert b == b[..5] + b[5..];
    }
  }

  lemma ShortBack(b: Bits)
    requires 0 < |b| < 5
    ensures BitsOfSymbols(Symbols(b)) == b + Zeros(5 - |b|)
  {
    hide Zeros;
    var g := b + Zeros(5 - |b|);
    ValBits(g);
    assert Symbols(b) == [Val(g)] && Symbols(b)[1..] == [];
    assert BitsOfSymbols([]) == [];
  }

  lemma FirstFive(b: Bits)
    requires |b| >= 5
    ensures BitsOfSymbols(Symbols(b)) == BitsOf(Val(b[..5]), 5) + BitsOfSymbols(Symbols(b[5..]))
  {
    assert Symbols(b)[1..] == Symbols(b[5..]);
  }

  lemma {:induction false} BytesBack(b: Bytes, pad: Bits)
    requires |pad| < 8
    ensures BytesOfBits(BitsOfBytes(b) + pad) == b
  {
    if b == [] {
      assert BitsOfBytes(b) + pad == pad;
    } else {
      var bits := BitsOfBytes(b) + pad;
      assert bits[..8] == BitsOf(b[0] as nat, 8);
      assert bits[8..] == BitsOfBytes(b[1..]) + pad;
      Pow2Small();
      BitsVal(b[0] as nat, 8);
      BytesBack(b[1..], pad);
    }
  }

  lemma {:induction false} BitsOfWholeBytes(b: Bits)
    requires |b| % 8 == 0
    ensures BitsOfBytes(BytesOfBits(b)) == b
    decreases |b|
  {
    if b != [] {
      BitsOfWholeBytes(b[8..]);
      ValBits(b[..8]);
      assert b == b[..8] + b[8..];
      assert BytesOfBits(b)[1..] == BytesOfBits(b[8..]);
    }
  }

  lemma HeadBytes(bits: Bits, n: nat)
    requires 8 * n <= |bits|
    ensures BytesOfBits(bits)[..n] == BytesOfBits(bits[..8 * n])
  {
    hide BytesOfBits;
    var head, tail := bits[..8 * n], bits[8 * n..];
    assert bits == head + tail;
    BytesOfBitsConcat(head, tail);
  }

  lemma TextBack(s: seq<Symbol>)
    ensures InAlphabet(Text(s)) && SymbolsOf(Text(s)) == s
  {
    forall k | 0 <= k < |s| ensures IndexOf(Text(s)[k]) == s[k] {
      LetterIndex(s[k], Text(s)[k]);
    }
  }

  /** Decoding what was encoded gives the bytes back, whatever their number. */
  lemma RoundTrip(b: Bytes)
    ensures Decoded(Encoded(b)) == Some(b)
  {
    var bits := BitsOfBytes(b);
    var back := BitsOfSymbols(Symbols(bits));
    TextBack(Symbols(bits));
    BitsOfSymbolsBack(bits);
    BytesBack(b, Zeros(|back| - |bits|));
  }

  /** Two byte strings never share an encoding. */
  lemma EncodedInjective(a: Bytes, b: Bytes)
    requires Encoded(a) == Encoded(b)
    ensures a == b
  {
    RoundTrip(a);
    RoundTrip(b);
  }

  // ---------- words that wrap ----------

  /** The bits in Go's uint, which depends on the machine. */
  type WordSize = w: nat | w == 32 || w == 64 witness 32

  /** buf<<k, on a word that wraps. */
  function Shl(w: WordSize, buf: nat, k: nat): nat { buf * Pow2(k) % Pow2(w) }

  /** buf>>k. */
  function Shr(buf: nat, k: nat): (q: nat)
  {
    DivUnique(buf, Pow2(k), buf / Pow2(k), buf % Pow2(k));
    buf / Pow2(k)
  }

  lemma MulFar(k: int, d: int)
    requires d > 0
    ensures k >= 1 ==> k * d >= d
    ensures k <= -1 ==> k * d <= -d
  {
    if k >= 1 {
      assert (k - 1) * d >= 0;
    }
    if k <= -1 {
      assert (-1 - k) * d >= 0;
    }
  }

  lemma DivUnique(x: int, d: int, quotient: int, rest: int)
    requires d > 0 && x == quotient * d + rest && 0 <= rest < d
    ensures x / d == quotient && x % d == rest
    ensures x >= 0 ==> quotient >= 0
  {
    MulFar(x / d - quotient, d);
    assert (x / d - quotient) * d == (x / d) * d - quotient * d;
    MulFar(quotient, d);
  }

  /** Wrapping a product at a multiple of what is looked at does no harm. */
  lemma PushLow(m: int, buf: nat, k: int, p: int, g: int, c: int)
    requires k > 0 && p > 0 && m == k * p * g && m > 0 && 0 <= c < k && k * p > 0
    ensures (buf * k % m + c) % (k * p) == buf % p * k + c
  {
    var e, a, r := buf * k / m, buf / p, buf % p;
    var x := buf * k % m + c;
    assert buf * k == (a * p + r) * k == k * p * a + r * k;
    assert e * m == k * p * (e * g);
    assert x == k * p * (a - e * g) + (r * k + c);
    assert (r + 1) * k <= p * k;
    DivUnique(x, k * p, a - e * g, r * k + c);
  }

  lemma PushByte(w: WordSize, buf: nat, n: nat, c: nat)
    requires n < 5 && c < 256
    ensures (Shl(w, buf, 8) + c) % Pow2(n + 8) == buf % Pow2(n) * 256 + c
  {
    hide Pow2;
    Pow2Small();
    Pow2Add(8, n);
    Pow2Add(8 + n, w - 8 - n);
    PushLow(Pow2(w), buf, 256, Pow2(n), Pow2(w - 8 - n), c);
  }

  lemma PushSymbol(w: WordSize, buf: nat, n: nat, i: nat)
    requires n < 8 && i < 32
    ensures (Shl(w, buf, 5) + i) % Pow2(n + 5) == buf % Pow2(n) * 32 + i
  {
    hide Pow2;
    Pow2Small();
    Pow2Add(5, n);
    Pow2Add(5 + n, w - 5 - n);
    PushLow(Pow2(w), buf, 32, Pow2(n), Pow2(w - 5 - n), i);
  }

  lemma {:induction false} Pow2Add(a: nat, b: nat)
    ensures Pow2(a + b) == Pow2(a) * Pow2(b)
  {
    if a > 0 {
      Pow2Add(a - 1, b);
    }
  }

  /** Of a bit string held in the low n bits, the top k are what a shift leaves and the rest
      is what stays behind. */
  lemma TakeTop(buf: nat, pending: Bits, k: nat)
    requires k <= |pending| && buf % Pow2(|pending|) == Val(pending)
    ensures Shr(buf, |pending| - k) % Pow2(k) == Val(pending[..k])
    ensures buf % Pow2(|pending| - k) == Val(pending[k..])
  {
    var n := |pending| - k;
    assert pending == pending[..k] + pending[k..];
    ValConcat(pending[..k], pending[k..]);
    ValBound(pending[..k]);
    ValBound(pending[k..]);
    Pow2Add(n, k);
    TopAndRest(buf, Pow2(n), Pow2(k), Val(pending[..k]), Val(pending[k..]));
  }

  lemma TopAndRest(buf: nat, p: nat, q: nat, top: nat, rest: nat)
    requires p > 0 && q > 0 && p * q > 0 && rest < p && top < q
    requires buf % (p * q) == top * p + rest
    ensures buf / p % q == top && buf % p == rest
  {
    var e := buf / (p * q);
    assert buf == (p * q) * e + (top * p + rest);
    assert (p * q) * e == (e * q) * p;
    assert buf == (e * q + top) * p + rest;
    DivUnique(buf, p, e * q + top, rest);
    DivUnique(e * q + top, q, e, top);
  }

  // ---------- the streaming code ----------

  lemma BytesStep(b: Bytes, i: nat)
    requires i < |b|
    ensures BitsOfBytes(b[..i + 1]) == BitsOfBytes(b[..i]) + BitsOf(b[i] as nat, 8)
  {
    BitsConcat(b[..i], [b[i]]);
    assert b[..i + 1] == b[..i] + [b[i]];
    assert BitsOfBytes([b[i]]) == BitsOf(b[i] as nat, 8);
  }

  lemma {:induction false} BitsConcat(a: Bytes, b: Bytes)
    ensures BitsOfBytes(a + b) == BitsOfBytes(a) + BitsOfBytes(b)
  {
    if a == [] {
      assert a + b == b;
    } else {
      assert (a + b)[1..] == a[1..] + b;
      BitsConcat(a[1..], b);
    }
  }

  /** The pending bits, as the accumulator holds them. */
  predicate Holds(buf: nat, bits: nat, pending: Bits) {
    bits == |pending| && buf % Pow2(bits) == Val(pending)
  }

  lemma HoldsByte(w: WordSize, buf: nat, bits: nat, pending: Bits, c: byte)
    requires Holds(buf, bits, pending) && bits < 5
    ensures Holds(Shl(w, buf, 8) + c as nat, bits + 8, pending + BitsOf(c as nat, 8))
  {
    Pow2Small();
    PushByte(w, buf, bits, c as nat);
    ValConcat(pending, BitsOf(c as nat, 8));
    BitsVal(c as nat, 8);
  }

  lemma HoldsSymbol(w: WordSize, buf: nat, bits: nat, pending: Bits, i: Symbol)
    requires Holds(buf, bits, pending) && bits < 8
    ensures Holds(Shl(w, buf, 5) + i, bits + 5, pending + BitsOf(i, 5))
  {
    Pow2Small();
    PushSymbol(w, buf, bits, i);
    ValConcat(pending, BitsOf(i, 5));
    BitsVal(i, 5);
  }

  lemma HoldsTaken(buf: nat, bits: nat, pending: Bits, k: nat)
    requires Holds(buf, bits, pending) && k <= bits
    ensures Shr(buf, bits - k) % Pow2(k) == Val(pending[..k]) && Holds(buf, bits - k, pending[k..])
  {
    TakeTop(buf, pending, k);
  }

  lemma SymbolsSnoc(done: Bits, five: Bits)
    requires |done| % 5 == 0 && |five| == 5
    ensures Symbols(done + five) == Symbols(done) + [Five(five)]
  {
    SymbolsConcat(done, five);
    assert five[..5] == five && Symbols(five[5..]) == [];
  }

  /** Encoding has got through `consumed`: the bits done are written out as symbols, the
      pending ones are in the accumulator. */
  ghost predicate Encoding(out: seq<Symbol>, buf: nat, bits: nat, consumed: Bits, done: Bits, pending: Bits) {
    && |done| % 5 == 0 && consumed == done + pending && out == Symbols(done)
    && Holds(buf, bits, pending)
  }

  lemma EncodingByte(out: seq<Symbol>, w: WordSize, buf: nat, bits: nat, consumed: Bits, done: Bits, pending: Bits,
                     c: byte)
    requires Encoding(out, buf, bits, consumed, done, pending) && bits < 5
    ensures var more := BitsOf(c as nat, 8);
            Encoding(out, Shl(w, buf, 8) + c as nat, bits + 8, consumed + more, done, pending + more)
  {
    hide Holds, Symbols, BitsOf, Shl;
    HoldsByte(w, buf, bits, pending, c);
    var more := BitsOf(c as nat, 8);
    assert consumed + more == done + (pending + more);
  }

  lemma EncodingSymbol(out: seq<Symbol>, buf: nat, bits: nat, consumed: Bits, done: Bits, pending: Bits)
    requires Encoding(out, buf, bits, consumed, done, pending) && bits >= 5
    ensures |pending| == bits
    ensures Encoding(out + [Shr(buf, bits - 5) % 32], buf, bits - 5, consumed, done + pending[..5], pending[5..])
  {
    hide Symbols, Val, Pow2, Shr, Five;
    HoldsTaken(buf, bits, pending, 5);
    FiveIs(pending[..5], Shr(buf, bits - 5));
    SymbolsSnoc(done, pending[..5]);
    assert done + pending == done + pending[..5] + pending[5..];
  }

  lemma FiveIs(five: Bits, n: nat)
    requires |five| == 5 && n % Pow2(5) == Val(five)
    ensures n % 32 == Five(five)
  {
    Pow2Small();
  }

  lemma EightIs(eight: Bits, n: nat)
    requires |eight| == 8 && n % Pow2(8) == Val(eight)
    ensures (n % 256) as byte == Eight(eight)
  {
    Pow2Small();
  }

  lemma EncodingEnd(out: seq<Symbol>, w: WordSize, buf: nat, bits: nat, consumed: Bits, done: Bits, pending: Bits)
    requires Encoding(out, buf, bits, consumed, done, pending) && bits < 5
    ensures Symbols(consumed) == if bits > 0 then out + [Shl(w, buf, 5 - bits) % 32] else out
  {
    SymbolsConcat(done, pending);
    if bits > 0 {
      LastSymbol(w, buf, bits, pending);
    }
  }

  lemma EncodingBegins()
    ensures Encoding([], 0, 0, BitsOfBytes([]), [], [])
  {
  }

  lemma TextSnoc(out: seq<Symbol>, last: Symbol)
    ensures Text(out + [last]) == Text(out) + [Letter(last)]
  {
  }

  /** encodeBase32 and encodeZBase32, on a machine with this word. */
  method EncodeBase32(b: Bytes, w: WordSize) returns (text: Bytes)
    ensures text == Encoded(b)
  {
    hide Holds, Symbols, BitsOfBytes, Shl, Shr, Letter;
    EncodingBegins();
    text := [];
    var buf: nat, bits: nat := 0, 0;
    ghost var out: seq<Symbol> := [];
    ghost var done: Bits, pending: Bits := [], [];
    for i := 0 to |b|
      invariant Encoding(out, buf, bits, BitsOfBytes(b[..i]), done, pending) && bits < 5
      invariant text == Text(out)
    {
      BytesStep(b, i);
      EncodingByte(out, w, buf, bits, BitsOfBytes(b[..i]), done, pending, b[i]);
      ghost var consumed := BitsOfBytes(b[..i + 1]);
      buf, bits, pending := Shl(w, buf, 8) + b[i] as nat, bits + 8, pending + BitsOf(b[i] as nat, 8);
      while bits >= 5
        invariant Encoding(out, buf, bits, consumed, done, pending)
        invariant text == Text(out)
      {
        EncodingSymbol(out, buf, bits, consumed, done, pending);
        bits := bits - 5;
        var symbol := Shr(buf, bits) % 32;
        TextSnoc(out, symbol);
        text := text + [Letter(symbol)];
        out, done, pending := out + [symbol], done + pending[..5], pending[5..];
      }
    }
    assert b[..|b|] == b;
    EncodingEnd(out, w, buf, bits, BitsOfBytes(b), done, pending);
    if bits > 0 {
      var symbol := Shl(w, buf, 5 - bits) % 32;
      TextSnoc(out, symbol);
      text := text + [Letter(symbol)];
    }
  }

  /** The padded last symbol. */
  lemma LastSymbol(w: WordSize, buf: nat, bits: nat, pending: Bits)
    requires Holds(buf, bits, pending) && 0 < bits < 5
    ensures Symbols(pending) == [Shl(w, buf, 5 - bits) % 32]
  {
    Pow2Small();
    var k := 5 - bits;
    ValConcat(pending, Zeros(k));
    ZerosVal(k);
    var p, q := Pow2(bits), Pow2(k);
    Pow2Add(k, bits);
    Pow2Add(5, w - 5);
    PushLow(Pow2(w), buf, q, p, Pow2(w - 5), 0);
  }

  lemma {:induction false} ZerosVal(n: nat)
    ensures Val(Zeros(n)) == 0
  {
    if n > 0 {
      assert Zeros(n)[..n - 1] == Zeros(n - 1);
      ZerosVal(n - 1);
    }
  }

  lemma {:induction false} SymbolBitsConcat(a: seq<Symbol>, b: seq<Symbol>)
    ensures BitsOfSymbols(a + b) == BitsOfSymbols(a) + BitsOfSymbols(b)
  {
    if a == [] {
      assert a + b == b;
    } else {
      assert (a + b)[1..] == a[1..] + b;
      SymbolBitsConcat(a[1..], b);
    }
  }

  lemma BytesSnoc(done: Bits, eight: Bits)
    requires |done| % 8 == 0 && |eight| == 8
    ensures BytesOfBits(done + eight) == BytesOfBits(done) + [Eight(eight)]
  {
    BytesOfBitsConcat(done, eight);
    assert eight[..8] == eight && BytesOfBits(eight[8..]) == [];
  }

  /** Decoding has got through `consumed`. */
  ghost predicate Decoding(out: Bytes, buf: nat, bits: nat, consumed: Bits, done: Bits, pending: Bits) {
    && |done| % 8 == 0 && consumed == done + pending && out == BytesOfBits(done)
    && Holds(buf, bits, pending)
  }

  lemma DecodingSymbol(out: Bytes, w: WordSize, buf: nat, bits: nat, consumed: Bits, done: Bits, pending: Bits,
                       i: Symbol)
    requires Decoding(out, buf, bits, consumed, done, pending) && bits < 8
    ensures var more := BitsOf(i, 5);
            Decoding(out, Shl(w, buf, 5) + i, bits + 5, consumed + more, done, pending + more)
  {
    hide Holds, BytesOfBits, BitsOf, Shl;
    HoldsSymbol(w, buf, bits, pending, i);
    var more := BitsOf(i, 5);
    assert consumed + more == done + (pending + more);
  }

  lemma DecodingByte(out: Bytes, buf: nat, bits: nat, consumed: Bits, done: Bits, pending: Bits)
    requires Decoding(out, buf, bits, consumed, done, pending) && bits >= 8
    ensures |pending| == bits
    ensures Decoding(out + [(Shr(buf, bits - 8) % 256) as byte], buf, bits - 8,
                     consumed, done + pending[..8], pending[8..])
  {
    hide BytesOfBits, Val, Pow2, Shr, Eight;
    HoldsTaken(buf, bits, pending, 8);
    EightIs(pending[..8], Shr(buf, bits - 8));
    BytesSnoc(done, pending[..8]);
    assert done + pending == done + pending[..8] + pending[8..];
  }

  /** Where the symbols of a text and of its extension by one stand. */
  lemma SymbolsStep(t: Bytes, k: nat)
    requires k < |t| && InAlphabet(t[..k]) && IndexOf(t[k]) >= 0
    ensures InAlphabet(t[..k + 1])
    ensures BitsOfSymbols(SymbolsOf(t[..k + 1])) == BitsOfSymbols(SymbolsOf(t[..k])) + BitsOf(IndexOf(t[k]), 5)
  {
    var i: Symbol := IndexOf(t[k]);
    assert t[..k + 1] == t[..k] + [t[k]];
    assert SymbolsOf(t[..k + 1]) == SymbolsOf(t[..k]) + [i];
    SymbolBitsConcat(SymbolsOf(t[..k]), [i]);
    assert BitsOfSymbols([i]) == BitsOf(i, 5);
  }

  lemma DecodingBegins()
    ensures InAlphabet([]) && Decoding([], 0, 0, BitsOfSymbols(SymbolsOf([])), [], [])
  {
  }

  lemma DecodingEnds(out: Bytes, buf: nat, bits: nat, consumed: Bits, done: Bits, pending: Bits)
    requires Decoding(out, buf, bits, consumed, done, pending) && bits < 8
    ensures BytesOfBits(consumed) == out
  {
    BytesOfBitsConcat(done, pending);
    assert out + [] == out;
  }

  /** decodeBase32, on a machine with this word: the bytes, or nothing when a character is
      not in the alphabet. */
  method DecodeBase32(t: Bytes, w: WordSize) returns (r: Option<Bytes>)
    ensures r == Decoded(t)
  {
    hide Holds, BytesOfBits, BitsOfSymbols, SymbolsOf, Shl, Shr, IndexOf, BitsOf;
    DecodingBegins();
    var out: Bytes := [];
    var buf: nat, bits: nat := 0, 0;
    ghost var done: Bits, pending: Bits := [], [];
    for k := 0 to |t|
      invariant InAlphabet(t[..k]) && bits < 8
      invariant Decoding(out, buf, bits, BitsOfSymbols(SymbolsOf(t[..k])), done, pending)
    {
      var i := IndexOf(t[k]);
      if i < 0 {
        return None;
      }
      SymbolsStep(t, k);
      DecodingSymbol(out, w, buf, bits, BitsOfSymbols(SymbolsOf(t[..k])), done, pending, i);
      buf, bits, pending := Shl(w, buf, 5) + i, bits + 5, pending + BitsOf(i, 5);
      if bits >= 8 {
        DecodingByte(out, buf, bits, BitsOfSymbols(SymbolsOf(t[..k + 1])), done, pending);
        bits := bits - 8;
        out := out + [(Shr(buf, bits) % 256) as byte];
        done, pending := done + pending[..8], pending[8..];
      }
    }
    assert t[..|t|] == t;
    DecodingEnds(out, buf, bits, BitsOfSymbols(SymbolsOf(t)), done, pending);
    r := Some(out);
  }
}
