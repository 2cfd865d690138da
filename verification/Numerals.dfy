/** z-base-32 as arithmetic: a text is a number in base 32, a byte string one in base 256, and
    coding is shifting by less than eight bits. Nothing here depends on bits or on the
    accumulator. */
module Numerals {
  import opened ByteText
  import Z = ZBase32

  /** The number of a byte string, most significant byte first. */
  function Number(b: Bytes): nat {
    if b == [] then 0 else 256 * Number(b[..|b| - 1]) + b[|b| - 1] as nat
  }

  /** The number of a row of digits in base 32. */
  function Value(s: seq<Z.Symbol>): nat {
    if s == [] then 0 else 32 * Value(s[..|s| - 1]) + s[|s| - 1]
  }

  /** The alphabet. */
  function Letters(): (letters: Bytes)
    ensures |letters| == 32
  {
    Ascii("ybndrfg8ejkmcpqxot1uwisza345h769")
  }

  /** n shifted to the left by k bits. */
  function Shifted(n: nat, k: nat): nat { n * Z.Pow2(k) }

  /** The letter for a digit. */
  lemma Alphabet(i: Z.Symbol)
    ensures Z.Letter(i) == Ascii("ybndrfg8ejkmcpqxot1uwisza345h769")[i] == Letters()[i]
  {
  }

  /** The text has the letters of these digits. */
  predicate WrittenWith(t: Bytes, s: seq<Z.Symbol>) {
    |t| == |s| && forall k :: 0 <= k < |s| ==> t[k] == Letters()[s[k]]
  }

  lemma WrittenIff(t: Bytes, s: seq<Z.Symbol>)
    ensures WrittenWith(t, s) <==> t == Z.Text(s)
  {
    hide Letters, Z.Letter;
    forall k | 0 <= k < |s| ensures Z.Letter(s[k]) == Letters()[s[k]] {
      Alphabet(s[k]);
    }
  }

  lemma {:induction false} ValueOfBits(s: seq<Z.Symbol>)
    ensures Z.Val(Z.BitsOfSymbols(s)) == Value(s)
    decreases |s|
  {
    if s != [] {
      var init, last := s[..|s| - 1], s[|s| - 1];
      assert s == init + [last];
      Z.SymbolBitsConcat(init, [last]);
      assert Z.BitsOfSymbols([last]) == Z.BitsOf(last, 5);
      Z.ValConcat(Z.BitsOfSymbols(init), Z.BitsOf(last, 5));
      Z.Pow2Small();
      Z.BitsVal(last, 5);
      ValueOfBits(init);
    }
  }

  lemma {:induction false} NumberOfBits(b: Bytes)
    ensures Z.Val(Z.BitsOfBytes(b)) == Number(b)
    decreases |b|
  {
    if b != [] {
      var init, last := b[..|b| - 1], b[|b| - 1];
      assert b == init + [last];
      Z.BitsConcat(init, [last]);
      assert Z.BitsOfBytes([last]) == Z.BitsOf(last as nat, 8);
      Z.ValConcat(Z.BitsOfBytes(init), Z.BitsOf(last as nat, 8));
      Z.Pow2Small();
      Z.BitsVal(last as nat, 8);
      NumberOfBits(init);
    }
  }

  lemma {:induction false} SameValue(s: seq<Z.Symbol>, t: seq<Z.Symbol>)
    requires |s| == |t| && Value(s) == Value(t)
    ensures s == t
    decreases |s|
  {
    if s != [] {
      SameValue(s[..|s| - 1], t[..|t| - 1]);
      assert s == s[..|s| - 1] + [s[|s| - 1]] && t == t[..|t| - 1] + [t[|t| - 1]];
    }
  }

  lemma {:induction false} SameNumber(a: Bytes, b: Bytes)
    requires |a| == |b| && Number(a) == Number(b)
    ensures a == b
    decreases |a|
  {
    if a != [] {
      SameNumber(a[..|a| - 1], b[..|b| - 1]);
      assert a == a[..|a| - 1] + [a[|a| - 1]] && b == b[..|b| - 1] + [b[|b| - 1]];
    }
  }

  /** Encoding: the fewest letters that have room for the bytes, and the number shifted to the
      left until it fills them. */
  lemma EncodedIff(b: Bytes, t: Bytes)
    ensures Z.Encoded(b) == t <==>
              && |t| == (8 * |b| + 4) / 5
              && exists s :: WrittenWith(t, s) && Value(s) == Shifted(Number(b), 5 * |t| - 8 * |b|)
  {
    hide Letters, WrittenWith, Z.Symbols, Z.BitsOfBytes, Value, Number, Shifted;
    var bits := Z.BitsOfBytes(b);
    var symbols := Z.Symbols(bits);
    EncodedValue(b);
    WrittenIff(Z.Encoded(b), symbols);
    forall s | WrittenWith(t, s) && |t| == |symbols| && Value(s) == Value(symbols) ensures Z.Encoded(b) == t {
      WrittenIff(t, s);
      SameValue(s, symbols);
    }
  }

  lemma EncodedValue(b: Bytes)
    ensures var s := Z.Symbols(Z.BitsOfBytes(b));
            |s| == (8 * |b| + 4) / 5 && Value(s) == Shifted(Number(b), 5 * |s| - 8 * |b|)
  {
    var bits := Z.BitsOfBytes(b);
    var s := Z.Symbols(bits);
    Z.SymbolsCount(bits);
    Z.BitsOfSymbolsBack(bits);
    ValueOfBits(s);
    NumberOfBits(b);
    var pad := Z.Zeros(5 * |s| - 8 * |b|);
    Z.ValConcat(bits, pad);
    Z.ZerosVal(|pad|);
  }

  /** Decoding: as many whole bytes as the letters hold, and the number shifted to the right;
      nothing when there is a foreign byte. */
  lemma DecodedIff(t: Bytes, b: Bytes)
    ensures Z.Decoded(t) == Some(b) <==>
              && |b| == 5 * |t| / 8
              && exists s :: WrittenWith(t, s) && Number(b) == Value(s) / Z.Pow2(5 * |t| - 8 * |b|)
    ensures Z.Decoded(t).None? <==> exists k :: 0 <= k < |t| && t[k] !in Letters()
  {
    hide Letters, WrittenWith, Z.InAlphabet, Z.BitsOfSymbols, Z.BytesOfBits, Value, Number, Z.Pow2;
    InAlphabetIff(t);
    if Z.InAlphabet(t) {
      var symbols := Z.SymbolsOf(t);
      var back := Z.Decoded(t).value;
      DecodedValue(symbols);
      WrittenBack(t);
      forall s | WrittenWith(t, s) ensures s == symbols {
        WrittenIff(t, s);
        Z.TextBack(s);
      }
      if |b| == |back| && Number(b) == Number(back) {
        SameNumber(b, back);
      }
    } else {
      forall s ensures !WrittenWith(t, s) {
        WrittenIff(t, s);
        Z.TextBack(s);
      }
    }
  }

  lemma WrittenBack(t: Bytes)
    requires Z.InAlphabet(t)
    ensures WrittenWith(t, Z.SymbolsOf(t))
  {
    hide Letters, Z.Letter, Z.IndexOf;
    var s := Z.SymbolsOf(t);
    forall k | 0 <= k < |t| ensures t[k] == Z.Letter(s[k]) {
      Z.LetterIndex(s[k], t[k]);
    }
    WrittenIff(t, s);
  }

  lemma InAlphabetIff(t: Bytes)
    ensures Z.InAlphabet(t) <==> forall k :: 0 <= k < |t| ==> t[k] in Letters()
  {
    hide Letters, Z.IndexOf;
    forall k | 0 <= k < |t| ensures Z.IndexOf(t[k]) >= 0 <==> t[k] in Letters() {
      LetterFound(t[k]);
    }
  }

  lemma LetterFound(c: byte)
    ensures Z.IndexOf(c) >= 0 <==> c in Letters()
  {
    hide Letters, Z.Letter, Z.IndexOf;
    var letters := Letters();
    if Z.IndexOf(c) >= 0 {
      Alphabet(Z.IndexOf(c));
      Z.LetterIndex(Z.IndexOf(c), c);
    }
    if c in letters {
      var i :| 0 <= i < |letters| && letters[i] == c;
      Alphabet(i);
      Z.LetterIndex(i, c);
    }
  }

  lemma DecodedValue(s: seq<Z.Symbol>)
    ensures var b := Z.BytesOfBits(Z.BitsOfSymbols(s));
            |b| == 5 * |s| / 8 && Number(b) == Value(s) / Z.Pow2(5 * |s| - 8 * |b|)
  {
    var bits := Z.BitsOfSymbols(s);
    var b := Z.BytesOfBits(bits);
    var head, tail := bits[..8 * |b|], bits[8 * |b|..];
    assert bits == head + tail;
    Z.HeadBytes(bits, |b|);
    assert b[..|b|] == b;
    Z.BitsOfWholeBytes(head);
    NumberOfBits(b);
    ValueOfBits(s);
    Z.ValConcat(head, tail);
    Z.ValBound(tail);
    Z.DivUnique(Value(s), Z.Pow2(|tail|), Number(b), Z.Val(tail));
  }
}
