/** internal/recovery/recovery.go: a 32-byte seed written as a recovery key and read back.

    The two-byte checksum is a parameter: any function from seeds to two bytes. Go's key
    derivation from the seed is a library call, so Decode answers with the seed. */
module Recovery {
  import opened ByteText
  import Hosts
  import N = Numerals
  import Z = ZBase32

  const SEED_LEN: nat := 32
  const CHECKSUM_LEN: nat := 2
  const PAYLOAD_LEN: nat := 34
  const GROUP_SIZE: nat := 5
  const PRIVATE_KEY_SIZE: nat := 64

  datatype Refusal = NoPrivateKey | Malformed | BadChecksum

  ghost predicate IsChecksum(checksum: Bytes -> Bytes) {
    forall seed :: |checksum(seed)| == CHECKSUM_LEN
  }

  /** "MM1", the dash, "mm1". */
  const PREFIX: Bytes := [77, 77, 49]
  const LOWER_PREFIX: Bytes := [109, 109, 49]

  // ---------- Encode ----------

  /** strings.Join of the upper-cased groups of five, each preceded by a dash. */
  function Dashed(body: Bytes): Bytes
    decreases |body|
  {
    if body == [] then []
    else
      var n := if |body| < GROUP_SIZE then |body| else GROUP_SIZE;
      [DASH] + Upper(body[..n]) + Dashed(body[n..])
  }

  lemma DashedStep(body: Bytes, group: Bytes, rest: Bytes)
    requires body == group + rest && 0 < |group| <= GROUP_SIZE && (rest != [] ==> |group| == GROUP_SIZE)
    ensures Dashed(body) == [DASH] + Upper(group) + Dashed(rest)
  {
    var n := if |body| < GROUP_SIZE then |body| else GROUP_SIZE;
    assert n == |group| && body[..n] == group && body[n..] == rest;
  }

  function Body(seed: Bytes, checksum: Bytes -> Bytes): Bytes { Z.Encoded(seed + checksum(seed)) }

  /** The grouping loop of Encode. */
  method Grouped(body: Bytes) returns (groups: Bytes)
    ensures groups == Dashed(body)
  {
    groups := [];
    var i := 0;
    while i < |body|
      invariant 0 <= i <= |body|
      invariant groups + Dashed(body[i..]) == Dashed(body)
    {
      var end := if i + GROUP_SIZE < |body| then i + GROUP_SIZE else |body|;
      GroupMoved(groups, body[i..], body[i..end], body[end..]);
      groups := groups + ([DASH] + Upper(body[i..end]));
      i := end;
    }
  }

  lemma GroupMoved(groups: Bytes, body: Bytes, group: Bytes, rest: Bytes)
    requires body == group + rest && 0 < |group| <= GROUP_SIZE && (rest != [] ==> |group| == GROUP_SIZE)
    ensures groups + ([DASH] + Upper(group)) + Dashed(rest) == groups + Dashed(body)
  {
    DashedStep(body, group, rest);
  }

  /** Encode. */
  method Encode(privateKey: Bytes, checksum: Bytes -> Bytes, w: Z.WordSize) returns (r: Result<Bytes, Refusal>)
    ensures r == if |privateKey| != 64 then Err(NoPrivateKey)
                 else Ok([77, 77, 49] + Dashed(Body(privateKey[..32], checksum)))
  {
    if |privateKey| != PRIVATE_KEY_SIZE {
      return Err(NoPrivateKey);
    }
    var seed := privateKey[..SEED_LEN];
    var body := Z.EncodeBase32(seed + checksum(seed), w);
    var groups := Grouped(body);
    r := Ok(PREFIX + groups);
  }

  // ---------- Decode ----------

  /** The characters Decode drops: dash, space, tab, line feed, carriage return, underscore. */
  predicate IsSeparator(c: byte) { c == DASH || c == 32 || c == 9 || c == 10 || c == 13 || c == 95 }

  function Strip(s: Bytes): Bytes {
    if s == [] then [] else (if IsSeparator(s[0]) then [] else [s[0]]) + Strip(s[1..])
  }

  function Cleaned(s: Bytes): Bytes { Strip(Lower(TrimSpace(s))) }

  /** strings.TrimPrefix takes the prefix away once. */
  function WithoutPrefix(s: Bytes): Bytes {
    if LOWER_PREFIX <= s then s[|LOWER_PREFIX|..] else s
  }

  function DecodeBody(body: Bytes, checksum: Bytes -> Bytes): Result<Bytes, Refusal>
    requires IsChecksum(checksum)
  {
    if body == [] then Err(Malformed)
    else
      match Z.Decoded(body)
      case None => Err(Malformed)
      case Some(payload) =>
        if |payload| < PAYLOAD_LEN then Err(Malformed)
        else
          var seed := payload[..SEED_LEN];
          if payload[SEED_LEN..PAYLOAD_LEN] != checksum(seed) then Err(BadChecksum) else Ok(seed)
  }

  /** Decode. */
  function Decode(s: Bytes, checksum: Bytes -> Bytes): Result<Bytes, Refusal>
    requires IsChecksum(checksum)
  {
    DecodeBody(WithoutPrefix(Cleaned(s)), checksum)
  }

  // ---------- what Decode accepts ----------

  lemma WholeBytesIff(head: Z.Bits, p: Bytes)
    requires |head| == 8 * |p|
    ensures Z.BitsOfBytes(p) == head <==> Z.BytesOfBits(head) == p
  {
    hide Z.BitsOfBytes, Z.BytesOfBits;
    Z.BitsOfWholeBytes(head);
    Z.BytesBack(p, []);
    assert Z.BitsOfBytes(p) + [] == Z.BitsOfBytes(p);
  }

  /** The first n bytes read from a bit string are p exactly when it starts with p's bits. */
  lemma FirstBytes(bits: Z.Bits, p: Bytes)
    ensures Z.BitsOfBytes(p) <= bits <==> |p| <= |bits| / 8 && Z.BytesOfBits(bits)[..|p|] == p
  {
    hide Z.BitsOfBytes, Z.BytesOfBits;
    var n := 8 * |p|;
    if n <= |bits| {
      Z.HeadBytes(bits, |p|);
      WholeBytesIff(bits[..n], p);
    }
  }

  /** The bytes that mean nothing in a key: dash, space, tab, line feed, carriage return,
      underscore. */
  predicate Noise(c: byte) { c == 45 || c == 32 || c == 9 || c == 10 || c == 13 || c == 95 }

  /** A byte with a capital made small. */
  function Small(c: byte): int { c as int + if 65 <= c <= 90 then 32 else 0 }

  /** The text writes the word: its letters in order, each in either case, with noise anywhere
      between, before and after them. */
  predicate Writes(text: Bytes, word: Bytes)
    decreases |text|
  {
    if text == [] then word == []
    else if Noise(text[0]) then Writes(text[1..], word)
    else word != [] && Small(text[0]) == Small(word[0]) && Writes(text[1..], word[1..])
  }

  /** s is the word, in small letters and without noise, written with white space around it. */
  predicate Written(s: Bytes, word: Bytes, left: Bytes, text: Bytes, right: Bytes) {
    && s == left + text + right && AllSpace(left) && AllSpace(right) && Tight(text)
    && Writes(text, word) && forall k :: 0 <= k < |word| ==> !Noise(word[k]) && !(65 <= word[k] <= 90)
  }

  /** The text begins "mm1". */
  predicate BeginsMm1(s: Bytes) { |s| >= 3 && s[0] == 109 && s[1] == 109 && s[2] == 49 }

  /** The body a text is read as: the word it writes, without one "mm1" in front. */
  ghost predicate Reads(s: Bytes, body: Bytes) {
    exists word: Bytes, left, text, right ::
      Written(s, word, left, text, right) && body == if BeginsMm1(word) then word[3..] else word
  }

  lemma {:induction false} WritesOwn(text: Bytes)
    ensures var word := Strip(Lower(text));
            Writes(text, word) && forall k :: 0 <= k < |word| ==> !Noise(word[k]) && !(65 <= word[k] <= 90)
    decreases |text|
  {
    if text != [] {
      assert Lower(text)[1..] == Lower(text[1..]);
      WritesOwn(text[1..]);
      var more := Strip(Lower(text[1..]));
      if !Noise(text[0]) {
        var word := [LowerByte(text[0])] + more;
        assert word[1..] == more && Strip(Lower(text)) == word;
        assert forall k :: 1 <= k < |word| ==> word[k] == more[k - 1];
      } else {
        assert Strip(Lower(text)) == more;
      }
    }
  }

  lemma {:induction false} WritesStrips(text: Bytes, word: Bytes)
    requires Writes(text, word)
    ensures Strip(Lower(text)) == Lower(word)
    decreases |text|
  {
    if text != [] {
      assert Lower(text)[1..] == Lower(text[1..]);
      if Noise(text[0]) {
        WritesStrips(text[1..], word);
      } else {
        WritesStrips(text[1..], word[1..]);
        assert Lower(word) == [LowerByte(word[0])] + Lower(word[1..]);
      }
    }
  }

  lemma PrefixIff(word: Bytes)
    ensures WithoutPrefix(word) == if BeginsMm1(word) then word[3..] else word
  {
    assert LOWER_PREFIX <= word <==> BeginsMm1(word);
  }

  /** Every text is read as one body, and the code reads it so. */
  lemma ReadsIff(s: Bytes, body: Bytes)
    ensures Reads(s, body) <==> body == WithoutPrefix(Cleaned(s))
  {
    hide TrimSpace, Writes, Strip;
    PrefixIff(Cleaned(s));
    var trimmed := TrimSpace(s);
    var left, right := Hosts.TrimSplits(s);
    Hosts.TrimmedIsTight(s);
    WritesOwn(trimmed);
    assert Written(s, Cleaned(s), left, trimmed, right);
    forall word, l, text, r | Written(s, word, l, text, r) ensures word == Cleaned(s) {
      TrimPadded(l, text, r);
      WritesStrips(text, word);
      assert Lower(word) == word;
    }
  }

  predicate InAlphabet(body: Bytes) { forall k :: 0 <= k < |body| ==> body[k] in N.Letters() }

  predicate LongEnough(body: Bytes) { InAlphabet(body) && |body| >= 55 }

  function BodyBits(body: Bytes): (bits: Z.Bits)
    requires InAlphabet(body)
    ensures |bits| == 5 * |body|
  {
    N.InAlphabetIff(body);
    Z.BitsOfSymbols(Z.SymbolsOf(body))
  }

  /** Decode answers with a seed exactly when the body is written in the alphabet and starts
      with the bits of that seed and its checksum: 272 bits, so at least 55 symbols, and
      nothing after them matters. Otherwise a body in the alphabet that is long enough has a
      bad checksum, and any other is malformed. */
  lemma DecodeIff(s: Bytes, body: Bytes, checksum: Bytes -> Bytes, seed: Bytes)
    requires IsChecksum(checksum) && Reads(s, body)
    ensures Decode(s, checksum) == Ok(seed) <==>
              |seed| == 32 && InAlphabet(body) && Z.BitsOfBytes(seed + checksum(seed)) <= BodyBits(body)
    ensures Decode(s, checksum) == Err(Malformed) <==> !LongEnough(body)
    ensures Decode(s, checksum) == Err(BadChecksum) <==> LongEnough(body) && !Decode(s, checksum).Ok?
  {
    hide Cleaned, WithoutPrefix, InAlphabet, Reads,
      Z.BytesOfBits, Z.BitsOfBytes, Z.BitsOfSymbols, Z.SymbolsOf, Z.InAlphabet;
    ReadsIff(s, body);
    N.InAlphabetIff(body);
    assert Z.InAlphabet(body) <==> InAlphabet(body) by { AlphabetIff(body); }
    if InAlphabet(body) {
      var bits := BodyBits(body);
      var payload := Z.BytesOfBits(bits);
      FirstBytes(bits, seed + checksum(seed));
      assert |payload| >= PAYLOAD_LEN <==> |body| >= 55;
      if |payload| >= PAYLOAD_LEN && |seed| == SEED_LEN {
        assert payload[..PAYLOAD_LEN] == payload[..SEED_LEN] + payload[SEED_LEN..PAYLOAD_LEN];
      }
    }
  }

  lemma AlphabetIff(body: Bytes)
    ensures Z.InAlphabet(body) <==> InAlphabet(body)
  {
    hide Z.InAlphabet, N.Letters;
    N.InAlphabetIff(body);
  }

  /** Two keys whose bodies agree on the first 272 bits decode alike. */
  lemma OnlyFirstBitsMatter(s: Bytes, a: Bytes, t: Bytes, b: Bytes, checksum: Bytes -> Bytes)
    requires IsChecksum(checksum) && Reads(s, a) && Reads(t, b)
    requires LongEnough(a) && LongEnough(b) && BodyBits(a)[..272] == BodyBits(b)[..272]
    ensures Decode(s, checksum) == Decode(t, checksum)
  {
    hide InAlphabet, Reads, BodyBits;
    forall seed ensures Decode(s, checksum) == Ok(seed) <==> Decode(t, checksum) == Ok(seed) {
      DecodeIff(s, a, checksum, seed);
      DecodeIff(t, b, checksum, seed);
      SameStart(BodyBits(a), BodyBits(b), Z.BitsOfBytes(seed + checksum(seed)));
    }
    DecodeIff(s, a, checksum, []);
    DecodeIff(t, b, checksum, []);
  }

  lemma SameStart(a: Z.Bits, b: Z.Bits, p: Z.Bits)
    requires |a| >= 272 && |b| >= 272 && a[..272] == b[..272]
    ensures |p| == 272 ==> (p <= a <==> p <= b)
  {
    if |p| == 272 {
      assert p <= a <==> p == a[..272];
      assert p <= b <==> p == b[..272];
    }
  }

  // ---------- typing errors in the checksum ----------

  /** Where symbol k sits in the bit string. */
  lemma {:induction false} SymbolBits(s: seq<Z.Symbol>, k: nat)
    requires k < |s|
    ensures Z.BitsOfSymbols(s) == Z.BitsOfSymbols(s[..k]) + Z.BitsOf(s[k], 5) + Z.BitsOfSymbols(s[k + 1..])
  {
    assert s == s[..k] + ([s[k]] + s[k + 1..]);
    Z.SymbolBitsConcat(s[..k], [s[k]] + s[k + 1..]);
    Z.SymbolBitsConcat([s[k]], s[k + 1..]);
    assert Z.BitsOfSymbols([s[k]]) == Z.BitsOf(s[k], 5);
  }

  lemma SymbolsOfUpdate(body: Bytes, k: nat, c: byte)
    requires Z.InAlphabet(body) && k < |body| && Z.IndexOf(c) >= 0
    ensures Z.InAlphabet(body[k := c]) && Z.SymbolsOf(body[k := c]) == Z.SymbolsOf(body)[k := Z.IndexOf(c)]
  {
  }

  /** Changing symbol k leaves the bits before it and does change its own five. */
  lemma BitsOfUpdate(s: seq<Z.Symbol>, k: nat, i: Z.Symbol)
    requires k < |s| && i != s[k]
    ensures var a, b := Z.BitsOfSymbols(s), Z.BitsOfSymbols(s[k := i]);
            a[..5 * k] == b[..5 * k] && a[5 * k..5 * k + 5] != b[5 * k..5 * k + 5]
  {
    var t := s[k := i];
    SymbolBits(s, k);
    SymbolBits(t, k);
    assert t[..k] == s[..k] && t[k + 1..] == s[k + 1..];
    Z.Pow2Small();
    Z.BitsVal(s[k], 5);
    Z.BitsVal(i, 5);
    var a, b := Z.BitsOfSymbols(s), Z.BitsOfSymbols(t);
    assert a[5 * k..5 * k + 5] == Z.BitsOf(s[k], 5) && b[5 * k..5 * k + 5] == Z.BitsOf(i, 5);
  }

  /** Symbols 52 and 53 hold checksum bits only: mistyping either of them, with a letter of
      the alphabet, is always reported, whatever the checksum function. */
  lemma ChecksumTypoCaught(s: Bytes, t: Bytes, body: Bytes, checksum: Bytes -> Bytes, k: nat, c: byte)
    requires IsChecksum(checksum) && Decode(s, checksum).Ok? && Reads(s, body)
    requires k == 52 || k == 53
    requires |body| > k && c != body[k] && c in N.Letters() && Reads(t, body[k := c])
    ensures Decode(t, checksum) == Err(BadChecksum)
  {
    hide Reads, N.Letters, Decode;
    var seed := Decode(s, checksum).value;
    DecodeIff(s, body, checksum, seed);
    DecodeIff(t, body[k := c], checksum, seed);
    TypoBits(body, k, c);
    forall other ensures Decode(t, checksum) != Ok(other) {
      DecodeIff(t, body[k := c], checksum, other);
      if Decode(t, checksum) == Ok(other) {
        SameSeed(BodyBits(body), BodyBits(body[k := c]), 5 * k, seed, other, checksum);
      }
    }
  }

  lemma TypoBits(body: Bytes, k: nat, c: byte)
    requires InAlphabet(body) && k < |body| && c != body[k] && c in N.Letters()
    ensures InAlphabet(body[k := c])
    ensures var a, b := BodyBits(body), BodyBits(body[k := c]);
            a[..5 * k] == b[..5 * k] && a[5 * k..5 * k + 5] != b[5 * k..5 * k + 5]
  {
    hide N.Letters;
    AlphabetIff(body);
    N.LetterFound(c);
    SymbolsOfUpdate(body, k, c);
    AlphabetIff(body[k := c]);
    var symbols := Z.SymbolsOf(body);
    Z.LetterIndex(symbols[k], c);
    Z.LetterIndex(symbols[k], body[k]);
    BitsOfUpdate(symbols, k, Z.IndexOf(c));
  }

  /** Bit strings that agree on the seed and start with a seed and its checksum start with
      the same ones. */
  lemma SameSeed(a: Z.Bits, b: Z.Bits, n: nat, seed: Bytes, other: Bytes, checksum: Bytes -> Bytes)
    requires IsChecksum(checksum) && |seed| == SEED_LEN && |other| == SEED_LEN
    requires Z.BitsOfBytes(seed + checksum(seed)) <= a && Z.BitsOfBytes(other + checksum(other)) <= b
    requires 256 <= n <= |a| && n <= |b| && a[..n] == b[..n]
    ensures seed == other && |a| >= 272 && |b| >= 272 && a[..272] == b[..272]
  {
    Z.BitsConcat(seed, checksum(seed));
    Z.BitsConcat(other, checksum(other));
    assert Z.BitsOfBytes(seed) == a[..n][..256] && Z.BitsOfBytes(other) == b[..n][..256];
    Z.BytesBack(seed, []);
    Z.BytesBack(other, []);
    assert Z.BitsOfBytes(seed) + [] == Z.BitsOfBytes(other) + [];
  }

  // ---------- what people do to a key ----------

  /** White space at either end of a written word is separators, so trimming it away leaves
      the word written. */
  lemma {:induction false} WritesTrimmedLeft(text: Bytes, word: Bytes)
    requires Writes(text, word) && NoSpace(word)
    ensures Writes(TrimLeft(text), word)
    decreases |text|
  {
    if text != [] && IsSpace(text[0]) {
      WritesTrimmedLeft(text[1..], word);
    }
  }

  predicate NoSpace(word: Bytes) { forall k :: 0 <= k < |word| ==> !Blank(word[k]) }

  lemma {:induction false} WritesWithoutLast(text: Bytes, word: Bytes)
    requires Writes(text, word) && NoSpace(word) && text != [] && IsSpace(text[|text| - 1])
    ensures Writes(text[..|text| - 1], word)
    decreases |text|
  {
    if |text| > 1 {
      assert text[1..][..|text| - 2] == text[..|text| - 1][1..];
      WritesWithoutLast(text[1..], if Noise(text[0]) then word else word[1..]);
    }
  }

  lemma {:induction false} WritesTrimmedRight(text: Bytes, word: Bytes)
    requires Writes(text, word) && NoSpace(word)
    ensures Writes(TrimRight(text), word)
    decreases |text|
  {
    if text != [] && IsSpace(text[|text| - 1]) {
      WritesWithoutLast(text, word);
      WritesTrimmedRight(text[..|text| - 1], word);
    }
  }

  lemma {:induction false} TrimLeftPads(left: Bytes, s: Bytes)
    requires AllSpace(left)
    ensures TrimLeft(left + s) == TrimLeft(s)
    decreases |left|
  {
    if left == [] {
      assert left + s == s;
    } else {
      assert (left + s)[1..] == left[1..] + s;
      TrimLeftPads(left[1..], s);
    }
  }

  lemma {:induction false} TrimRightPads(s: Bytes, right: Bytes)
    requires AllSpace(right)
    ensures TrimRight(s + right) == TrimRight(s)
    decreases |right|
  {
    if right == [] {
      assert s + right == s;
    } else {
      var t := s + right;
      assert t[..|t| - 1] == s + right[..|right| - 1];
      TrimRightPads(s, right[..|right| - 1]);
    }
  }

  /** A text that writes a word is not all white space. */
  lemma {:induction false} TrimLeftKeeps(s: Bytes, right: Bytes, word: Bytes)
    requires Writes(s, word) && word != [] && NoSpace(word)
    ensures TrimLeft(s + right) == TrimLeft(s) + right
    decreases |s|
  {
    assert (s + right)[0] == s[0] && (s + right)[1..] == s[1..] + right;
    if IsSpace(s[0]) {
      TrimLeftKeeps(s[1..], right, word);
    }
  }

  lemma CleanedWriting(left: Bytes, text: Bytes, right: Bytes, word: Bytes)
    requires AllSpace(left) && AllSpace(right) && Writes(text, word) && word != [] && NoSpace(word)
    ensures Cleaned(left + text + right) == Lower(word)
  {
    assert left + text + right == left + (text + right);
    TrimLeftPads(left, text + right);
    TrimLeftKeeps(text, right, word);
    TrimRightPads(TrimLeft(text), right);
    WritesTrimmedLeft(text, word);
    WritesTrimmedRight(TrimLeft(text), word);
    WritesStrips(TrimSpace(text), word);
  }

  lemma LetterPlain(i: Z.Symbol)
    ensures var c := Z.Letter(i);
            LowerByte(c) == c && !Blank(c) && !Noise(c)
  {
  }

  lemma EncodedPlain(b: Bytes)
    ensures Lower(Z.Encoded(b)) == Z.Encoded(b) && NoSpace(Z.Encoded(b))
    ensures forall k :: 0 <= k < |Z.Encoded(b)| ==> !Noise(Z.Encoded(b)[k])
  {
    var symbols := Z.Symbols(Z.BitsOfBytes(b));
    forall k | 0 <= k < |symbols|
      ensures var c := Z.Encoded(b)[k]; LowerByte(c) == c && !Blank(c) && !Noise(c)
    {
      LetterPlain(symbols[k]);
    }
  }

  /** The body of a seed decodes to the seed. */
  lemma BodyDecodes(seed: Bytes, checksum: Bytes -> Bytes)
    requires IsChecksum(checksum) && |seed| == SEED_LEN
    ensures |Body(seed, checksum)| == 55 && DecodeBody(Body(seed, checksum), checksum) == Ok(seed)
  {
    var payload := seed + checksum(seed);
    Z.SymbolsCount(Z.BitsOfBytes(payload));
    Z.RoundTrip(payload);
  }

  /** Whoever writes down the prefix and the body, in any case, with separators anywhere and
      white space around, gets the seed back, also when the body itself begins "mm1". */
  lemma RecoveryRoundTrip(seed: Bytes, checksum: Bytes -> Bytes, left: Bytes, text: Bytes, right: Bytes)
    requires IsChecksum(checksum) && |seed| == SEED_LEN
    requires AllSpace(left) && AllSpace(right) && Writes(text, [77, 77, 49] + Body(seed, checksum))
    ensures Decode(left + text + right, checksum) == Ok(seed)
  {
    var body := Body(seed, checksum);
    EncodedPlain(seed + checksum(seed));
    CleanedWriting(left, text, right, PREFIX + body);
    assert Lower(PREFIX + body) == LOWER_PREFIX + body;
    assert (LOWER_PREFIX + body)[|LOWER_PREFIX|..] == body;
    BodyDecodes(seed, checksum);
  }

  lemma FiveLess(k: nat)
    requires k >= 5
    ensures (k - 5) / 5 == k / 5 - 1 && (k - 5) % 5 == k % 5
  {
  }

  lemma FirstGroup(group: Bytes, more: Bytes, k: nat)
    requires k < |group|
    ensures var d := [DASH] + Upper(group) + more;
            d[0] == 45 && d[k + 1] as int == group[k] as int - if 97 <= group[k] <= 122 then 32 else 0
  {
  }

  lemma LaterGroups(group: Bytes, more: Bytes, i: nat)
    requires |group| == 5 && i < |more|
    ensures var d := [DASH] + Upper(group) + more; |d| == 6 + |more| && d[6 + i] == more[i]
  {
  }

  /** The printed groups: a dash before the first and after every fifth letter, all letters as
      capitals. */
  lemma {:induction false} DashedShape(body: Bytes, k: nat)
    requires k < |body|
    ensures |Dashed(body)| == |body| + (|body| + 4) / 5
    ensures k + k / 5 + 1 < |Dashed(body)|
    ensures Dashed(body)[k + k / 5 + 1] as int == body[k] as int - if 97 <= body[k] <= 122 then 32 else 0
    ensures k % 5 == 0 ==> Dashed(body)[k + k / 5] == 45
    decreases |body|
  {
    hide Dashed, Upper;
    var n := if |body| < 5 then |body| else 5;
    var group, rest := body[..n], body[n..];
    assert body == group + rest;
    DashedStep(body, group, rest);
    var more := Dashed(rest);
    if k < n {
      FirstGroup(group, more, k);
    }
    if rest == [] {
      NothingDashed();
    } else if k < 5 {
      DashedShape(rest, 0);
    } else {
      DashedShape(rest, k - 5);
      FiveLess(k);
      var i := k - 5 + (k - 5) / 5;
      LaterGroups(group, more, i + 1);
      LaterGroups(group, more, i);
    }
  }

  lemma NothingDashed()
    ensures Dashed([]) == []
  {
  }

  lemma {:induction false} DashedWrites(body: Bytes)
    requires forall k :: 0 <= k < |body| ==> !Noise(body[k]) && !Noise(UpperByte(body[k]))
    ensures Writes(Dashed(body), body)
    decreases |body|
  {
    if body != [] {
      var n := if |body| < GROUP_SIZE then |body| else GROUP_SIZE;
      var group, rest := body[..n], body[n..];
      hide Dashed, Upper, Noise, Writes, Small;
      assert body == group + rest;
      DashedWrites(rest);
      WritesLetters(group, Dashed(rest), rest);
      DashedStep(body, group, rest);
      DashSkipped(Upper(group) + Dashed(rest), body);
      DashFirst(Upper(group), Dashed(rest));
    }
  }

  lemma DashFirst(a: Bytes, b: Bytes)
    ensures [DASH] + a + b == [DASH] + (a + b)
  {
  }

  lemma DashSkipped(text: Bytes, word: Bytes)
    requires Writes(text, word)
    ensures Writes([DASH] + text, word)
  {
    assert ([DASH] + text)[1..] == text;
  }

  lemma {:induction false} WritesLetters(group: Bytes, text: Bytes, word: Bytes)
    requires Writes(text, word)
    requires forall k :: 0 <= k < |group| ==> !Noise(UpperByte(group[k]))
    ensures Writes(Upper(group) + text, group + word)
    decreases |group|
  {
    if group == [] {
      assert Upper(group) + text == text && group + word == word;
    } else {
      WritesLetters(group[1..], text, word);
      assert (Upper(group) + text)[1..] == Upper(group[1..]) + text;
      assert (group + word)[1..] == group[1..] + word;
    }
  }

  /** What Encode prints is one such writing, so it decodes to the seed it came from. */
  lemma PrintedKeyWrites(seed: Bytes, checksum: Bytes -> Bytes)
    requires IsChecksum(checksum) && |seed| == SEED_LEN
    ensures var key := PREFIX + Dashed(Body(seed, checksum));
            Writes(key, PREFIX + Body(seed, checksum)) && Decode(key, checksum) == Ok(seed)
  {
    hide Z.Encoded, Writes, Decode, Dashed;
    var body := Body(seed, checksum);
    EncodedPlain(seed + checksum(seed));
    forall k | 0 <= k < |body| ensures !Noise(UpperByte(body[k])) {
      assert LowerByte(body[k]) == Lower(body)[k];
    }
    DashedWrites(body);
    assert Upper(PREFIX) == PREFIX;
    WritesLetters(PREFIX, Dashed(body), body);
    RecoveryRoundTrip(seed, checksum, [], PREFIX + Dashed(body), []);
    assert [] + (PREFIX + Dashed(body)) + [] == PREFIX + Dashed(body);
  }

  /** Leaving the prefix out is harmless exactly when the body does not begin like it: then
      TrimPrefix would take three symbols of the key away. */
  lemma BareBodyIff(seed: Bytes, checksum: Bytes -> Bytes)
    requires IsChecksum(checksum) && |seed| == SEED_LEN
    ensures var body := Body(seed, checksum);
            Decode(body, checksum) == if BeginsMm1(body) then Err(Malformed) else Ok(seed)
  {
    var body := Body(seed, checksum);
    assert BeginsMm1(body) <==> LOWER_PREFIX <= body;
    EncodedPlain(seed + checksum(seed));
    BodyDecodes(seed, checksum);
    WritesItself(body);
    CleanedWriting([], body, [], body);
    assert [] + body + [] == body;
    if LOWER_PREFIX <= body {
      ReadsIff(body, body[3..]);
      DecodeIff(body, body[3..], checksum, seed);
    }
  }

  /** Such bodies exist, whatever the checksum: those of all seeds that begin 0x5A, 0xE4. They
      decode when the prefix is there, and only then. */
  lemma SomeBodiesBeginLikeThePrefix(seed: Bytes, checksum: Bytes -> Bytes)
    requires IsChecksum(checksum) && |seed| == SEED_LEN && seed[0] == 0x5A && seed[1] == 0xE4
    ensures BeginsMm1(Body(seed, checksum))
    ensures Decode(Body(seed, checksum), checksum) == Err(Malformed)
    ensures Decode(PREFIX + Body(seed, checksum), checksum) == Ok(seed)
  {
    BeginsWithPrefix(seed + checksum(seed));
    BareBodyIff(seed, checksum);
    PrefixedBodyDecodes(seed, checksum);
  }

  lemma PrefixedBodyDecodes(seed: Bytes, checksum: Bytes -> Bytes)
    requires IsChecksum(checksum) && |seed| == SEED_LEN
    ensures Decode(PREFIX + Body(seed, checksum), checksum) == Ok(seed)
  {
    hide Z.Encoded, Writes, Decode;
    var text := PREFIX + Body(seed, checksum);
    EncodedPlain(seed + checksum(seed));
    WritesItself(text);
    RecoveryRoundTrip(seed, checksum, [], text, []);
    assert [] + text + [] == text;
  }

  lemma BeginsWithPrefix(payload: Bytes)
    requires |payload| >= 2 && payload[0] == 0x5A && payload[1] == 0xE4
    ensures LOWER_PREFIX <= Z.Encoded(payload)
  {
    var first, rest := payload[..2], payload[2..];
    FirstSixteenBits(first);
    Z.BitsConcat(first, rest);
    assert payload == first + rest;
    var head := Z.BitsOfBytes(first)[..15];
    FirstSymbols(head);
    FirstLetters(Z.BitsOfBytes(payload), head);
  }

  lemma FirstLetters(bits: Z.Bits, head: Z.Bits)
    requires head <= bits && |head| == 15 && Z.Symbols(head) == [11, 11, 18]
    ensures LOWER_PREFIX <= Z.Text(Z.Symbols(bits))
  {
    assert bits == head + bits[15..];
    Z.SymbolsConcat(head, bits[15..]);
    var text := Z.Text(Z.Symbols(bits));
    assert text[0] == 109 && text[1] == 109 && text[2] == 49;
  }

  lemma LastBit(n: nat, w: nat)
    ensures Z.BitsOf(n, w + 1) == Z.BitsOf(n / 2, w) + [n % 2 == 1]
  {
  }

  lemma FirstSixteenBits(b: Bytes)
    requires b == [0x5A, 0xE4]
    ensures Z.BitsOfBytes(b)[..15] ==
              [false, true, false, true, true] + [false, true, false, true, true] + [true, false, false, true, false]
  {
    EightBits(0x5A, 45, 22, 11, 5, 2, 1, 0);
    EightBits(0xE4, 114, 57, 28, 14, 7, 3, 1);
    assert b[1..] == [0xE4] && b[1..][1..] == [];
    assert Z.BitsOfBytes(b[1..]) == Z.BitsOf(0xE4, 8) + Z.BitsOfBytes([]);
    assert Z.BitsOfBytes(b) == Z.BitsOf(0x5A, 8) + Z.BitsOf(0xE4, 8);
  }

  /** The eight bits of a number by halving it again and again. */
  lemma EightBits(n: nat, n1: nat, n2: nat, n3: nat, n4: nat, n5: nat, n6: nat, n7: nat)
    requires n1 == n / 2 && n2 == n1 / 2 && n3 == n2 / 2 && n4 == n3 / 2 && n5 == n4 / 2 && n6 == n5 / 2 && n7 == n6 / 2
    ensures Z.BitsOf(n, 8) ==
              [n7 % 2 == 1, n6 % 2 == 1, n5 % 2 == 1, n4 % 2 == 1, n3 % 2 == 1, n2 % 2 == 1, n1 % 2 == 1, n % 2 == 1]
  {
    hide Z.BitsOf;
    LastBit(n, 7);
    LastBit(n1, 6);
    LastBit(n2, 5);
    LastBit(n3, 4);
    LastBit(n4, 3);
    LastBit(n5, 2);
    LastBit(n6, 1);
    LastBit(n7, 0);
    assert Z.BitsOf(n7 / 2, 0) == [];
  }

  lemma FirstSymbols(head: Z.Bits)
    requires head ==
               [false, true, false, true, true] + [false, true, false, true, true] + [true, false, false, true, false]
    ensures Z.Symbols(head) == [11, 11, 18]
  {
    var a: Z.Bits, c: Z.Bits := [false, true, false, true, true], [true, false, false, true, false];
    FiveBits(false, true, false, true, true);
    FiveBits(true, false, false, true, false);
    assert head == a + a + c;
    Z.SymbolsConcat(a + a, c);
    Z.SymbolsConcat(a, a);
  }

  /** The symbol of five bits. */
  lemma FiveBits(a: bool, b: bool, c: bool, d: bool, e: bool)
    ensures Z.Symbols([a, b, c, d, e]) ==
              [(if a then 16 else 0) + (if b then 8 else 0) + (if c then 4 else 0) + (if d then 2 else 0) +
               if e then 1 else 0]
  {
    var five: Z.Bits := [a, b, c, d, e];
    assert five[..4] == [a, b, c, d] && five[..4][..3] == [a, b, c] && [a, b, c][..2] == [a, b] && [a, b][..1] == [a];
    assert [a][..0] == [] && Z.Val([a]) == if a then 1 else 0;
    assert Z.Val([a, b]) == 2 * Z.Val([a]) + if b then 1 else 0;
    assert Z.Val([a, b, c]) == 2 * Z.Val([a, b]) + if c then 1 else 0;
    assert Z.Val([a, b, c, d]) == 2 * Z.Val([a, b, c]) + if d then 1 else 0;
    assert Z.Val(five) == 2 * Z.Val([a, b, c, d]) + if e then 1 else 0;
    assert five[..5] == five && five[5..] == [];
  }

  lemma {:induction false} WritesItself(word: Bytes)
    requires forall k :: 0 <= k < |word| ==> !Noise(word[k])
    ensures Writes(word, word)
  {
    if word != [] {
      WritesItself(word[1..]);
    }
  }
}
