/** Bytes, big-endian numbers and the ASCII text operations the mesh relies on.

    Text is a sequence of bytes, as a Go string is; only ASCII letters fold and only ASCII
    white space is trimmed. */
module ByteText {
  newtype byte = x: int | 0 <= x < 256
  type Bytes = seq<byte>

  datatype Option<+T> = None | Some(value: T)
  datatype Result<+T, +E> = Ok(value: T) | Err(error: E)

  // ---------- numbers ----------

  function U16(hi: byte, lo: byte): (n: nat)
    ensures n < 0x10000
  {
    hi as int * 256 + lo as int
  }

  function U24(a: byte, b: byte, c: byte): (n: nat)
    ensures n < 0x100_0000
  {
    a as int * 65536 + b as int * 256 + c as int
  }

  function U32(a: byte, b: byte, c: byte, d: byte): (n: nat)
    ensures n < 0x1_0000_0000
  {
    a as int * 0x100_0000 + U24(b, c, d)
  }

  function PutU16(n: nat): (s: Bytes)
    requires n < 0x10000
    ensures |s| == 2 && U16(s[0], s[1]) == n
  {
    [(n / 256) as byte, (n % 256) as byte]
  }

  function PutU24(n: nat): (s: Bytes)
    requires n < 0x100_0000
    ensures |s| == 3 && U24(s[0], s[1], s[2]) == n
  {
    [(n / 65536) as byte, (n / 256 % 256) as byte, (n % 256) as byte]
  }

  function PutU32(n: nat): (s: Bytes)
    requires n < 0x1_0000_0000
    ensures |s| == 4 && U32(s[0], s[1], s[2], s[3]) == n
  {
    [(n / 0x100_0000) as byte] + PutU24(n % 0x100_0000)
  }

  // ---------- text ----------

  function CharByte(c: char): byte
    requires c < 128 as char
  {
    c as int as byte
  }

  /** The bytes of an ASCII literal. */
  function Ascii(s: string): (b: Bytes)
    requires forall c :: c in s ==> c < 128 as char
    ensures |b| == |s|
    ensures forall k :: 0 <= k < |s| ==> s[k] in s && b[k] == CharByte(s[k])
  {
    seq(|s|, k requires 0 <= k < |s| => assert s[k] in s; CharByte(s[k]))
  }

  const COLON: byte := 58
  const DOT: byte := 46
  const DASH: byte := 45
  const BRACKET: byte := 93

  predicate IsUpper(c: byte) { 65 <= c <= 90 }
  predicate IsLower(c: byte) { 97 <= c <= 122 }
  predicate IsDigit(c: byte) { 48 <= c <= 57 }

  /** unicode.IsSpace on ASCII: tab, line feed, vertical tab, form feed, carriage return, space. */
  predicate IsSpace(c: byte) { 9 <= c <= 13 || c == 32 }

  function LowerByte(c: byte): byte { if IsUpper(c) then c + 32 else c }
  function UpperByte(c: byte): byte { if IsLower(c) then c - 32 else c }

  /** strings.ToLower on ASCII. */
  function Lower(s: Bytes): (r: Bytes)
    ensures |r| == |s|
    ensures forall k :: 0 <= k < |s| ==> r[k] == LowerByte(s[k])
  {
    seq(|s|, k requires 0 <= k < |s| => LowerByte(s[k]))
  }

  /** strings.ToUpper on ASCII. */
  function Upper(s: Bytes): (r: Bytes)
    ensures |r| == |s|
    ensures forall k :: 0 <= k < |s| ==> r[k] == UpperByte(s[k])
  {
    seq(|s|, k requires 0 <= k < |s| => UpperByte(s[k]))
  }

  /** strings.EqualFold on ASCII. */
  predicate EqualFold(s: Bytes, t: Bytes) { Lower(s) == Lower(t) }

  function TrimLeft(s: Bytes): Bytes {
    if s != [] && IsSpace(s[0]) then TrimLeft(s[1..]) else s
  }

  function TrimRight(s: Bytes): Bytes {
    if s != [] && IsSpace(s[|s| - 1]) then TrimRight(s[..|s| - 1]) else s
  }

  /** strings.TrimSpace on ASCII. */
  function TrimSpace(s: Bytes): Bytes { TrimRight(TrimLeft(s)) }

  predicate HasPrefix(s: Bytes, p: Bytes) { p <= s }

  predicate HasSuffix(s: Bytes, p: Bytes) { |p| <= |s| && s[|s| - |p|..] == p }

  /** strings.TrimSuffix. */
  function TrimSuffix(s: Bytes, p: Bytes): Bytes {
    if HasSuffix(s, p) then s[..|s| - |p|] else s
  }

  /** strings.LastIndex of a single byte; -1 when it is absent. */
  function LastIndex(s: Bytes, c: byte): (i: int)
    ensures -1 <= i < |s|
    ensures i >= 0 ==> s[i] == c
    ensures forall k :: i < k < |s| ==> s[k] != c
  {
    if s == [] then -1 else if s[|s| - 1] == c then |s| - 1 else LastIndex(s[..|s| - 1], c)
  }

  /** p stands in s at i. */
  predicate At(s: Bytes, p: Bytes, i: int) { 0 <= i && i + |p| <= |s| && s[i..i + |p|] == p }

  /** bytes.Index and strings.Index: where p first stands in s; -1 when it does not. */
  function Index(s: Bytes, p: Bytes): (i: int)
    ensures i == -1 || At(s, p, i)
    ensures forall k :: 0 <= k && (i < 0 || k < i) ==> !At(s, p, k)
    decreases |s|
  {
    if |s| < |p| then -1
    else if p <= s then 0
    else
      var r := Index(s[1..], p);
      AtTail(s, p);
      if r < 0 then -1 else r + 1
  }

  lemma AtIff(s: Bytes, p: Bytes, i: nat)
    ensures At(s, p, i) <==> i + |p| <= |s| && forall j :: 0 <= j < |p| ==> s[i + j] == p[j]
  {
    if i + |p| <= |s| {
      var t := s[i..i + |p|];
      assert forall j :: 0 <= j < |p| ==> t[j] == s[i + j];
    }
  }

  lemma AtTail(s: Bytes, p: Bytes)
    requires s != []
    ensures forall k :: 1 <= k ==> (At(s, p, k) <==> At(s[1..], p, k - 1))
  {
    forall k | 1 <= k ensures At(s, p, k) <==> At(s[1..], p, k - 1) {
      AtShifted(s, p, 1, k - 1);
    }
  }

  lemma AtShifted(s: Bytes, p: Bytes, n: nat, k: nat)
    requires n <= |s|
    ensures At(s, p, n + k) <==> At(s[n..], p, k)
  {
    if n + k + |p| <= |s| {
      SliceOfRest(s, n, k, k + |p|);
    }
  }

  lemma SliceOfRest<T>(s: seq<T>, n: nat, i: nat, j: nat)
    requires i <= j && n + j <= |s|
    ensures s[n..][i..j] == s[n + i..n + j]
  {
  }

  lemma RestOfRest<T>(s: seq<T>, n: nat, i: nat)
    requires n + i <= |s|
    ensures s[n..][i..] == s[n + i..]
  {
  }

  lemma IndexIs(s: Bytes, p: Bytes, i: int)
    requires At(s, p, i) && forall k :: 0 <= k < i ==> !At(s, p, k)
    ensures Index(s, p) == i
  {
  }

  /** Where a single byte first stands. */
  lemma IndexByteIs(s: Bytes, c: byte, i: int)
    ensures Index(s, [c]) == i >= 0 ==> i < |s| && s[i] == c && c !in s[..i]
    ensures 0 <= i < |s| && s[i] == c && c !in s[..i] ==> Index(s, [c]) == i
    ensures Index(s, [c]) < 0 <==> c !in s
  {
    forall k | 0 <= k < |s| ensures At(s, [c], k) <==> s[k] == c {
      AtIff(s, [c], k);
      assert s[k + 0] == s[k];
    }
    if 0 <= i < |s| && s[i] == c && c !in s[..i] {
      forall k | 0 <= k < i ensures s[k] != c {
        assert s[k] == s[..i][k];
      }
      IndexIs(s, [c], i);
    }
  }

  /** strings.Split. */
  function Split(s: Bytes, sep: Bytes): (parts: seq<Bytes>)
    requires sep != []
    ensures parts != []
    decreases |s|
  {
    var i := Index(s, sep);
    if i < 0 then [s] else [s[..i]] + Split(s[i + |sep|..], sep)
  }

  // ---------- facts about trimming ----------

  /** The six white space bytes, one by one. */
  predicate Blank(c: byte) { c == 9 || c == 10 || c == 11 || c == 12 || c == 13 || c == 32 }

  predicate AllSpace(s: Bytes) { forall k :: 0 <= k < |s| ==> Blank(s[k]) }

  /** No white space at either end. */
  predicate Tight(s: Bytes) { s != [] ==> !Blank(s[0]) && !Blank(s[|s| - 1]) }

  /** s is t with some of its letters a to z as capitals. */
  predicate InSomeCase(s: Bytes, t: Bytes) {
    |s| == |t| && forall k :: 0 <= k < |s| ==> s[k] == t[k] || (97 <= t[k] <= 122 && s[k] as int + 32 == t[k] as int)
  }

  lemma InSomeCaseIff(s: Bytes, t: Bytes)
    requires forall k :: 0 <= k < |t| ==> !(65 <= t[k] <= 90)
    ensures InSomeCase(s, t) <==> EqualFold(s, t)
    ensures InSomeCase(s, t) <==> Lower(s) == t
  {
    assert Lower(t) == t;
    if Lower(s) == t {
      forall k | 0 <= k < |s| ensures s[k] == t[k] || (97 <= t[k] <= 122 && s[k] as int + 32 == t[k] as int) {
        assert LowerByte(s[k]) == t[k];
      }
    }
  }

  lemma {:induction false} TrimLeftPadded(pad: Bytes, s: Bytes)
    requires AllSpace(pad) && (s != [] ==> !Blank(s[0]))
    ensures TrimLeft(pad + s) == s
  {
    if pad == [] {
      assert pad + s == s;
    } else {
      assert (pad + s)[1..] == pad[1..] + s;
      TrimLeftPadded(pad[1..], s);
    }
  }

  lemma {:induction false} TrimRightPadded(s: Bytes, pad: Bytes)
    requires AllSpace(pad) && (s != [] ==> !Blank(s[|s| - 1]))
    ensures TrimRight(s + pad) == s
  {
    if pad == [] {
      assert s + pad == s;
    } else {
      var t := s + pad;
      assert t[..|t| - 1] == s + pad[..|pad| - 1];
      TrimRightPadded(s, pad[..|pad| - 1]);
    }
  }

  /** White space around a tight text is exactly what TrimSpace takes away. */
  lemma TrimPadded(left: Bytes, s: Bytes, right: Bytes)
    requires AllSpace(left) && AllSpace(right) && Tight(s)
    ensures TrimSpace(left + s + right) == s
  {
    if s == [] {
      assert left + s + right == (left + right) + [];
      TrimLeftPadded(left + right, []);
    } else {
      assert left + s + right == left + (s + right);
      TrimLeftPadded(left, s + right);
      TrimRightPadded(s, right);
    }
  }

  lemma TrimTight(s: Bytes)
    requires Tight(s)
    ensures TrimSpace(s) == s
  {
  }

  lemma LowerTwice(s: Bytes)
    ensures Lower(Lower(s)) == Lower(s)
  {
  }
}
