/** Hostnames: how edge and agent normalize them (internal/edge/edge.go and
    internal/agent/tunnel.go hold the same code) and which ones a user may add
    (internal/agent/control.go). */
module Hosts {
  import opened ByteText

  // ---------- normalizeHost ----------

  predicate IsAllDigits(s: Bytes) {
    s != [] && forall k :: 0 <= k < |s| ==> IsDigit(s[k])
  }

  /** Whether a port stands at the end: the last colon is not the first byte, is not inside
      brackets, and only digits follow it. */
  predicate HasPort(h: Bytes) {
    var i := LastIndex(h, COLON);
    i > 0 && BRACKET !in h[i..] && IsAllDigits(h[i + 1..])
  }

  function WithoutPort(h: Bytes): Bytes {
    if HasPort(h) then h[..LastIndex(h, COLON)] else h
  }

  function NormalizeHost(h: Bytes): Bytes {
    Lower(TrimSuffix(WithoutPort(TrimSpace(h)), [DOT]))
  }

  // ---------- names on which everybody agrees ----------

  /** A byte that means nothing to NormalizeHost. */
  predicate Plain(c: byte) { !Blank(c) && !(65 <= c <= 90) && c != 58 }

  /** A name of plain bytes that does not end in a dot. */
  predicate Canonical(host: Bytes) {
    && host != [] && host[|host| - 1] != 46
    && forall k :: 0 <= k < |host| ==> Plain(host[k])
  }

  /** v is host in some letter case, perhaps with a trailing dot, perhaps with a numeric
      port, perhaps with white space around it. */
  ghost predicate Spelling(v: Bytes, host: Bytes) {
    exists left, core, dot, port, right :: Spelled(v, host, left, core, dot, port, right)
  }

  predicate Spelled(v: Bytes, host: Bytes, left: Bytes, core: Bytes, dot: Bytes, port: Bytes, right: Bytes) {
    && v == left + (core + dot + port) + right
    && AllSpace(left) && AllSpace(right) && InSomeCase(core, host)
    && (dot == [] || dot == [46]) && (port == [] || PortText(port))
  }

  /** A colon and digits. */
  predicate PortText(port: Bytes) {
    |port| > 1 && port[0] == 58 && forall k :: 1 <= k < |port| ==> 48 <= port[k] <= 57
  }

  lemma PortTextIff(port: Bytes)
    ensures PortText(port) <==> port != [] && port[0] == COLON && IsAllDigits(port[1..])
  {
    if |port| > 1 {
      forall k | 1 <= k < |port| ensures port[k] == port[1..][k - 1] {}
    }
  }

  lemma LastIndexIs(s: Bytes, c: byte, i: int)
    requires 0 <= i < |s| && s[i] == c && forall k :: i < k < |s| ==> s[k] != c
    ensures LastIndex(s, c) == i
  {
  }

  lemma LastIndexNone(s: Bytes, c: byte)
    requires c !in s
    ensures LastIndex(s, c) == -1
  {
  }

  lemma CoreBytes(core: Bytes, host: Bytes)
    requires Canonical(host) && InSomeCase(core, host)
    ensures |core| == |host| && Lower(core) == host
    ensures forall k :: 0 <= k < |core| ==> !Blank(core[k]) && core[k] != COLON
    ensures core[|core| - 1] != DOT
  {
    InSomeCaseIff(core, host);
    assert forall k :: 0 <= k < |core| ==> LowerByte(core[k]) == host[k];
  }

  lemma PortDropped(name: Bytes, port: Bytes)
    requires name != [] && (port == [] ==> COLON !in name)
    requires port == [] || PortText(port)
    ensures WithoutPort(name + port) == name
  {
    hide LastIndex;
    PortTextIff(port);
    var h := name + port;
    if port == [] {
      assert h == name;
      LastIndexNone(h, COLON);
    } else {
      forall k | |name| < k < |h| ensures h[k] != COLON {
        assert h[k] == port[1..][k - |name| - 1];
      }
      LastIndexIs(h, COLON, |name|);
      assert h[|name|..] == port && h[|name| + 1..] == port[1..] && h[..|name|] == name;
    }
  }

  lemma DotDropped(core: Bytes, dot: Bytes)
    requires dot == [DOT] || (dot == [] && (core == [] || core[|core| - 1] != DOT))
    ensures TrimSuffix(core + dot, [DOT]) == core
  {
    var name := core + dot;
    if dot == [DOT] {
      assert name[|name| - 1..] == [DOT] && name[..|name| - 1] == core;
    } else if core != [] {
      assert name == core && name[|name| - 1..] == [core[|core| - 1]];
    }
  }

  lemma MiddleTight(core: Bytes, dot: Bytes, port: Bytes)
    requires core != [] && (forall k :: 0 <= k < |core| ==> !Blank(core[k])) && (dot == [] || dot == [DOT])
    requires port == [] || PortText(port)
    ensures core + dot + port != [] && Tight(core + dot + port)
  {
  }

  /** Every spelling of a canonical name normalizes to it. */
  lemma SpellingNormalizes(v: Bytes, host: Bytes)
    requires Canonical(host) && Spelling(v, host)
    ensures NormalizeHost(v) == host
  {
    var left, core, dot, port, right :| Spelled(v, host, left, core, dot, port, right);
    CoreBytes(core, host);
    MiddleTight(core, dot, port);
    TrimPadded(left, core + dot + port, right);
    PortDropped(core + dot, port);
    DotDropped(core, dot);
  }

  /** And nothing else does. */
  lemma NormalizedIsSpelling(v: Bytes)
    ensures Spelling(v, NormalizeHost(v))
  {
    var left, core, dot, port, right := NormalizedIsTaken(v);
    assert InSomeCase(core, NormalizeHost(v));
    assert Spelled(v, NormalizeHost(v), left, core, dot, port, right);
  }

  // ---------- every text ----------

  /** The text ends in a colon with something before it and digits behind it. */
  predicate EndsInPort(h: Bytes) { exists i :: 0 < i < |h| && PortText(h[i..]) }

  /** What NormalizeHost takes away from v to get to host: white space at both ends, a port, then
      one dot, each exactly when it is there; capitals become small letters. */
  predicate Taken(v: Bytes, host: Bytes, left: Bytes, core: Bytes, dot: Bytes, port: Bytes, right: Bytes) {
    && v == left + (core + dot + port) + right
    && AllSpace(left) && AllSpace(right) && Tight(core + dot + port)
    && (if port == [] then !EndsInPort(core + dot) else PortText(port) && core + dot != [])
    && (dot == [46] || (dot == [] && (core == [] || core[|core| - 1] != 46)))
    && |host| == |core|
    && forall k :: 0 <= k < |core| ==> host[k] as int == core[k] as int + if 65 <= core[k] <= 90 then 32 else 0
  }

  lemma EndsInPortIff(h: Bytes)
    ensures EndsInPort(h) <==> HasPort(h)
    ensures HasPort(h) ==> PortText(h[LastIndex(h, COLON)..])
  {
    var i := LastIndex(h, COLON);
    if i >= 0 {
      PortTextIff(h[i..]);
      assert h[i..][1..] == h[i + 1..];
      if PortText(h[i..]) {
        assert forall k :: 0 <= k < |h[i..]| ==> h[i..][k] != BRACKET;
      }
    }
    forall j | 0 < j < |h| && PortText(h[j..]) ensures j == i {
      assert h[j] == h[j..][0];
      forall k | j < k < |h| ensures h[k] != COLON {
        assert h[k] == h[j..][k - j];
      }
    }
  }

  lemma NormalizedIsTaken(v: Bytes) returns (left: Bytes, core: Bytes, dot: Bytes, port: Bytes, right: Bytes)
    ensures Taken(v, NormalizeHost(v), left, core, dot, port, right)
  {
    hide TrimSpace, EndsInPort, WithoutPort, TrimSuffix, PortText;
    left, right := TrimSplits(v);
    TrimmedIsTight(v);
    var name;
    name, port := PortTaken(TrimSpace(v));
    core, dot := DotTaken(name);
    assert name + [] == name;
  }

  lemma PortTaken(h: Bytes) returns (name: Bytes, port: Bytes)
    ensures name == WithoutPort(h) && h == name + port
    ensures if port == [] then !EndsInPort(name) else PortText(port) && name != []
  {
    hide EndsInPort, IsAllDigits;
    EndsInPortIff(h);
    name := WithoutPort(h);
    port := h[|name|..];
    if port == [] {
      assert name == h;
    }
  }

  lemma DotTaken(name: Bytes) returns (core: Bytes, dot: Bytes)
    ensures core == TrimSuffix(name, [DOT]) && name == core + dot
    ensures dot == [46] || (dot == [] && (core == [] || core[|core| - 1] != 46))
  {
    core := TrimSuffix(name, [DOT]);
    dot := name[|core|..];
    if !HasSuffix(name, [DOT]) && name != [] {
      assert name[|name| - 1..] == [name[|name| - 1]];
    }
  }

  lemma PortGone(name: Bytes, port: Bytes)
    requires if port == [] then !EndsInPort(name) else PortText(port) && name != []
    ensures WithoutPort(name + port) == name
  {
    if port == [] {
      assert name + port == name;
      EndsInPortIff(name);
    } else {
      PortDropped(name, port);
    }
  }

  /** The whole of NormalizeHost, for every text. */
  lemma NormalizeIff(v: Bytes, host: Bytes)
    ensures NormalizeHost(v) == host <==>
              exists left, core, dot, port, right :: Taken(v, host, left, core, dot, port, right)
  {
    if NormalizeHost(v) == host {
      var left, core, dot, port, right := NormalizedIsTaken(v);
    }
    forall left, core, dot, port, right | Taken(v, host, left, core, dot, port, right)
      ensures NormalizeHost(v) == host
    {
      TakenNormalizes(v, host, left, core, dot, port, right);
    }
  }

  lemma TakenNormalizes(v: Bytes, host: Bytes, left: Bytes, core: Bytes, dot: Bytes, port: Bytes, right: Bytes)
    requires Taken(v, host, left, core, dot, port, right)
    ensures NormalizeHost(v) == host
  {
    hide TrimSpace, WithoutPort, EndsInPort;
    TrimPadded(left, core + dot + port, right);
    PortGone(core + dot, port);
    DotDropped(core, dot);
    assert Lower(core) == host;
  }

  lemma TrimSplits(s: Bytes) returns (left: Bytes, right: Bytes)
    ensures AllSpace(left) && AllSpace(right) && s == left + TrimSpace(s) + right
  {
    left := TrimLeftSplits(s);
    right := TrimRightSplits(TrimLeft(s));
    assert left + TrimSpace(s) + right == left + (TrimSpace(s) + right);
  }

  lemma {:induction false} TrimLeftSplits(s: Bytes) returns (left: Bytes)
    ensures AllSpace(left) && s == left + TrimLeft(s)
  {
    if s != [] && IsSpace(s[0]) {
      left := TrimLeftSplits(s[1..]);
      left := [s[0]] + left;
    } else {
      left := [];
    }
  }

  lemma {:induction false} TrimRightSplits(s: Bytes) returns (right: Bytes)
    ensures AllSpace(right) && s == TrimRight(s) + right
  {
    if s != [] && IsSpace(s[|s| - 1]) {
      right := TrimRightSplits(s[..|s| - 1]);
      right := right + [s[|s| - 1]];
    } else {
      right := [];
    }
  }

  /** The names that meet: a text normalizes to a canonical name exactly when it is a
      spelling of it. */
  lemma NormalizesIffSpelling(v: Bytes, host: Bytes)
    requires Canonical(host)
    ensures NormalizeHost(v) == host <==> Spelling(v, host)
  {
    if NormalizeHost(v) == host {
      NormalizedIsSpelling(v);
    } else if Spelling(v, host) {
      SpellingNormalizes(v, host);
    }
  }

  lemma CanonicalFixed(host: Bytes)
    requires Canonical(host)
    ensures NormalizeHost(host) == host
  {
    assert host == [] + (host + [] + []) + [];
    assert Spelled(host, host, [], host, [], [], []);
    SpellingNormalizes(host, host);
  }

  // ---------- below a label ----------

  /** Letters and digits in lower case, as a host label has them. */
  predicate LabelText(name: Bytes) {
    name != [] && forall k :: 0 <= k < |name| ==> IsLower(name[k]) || IsDigit(name[k])
  }

  lemma {:induction false} TrimRightAfter(name: Bytes, t: Bytes)
    requires t != [] && !Blank(t[0])
    ensures TrimRight(t) != [] && TrimRight(t)[0] == t[0] && TrimRight(name + t) == name + TrimRight(t)
    decreases |t|
  {
    var s := name + t;
    if IsSpace(t[|t| - 1]) {
      assert s[..|s| - 1] == name + t[..|t| - 1];
      TrimRightAfter(name, t[..|t| - 1]);
    }
  }

  lemma LastColonAfter(name: Bytes, t: Bytes)
    requires LabelText(name)
    ensures var i := LastIndex(t, COLON); LastIndex(name + t, COLON) == if i < 0 then -1 else |name| + i
  {
    var i := LastIndex(t, COLON);
    if i < 0 {
      LastIndexNone(name + t, COLON);
    } else {
      LastIndexIs(name + t, COLON, |name| + i);
    }
  }

  lemma PortAfter(name: Bytes, t: Bytes)
    requires LabelText(name) && t != [] && t[0] == DOT
    ensures WithoutPort(name + t) == name + WithoutPort(t) && WithoutPort(t) != [] && WithoutPort(t)[0] == DOT
  {
    var s, i := name + t, LastIndex(t, COLON);
    LastColonAfter(name, t);
    if i >= 0 {
      assert s[|name| + i..] == t[i..];
      assert s[|name| + i + 1..] == t[i + 1..];
      assert s[..|name| + i] == name + t[..i];
      assert HasPort(s) == HasPort(t);
    }
  }

  lemma DotAfter(name: Bytes, t: Bytes)
    requires t != []
    ensures TrimSuffix(name + t, [DOT]) == name + TrimSuffix(t, [DOT])
  {
    var s := name + t;
    assert s[|s| - 1..] == t[|t| - 1..] && s[..|s| - 1] == name + t[..|t| - 1];
  }

  lemma LowerAfter(name: Bytes, t: Bytes)
    requires LabelText(name)
    ensures Lower(name + t) == name + Lower(t)
  {
  }

  /** Whatever stands below a label is normalized by itself. */
  lemma NormalizeAfter(name: Bytes, t: Bytes)
    requires LabelText(name) && (t != [] ==> t[0] == DOT)
    ensures NormalizeHost(name + t) == name + NormalizeHost(t)
    ensures NormalizeHost(t) != [] ==> NormalizeHost(t)[0] == DOT
  {
    if t == [] {
      CanonicalFixed(name);
      assert name + t == name && name + NormalizeHost(t) == name;
    } else {
      TrimRightAfter(name, t);
      var trimmed := TrimSpace(t);
      assert TrimSpace(name + t) == name + trimmed;
      PortAfter(name, trimmed);
      var bare := WithoutPort(trimmed);
      DotAfter(name, bare);
      LowerAfter(name, TrimSuffix(bare, [DOT]));
    }
  }

  // ---------- what normalizing leaves unfinished ----------

  /** Nothing for NormalizeHost to do. */
  predicate Settled(h: Bytes) {
    Tight(h) && !HasPort(h) && !HasSuffix(h, [DOT]) && forall k :: 0 <= k < |h| ==> !IsUpper(h[k])
  }

  /** Settled texts, and only they, are fixed points. */
  lemma FixedIffSettled(h: Bytes)
    ensures NormalizeHost(h) == h <==> Settled(h)
  {
    if Settled(h) {
      TrimTight(h);
    }
    if NormalizeHost(h) == h {
      FixedIsSettled(h);
    }
  }

  lemma FixedIsSettled(h: Bytes)
    requires NormalizeHost(h) == h
    ensures Settled(h)
  {
    TrimShortens(h);
    var trimmed := TrimSpace(h);
    var name := WithoutPort(trimmed);
    assert |TrimSuffix(name, [DOT])| <= |name| <= |trimmed| <= |h|;
    assert trimmed == h && name == h && !HasSuffix(h, [DOT]);
    TrimmedIsTight(h);
    assert Lower(h) == h;
    assert forall k :: 0 <= k < |h| ==> Lower(h)[k] == h[k];
  }

  lemma TrimShortens(s: Bytes)
    ensures |TrimSpace(s)| <= |s|
    ensures |TrimSpace(s)| == |s| ==> TrimSpace(s) == s
  {
    var left, right := TrimSplits(s);
    if |TrimSpace(s)| == |s| {
      assert left == [] && right == [];
      assert [] + TrimSpace(s) + [] == TrimSpace(s);
    }
  }

  lemma TrimmedIsTight(s: Bytes)
    ensures Tight(TrimSpace(s))
  {
    LeftTrimmed(s);
    RightTrimmed(TrimLeft(s));
  }

  lemma {:induction false} LeftTrimmed(s: Bytes)
    ensures TrimLeft(s) != [] ==> !Blank(TrimLeft(s)[0])
  {
    if s != [] && IsSpace(s[0]) {
      LeftTrimmed(s[1..]);
    }
  }

  lemma {:induction false} RightTrimmed(s: Bytes)
    ensures TrimRight(s) <= s
    ensures TrimRight(s) != [] ==> !Blank(TrimRight(s)[|TrimRight(s)| - 1])
  {
    if s != [] && IsSpace(s[|s| - 1]) {
      RightTrimmed(s[..|s| - 1]);
    }
  }

  /** Normalizing once is not always enough: a second trailing dot outlives the first pass. */
  lemma NormalizeTwiceDiffers(host: Bytes)
    requires Canonical(host)
    ensures NormalizeHost(host + [DOT, DOT]) == host + [DOT] && NormalizeHost(host + [DOT]) == host
  {
    OneDot(host);
    TwoDots(host);
  }

  lemma OneDot(host: Bytes)
    requires Canonical(host)
    ensures NormalizeHost(host + [DOT]) == host
  {
    var v := host + [DOT];
    assert v == [] + (host + [DOT] + []) + [];
    assert Spelled(v, host, [], host, [DOT], [], []);
    SpellingNormalizes(v, host);
  }

  lemma TwoDots(host: Bytes)
    requires Canonical(host)
    ensures NormalizeHost(host + [DOT, DOT]) == host + [DOT]
  {
    var v, once := host + [DOT, DOT], host + [DOT];
    TrimTight(v);
    LastIndexNone(v, COLON);
    assert v[|v| - 1..] == [DOT] && v[..|v| - 1] == once;
    PlainIsLower(once);
  }

  lemma PlainIsLower(s: Bytes)
    requires forall k :: 0 <= k < |s| ==> Plain(s[k])
    ensures Lower(s) == s
  {
  }

  /** Of a dot with nothing but a port behind it, or nothing at all, nothing is left. */
  lemma PortAloneIsEmpty(port: Bytes)
    requires port == [] || PortText(port)
    ensures NormalizeHost([DOT] + port) == []
  {
    var v := [DOT] + port;
    TrimTight(v);
    PortDropped([DOT], port);
    assert [DOT][0..] == [DOT] && [DOT][..0] == [];
  }

  // ---------- validateHostname ----------

  datatype HostError = Empty | TooLong | Wildcard | NoDot | BadPart | DashAtEdge | BadByte | LocalName

  predicate LabelByte(c: byte) { IsLower(c) || IsDigit(c) || c == DASH }

  function LabelError(l: Bytes): Option<HostError> {
    if l == [] || |l| > 63 then Some(BadPart)
    else if l[0] == DASH || l[|l| - 1] == DASH then Some(DashAtEdge)
    else if exists k :: 0 <= k < |l| && !LabelByte(l[k]) then Some(BadByte)
    else None
  }

  /** The first error among the parts, in order. */
  function PartsError(parts: seq<Bytes>): Option<HostError> {
    if parts == [] then None
    else if LabelError(parts[0]).Some? then LabelError(parts[0])
    else PartsError(parts[1..])
  }

  function ValidateHostname(host: Bytes): Option<HostError> {
    if host == [] then Some(Empty)
    else if |host| > 253 then Some(TooLong)
    else if host[0] == 42 then Some(Wildcard)
    else
      var labels := Split(host, [DOT]);
      if |labels| < 2 then Some(NoDot)
      else if PartsError(labels).Some? then PartsError(labels)
      else if labels[|labels| - 1] == Ascii("local") then Some(LocalName)
      else None
  }

  lemma {:induction false} GoodParts(s: Bytes)
    requires PartsError(Split(s, [DOT])).None?
    ensures s != [] && s[|s| - 1] != DOT && forall k :: 0 <= k < |s| ==> LabelByte(s[k]) || s[k] == DOT
    decreases |s|
  {
    var i := Index(s, [DOT]);
    if i >= 0 {
      var part, rest := s[..i], s[i + 1..];
      var parts := Split(s, [DOT]);
      assert parts[0] == part && parts[1..] == Split(rest, [DOT]);
      GoodParts(rest);
      GoodPart(part);
      assert s[i..i + 1] == [DOT];
      AroundDot(s, part, rest, i);
    } else {
      assert Split(s, [DOT])[0] == s;
      GoodPart(s);
    }
  }

  lemma GoodPart(part: Bytes)
    ensures LabelError(part).None? ==>
              part != [] && part[|part| - 1] != DOT && forall k :: 0 <= k < |part| ==> LabelByte(part[k])
  {
  }

  lemma AroundDot(s: Bytes, part: Bytes, rest: Bytes, i: nat)
    requires i < |s| && part == s[..i] && rest == s[i + 1..] && s[i..i + 1] == [DOT] && rest != []
    requires forall k :: 0 <= k < |part| ==> LabelByte(part[k])
    requires rest[|rest| - 1] != DOT && forall k :: 0 <= k < |rest| ==> LabelByte(rest[k]) || rest[k] == DOT
    ensures s[|s| - 1] != DOT && forall k :: 0 <= k < |s| ==> LabelByte(s[k]) || s[k] == DOT
  {
    hide LabelByte;
    assert s[i] == DOT;
    forall k | 0 <= k < |s| ensures LabelByte(s[k]) || s[k] == DOT {
      assert k < i ==> s[k] == part[k];
      assert k > i ==> s[k] == rest[k - i - 1];
    }
    assert s[|s| - 1] == rest[|rest| - 1];
  }

  /** Every name a user may add is canonical, so everybody agrees on its spellings. */
  lemma ValidIsCanonical(host: Bytes)
    requires ValidateHostname(host).None?
    ensures Canonical(host) && NormalizeHost(host) == host
  {
    GoodParts(host);
    CanonicalFixed(host);
  }

  // ---------- the names a user may add ----------

  /** Labels with a dot between each two. */
  function Dotted(labels: seq<Bytes>): Bytes
    requires labels != []
  {
    if |labels| == 1 then labels[0] else labels[0] + [46] + Dotted(labels[1..])
  }

  predicate NoDots(labels: seq<Bytes>) { forall k :: 0 <= k < |labels| ==> 46 !in labels[k] }

  lemma {:induction false} SplitDotted(labels: seq<Bytes>)
    requires labels != [] && NoDots(labels)
    ensures Split(Dotted(labels), [DOT]) == labels
    decreases |labels|
  {
    var s := Dotted(labels);
    if |labels| == 1 {
      IndexByteIs(s, DOT, 0);
    } else {
      var rest := Dotted(labels[1..]);
      assert s[..|labels[0]|] == labels[0] && s[|labels[0]| + 1..] == rest;
      IndexByteIs(s, DOT, |labels[0]|);
      SplitDotted(labels[1..]);
    }
  }

  lemma {:induction false} DottedSplit(host: Bytes)
    ensures var labels := Split(host, [DOT]); NoDots(labels) && host == Dotted(labels)
    decreases |host|
  {
    var i := Index(host, [DOT]);
    IndexByteIs(host, DOT, i);
    if i >= 0 {
      var rest := host[i + 1..];
      DottedSplit(rest);
      assert Split(host, [DOT])[1..] == Split(rest, [DOT]);
      assert host == host[..i] + [46] + rest;
    }
  }

  /** One part of a domain: 1 to 63 of a to z, 0 to 9 and the dash, which stands at neither end. */
  predicate Label(l: Bytes) {
    && 1 <= |l| <= 63 && l[0] != 45 && l[|l| - 1] != 45
    && forall k :: 0 <= k < |l| ==> 97 <= l[k] <= 122 || 48 <= l[k] <= 57 || l[k] == 45
  }

  /** What is wrong with a part that is none. */
  predicate Fault(l: Bytes, e: HostError) {
    if |l| < 1 || |l| > 63 then e == BadPart
    else if l[0] == 45 || l[|l| - 1] == 45 then e == DashAtEdge
    else e == BadByte && !Label(l)
  }

  lemma FaultIff(l: Bytes, e: HostError)
    ensures LabelError(l) == Some(e) <==> Fault(l, e)
    ensures LabelError(l).None? <==> Label(l)
  {
    forall k | 0 <= k < |l| ensures LabelByte(l[k]) <==> 97 <= l[k] <= 122 || 48 <= l[k] <= 57 || l[k] == 45 {}
  }

  predicate FirstFault(labels: seq<Bytes>, k: nat, e: HostError) {
    k < |labels| && Fault(labels[k], e) && forall j :: 0 <= j < k ==> Label(labels[j])
  }

  lemma {:induction false} FirstFaultFound(labels: seq<Bytes>, e: HostError)
    ensures PartsError(labels) == Some(e) <==> exists k: nat :: FirstFault(labels, k, e)
    ensures PartsError(labels).None? <==> forall k :: 0 <= k < |labels| ==> Label(labels[k])
  {
    if labels != [] {
      FaultIff(labels[0], e);
      if LabelError(labels[0]).Some? {
        FaultIff(labels[0], LabelError(labels[0]).value);
        assert PartsError(labels) == Some(e) ==> FirstFault(labels, 0, e);
      } else {
        var more := labels[1..];
        FirstFaultFound(more, e);
        forall k: nat | FirstFault(more, k, e) ensures FirstFault(labels, k + 1, e) {
          forall j | 0 <= j < k + 1 ensures Label(labels[j]) {
            assert j > 0 ==> labels[j] == more[j - 1];
          }
        }
        forall k: nat | FirstFault(labels, k, e) ensures FirstFault(more, k - 1, e) {
          forall j | 0 <= j < k - 1 ensures Label(more[j]) { assert more[j] == labels[j + 1]; }
        }
        forall k | 0 <= k < |labels| && PartsError(labels).None? ensures Label(labels[k]) {
          assert k > 0 ==> labels[k] == more[k - 1];
        }
      }
    }
  }

  /** A domain that may be added: at most 253 bytes, two or more labels joined by dots, the last
      one not "local". */
  predicate Domain(host: Bytes, labels: seq<Bytes>) {
    && |host| <= 253 && |labels| >= 2 && host == Dotted(labels)
    && (forall k :: 0 <= k < |labels| ==> Label(labels[k]))
    && labels[|labels| - 1] != [108, 111, 99, 97, 108]
  }

  lemma LocalText()
    ensures Ascii("local") == [108, 111, 99, 97, 108]
  {
  }

  /** A name passes validation exactly when it is such a domain. */
  lemma ValidIff(host: Bytes)
    ensures ValidateHostname(host).None? <==> exists labels :: Domain(host, labels)
  {
    hide PartsError, Dotted, FirstFault;
    LocalText();
    var parts := Split(host, [DOT]);
    DottedSplit(host);
    FirstFaultFound(parts, BadPart);
    if ValidateHostname(host).None? {
      assert Domain(host, parts);
    }
    forall labels | Domain(host, labels) ensures ValidateHostname(host).None? {
      SplitDotted(labels);
      DottedBegins(labels);
    }
  }

  lemma DottedBegins(labels: seq<Bytes>)
    requires labels != [] && labels[0] != []
    ensures Dotted(labels) != [] && Dotted(labels)[0] == labels[0][0]
  {
  }

  /** And why it does not, in this order: nothing, too long, a wildcard, a single part, the first
      part with a fault, or "local" at the end. */
  lemma InvalidIff(host: Bytes, labels: seq<Bytes>, e: HostError)
    requires labels != [] && NoDots(labels) && host == Dotted(labels)
    ensures ValidateHostname(host) == Some(e) <==>
              if host == [] then e == Empty
              else if |host| > 253 then e == TooLong
              else if host[0] == 42 then e == Wildcard
              else if |labels| == 1 then e == NoDot
              else if forall k :: 0 <= k < |labels| ==> Label(labels[k])
                   then e == LocalName && labels[|labels| - 1] == [108, 111, 99, 97, 108]
              else exists k: nat :: FirstFault(labels, k, e)
  {
    hide PartsError, Dotted, NoDots, FirstFault, Label;
    LocalText();
    SplitDotted(labels);
    FirstFaultFound(labels, e);
  }
}
