/** The cleartext side of the edge: finding the Host header of a request
    (internal/edge/edge.go). */
module HttpHead {
  import opened ByteText
  import opened Streams
  import Hosts

  const CRLF: Bytes := [13, 10]
  const BLANK_LINE: Bytes := [13, 10, 13, 10]
  const MAX_HEAD: nat := 8192
  const READ_SIZE: nat := 512
  const HOST: Bytes := [104, 111, 115, 116]

  datatype HttpError = NoHostHeader | ReadFailed | HeadTooLarge

  type HostResult = Result<Bytes, HttpError>

  // ---------- hostFromHead ----------

  /** The value of a Host header line: what follows the first colon, when the trimmed text
      before it is "host" in any case. */
  function HostValue(line: Bytes): Option<Bytes> {
    var i := Index(line, [COLON]);
    if i >= 0 && EqualFold(TrimSpace(line[..i]), HOST) then Some(TrimSpace(line[i + 1..])) else None
  }

  function HostValues(lines: seq<Bytes>): (values: seq<Option<Bytes>>)
    ensures |values| == |lines|
    ensures forall k :: 0 <= k < |lines| ==> values[k] == HostValue(lines[k])
  {
    seq(|lines|, k requires 0 <= k < |lines| => HostValue(lines[k]))
  }

  function FirstSome(values: seq<Option<Bytes>>): (r: HostResult)
    ensures r.Err? ==> r.error == NoHostHeader
  {
    if values == [] then Err(NoHostHeader)
    else if values[0].Some? then Ok(values[0].value)
    else FirstSome(values[1..])
  }

  /** hostFromHead; the first line is the request line. */
  function HostFromHead(head: Bytes): (r: HostResult)
    ensures r.Err? ==> r.error == NoHostHeader
  {
    FirstSome(HostValues(Split(head, CRLF)[1..]))
  }

  /** strings.Join. */
  function Join(lines: seq<Bytes>): Bytes
    requires lines != []
  {
    if |lines| == 1 then lines[0] else lines[0] + [13, 10] + Join(lines[1..])
  }

  /** No line feed right behind a carriage return. */
  predicate NoCrlf(line: Bytes) { forall k :: 0 <= k < |line| - 1 ==> line[k] != 13 || line[k + 1] != 10 }

  lemma NoCrlfIff(line: Bytes)
    ensures NoCrlf(line) <==> Index(line, CRLF) < 0
  {
    if Index(line, CRLF) >= 0 {
      CrlfAtIff(line, Index(line, CRLF));
    } else {
      forall k | 0 <= k < |line| - 1 ensures line[k] != 13 || line[k + 1] != 10 {
        CrlfAtIff(line, k);
      }
    }
  }

  lemma CrlfAtIff(s: Bytes, k: nat)
    ensures At(s, CRLF, k) <==> k < |s| - 1 && s[k] == 13 && s[k + 1] == 10
  {
    if k < |s| - 1 {
      assert s[k..k + 2] == [s[k], s[k + 1]];
    }
  }

  /** A line without CRLF ends at the first CRLF after it. */
  lemma LineEnds(line: Bytes, rest: Bytes)
    requires NoCrlf(line)
    ensures Index(line + CRLF + rest, CRLF) == |line|
  {
    var s := line + CRLF + rest;
    CrlfAtIff(s, |line|);
    forall k | 0 <= k < |line| ensures !At(s, CRLF, k) {
      CrlfAtIff(s, k);
    }
    IndexIs(s, CRLF, |line|);
  }

  lemma SplitOne(line: Bytes, rest: Bytes)
    requires NoCrlf(line)
    ensures Split(line + [13, 10] + rest, CRLF) == [line] + Split(rest, CRLF)
  {
    var s := line + [13, 10] + rest;
    LineEnds(line, rest);
    assert s == line + CRLF + rest && s[..|line|] == line && s[|line| + 2..] == rest;
  }

  lemma {:induction false} SplitJoined(lines: seq<Bytes>)
    requires lines != [] && forall k :: 0 <= k < |lines| ==> NoCrlf(lines[k])
    ensures Split(Join(lines), CRLF) == lines
    decreases |lines|
  {
    if |lines| == 1 {
      NoCrlfIff(lines[0]);
    } else {
      hide Split, NoCrlf;
      var rest := Join(lines[1..]);
      SplitJoined(lines[1..]);
      SplitOne(lines[0], rest);
      assert [lines[0]] + lines[1..] == lines;
    }
  }

  /** line is a Host header: "host" in some letter case, a colon and the value, each with white
      space around it or not. */
  ghost predicate IsHostLine(line: Bytes, value: Bytes) {
    exists a, word, b, c, d :: HostLine(line, value, a, word, b, c, d)
  }

  predicate HostLine(line: Bytes, value: Bytes, a: Bytes, word: Bytes, b: Bytes, c: Bytes, d: Bytes) {
    && line == a + word + b + [58] + (c + value + d)
    && AllSpace(a) && AllSpace(b) && AllSpace(c) && AllSpace(d)
    && InSomeCase(word, [104, 111, 115, 116]) && Tight(value)
  }

  lemma HostValueIff(line: Bytes, value: Bytes)
    ensures HostValue(line) == Some(value) <==> IsHostLine(line, value)
  {
    if HostValue(line) == Some(value) {
      var i := Index(line, [COLON]);
      IndexByteIs(line, COLON, i);
      var name, raw := line[..i], line[i + 1..];
      assert line == name + [58] + raw;
      HostLineFound(line, value, name, raw);
    }
    forall a, word, b, c, d | HostLine(line, value, a, word, b, c, d) ensures HostValue(line) == Some(value) {
      HostLineRead(line, value, a, word, b, c, d);
    }
  }

  lemma HostLineFound(line: Bytes, value: Bytes, name: Bytes, raw: Bytes)
    requires line == name + [58] + raw && EqualFold(TrimSpace(name), HOST) && value == TrimSpace(raw)
    ensures IsHostLine(line, value)
  {
    hide TrimSpace;
    var a, b := Hosts.TrimSplits(name);
    var c, d := Hosts.TrimSplits(raw);
    InSomeCaseIff(TrimSpace(name), HOST);
    Hosts.TrimmedIsTight(raw);
    assert HostLine(line, value, a, TrimSpace(name), b, c, d);
  }

  lemma HostLineRead(line: Bytes, value: Bytes, a: Bytes, word: Bytes, b: Bytes, c: Bytes, d: Bytes)
    requires HostLine(line, value, a, word, b, c, d)
    ensures HostValue(line) == Some(value)
  {
    hide TrimSpace, InSomeCase;
    var name, raw := a + word + b, c + value + d;
    WordIsHost(word);
    TrimPadded(a, word, b);
    TrimPadded(c, value, d);
    FirstColon(line, name, raw);
  }

  lemma WordIsHost(word: Bytes)
    requires InSomeCase(word, [104, 111, 115, 116])
    ensures EqualFold(word, HOST) && Tight(word) && 58 !in word
  {
    InSomeCaseIff(word, HOST);
  }

  lemma FirstColon(line: Bytes, name: Bytes, raw: Bytes)
    requires line == name + [58] + raw && 58 !in name
    ensures Index(line, [COLON]) == |name| && line[..|name|] == name && line[|name| + 1..] == raw
  {
    assert line[..|name|] == name;
    IndexByteIs(line, COLON, |name|);
  }

  predicate FirstAt(values: seq<Option<Bytes>>, k: int, value: Bytes) {
    && 0 <= k < |values| && values[k] == Some(value)
    && forall j :: 0 <= j < k ==> values[j].None?
  }

  lemma {:induction false} FirstSomeAt(values: seq<Option<Bytes>>, k: int, value: Bytes)
    requires FirstAt(values, k, value)
    ensures FirstSome(values) == Ok(value)
    decreases |values|
  {
    if k > 0 {
      FirstSomeAt(values[1..], k - 1, value);
    }
  }

  lemma {:induction false} FirstSomeFound(values: seq<Option<Bytes>>) returns (k: int)
    requires FirstSome(values).Ok?
    ensures FirstAt(values, k, FirstSome(values).value)
    decreases |values|
  {
    k := 0;
    if values[0].None? {
      k := FirstSomeFound(values[1..]);
      k := k + 1;
    }
  }

  /** For a head written as a request line and header lines, the host is the value of the
      first header line that is a Host header; there is none exactly when no line is one. */
  lemma HeadRoundTrip(request: Bytes, headers: seq<Bytes>, value: Bytes)
    requires NoCrlf(request) && forall k :: 0 <= k < |headers| ==> NoCrlf(headers[k])
    ensures HostFromHead(Join([request] + headers)) == Ok(value) <==>
              exists k :: FirstHeader(headers, k, value)
  {
    HeadOfLines(request, headers);
    HostIffFirstHeader(headers, value);
  }

  lemma HeadOfLines(request: Bytes, headers: seq<Bytes>)
    requires NoCrlf(request) && forall k :: 0 <= k < |headers| ==> NoCrlf(headers[k])
    ensures HostFromHead(Join([request] + headers)) == FirstSome(HostValues(headers))
  {
    var lines := [request] + headers;
    forall k | 0 <= k < |lines| ensures NoCrlf(lines[k]) {
      if k > 0 { assert lines[k] == headers[k - 1]; }
    }
    SplitJoined(lines);
    assert lines[1..] == headers;
  }

  lemma HostIffFirstHeader(headers: seq<Bytes>, value: Bytes)
    ensures FirstSome(HostValues(headers)) == Ok(value) <==> exists k :: FirstHeader(headers, k, value)
  {
    var values := HostValues(headers);
    if FirstSome(values) == Ok(value) {
      var k := FirstSomeFound(values);
      FirstAtIff(headers, k, value);
    }
    forall k | FirstHeader(headers, k, value) ensures FirstSome(values) == Ok(value) {
      FirstAtIff(headers, k, value);
      FirstSomeAt(values, k, value);
    }
  }

  ghost predicate FirstHeader(headers: seq<Bytes>, k: int, value: Bytes) {
    && 0 <= k < |headers| && IsHostLine(headers[k], value)
    && forall j, other :: 0 <= j < k ==> !IsHostLine(headers[j], other)
  }

  lemma FirstAtIff(headers: seq<Bytes>, k: int, value: Bytes)
    ensures FirstAt(HostValues(headers), k, value) <==> FirstHeader(headers, k, value)
  {
    if 0 <= k < |headers| {
      HostValueIff(headers[k], value);
      forall j | 0 <= j < k
        ensures HostValue(headers[j]).None? <==> forall other :: !IsHostLine(headers[j], other)
      {
        NoHostValueIff(headers[j]);
      }
    }
  }

  lemma NoHostValueIff(line: Bytes)
    ensures HostValue(line).None? <==> forall other :: !IsHostLine(line, other)
  {
    forall other ensures HostValue(line) == Some(other) <==> IsHostLine(line, other) {
      HostValueIff(line, other);
    }
  }

  // ---------- every head ----------

  /** Splitting gives lines, and joining them gives the text back. */
  lemma {:induction false} JoinSplit(s: Bytes)
    ensures var lines := Split(s, CRLF);
            Join(lines) == s && forall k :: 0 <= k < |lines| ==> NoCrlf(lines[k])
    decreases |s|
  {
    var i, lines := Index(s, CRLF), Split(s, CRLF);
    NoCrlfIff(s);
    if i >= 0 {
      var rest := s[i + 2..];
      JoinSplit(rest);
      FirstLine(s, i);
      assert lines == [s[..i]] + Split(rest, CRLF) && lines[1..] == Split(rest, CRLF);
    }
  }

  lemma AtWithin(s: Bytes, p: Bytes, n: nat)
    requires n <= |s|
    ensures forall k :: At(s[..n], p, k) ==> At(s, p, k)
  {
    forall k | At(s[..n], p, k) ensures At(s, p, k) {
      assert s[..n][k..k + |p|] == s[k..k + |p|];
    }
  }

  lemma CutAt(s: Bytes, p: Bytes, i: nat)
    requires At(s, p, i)
    ensures s == s[..i] + p + s[i + |p|..]
  {
  }

  lemma NothingBefore(s: Bytes, p: Bytes)
    requires p != [] && Index(s, p) >= 0
    ensures Index(s[..Index(s, p)], p) < 0
  {
    AtWithin(s, p, Index(s, p));
  }

  lemma FirstLine(s: Bytes, i: nat)
    requires Index(s, CRLF) == i
    ensures i + 2 <= |s| && s == s[..i] + CRLF + s[i + 2..] && NoCrlf(s[..i])
  {
    CutAt(s, CRLF, i);
    NothingBefore(s, CRLF);
    NoCrlfIff(s[..i]);
  }

  predicate HeadLines(head: Bytes, request: Bytes, headers: seq<Bytes>) {
    && head == Join([request] + headers) && NoCrlf(request)
    && forall k :: 0 <= k < |headers| ==> NoCrlf(headers[k])
  }

  /** For every head: the host is a value exactly when the head is a request line and header
      lines of which the first Host header has that value. */
  lemma HostFromHeadIff(head: Bytes, value: Bytes)
    ensures HostFromHead(head) == Ok(value) <==>
              exists request, headers, k :: HeadLines(head, request, headers) && FirstHeader(headers, k, value)
  {
    JoinSplit(head);
    var lines := Split(head, CRLF);
    assert lines == [lines[0]] + lines[1..];
    assert HeadLines(head, lines[0], lines[1..]);
    HeadRoundTrip(lines[0], lines[1..], value);
    forall request, headers, k | HeadLines(head, request, headers) && FirstHeader(headers, k, value)
      ensures HostFromHead(head) == Ok(value)
    {
      HeadRoundTrip(request, headers, value);
    }
  }

  // ---------- peekHTTPHost ----------

  /** Where the head of the stream ends; -1 when there is no blank line. */
  function HeadEnd(s: Bytes): int { Index(s, BLANK_LINE) }

  /** Reading more does not move the first blank line, and reading less only hides it. */
  lemma HeadEndOfPrefix(s: Bytes, n: nat)
    requires n <= |s|
    ensures HeadEnd(s[..n]) == if 0 <= HeadEnd(s) && HeadEnd(s) + 4 <= n then HeadEnd(s) else -1
  {
    var e, t := HeadEnd(s), s[..n];
    forall k | 0 <= k && At(t, BLANK_LINE, k) ensures At(s, BLANK_LINE, k) {
      assert s[k..k + 4] == t[k..k + 4];
    }
    if 0 <= e && e + 4 <= n {
      assert t[e..e + 4] == s[e..e + 4];
      IndexIs(t, BLANK_LINE, e);
    }
  }

  lemma NoBlankInLine(line: Bytes, t: Bytes, s: Bytes)
    requires NoCrlf(line) && !(CRLF <= t) && s == line + CRLF + t
    ensures forall k :: 0 <= k < |line| + 2 ==> !At(s, BLANK_LINE, k)
  {
    var n := |line| + 2;
    LineEnds(line, t);
    assert s[n..] == t;
    AtIsPrefix(s, CRLF, n);
    CrlfAtIff(s, |line| + 1);
    hide At, NoCrlf;
    forall k | 0 <= k < n ensures !At(s, BLANK_LINE, k) {
      BlankIsTwo(s, k);
    }
  }

  /** A blank line does not begin within a line, nor at its end when the next one is not
      empty. */
  lemma BlankAfterLine(line: Bytes, t: Bytes)
    requires NoCrlf(line) && !(CRLF <= t)
    ensures HeadEnd(line + CRLF + t) == if HeadEnd(t) < 0 then -1 else |line| + 2 + HeadEnd(t)
  {
    var s, n := line + CRLF + t, |line| + 2;
    NoBlankInLine(line, t, s);
    assert s[n..] == t;
    forall k | n <= k ensures At(s, BLANK_LINE, k) <==> At(t, BLANK_LINE, k - n) {
      AtShifted(s, BLANK_LINE, n, k - n);
    }
    if HeadEnd(t) >= 0 {
      IndexIs(s, BLANK_LINE, n + HeadEnd(t));
    }
  }

  lemma AtIsPrefix(s: Bytes, p: Bytes, n: nat)
    requires n <= |s|
    ensures At(s, p, n) <==> p <= s[n..]
  {
    if n + |p| <= |s| {
      assert s[n..][..|p|] == s[n..n + |p|];
    }
  }

  lemma BlankIsTwo(s: Bytes, k: nat)
    ensures At(s, BLANK_LINE, k) ==> At(s, CRLF, k) && At(s, CRLF, k + 2)
  {
    if k + 4 <= |s| {
      var four := s[k..k + 4];
      assert s[k..k + 2] == four[..2] && s[k + 2..k + 4] == four[2..];
    }
  }

  lemma BlankAtOnce(line: Bytes, rest: Bytes)
    requires NoCrlf(line)
    ensures HeadEnd(line + BLANK_LINE + rest) == |line|
  {
    var s := line + BLANK_LINE + rest;
    assert s == line + CRLF + (CRLF + rest);
    LineEnds(line, CRLF + rest);
    assert s[|line|..|line| + 4] == BLANK_LINE;
    forall k | 0 <= k < |line| ensures !At(s, BLANK_LINE, k) {
      BlankIsTwo(s, k);
    }
    IndexIs(s, BLANK_LINE, |line|);
  }

  /** Lines of a head: only the request line may be empty. */
  predicate Lines(lines: seq<Bytes>) {
    lines != [] && forall k :: 0 <= k < |lines| ==> NoCrlf(lines[k]) && (k > 0 ==> lines[k] != [])
  }

  lemma LineFirst(line: Bytes, rest: Bytes)
    requires NoCrlf(line) && line != []
    ensures !(CRLF <= line + CRLF + rest)
  {
    var s := line + CRLF + rest;
    LineEnds(line, rest);
    AtIsPrefix(s, CRLF, 0);
    assert s[0..] == s;
  }

  lemma JoinMore(lines: seq<Bytes>, rest: Bytes)
    requires |lines| > 1
    ensures Join(lines) + BLANK_LINE + rest == lines[0] + CRLF + (Join(lines[1..]) + BLANK_LINE + rest)
    ensures |Join(lines)| == |lines[0]| + 2 + |Join(lines[1..])|
  {
  }

  lemma MoreLines(lines: seq<Bytes>)
    requires Lines(lines) && |lines| > 1
    ensures Lines(lines[1..]) && lines[1] != [] && NoCrlf(lines[0])
  {
    forall k | 0 <= k < |lines[1..]| ensures NoCrlf(lines[1..][k]) && (k > 0 ==> lines[1..][k] != []) {
      assert lines[1..][k] == lines[k + 1];
    }
  }

  lemma {:induction false} HeadEndOfLines(lines: seq<Bytes>, rest: Bytes)
    requires Lines(lines)
    ensures HeadEnd(Join(lines) + BLANK_LINE + rest) == |Join(lines)|
    decreases |lines|
  {
    if |lines| == 1 {
      BlankAtOnce(lines[0], rest);
    } else {
      var more := lines[1..];
      MoreLines(lines);
      HeadEndOfLines(more, rest);
      FollowedByCrlf(more, rest);
      BlankAfterLine(lines[0], Join(more) + BLANK_LINE + rest);
      JoinMore(lines, rest);
    }
  }

  lemma FollowedByCrlf(lines: seq<Bytes>, rest: Bytes)
    requires lines != [] && NoCrlf(lines[0]) && lines[0] != []
    ensures !(CRLF <= Join(lines) + BLANK_LINE + rest)
  {
    var t := Join(lines) + BLANK_LINE + rest;
    if |lines| == 1 {
      assert t == lines[0] + CRLF + (CRLF + rest);
      LineFirst(lines[0], CRLF + rest);
    } else {
      JoinMore(lines, rest);
      LineFirst(lines[0], Join(lines[1..]) + BLANK_LINE + rest);
    }
  }

  /** An empty line among the others is a blank line before the end. */
  lemma {:induction false} EmptyLineIsBlank(lines: seq<Bytes>, rest: Bytes, k: nat) returns (j: nat)
    requires 1 <= k < |lines| && lines[k] == []
    ensures j < |Join(lines)| && At(Join(lines) + BLANK_LINE + rest, BLANK_LINE, j)
    decreases |lines|
  {
    var more := lines[1..];
    var t, n := Join(more) + BLANK_LINE + rest, |lines[0]| + 2;
    var s := Join(lines) + BLANK_LINE + rest;
    JoinMore(lines, rest);
    if k == 1 {
      j := |lines[0]|;
      assert CRLF <= t;
      assert s[j..j + 4] == CRLF + t[..2];
    } else {
      var i := EmptyLineIsBlank(more, rest, k - 1);
      j := n + i;
      assert s[j..j + 4] == t[i..i + 4];
    }
  }

  lemma NoEmptyLine(lines: seq<Bytes>, rest: Bytes)
    requires lines != [] && HeadEnd(Join(lines) + BLANK_LINE + rest) == |Join(lines)|
    ensures forall k :: 1 <= k < |lines| ==> lines[k] != []
  {
    forall k | 1 <= k < |lines| ensures lines[k] != [] {
      if lines[k] == [] {
        var j := EmptyLineIsBlank(lines, rest, k);
        assert false;
      }
    }
  }

  /** A request as it is on the wire: a request line, header lines that are not empty, a blank
      line, and what follows. */
  predicate Request(content: Bytes, request: Bytes, headers: seq<Bytes>, rest: Bytes) {
    Lines([request] + headers) && content == Join([request] + headers) + [13, 10, 13, 10] + rest
  }

  /** The head of a stream is all of a request before its blank line. */
  lemma HeadOfRequest(content: Bytes, request: Bytes, headers: seq<Bytes>, rest: Bytes)
    requires Request(content, request, headers, rest)
    ensures var e := HeadEnd(content); e >= 0 && HeadLines(content[..e], request, headers)
  {
    var lines := [request] + headers;
    HeadEndOfLines(lines, rest);
    assert content[..|Join(lines)|] == Join(lines);
    assert NoCrlf(lines[0]);
    forall k | 0 <= k < |headers| ensures NoCrlf(headers[k]) { assert headers[k] == lines[k + 1]; }
  }

  /** And every stream with a blank line begins with one request. */
  lemma RequestOfHead(content: Bytes, request: Bytes, headers: seq<Bytes>)
    requires var e := HeadEnd(content); e >= 0 && HeadLines(content[..e], request, headers)
    ensures Request(content, request, headers, content[HeadEnd(content) + 4..])
  {
    var e, lines := HeadEnd(content), [request] + headers;
    var rest := content[e + 4..];
    assert content[e..e + 4] == BLANK_LINE;
    assert content == Join(lines) + BLANK_LINE + rest;
    NoEmptyLine(lines, rest);
    forall k | 0 <= k < |lines| ensures NoCrlf(lines[k]) {
      if k > 0 { assert lines[k] == headers[k - 1]; }
    }
  }

  /** Completeness and soundness of the cleartext side: the stream's first head gives a host
      exactly when the stream begins with a request whose first Host header has that value. */
  lemma HostIffRequest(content: Bytes, host: Bytes)
    ensures HeadEnd(content) >= 0 && HostFromHead(content[..HeadEnd(content)]) == Ok(host) <==>
              exists request, headers, rest, k ::
                Request(content, request, headers, rest) && FirstHeader(headers, k, host)
  {
    var e := HeadEnd(content);
    if e >= 0 && HostFromHead(content[..e]) == Ok(host) {
      HostFromHeadIff(content[..e], host);
      var request, headers, k :| HeadLines(content[..e], request, headers) && FirstHeader(headers, k, host);
      RequestOfHead(content, request, headers);
    }
    forall request, headers, rest, k | Request(content, request, headers, rest) && FirstHeader(headers, k, host)
      ensures e >= 0 && HostFromHead(content[..e]) == Ok(host)
    {
      HeadOfRequest(content, request, headers, rest);
      HostFromHeadIff(content[..e], host);
    }
  }

  /** peekHTTPHost. The replay is exactly what was read, at most 8703 bytes. Whatever the
      reads, the answer is that of the stream's first head, or an error that says the head
      did not end in time; a head that ends within 8192 bytes always gets its answer. */
  method PeekHttpHost(c: Conn) returns (host: HostResult, replay: Bytes)
    requires c.Valid() && c.pos == 0
    modifies c`pos
    ensures c.Valid() && |replay| == c.pos && replay == c.content[..c.pos] && |replay| <= 8703
    ensures var e := HeadEnd(c.content);
            || (0 <= e && e + 4 <= |replay| && host == HostFromHead(c.content[..e]))
            || ((e < 0 || |replay| < e + 4) && host == Err(ReadFailed) && |replay| == |c.content|)
            || ((e < 0 || |replay| < e + 4) && host == Err(HeadTooLarge) && |replay| >= 8192)
    ensures var e := HeadEnd(c.content);
            0 <= e && e + 4 <= 8192 ==> host == HostFromHead(c.content[..e])
  {
    var buf: Bytes := [];
    while |buf| < MAX_HEAD
      invariant c.Valid() && |buf| == c.pos && buf == c.content[..c.pos] && |buf| <= 8703
      invariant HeadEnd(c.content) < 0 || |buf| < HeadEnd(c.content) + 4
      decreases |c.content| - c.pos
    {
      var piece, failed := c.Read(READ_SIZE);
      buf := buf + piece;
      assert buf == c.content[..c.pos];
      HeadEndOfPrefix(c.content, c.pos);
      if |piece| > 0 {
        var i := Index(buf, BLANK_LINE);
        if i >= 0 {
          assert buf[..i] == c.content[..i];
          return HostFromHead(buf[..i]), buf;
        }
      }
      if failed {
        return Err(ReadFailed), buf;
      }
    }
    return Err(HeadTooLarge), buf;
  }
}
