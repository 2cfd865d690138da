/** internal/sni/sni.go: the bounds-checked cursor, the ClientHello walk, and Peek, which
    reassembles handshake records from a connection. */
module Sni {
  import opened ByteText
  import opened Streams
  import CH = ClientHello

  // ---------- the cursor ----------

  class Parser {
    const b: Bytes
    var i: nat

    ghost predicate Valid()
      reads this
    {
      i <= |b|
    }

    /** What the cursor has not passed yet. */
    function Rest(): (r: Bytes)
      requires Valid()
      reads this
      ensures |r| == |b| - i
    {
      b[i..]
    }

    constructor (b: Bytes)
      ensures Valid() && this.b == b && i == 0 && Rest() == b
    {
      this.b := b;
      i := 0;
    }

    method Skip(n: int) returns (ok: bool)
      requires Valid()
      modifies this
      ensures Valid() && (ok <==> 0 <= n <= |old(Rest())|)
      ensures Rest() == if ok then old(Rest())[n..] else old(Rest())
    {
      if n < 0 || |b| - i < n {
        return false;
      }
      i := i + n;
      return true;
    }

    method Uint8() returns (v: byte, ok: bool)
      requires Valid()
      modifies this
      ensures Valid() && (ok <==> |old(Rest())| >= 1)
      ensures ok ==> v == old(Rest())[0] && Rest() == old(Rest())[1..]
      ensures !ok ==> Rest() == old(Rest())
    {
      if |b| - i < 1 {
        return 0, false;
      }
      v, ok := b[i], true;
      i := i + 1;
    }

    method Uint16() returns (v: nat, ok: bool)
      requires Valid()
      modifies this
      ensures Valid() && (ok <==> |old(Rest())| >= 2)
      ensures ok ==> v == U16(old(Rest())[0], old(Rest())[1]) && Rest() == old(Rest())[2..]
      ensures !ok ==> Rest() == old(Rest())
    {
      if |b| - i < 2 {
        return 0, false;
      }
      v, ok := U16(b[i], b[i + 1]), true;
      i := i + 2;
    }

    /** A length-prefixed vector. When only the body is cut off, the cursor is left past the
        length field. */
    method Vector(w: CH.Width) returns (v: Bytes, ok: bool)
      requires Valid()
      modifies this
      ensures Valid() && (ok <==> !CH.Stub(w, old(Rest())))
      ensures ok ==> (v, Rest()) == CH.Cut(w, old(Rest()))
      ensures !ok ==> Rest() == if |old(Rest())| < w then old(Rest()) else old(Rest())[w..]
    {
      if |b| - i < w {
        return [], false;
      }
      ghost var start := i;
      var n: nat := 0;
      for k := 0 to w
        invariant Valid() && i == start + k && start + w <= |b|
        invariant n == if k == 0 then 0 else if k == 1 then b[start] as int else U16(b[start], b[start + 1])
      {
        n := n * 256 + b[i] as nat;
        i := i + 1;
      }
      assert n == CH.Size(w, b[start..]);
      if |b| - i < n {
        assert b[start..][w..] == b[i..];
        return [], false;
      }
      v, ok := b[i..i + n], true;
      i := i + n;
      assert b[start..][w..w + n] == v && b[start..][w + n..] == b[i..];
    }

    method SkipVector(w: CH.Width) returns (ok: bool)
      requires Valid()
      modifies this
      ensures Valid() && (ok <==> !CH.Stub(w, old(Rest())))
      ensures ok ==> Rest() == CH.Cut(w, old(Rest())).1
    {
      var body;
      body, ok := Vector(w);
    }
  }

  // ---------- the ClientHello walk ----------

  method ParseServerNameList(b: Bytes) returns (v: CH.Verdict)
    ensures v == CH.NameBlockVerdict(CH.ParseNameBlock(b))
  {
    var p := new Parser(b);
    var list, ok := p.Vector(2);
    if !ok {
      return CH.Malformed;
    }
    v := WalkNames(list);
  }

  /** The list loop of parseServerNameList. */
  method WalkNames(list: Bytes) returns (v: CH.Verdict)
    ensures v == CH.NameEndVerdict(CH.ParseNames(list).1)
  {
    var lp := new Parser(list);
    while |lp.b| - lp.i >= 3
      invariant lp.Valid() && fresh(lp)
      invariant CH.ParseNames(list).1 == CH.ParseNames(lp.Rest()).1
      decreases |lp.b| - lp.i
    {
      var nameType, ok := lp.Uint8();
      if !ok {
        return CH.Malformed;
      }
      var host;
      host, ok := lp.Vector(2);
      if !ok {
        return CH.Malformed;
      }
      if nameType == 0 {
        if |host| == 0 {
          return CH.NoServerName;
        }
        return CH.Found(host);
      }
    }
    return CH.NoServerName;
  }

  method ParseClientHello(b: Bytes) returns (v: CH.Verdict)
    ensures v == CH.TreeVerdict(CH.Parse(b))
  {
    if |b| < 4 || b[0] != CH.CLIENT_HELLO {
      return CH.NotTLS;
    }
    var p := new Parser(b[4..]);
    CH.HeadVerdict(b[4..]);
    var ok := p.Skip(2 + 32);
    if !ok {
      return CH.Malformed;
    }
    ok := p.SkipVector(1);
    if !ok {
      return CH.Malformed;
    }
    ok := p.SkipVector(2);
    if !ok {
      return CH.Malformed;
    }
    ok := p.SkipVector(1);
    if !ok {
      return CH.Malformed;
    }
    var exts;
    exts, ok := p.Vector(2);
    if !ok {
      return CH.NoServerName;
    }
    v := WalkExtensions(exts);
  }

  /** The extension loop of parseClientHello. */
  method WalkExtensions(exts: Bytes) returns (v: CH.Verdict)
    ensures v == CH.ExtEndVerdict(CH.ParseExts(exts).1)
  {
    var ep := new Parser(exts);
    while |ep.b| - ep.i >= 4
      invariant ep.Valid() && fresh(ep)
      invariant CH.ParseExts(exts).1 == CH.ParseExts(ep.Rest()).1
      decreases |ep.b| - ep.i
    {
      var extType, ok := ep.Uint16();
      if !ok {
        return CH.Malformed;
      }
      var extBody;
      extBody, ok := ep.Vector(2);
      if !ok {
        return CH.Malformed;
      }
      if extType != CH.SERVER_NAME {
        continue;
      }
      v := ParseServerNameList(extBody);
      return;
    }
    return CH.NoServerName;
  }

  // ---------- Peek ----------

  const MAX_HANDSHAKE: nat := 16384
  const MAX_RECORDS: nat := 8
  const RECORD_HEADER: nat := 5
  const HANDSHAKE_HEAD: nat := 4
  const HANDSHAKE_RECORD: byte := 0x16

  datatype Outcome =
    | HeaderCutOff          // the connection ended inside a record header
    | NotHandshakeRecord    // ErrNotTLS from the record layer
    | ImplausibleLength
    | BodyCutOff            // the connection ended inside a record body
    | TooLarge
    | Incomplete            // MAX_RECORDS records without a whole message
    | Classified(verdict: CH.Verdict)

  /** The outcomes of a read that fell short. */
  predicate CutOff(outcome: Outcome) { outcome.HeaderCutOff? || outcome.BodyCutOff? }

  /** How long the handshake message that starts like this is, header included. */
  function Want(h: Bytes): nat
    requires |h| >= HANDSHAKE_HEAD
  {
    HANDSHAKE_HEAD + U24(h[1], h[2], h[3])
  }

  predicate Complete(h: Bytes) { |h| >= HANDSHAKE_HEAD && |h| >= Want(h) }

  /** The record at the head of `rest`: its body, or why it is refused and how much of it
      stays in raw. */
  datatype Record = Whole(body: Bytes) | Refused(outcome: Outcome, kept: nat)

  function FirstRecord(rest: Bytes): (r: Record)
    ensures r.Whole? ==> 0 < |r.body| <= MAX_HANDSHAKE && RECORD_HEADER + |r.body| <= |rest|
    ensures r.Refused? ==> r.kept <= |rest| && !r.outcome.Classified?
  {
    if |rest| < RECORD_HEADER then Refused(HeaderCutOff, 0)
    else if rest[0] != HANDSHAKE_RECORD then Refused(NotHandshakeRecord, RECORD_HEADER)
    else
      var length := U16(rest[3], rest[4]);
      if length == 0 || length > MAX_HANDSHAKE then Refused(ImplausibleLength, RECORD_HEADER)
      else if |rest| < RECORD_HEADER + length then Refused(BodyCutOff, RECORD_HEADER)
      else Whole(rest[RECORD_HEADER..RECORD_HEADER + length])
  }

  /** The message at the head of the collected bytes. */
  function Head(collected: Bytes): Bytes
    requires Complete(collected)
  {
    collected[..Want(collected)]
  }

  /** How the record loop ends: with a whole message, or refused. `rest` is the part of the
      stream that is not in raw. */
  datatype Reading = Message(message: Bytes, rest: Bytes) | Stopped(outcome: Outcome, rest: Bytes)

  /** The record loop on `rest`, when `handshake` has been collected and `left` records may
      still be read. */
  function ReadRecords(rest: Bytes, handshake: Bytes, left: nat): Reading
    decreases |rest|
  {
    if left == 0 then Stopped(Incomplete, rest)
    else
      match FirstRecord(rest)
      case Refused(outcome, kept) => Stopped(outcome, rest[kept..])
      case Whole(body) =>
        var after, collected := rest[RECORD_HEADER + |body|..], handshake + body;
        if |collected| > MAX_HANDSHAKE then Stopped(TooLarge, after)
        else if Complete(collected) then Message(Head(collected), after)
        else ReadRecords(after, collected, left - 1)
  }

  lemma GoesOn(rest: Bytes, handshake: Bytes, left: nat, body: Bytes, after: Bytes)
    requires left > 0 && FirstRecord(rest) == Whole(body) && after == rest[RECORD_HEADER + |body|..]
    requires |handshake + body| <= MAX_HANDSHAKE && !Complete(handshake + body)
    ensures ReadRecords(rest, handshake, left)
         == ReadRecords(after, handshake + body, left - 1)
  {
  }

  lemma EndsHere(rest: Bytes, handshake: Bytes, left: nat)
    ensures left == 0 ==> ReadRecords(rest, handshake, left) == Stopped(Incomplete, rest)
    ensures left > 0 ==>
              match FirstRecord(rest)
              case Refused(outcome, kept) => ReadRecords(rest, handshake, left) == Stopped(outcome, rest[kept..])
              case Whole(body) =>
                var after, collected := rest[RECORD_HEADER + |body|..], handshake + body;
                && (|collected| > MAX_HANDSHAKE ==> ReadRecords(rest, handshake, left) == Stopped(TooLarge, after))
                && (|collected| <= MAX_HANDSHAKE && Complete(collected) ==>
                      ReadRecords(rest, handshake, left) == Message(Head(collected), after))
  {
  }

  function ReadStream(s: Bytes): Reading { ReadRecords(s, [], MAX_RECORDS) }

  function OutcomeOf(r: Reading): Outcome {
    match r
    case Message(message, _) => Classified(CH.TreeVerdict(CH.Parse(message)))
    case Stopped(outcome, _) => outcome
  }

  /** Peek. However the bytes are cut into reads, the outcome and the replay depend only on
      the stream; the replay is a prefix of it, and is everything read unless a read fell
      short. */
  method Peek(c: Conn) returns (outcome: Outcome, raw: Bytes)
    requires c.Valid() && c.pos == 0
    modifies c`pos
    ensures c.Valid()
    ensures outcome == OutcomeOf(ReadStream(c.content))
    ensures raw + ReadStream(c.content).rest == c.content
    ensures |raw| == c.pos || (CutOff(outcome) && c.pos == |c.content|)
  {
    var found;
    found, raw := PeekRecords(c);
    if found.Err? {
      return found.error, raw;
    }
    var verdict := ParseClientHello(found.value);
    outcome := Classified(verdict);
  }

  /** The record loop of Peek. */
  method PeekRecords(c: Conn) returns (found: Result<Bytes, Outcome>, raw: Bytes)
    requires c.Valid() && c.pos == 0
    modifies c`pos
    ensures c.Valid()
    ensures ReadStream(c.content) == match found
            case Ok(message) => Message(message, ReadStream(c.content).rest)
            case Err(outcome) => Stopped(outcome, ReadStream(c.content).rest)
    ensures raw + ReadStream(c.content).rest == c.content
    ensures |raw| == c.pos || (found.Err? && CutOff(found.error) && c.pos == |c.content|)
  {
    hide ReadRecords, FirstRecord;
    raw := [];
    var handshake: Bytes := [];
    ghost var rest, left, spec := c.content, MAX_RECORDS, ReadStream(c.content);
    for n := 0 to MAX_RECORDS
      invariant c.Valid() && |raw| == c.pos && raw + rest == c.content && left == MAX_RECORDS - n
      invariant ReadRecords(rest, handshake, left) == spec
    {
      ghost var before, collected := rest, handshake;
      assert before == c.content[c.pos..];
      var read, kept := ReadRecord(c);
      rest := before[|kept|..];
      Keep(raw, before, kept);
      raw := raw + kept;
      if read.Refused? {
        EndsHere(before, collected, left);
        return Err(read.outcome), raw;
      }
      handshake := handshake + read.body;
      if |handshake| > MAX_HANDSHAKE {
        EndsHere(before, collected, left);
        return Err(TooLarge), raw;
      }
      if Complete(handshake) {
        EndsHere(before, collected, left);
        return Ok(Head(handshake)), raw;
      }
      GoesOn(before, collected, left, read.body, rest);
      left := left - 1;
    }
    EndsHere(rest, handshake, left);
    found := Err(Incomplete);
  }

  lemma Keep(raw: Bytes, before: Bytes, kept: Bytes)
    requires kept <= before
    ensures raw + kept + before[|kept|..] == raw + before
  {
  }

  /** One turn of Peek's loop, up to the body: a header and a body, each read in full. The
      bytes of a read that fell short are gone from the connection but not kept. */
  method ReadRecord(c: Conn) returns (read: Record, kept: Bytes)
    requires c.Valid()
    modifies c`pos
    ensures c.Valid()
    ensures read == FirstRecord(c.content[old(c.pos)..])
    ensures |kept| == if read.Whole? then RECORD_HEADER + |read.body| else read.kept
    ensures kept <= c.content[old(c.pos)..]
    ensures c.pos == old(c.pos) + |kept|
         || (read.Refused? && CutOff(read.outcome) && c.pos == |c.content|)
  {
    ghost var rest := c.content[c.pos..];
    var hdr, ok := ReadFull(c, RECORD_HEADER);
    if !ok {
      return Refused(HeaderCutOff, 0), [];
    }
    assert hdr == rest[..RECORD_HEADER];
    if hdr[0] != HANDSHAKE_RECORD {
      return Refused(NotHandshakeRecord, RECORD_HEADER), hdr;
    }
    var length := U16(hdr[3], hdr[4]);
    if length == 0 || length > MAX_HANDSHAKE {
      return Refused(ImplausibleLength, RECORD_HEADER), hdr;
    }
    var body;
    body, ok := ReadFull(c, length);
    if !ok {
      return Refused(BodyCutOff, RECORD_HEADER), hdr;
    }
    assert body == rest[RECORD_HEADER..RECORD_HEADER + length];
    read, kept := Whole(body), hdr + body;
    assert kept == rest[..|kept|];
  }
}
