/** The lenient ClientHello grammar that internal/sni/sni.go accepts, as a syntax tree with a
    printer, and the proof that parser and printer undo each other.

    Every byte string has exactly one tree (PrintParsed, TreeUnique), so the verdict the code
    gives is the verdict of that tree. Sections 4.1.2 and 4.2 of RFC 8446 and section 3 of
    RFC 6066 give the layout; the leniency (trailing bytes, a missing extension block) is the
    code's. */
module ClientHello {
  import opened ByteText

  /** What parseClientHello answers: a name, ErrNotTLS, errShort or ErrNoSNI. */
  datatype Verdict = Found(name: Bytes) | NotTLS | Malformed | NoServerName

  // ---------- length-prefixed vectors ----------

  type Width = w: nat | w == 1 || w == 2 witness 1

  predicate Fits(w: Width, body: Bytes) {
    |body| < if w == 1 then 0x100 else 0x10000
  }

  function Size(w: Width, s: Bytes): nat
    requires w <= |s|
  {
    if w == 1 then s[0] as nat else U16(s[0], s[1])
  }

  function Vector(w: Width, body: Bytes): Bytes
    requires Fits(w, body)
  {
    (if w == 1 then [|body| as byte] else PutU16(|body|)) + body
  }

  /** No vector of this width starts here: the length or the body is cut off. */
  predicate Stub(w: Width, s: Bytes) {
    |s| < w || |s| - w < Size(w, s)
  }

  /** The body of the vector that starts s, and what follows it. */
  function Cut(w: Width, s: Bytes): (c: (Bytes, Bytes))
    requires !Stub(w, s)
    ensures Fits(w, c.0) && s == Vector(w, c.0) + c.1
  {
    var n := Size(w, s);
    assert s == s[..w] + s[w..w + n] + s[w + n..];
    assert w == 1 ==> s[..w] == [n as byte];
    assert w == 2 ==> s[..w] == PutU16(n);
    (s[w..w + n], s[w + n..])
  }

  lemma CutVector(w: Width, body: Bytes, rest: Bytes)
    requires Fits(w, body)
    ensures !Stub(w, Vector(w, body) + rest)
    ensures Cut(w, Vector(w, body) + rest) == (body, rest)
  {
    var s := Vector(w, body) + rest;
    assert Size(w, s) == |body|;
    assert s[w..w + |body|] == body && s[w + |body|..] == rest;
  }

  // ---------- the server_name list ----------

  datatype Name = Name(kind: byte, host: Bytes)

  /** How the walk over the list ends: fewer than three bytes left, an entry that is cut
      off, or the first host_name entry. */
  datatype NameEnd =
    | NamePadding(pad: Bytes)
    | NameStub(kind: byte, stub: Bytes)
    | HostName(host: Bytes, rest: Bytes)

  datatype NameBlock =
    | NoList(stub: Bytes)
    | NameList(others: seq<Name>, end: NameEnd, trailing: Bytes)

  predicate NamesOk(others: seq<Name>) {
    forall k :: 0 <= k < |others| ==> others[k].kind != 0 && Fits(2, others[k].host)
  }

  predicate NameEndOk(end: NameEnd) {
    match end
    case NamePadding(pad) => |pad| < 3
    case NameStub(_, stub) => |stub| >= 2 && Stub(2, stub)
    case HostName(host, _) => Fits(2, host)
  }

  function PrintNameEnd(end: NameEnd): Bytes
    requires NameEndOk(end)
  {
    match end
    case NamePadding(pad) => pad
    case NameStub(kind, stub) => [kind] + stub
    case HostName(host, rest) => [0] + (Vector(2, host) + rest)
  }

  function PrintNames(others: seq<Name>, end: NameEnd): Bytes
    requires NamesOk(others) && NameEndOk(end)
  {
    if others == [] then PrintNameEnd(end)
    else [others[0].kind] + (Vector(2, others[0].host) + PrintNames(others[1..], end))
  }

  predicate NameBlockOk(block: NameBlock) {
    match block
    case NoList(stub) => Stub(2, stub)
    case NameList(others, end, _) =>
      NamesOk(others) && NameEndOk(end) && Fits(2, PrintNames(others, end))
  }

  function PrintNameBlock(block: NameBlock): Bytes
    requires NameBlockOk(block)
  {
    match block
    case NoList(stub) => stub
    case NameList(others, end, trailing) =>
      Vector(2, PrintNames(others, end)) + trailing
  }

  function NameEndVerdict(end: NameEnd): Verdict {
    match end
    case NamePadding(_) => NoServerName
    case NameStub(_, _) => Malformed
    case HostName(host, _) => if host == [] then NoServerName else Found(host)
  }

  function NameBlockVerdict(block: NameBlock): Verdict {
    match block
    case NoList(_) => Malformed
    case NameList(_, end, _) => NameEndVerdict(end)
  }

  function ParseNames(s: Bytes): (t: (seq<Name>, NameEnd))
    decreases |s|
  {
    if |s| < 3 then ([], NamePadding(s))
    else if Stub(2, s[1..]) then ([], NameStub(s[0], s[1..]))
    else
      var c := Cut(2, s[1..]);
      if s[0] == 0 then ([], HostName(c.0, c.1))
      else
        var t := ParseNames(c.1);
        ([Name(s[0], c.0)] + t.0, t.1)
  }

  function ParseNameBlock(s: Bytes): NameBlock {
    if Stub(2, s) then NoList(s)
    else
      var c := Cut(2, s);
      var t := ParseNames(c.0);
      NameList(t.0, t.1, c.1)
  }

  lemma {:induction false} NamesPrintParsed(s: Bytes)
    ensures var t := ParseNames(s);
            NamesOk(t.0) && NameEndOk(t.1) && PrintNames(t.0, t.1) == s
    decreases |s|
  {
    if |s| >= 3 && !Stub(2, s[1..]) && s[0] != 0 {
      var c := Cut(2, s[1..]);
      NamesPrintParsed(c.1);
      NamesCons(Name(s[0], c.0), ParseNames(c.1).0, ParseNames(c.1).1);
    }
  }

  /** Printing one more entry in front. */
  lemma NamesCons(first: Name, others: seq<Name>, end: NameEnd)
    requires first.kind != 0 && Fits(2, first.host) && NamesOk(others) && NameEndOk(end)
    ensures NamesOk([first] + others)
    ensures PrintNames([first] + others, end) == [first.kind] + (Vector(2, first.host) + PrintNames(others, end))
  {
    assert ([first] + others)[1..] == others;
  }

  lemma {:induction false} NamesParsePrinted(others: seq<Name>, end: NameEnd)
    requires NamesOk(others) && NameEndOk(end)
    ensures ParseNames(PrintNames(others, end)) == (others, end)
    decreases |others|
  {
    var s := PrintNames(others, end);
    if others != [] {
      var tail := PrintNames(others[1..], end);
      assert s[1..] == Vector(2, others[0].host) + tail;
      CutVector(2, others[0].host, tail);
      NamesParsePrinted(others[1..], end);
      assert ParseNames(s).0 == [others[0]] + others[1..] == others;
    } else {
      match end {
        case NamePadding(_) =>
        case NameStub(kind, stub) => assert s[1..] == stub;
        case HostName(host, rest) =>
          assert s[1..] == Vector(2, host) + rest;
          CutVector(2, host, rest);
      }
    }
  }

  lemma NameBlockPrintParsed(s: Bytes)
    ensures NameBlockOk(ParseNameBlock(s)) && PrintNameBlock(ParseNameBlock(s)) == s
  {
    if !Stub(2, s) {
      NamesPrintParsed(Cut(2, s).0);
    }
  }

  lemma NameBlockParsePrinted(block: NameBlock)
    requires NameBlockOk(block)
    ensures ParseNameBlock(PrintNameBlock(block)) == block
  {
    match block {
      case NoList(_) =>
      case NameList(others, end, trailing) =>
        CutVector(2, PrintNames(others, end), trailing);
        NamesParsePrinted(others, end);
    }
  }

  // ---------- the extension block ----------

  datatype Extension = Extension(kind: nat, body: Bytes)

  datatype ExtEnd =
    | ExtPadding(pad: Bytes)
    | ExtStub(kind: nat, stub: Bytes)
    | ServerName(block: NameBlock, rest: Bytes)

  datatype ExtBlock =
    | NoBlock(stub: Bytes)
    | ExtList(others: seq<Extension>, end: ExtEnd, trailing: Bytes)

  const SERVER_NAME: nat := 0

  predicate ExtsOk(others: seq<Extension>) {
    forall k :: 0 <= k < |others| ==>
      others[k].kind != SERVER_NAME && others[k].kind < 0x10000 && Fits(2, others[k].body)
  }

  predicate ExtEndOk(end: ExtEnd) {
    match end
    case ExtPadding(pad) => |pad| < 4
    case ExtStub(kind, stub) => kind < 0x10000 && |stub| >= 2 && Stub(2, stub)
    case ServerName(block, _) => NameBlockOk(block) && Fits(2, PrintNameBlock(block))
  }

  function PrintExtEnd(end: ExtEnd): Bytes
    requires ExtEndOk(end)
  {
    match end
    case ExtPadding(pad) => pad
    case ExtStub(kind, stub) => PutU16(kind) + stub
    case ServerName(block, rest) => PutU16(SERVER_NAME) + (Vector(2, PrintNameBlock(block)) + rest)
  }

  function PrintExts(others: seq<Extension>, end: ExtEnd): Bytes
    requires ExtsOk(others) && ExtEndOk(end)
  {
    if others == [] then PrintExtEnd(end)
    else PutU16(others[0].kind) + (Vector(2, others[0].body) + PrintExts(others[1..], end))
  }

  predicate ExtBlockOk(block: ExtBlock) {
    match block
    case NoBlock(stub) => Stub(2, stub)
    case ExtList(others, end, _) =>
      ExtsOk(others) && ExtEndOk(end) && Fits(2, PrintExts(others, end))
  }

  function PrintExtBlock(block: ExtBlock): Bytes
    requires ExtBlockOk(block)
  {
    match block
    case NoBlock(stub) => stub
    case ExtList(others, end, trailing) =>
      Vector(2, PrintExts(others, end)) + trailing
  }

  function ExtEndVerdict(end: ExtEnd): Verdict {
    match end
    case ExtPadding(_) => NoServerName
    case ExtStub(_, _) => Malformed
    case ServerName(block, _) => NameBlockVerdict(block)
  }

  function ExtBlockVerdict(block: ExtBlock): Verdict {
    match block
    case NoBlock(_) => NoServerName
    case ExtList(_, end, _) => ExtEndVerdict(end)
  }

  function ParseExts(s: Bytes): (t: (seq<Extension>, ExtEnd))
    decreases |s|
  {
    if |s| < 4 then ([], ExtPadding(s))
    else
      var kind := U16(s[0], s[1]);
      if Stub(2, s[2..]) then ([], ExtStub(kind, s[2..]))
      else
        var c := Cut(2, s[2..]);
        if kind == SERVER_NAME then ([], ServerName(ParseNameBlock(c.0), c.1))
        else
          var t := ParseExts(c.1);
          ([Extension(kind, c.0)] + t.0, t.1)
  }

  function ParseExtBlock(s: Bytes): ExtBlock {
    if Stub(2, s) then NoBlock(s)
    else
      var c := Cut(2, s);
      var t := ParseExts(c.0);
      ExtList(t.0, t.1, c.1)
  }

  lemma {:induction false} ExtsPrintParsed(s: Bytes)
    ensures var t := ParseExts(s);
            ExtsOk(t.0) && ExtEndOk(t.1) && PrintExts(t.0, t.1) == s
    decreases |s|
  {
    if |s| >= 4 && !Stub(2, s[2..]) {
      var kind := U16(s[0], s[1]);
      var c := Cut(2, s[2..]);
      KindHead(s);
      if kind == SERVER_NAME {
        NameBlockPrintParsed(c.0);
      } else {
        ExtsPrintParsed(c.1);
        ExtsCons(Extension(kind, c.0), ParseExts(c.1).0, ParseExts(c.1).1);
      }
    }
  }

  lemma KindHead(s: Bytes)
    requires |s| >= 2
    ensures PutU16(U16(s[0], s[1])) + s[2..] == s
  {
    assert PutU16(U16(s[0], s[1])) == s[..2];
  }

  /** Printing one more extension in front. */
  lemma ExtsCons(first: Extension, others: seq<Extension>, end: ExtEnd)
    requires first.kind != SERVER_NAME && first.kind < 0x10000 && Fits(2, first.body)
    requires ExtsOk(others) && ExtEndOk(end)
    ensures ExtsOk([first] + others)
    ensures PrintExts([first] + others, end) == PutU16(first.kind) + (Vector(2, first.body) + PrintExts(others, end))
  {
    assert ([first] + others)[1..] == others;
  }

  lemma {:induction false} ExtsParsePrinted(others: seq<Extension>, end: ExtEnd)
    requires ExtsOk(others) && ExtEndOk(end)
    ensures ParseExts(PrintExts(others, end)) == (others, end)
    decreases |others|
  {
    if others != [] {
      hide ParseExts, Vector, PrintExtEnd, ExtEndOk, Fits;
      var tail := PrintExts(others[1..], end);
      ExtsParsePrinted(others[1..], end);
      OneExtParsed(others[0], tail);
      assert others == [others[0]] + others[1..];
    } else {
      ExtEndParsed(end);
    }
  }

  lemma ExtEndParsed(end: ExtEnd)
    requires ExtEndOk(end)
    ensures ParseExts(PrintExtEnd(end)) == ([], end)
  {
    match end
    case ExtPadding(_) =>
    case ExtStub(kind, stub) => assert PrintExtEnd(end)[2..] == stub;
    case ServerName(block, rest) => ServerNameParsed(block, rest);
  }

  /** Parsing takes off the extension in front. */
  lemma OneExtParsed(first: Extension, tail: Bytes)
    requires first.kind != SERVER_NAME && first.kind < 0x10000 && Fits(2, first.body)
    ensures var more := ParseExts(tail);
            ParseExts(PutU16(first.kind) + (Vector(2, first.body) + tail)) == ([first] + more.0, more.1)
  {
    var s := PutU16(first.kind) + (Vector(2, first.body) + tail);
    assert s[2..] == Vector(2, first.body) + tail;
    CutVector(2, first.body, tail);
  }

  lemma ServerNameParsed(block: NameBlock, rest: Bytes)
    requires NameBlockOk(block) && Fits(2, PrintNameBlock(block))
    ensures ParseExts(PutU16(SERVER_NAME) + (Vector(2, PrintNameBlock(block)) + rest)) == ([], ServerName(block, rest))
  {
    var body := PrintNameBlock(block);
    var s := PutU16(SERVER_NAME) + (Vector(2, body) + rest);
    assert s[2..] == Vector(2, body) + rest;
    CutVector(2, body, rest);
    NameBlockParsePrinted(block);
  }

  lemma ExtBlockPrintParsed(s: Bytes)
    ensures ExtBlockOk(ParseExtBlock(s)) && PrintExtBlock(ParseExtBlock(s)) == s
  {
    if !Stub(2, s) {
      ExtsPrintParsed(Cut(2, s).0);
    }
  }

  lemma ExtBlockParsePrinted(block: ExtBlock)
    requires ExtBlockOk(block)
    ensures ParseExtBlock(PrintExtBlock(block)) == block
  {
    match block {
      case NoBlock(_) =>
      case ExtList(others, end, trailing) =>
        CutVector(2, PrintExts(others, end), trailing);
        ExtsParsePrinted(others, end);
    }
  }

  // ---------- the fields before the extensions ----------

  /** Everything after the four-byte handshake header. */
  datatype Fields =
    | FixedStub(stub: Bytes)
    | SessionStub(fixed: Bytes, stub: Bytes)
    | SuitesStub(fixed: Bytes, session: Bytes, stub: Bytes)
    | MethodsStub(fixed: Bytes, session: Bytes, suites: Bytes, stub: Bytes)
    | Whole(fixed: Bytes, session: Bytes, suites: Bytes, methods: Bytes, block: ExtBlock)

  /** legacy_version and random. */
  const FIXED: nat := 34

  predicate FieldsOk(f: Fields) {
    match f
    case FixedStub(stub) => |stub| < FIXED
    case SessionStub(fixed, stub) => |fixed| == FIXED && Stub(1, stub)
    case SuitesStub(fixed, session, stub) => |fixed| == FIXED && Fits(1, session) && Stub(2, stub)
    case MethodsStub(fixed, session, suites, stub) =>
      |fixed| == FIXED && Fits(1, session) && Fits(2, suites) && Stub(1, stub)
    case Whole(fixed, session, suites, methods, block) =>
      |fixed| == FIXED && Fits(1, session) && Fits(2, suites) && Fits(1, methods) && ExtBlockOk(block)
  }

  function PrintFields(f: Fields): Bytes
    requires FieldsOk(f)
  {
    match f
    case FixedStub(stub) => stub
    case SessionStub(fixed, stub) => fixed + stub
    case SuitesStub(fixed, session, stub) => fixed + (Vector(1, session) + stub)
    case MethodsStub(fixed, session, suites, stub) =>
      fixed + (Vector(1, session) + (Vector(2, suites) + stub))
    case Whole(fixed, session, suites, methods, block) =>
      fixed + (Vector(1, session) + (Vector(2, suites) + (Vector(1, methods) + PrintExtBlock(block))))
  }

  function FieldsVerdict(f: Fields): Verdict {
    if f.Whole? then ExtBlockVerdict(f.block) else Malformed
  }

  function ParseFields(s: Bytes): Fields {
    if |s| < FIXED then FixedStub(s)
    else
      var fixed, s1 := s[..FIXED], s[FIXED..];
      if Stub(1, s1) then SessionStub(fixed, s1)
      else
        var (session, s2) := Cut(1, s1);
        if Stub(2, s2) then SuitesStub(fixed, session, s2)
        else
          var (suites, s3) := Cut(2, s2);
          if Stub(1, s3) then MethodsStub(fixed, session, suites, s3)
          else
            var (methods, s4) := Cut(1, s3);
            Whole(fixed, session, suites, methods, ParseExtBlock(s4))
  }

  /** What is left after the fixed fields and the three vectors, when they are all there. */
  function AfterHead(s: Bytes): Option<Bytes> {
    if |s| < FIXED || Stub(1, s[FIXED..]) then None
    else
      var s2 := Cut(1, s[FIXED..]).1;
      if Stub(2, s2) then None
      else
        var s3 := Cut(2, s2).1;
        if Stub(1, s3) then None else Some(Cut(1, s3).1)
  }

  lemma HeadVerdict(s: Bytes)
    ensures FieldsVerdict(ParseFields(s)) ==
              match AfterHead(s)
              case None => Malformed
              case Some(rest) => ExtBlockVerdict(ParseExtBlock(rest))
  {
  }

  lemma FieldsPrintParsed(s: Bytes)
    ensures FieldsOk(ParseFields(s)) && PrintFields(ParseFields(s)) == s
  {
    if |s| >= FIXED {
      var s1 := s[FIXED..];
      assert s == s[..FIXED] + s1;
      if !Stub(1, s1) {
        var s2 := Cut(1, s1).1;
        if !Stub(2, s2) {
          var s3 := Cut(2, s2).1;
          if !Stub(1, s3) {
            ExtBlockPrintParsed(Cut(1, s3).1);
          }
        }
      }
    }
  }

  lemma FieldsParsePrinted(f: Fields)
    requires FieldsOk(f)
    ensures ParseFields(PrintFields(f)) == f
  {
    var s := PrintFields(f);
    if !f.FixedStub? {
      assert s[..FIXED] == f.fixed;
      if f.SessionStub? {
        assert s[FIXED..] == f.stub;
      } else if f.SuitesStub? {
        assert s[FIXED..] == Vector(1, f.session) + f.stub;
        CutVector(1, f.session, f.stub);
      } else if f.MethodsStub? {
        var s2 := Vector(2, f.suites) + f.stub;
        assert s[FIXED..] == Vector(1, f.session) + s2;
        CutVector(1, f.session, s2);
        CutVector(2, f.suites, f.stub);
      } else {
        var s4 := PrintExtBlock(f.block);
        var s3 := Vector(1, f.methods) + s4;
        var s2 := Vector(2, f.suites) + s3;
        assert s[FIXED..] == Vector(1, f.session) + s2;
        CutVector(1, f.session, s2);
        CutVector(2, f.suites, s3);
        CutVector(1, f.methods, s4);
        ExtBlockParsePrinted(f.block);
      }
    }
  }

  // ---------- the whole message ----------

  const CLIENT_HELLO: byte := 1

  datatype Tree =
    | Foreign(message: Bytes)
    | Hello(size: Bytes, fields: Fields)

  predicate TreeOk(t: Tree) {
    match t
    case Foreign(message) => |message| < 4 || message[0] != CLIENT_HELLO
    case Hello(size, fields) => |size| == 3 && FieldsOk(fields)
  }

  function Print(t: Tree): Bytes
    requires TreeOk(t)
  {
    match t
    case Foreign(message) => message
    case Hello(size, fields) => [CLIENT_HELLO] + (size + PrintFields(fields))
  }

  /** The verdict the grammar assigns to a tree. */
  function TreeVerdict(t: Tree): Verdict {
    match t
    case Foreign(_) => NotTLS
    case Hello(_, fields) => FieldsVerdict(fields)
  }

  function Parse(b: Bytes): Tree {
    if |b| < 4 || b[0] != CLIENT_HELLO then Foreign(b)
    else Hello(b[1..4], ParseFields(b[4..]))
  }

  lemma PrintParsed(b: Bytes)
    ensures TreeOk(Parse(b)) && Print(Parse(b)) == b
  {
    if |b| >= 4 && b[0] == CLIENT_HELLO {
      FieldsPrintParsed(b[4..]);
      HeaderSplit(b);
    }
  }

  lemma HeaderSplit(b: Bytes)
    requires |b| >= 4
    ensures [b[0]] + (b[1..4] + b[4..]) == b
  {
  }

  lemma ParsePrinted(t: Tree)
    requires TreeOk(t)
    ensures Parse(Print(t)) == t
  {
    if t.Hello? {
      FieldsParsePrinted(t.fields);
      HeaderJoined(t.size, PrintFields(t.fields));
    }
  }

  lemma HeaderJoined(size: Bytes, rest: Bytes)
    requires |size| == 3
    ensures var b := [CLIENT_HELLO] + (size + rest);
            |b| >= 4 && b[0] == CLIENT_HELLO && b[1..4] == size && b[4..] == rest
  {
  }

  /** The grammar is unambiguous. */
  lemma TreeUnique(t: Tree, u: Tree)
    requires TreeOk(t) && TreeOk(u) && Print(t) == Print(u)
    ensures t == u
  {
    ParsePrinted(t);
    ParsePrinted(u);
  }

  /** t is the hello that carries `name` as the first host_name entry of its first
      server_name extension. */
  predicate Carries(t: Tree, name: Bytes) {
    && name != []
    && t.Hello? && t.fields.Whole?
    && t.fields.block.ExtList? && t.fields.block.end.ServerName?
    && var names := t.fields.block.end.block;
       names.NameList? && names.end.HostName? && names.end.host == name
  }

  /** Soundness and completeness: the verdict the code gives is the verdict of the one
      well-formed tree that prints to the bytes. */
  lemma VerdictIffTree(b: Bytes, v: Verdict)
    ensures v == TreeVerdict(Parse(b)) <==> exists t :: TreeOk(t) && Print(t) == b && TreeVerdict(t) == v
  {
    if v == TreeVerdict(Parse(b)) {
      PrintParsed(b);
    } else {
      forall t | TreeOk(t) && Print(t) == b ensures TreeVerdict(t) != v {
        ParsePrinted(t);
      }
    }
  }

  /** The verdict is a name exactly when the bytes print from a well-formed hello carrying
      that name. */
  lemma FoundIffCarried(b: Bytes, name: Bytes)
    ensures TreeVerdict(Parse(b)) == Found(name) <==>
              exists t :: TreeOk(t) && Print(t) == b && Carries(t, name)
  {
    CarriesIsFound(Parse(b), name);
    if TreeVerdict(Parse(b)) == Found(name) {
      PrintParsed(b);
    } else {
      forall t | TreeOk(t) && Print(t) == b ensures !Carries(t, name) {
        ParsePrinted(t);
      }
    }
  }

  lemma CarriesIsFound(t: Tree, name: Bytes)
    ensures TreeVerdict(t) == Found(name) <==> Carries(t, name)
  {
    if t.Hello? && t.fields.Whole? && t.fields.block.ExtList? && t.fields.block.end.ServerName? {
      var names := t.fields.block.end.block;
      assert TreeVerdict(t) == NameBlockVerdict(names);
      if names.NameList? && names.end.HostName? {
        assert NameBlockVerdict(names) == NameEndVerdict(names.end);
      }
    }
  }
}
