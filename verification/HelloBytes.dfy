/** A TLS visitor's stream byte by byte (sections 4.1.2 and 5.1 of RFC 8446, section 3 of RFC
    6066): what the record loop and the walk of internal/sni/sni.go make of it, with every
    number written out. */
module HelloBytes {
  import opened ByteText
  import CH = ClientHello
  import Sni
  import W = Reassembly

  // ---------- records ----------

  /** Bodies as records may carry them. */
  predicate Sizes(fs: seq<W.Fragment>) { forall k :: 0 <= k < |fs| ==> 0 < |fs[k].body| <= 16384 }

  /** The records as they are sent: type 22, a version, the length, the body. */
  function Sent(fs: seq<W.Fragment>): Bytes
    requires Sizes(fs)
  {
    if fs == [] then []
    else
      var n := |fs[0].body|;
      [22, fs[0].major, fs[0].minor, (n / 256) as byte, (n % 256) as byte] + fs[0].body + Sent(fs[1..])
  }

  lemma {:induction false} SentPrinted(fs: seq<W.Fragment>)
    requires Sizes(fs)
    ensures W.FragmentsOk(fs) && Sent(fs) == W.PrintFragments(fs)
  {
    if fs != [] {
      SentPrinted(fs[1..]);
      assert W.FragmentOk(fs[0]);
    }
  }

  /** The length in the header of a handshake message is that of what follows it. */
  predicate SizeRight(m: Bytes) {
    |m| >= 4 && |m| - 4 == m[1] as int * 65536 + m[2] as int * 256 + m[3] as int
  }

  lemma SizeRightWhole(m: Bytes)
    ensures SizeRight(m) <==> W.WholeMessage(m)
  {
  }

  /** Every message of at most 16384 bytes, cut anywhere into one to eight records, with
      anything behind them, gets its own verdict, and what is behind is not touched. */
  lemma EveryCut(m: Bytes, fs: seq<W.Fragment>, tail: Bytes)
    requires SizeRight(m) && |m| <= 16384
    requires |fs| <= 8 && Sizes(fs) && W.Bodies(fs) == m
    ensures Sni.OutcomeOf(Sni.ReadStream(Sent(fs) + tail)) == Sni.Classified(CH.TreeVerdict(CH.Parse(m)))
    ensures Sni.ReadStream(Sent(fs) + tail).rest == tail
  {
    SentPrinted(fs);
    SizeRightWhole(m);
    W.FragmentationRoundTrip(m, fs, tail);
  }

  // ---------- the hello ----------

  function One(body: Bytes): Bytes
    requires |body| < 256
  {
    [|body| as byte] + body
  }

  function Two(body: Bytes): Bytes
    requires |body| < 65536
  {
    [(|body| / 256) as byte, (|body| % 256) as byte] + body
  }

  predicate OtherExts(es: seq<CH.Extension>) {
    forall k :: 0 <= k < |es| ==> 0 < es[k].kind < 65536 && |es[k].body| < 65536
  }

  function ExtBytes(es: seq<CH.Extension>): Bytes
    requires OtherExts(es)
  {
    if es == [] then []
    else [(es[0].kind / 256) as byte, (es[0].kind % 256) as byte] + Two(es[0].body) + ExtBytes(es[1..])
  }

  predicate OtherNames(ns: seq<CH.Name>) {
    forall k :: 0 <= k < |ns| ==> ns[k].kind != 0 && |ns[k].host| < 65536
  }

  function NameBytes(ns: seq<CH.Name>): Bytes
    requires OtherNames(ns)
  {
    if ns == [] then [] else [ns[0].kind] + Two(ns[0].host) + NameBytes(ns[1..])
  }

  /** The pieces of a hello whose first server_name extension has a host_name entry, the first
      of its list: what stands before and behind each of the two, and the other fields. */
  datatype Pieces = Pieces(
    size: Bytes, fixed: Bytes, session: Bytes, suites: Bytes, methods: Bytes,
    exts: seq<CH.Extension>, names: seq<CH.Name>, host: Bytes,
    afterHost: Bytes, afterList: Bytes, afterName: Bytes, afterBlock: Bytes)

  /** The server_name list: an entry of type 0 after those of other types. */
  function ListBytes(p: Pieces): Bytes
    requires OtherNames(p.names) && |p.host| < 65536
  {
    NameBytes(p.names) + ([0] + Two(p.host) + p.afterHost)
  }

  predicate ListFits(p: Pieces) { OtherNames(p.names) && |p.host| < 65536 && |ListBytes(p)| < 65536 }

  predicate NameFits(p: Pieces) { ListFits(p) && |Two(ListBytes(p)) + p.afterList| < 65536 }

  /** The extensions: one of type 0 after those of other types. */
  function BlockBytes(p: Pieces): Bytes
    requires OtherExts(p.exts) && NameFits(p)
  {
    ExtBytes(p.exts) + ([0, 0] + Two(Two(ListBytes(p)) + p.afterList) + p.afterName)
  }

  predicate Fits(p: Pieces) {
    && |p.size| == 3 && |p.fixed| == 34 && |p.session| < 256 && |p.suites| < 65536 && |p.methods| < 256
    && OtherExts(p.exts) && NameFits(p) && |BlockBytes(p)| < 65536
  }

  function Hello(p: Pieces): Bytes
    requires Fits(p)
  {
    [1] + p.size + p.fixed + One(p.session) + Two(p.suites) + One(p.methods) + Two(BlockBytes(p)) + p.afterBlock
  }

  lemma Number(n: nat)
    requires n < 65536
    ensures PutU16(n) == [(n / 256) as byte, (n % 256) as byte]
  {
  }

  lemma Three(a: Bytes, b: Bytes, c: Bytes)
    ensures a + (b + c) == a + b + c
  {
  }

  lemma TwoIsVector(body: Bytes)
    requires |body| < 65536
    ensures CH.Fits(2, body) && CH.Vector(2, body) == Two(body)
  {
  }

  lemma {:induction false} NamesPrinted(ns: seq<CH.Name>, end: CH.NameEnd)
    requires OtherNames(ns) && CH.NameEndOk(end)
    ensures CH.NamesOk(ns) && CH.PrintNames(ns, end) == NameBytes(ns) + CH.PrintNameEnd(end)
  {
    hide CH.Vector, Two, CH.PrintNameEnd, CH.NameEndOk, CH.Stub;
    var last := CH.PrintNameEnd(end);
    if ns == [] {
      assert NameBytes(ns) + last == last;
    } else {
      NamesPrinted(ns[1..], end);
      TwoIsVector(ns[0].host);
      Four([ns[0].kind], Two(ns[0].host), NameBytes(ns[1..]), last);
    }
  }

  lemma Four(a: Bytes, b: Bytes, c: Bytes, d: Bytes)
    ensures a + (b + (c + d)) == a + b + c + d
  {
  }

  lemma {:induction false} ExtsPrinted(es: seq<CH.Extension>, end: CH.ExtEnd)
    requires OtherExts(es) && CH.ExtEndOk(end)
    ensures CH.ExtsOk(es) && CH.PrintExts(es, end) == ExtBytes(es) + CH.PrintExtEnd(end)
  {
    hide CH.Vector, Two, CH.PrintExtEnd, CH.ExtEndOk, PutU16;
    var last := CH.PrintExtEnd(end);
    if es == [] {
      assert ExtBytes(es) + last == last;
    } else {
      ExtsPrinted(es[1..], end);
      TwoIsVector(es[0].body);
      Number(es[0].kind);
      Four(PutU16(es[0].kind), Two(es[0].body), ExtBytes(es[1..]), last);
    }
  }

  function ListOf(p: Pieces): CH.NameBlock { CH.NameList(p.names, CH.HostName(p.host, p.afterHost), p.afterList) }

  function BlockOf(p: Pieces): CH.ExtBlock {
    CH.ExtList(p.exts, EndOf(p), p.afterBlock)
  }

  function TreeOf(p: Pieces): CH.Tree {
    CH.Hello(p.size, CH.Whole(p.fixed, p.session, p.suites, p.methods, BlockOf(p)))
  }

  lemma ListPrinted(p: Pieces)
    requires ListFits(p)
    ensures CH.NameBlockOk(ListOf(p)) && CH.PrintNameBlock(ListOf(p)) == Two(ListBytes(p)) + p.afterList
  {
    TwoIsVector(p.host);
    var end := CH.HostName(p.host, p.afterHost);
    assert CH.PrintNameEnd(end) == [0] + Two(p.host) + p.afterHost;
    NamesPrinted(p.names, end);
    TwoIsVector(ListBytes(p));
  }

  function EndOf(p: Pieces): CH.ExtEnd { CH.ServerName(ListOf(p), p.afterName) }

  lemma EndPrinted(p: Pieces)
    requires NameFits(p)
    ensures CH.ExtEndOk(EndOf(p))
    ensures CH.PrintExtEnd(EndOf(p)) == [0, 0] + Two(Two(ListBytes(p)) + p.afterList) + p.afterName
  {
    hide CH.PrintExtEnd, CH.ExtEndOk, CH.PrintNameBlock, CH.NameBlockOk, ListBytes, Two;
    ListPrinted(p);
    ServerNamePrinted(ListOf(p), Two(ListBytes(p)) + p.afterList, p.afterName);
  }

  lemma ServerNamePrinted(block: CH.NameBlock, body: Bytes, rest: Bytes)
    requires CH.NameBlockOk(block) && CH.PrintNameBlock(block) == body && |body| < 65536
    ensures CH.ExtEndOk(CH.ServerName(block, rest))
    ensures CH.PrintExtEnd(CH.ServerName(block, rest)) == [0, 0] + Two(body) + rest
  {
    hide CH.PrintNameBlock, CH.NameBlockOk, CH.Vector, Two, PutU16, CH.Stub;
    TwoIsVector(body);
    Number(0);
    assert CH.PrintExtEnd(CH.ServerName(block, rest)) == PutU16(0) + (CH.Vector(2, body) + rest);
    Three(PutU16(0), Two(body), rest);
  }

  lemma BlockPrinted(p: Pieces)
    requires OtherExts(p.exts) && NameFits(p) && |BlockBytes(p)| < 65536
    ensures CH.ExtBlockOk(BlockOf(p)) && CH.PrintExtBlock(BlockOf(p)) == Two(BlockBytes(p)) + p.afterBlock
  {
    hide CH.PrintExtEnd, CH.ExtEndOk, CH.PrintExts, CH.ExtsOk, ListBytes, Two, ExtBytes;
    EndPrinted(p);
    ExtsPrinted(p.exts, EndOf(p));
    TwoIsVector(BlockBytes(p));
  }

  lemma HelloPrinted(p: Pieces)
    requires Fits(p)
    ensures CH.TreeOk(TreeOf(p)) && CH.Print(TreeOf(p)) == Hello(p)
  {
    BlockPrinted(p);
    TwoIsVector(p.suites);
    Regrouped([1], p.size, p.fixed, One(p.session), Two(p.suites), One(p.methods), Two(BlockBytes(p)), p.afterBlock);
  }

  lemma Regrouped(a: Bytes, b: Bytes, c: Bytes, d: Bytes, e: Bytes, f: Bytes, g: Bytes, h: Bytes)
    ensures a + b + c + d + e + f + g + h == a + (b + (c + (d + (e + (f + (g + h))))))
  {
  }

  /** A tree that carries a name is made of such pieces. */
  lemma CarriedIsPieces(t: CH.Tree, name: Bytes) returns (p: Pieces)
    requires CH.TreeOk(t) && CH.Carries(t, name)
    ensures Fits(p) && p.host == name && t == TreeOf(p)
  {
    var f := t.fields;
    var list := f.block.end.block;
    p := Pieces(t.size, f.fixed, f.session, f.suites, f.methods, f.block.others, list.others, name,
                list.end.rest, list.trailing, f.block.end.rest, f.block.trailing);
    PiecesFit(p);
  }

  lemma PiecesFit(p: Pieces)
    requires CH.TreeOk(TreeOf(p))
    ensures Fits(p)
  {
    hide CH.PrintExts, CH.ExtsOk, CH.PrintNames, CH.NamesOk, CH.PrintExtEnd, CH.ExtEndOk, CH.PrintNameBlock,
      CH.NameBlockOk, NameBytes, ExtBytes;
    assert CH.ExtBlockOk(BlockOf(p));
    assert OtherExts(p.exts) && CH.ExtEndOk(EndOf(p)) by { EndFits(p); }
    ListFitting(p);
    NameFitting(p);
    EndPrinted(p);
    ExtsPrinted(p.exts, EndOf(p));
  }

  lemma EndFits(p: Pieces)
    requires CH.ExtBlockOk(BlockOf(p))
    ensures OtherExts(p.exts) && CH.ExtEndOk(EndOf(p)) && CH.Fits(2, CH.PrintExts(p.exts, EndOf(p)))
  {
  }

  lemma ListFitting(p: Pieces)
    requires CH.ExtEndOk(EndOf(p))
    ensures ListFits(p)
  {
    hide CH.PrintNameBlock, CH.PrintNames, NameBytes;
    assert CH.NameBlockOk(ListOf(p));
    var last := CH.HostName(p.host, p.afterHost);
    assert CH.NameEndOk(last) && OtherNames(p.names);
    TwoIsVector(p.host);
    NamesPrinted(p.names, last);
    assert CH.PrintNameEnd(last) == [0] + Two(p.host) + p.afterHost;
  }

  lemma NameFitting(p: Pieces)
    requires CH.ExtEndOk(EndOf(p)) && ListFits(p)
    ensures NameFits(p)
  {
    hide CH.PrintNames, NameBytes, ListBytes;
    ListPrinted(p);
  }

  /** A message gives a name exactly when it is such a hello with that name, not empty. */
  lemma FoundIffHello(m: Bytes, name: Bytes)
    ensures CH.TreeVerdict(CH.Parse(m)) == CH.Found(name) <==>
              name != [] && exists p :: Fits(p) && p.host == name && m == Hello(p)
  {
    CH.FoundIffCarried(m, name);
    if CH.TreeVerdict(CH.Parse(m)) == CH.Found(name) {
      var t :| CH.TreeOk(t) && CH.Print(t) == m && CH.Carries(t, name);
      var p := CarriedIsPieces(t, name);
      HelloPrinted(p);
    }
    forall p | name != [] && Fits(p) && p.host == name && m == Hello(p)
      ensures CH.TreeVerdict(CH.Parse(m)) == CH.Found(name)
    {
      HelloPrinted(p);
      assert CH.Carries(TreeOf(p), name);
    }
  }

  // ---------- the stream ----------

  /** s is records that carry the hello of these pieces, the last of them not too many, and then
      the tail. */
  predicate Spells(s: Bytes, name: Bytes, p: Pieces, fs: seq<W.Fragment>, extra: Bytes, tail: Bytes) {
    && name != [] && Fits(p) && p.host == name && SizeRight(Hello(p))
    && 1 <= |fs| <= 8 && Sizes(fs) && s == Sent(fs) + tail
    && W.Bodies(fs) == Hello(p) + extra && |W.Bodies(fs)| <= 16384
    && |W.Bodies(fs[..|fs| - 1])| < |Hello(p)|
  }

  /** The name a stream is routed by, from the first byte to the last: there is one exactly when
      the stream begins with one to eight records that carry such a hello. */
  lemma StreamNamesIff(s: Bytes, name: Bytes)
    ensures Sni.OutcomeOf(Sni.ReadStream(s)) == Sni.Classified(CH.Found(name)) <==>
              exists p, fs, extra, tail :: Spells(s, name, p, fs, extra, tail)
  {
    hide Sni.OutcomeOf, Sni.ReadStream, W.CarriedBy, Spells;
    W.FoundIffHelloOnWire(s, name);
    if Sni.OutcomeOf(Sni.ReadStream(s)) == Sni.Classified(CH.Found(name)) {
      var fs, tail, t, extra :| W.CarriedBy(s, name, fs, tail, t, extra);
      var p := CarriedSpells(s, name, fs, tail, t, extra);
    }
    forall p, fs, extra, tail | Spells(s, name, p, fs, extra, tail)
      ensures Sni.OutcomeOf(Sni.ReadStream(s)) == Sni.Classified(CH.Found(name))
    {
      SpelledCarries(s, name, p, fs, extra, tail);
    }
  }

  lemma CarriedSpells(s: Bytes, name: Bytes, fs: seq<W.Fragment>, tail: Bytes, t: CH.Tree, extra: Bytes)
      returns (p: Pieces)
    requires W.CarriedBy(s, name, fs, tail, t, extra)
    ensures Spells(s, name, p, fs, extra, tail)
  {
    hide Hello, Fits, CH.Print, CH.TreeOk, TreeOf, W.Bodies, W.PrintFragments, Sent;
    p := CarriedIsPieces(t, name);
    HelloPrinted(p);
    FinishesInBytes(fs, Hello(p), extra);
    SentPrinted(fs);
  }

  lemma SpelledCarries(s: Bytes, name: Bytes, p: Pieces, fs: seq<W.Fragment>, extra: Bytes, tail: Bytes)
    requires Spells(s, name, p, fs, extra, tail)
    ensures W.CarriedBy(s, name, fs, tail, TreeOf(p), extra)
  {
    hide Hello, Fits, CH.Print, CH.TreeOk, W.Finishes, W.Bodies, W.PrintFragments, Sent;
    HelloPrinted(p);
    SentPrinted(fs);
    FinishesInBytes(fs, Hello(p), extra);
  }

  /** When records finish a message, in bytes. */
  lemma FinishesInBytes(fs: seq<W.Fragment>, m: Bytes, extra: Bytes)
    requires fs != [] && W.Bodies(fs) == m + extra && W.FragmentsOk(fs)
    ensures SizeRight(m) <==> W.WholeMessage(m)
    ensures SizeRight(m) ==>
              (W.Finishes([], fs) <==> |m + extra| <= 16384 && |W.Bodies(fs[..|fs| - 1])| < |m|)
  {
    SizeRightWhole(m);
    var init, last := fs[..|fs| - 1], fs[|fs| - 1];
    assert fs == init + [last];
    W.BodiesConcat(init, [last]);
    assert W.Bodies([last]) == last.body;
    assert [] + W.Bodies(fs) == W.Bodies(fs) && [] + W.Bodies(init) == W.Bodies(init);
    W.FinishesIff([], fs);
    if SizeRight(m) {
      W.HeadOfWhole(m, extra);
      ShortOrComplete(W.Bodies(init), last.body, m, extra);
    }
  }

  lemma ShortOrComplete(before: Bytes, last: Bytes, m: Bytes, extra: Bytes)
    requires before + last == m + extra && SizeRight(m)
    ensures Sni.Complete(before) <==> |m| <= |before|
  {
    if |before| >= 4 {
      assert before[1] == (m + extra)[1] && before[2] == (m + extra)[2] && before[3] == (m + extra)[3];
    }
  }

  // ---------- streams that are refused ----------

  /** The handshake bytes collected so far hold no whole message. */
  predicate Short(h: Bytes) { |h| < 4 || |h| - 4 < h[1] as int * 65536 + h[2] as int * 256 + h[3] as int }

  lemma {:induction false} Collects(fs: seq<W.Fragment>, handshake: Bytes, left: nat, rest: Bytes)
    requires W.FragmentsOk(fs) && |fs| <= left
    requires |handshake + W.Bodies(fs)| <= 16384 && !Sni.Complete(handshake + W.Bodies(fs))
    ensures Sni.ReadRecords(W.PrintFragments(fs) + rest, handshake, left) ==
              Sni.ReadRecords(rest, handshake + W.Bodies(fs), left - |fs|)
    decreases |fs|
  {
    hide Sni.ReadRecords, Sni.FirstRecord, W.PrintFragments;
    if fs == [] {
      Nothing(rest, handshake);
    } else {
      var s := W.PrintFragments(fs) + rest;
      var after := W.FirstOfMany(s, fs, rest);
      W.BodiesStep(handshake, fs);
      var collected := handshake + fs[0].body;
      if Sni.Complete(collected) {
        W.CompleteGrows(collected, W.Bodies(fs[1..]));
      }
      Sni.GoesOn(s, handshake, left, fs[0].body, after);
      Collects(fs[1..], collected, left - 1, rest);
    }
  }

  lemma Nothing(rest: Bytes, handshake: Bytes)
    ensures W.PrintFragments([]) + rest == rest && handshake + W.Bodies([]) == handshake
  {
  }

  /** Every way to be refused: after records that hold no whole message yet, there are eight of
      them, or what comes next is cut off, not a handshake record, of no plausible length, or too
      much. With EveryCut this is what becomes of every stream. */
  lemma Refusals(fs: seq<W.Fragment>, rest: Bytes)
    requires Sizes(fs) && |fs| <= 8 && |W.Bodies(fs)| <= 16384 && Short(W.Bodies(fs))
    ensures var r := Sni.ReadStream(Sent(fs) + rest);
            if |fs| == 8 then r == Sni.Stopped(Sni.Incomplete, rest)
            else if |rest| < 5 then r == Sni.Stopped(Sni.HeaderCutOff, rest)
            else if rest[0] != 22 then r == Sni.Stopped(Sni.NotHandshakeRecord, rest[5..])
            else
              var n := rest[3] as int * 256 + rest[4] as int;
              && (n == 0 || n > 16384 ==> r == Sni.Stopped(Sni.ImplausibleLength, rest[5..]))
              && (0 < n <= 16384 && |rest| < 5 + n ==> r == Sni.Stopped(Sni.BodyCutOff, rest[5..]))
              && (0 < n <= 16384 && |rest| >= 5 + n && |W.Bodies(fs)| + n > 16384 ==>
                    r == Sni.Stopped(Sni.TooLarge, rest[5 + n..]))
  {
    hide Sni.ReadRecords;
    SentPrinted(fs);
    assert [] + W.Bodies(fs) == W.Bodies(fs);
    Collects(fs, [], 8, rest);
    Sni.EndsHere(rest, W.Bodies(fs), 8 - |fs|);
  }

  // ---------- messages without a name ----------

  /** What a message that gives no name looks like: it has no extensions, or no server_name among
      them, or one whose list has no host_name entry, or an empty one. */
  predicate Nameless(t: CH.Tree) {
    && t.Hello? && t.fields.Whole?
    && var block := t.fields.block;
       || block.NoBlock? || block.end.ExtPadding?
       || (block.end.ServerName? && block.end.block.NameList?
           && var end := block.end.block.end;
              end.NamePadding? || (end.HostName? && end.host == []))
  }

  lemma VerdictOfTree(t: CH.Tree)
    ensures CH.TreeVerdict(t) == CH.NotTLS <==> t.Foreign?
    ensures CH.TreeVerdict(t) == CH.NoServerName <==> Nameless(t)
  {
    if t.Hello? && t.fields.Whole? && t.fields.block.ExtList? && t.fields.block.end.ServerName? {
      var names := t.fields.block.end.block;
      assert CH.TreeVerdict(t) == CH.NameBlockVerdict(names);
    }
  }

  /** Every verdict but a name: not a hello, a hello without a name, and all the others. */
  lemma OtherVerdicts(m: Bytes)
    ensures CH.TreeVerdict(CH.Parse(m)) == CH.NotTLS <==> |m| < 4 || m[0] != 1
    ensures CH.TreeVerdict(CH.Parse(m)) == CH.NoServerName <==>
              exists t :: CH.TreeOk(t) && CH.Print(t) == m && Nameless(t)
  {
    VerdictOfTree(CH.Parse(m));
    CH.PrintParsed(m);
    forall t | CH.TreeOk(t) && CH.Print(t) == m && Nameless(t)
      ensures CH.TreeVerdict(CH.Parse(m)) == CH.NoServerName
    {
      CH.ParsePrinted(t);
      VerdictOfTree(t);
    }
  }
}
