/** What Peek makes of every way to cut a handshake message into records (section 5.1 of
    RFC 8446), and the converse: which streams it can classify at all. */
module Reassembly {
  import opened ByteText
  import opened Sni
  import CH = ClientHello

  /** One handshake record on the wire, legacy version included. */
  datatype Fragment = Fragment(major: byte, minor: byte, body: Bytes)

  predicate FragmentOk(f: Fragment) { 0 < |f.body| <= MAX_HANDSHAKE }

  predicate FragmentsOk(fs: seq<Fragment>) { forall k :: 0 <= k < |fs| ==> FragmentOk(fs[k]) }

  function PrintFragment(f: Fragment): (s: Bytes)
    requires FragmentOk(f)
    ensures |s| == RECORD_HEADER + |f.body|
  {
    [HANDSHAKE_RECORD, f.major, f.minor] + PutU16(|f.body|) + f.body
  }

  function PrintFragments(fs: seq<Fragment>): Bytes
    requires FragmentsOk(fs)
  {
    if fs == [] then [] else PrintFragment(fs[0]) + PrintFragments(fs[1..])
  }

  function Bodies(fs: seq<Fragment>): Bytes {
    if fs == [] then [] else fs[0].body + Bodies(fs[1..])
  }

  lemma FirstRecordPrinted(f: Fragment, rest: Bytes)
    requires FragmentOk(f)
    ensures FirstRecord(PrintFragment(f) + rest) == Whole(f.body)
  {
    var s := PrintFragment(f) + rest;
    assert s[3..5] == PutU16(|f.body|) && U16(s[3], s[4]) == |f.body|;
    assert s[RECORD_HEADER..RECORD_HEADER + |f.body|] == f.body;
  }

  lemma FirstRecordParsed(s: Bytes) returns (f: Fragment)
    requires FirstRecord(s).Whole?
    ensures FragmentOk(f) && f.body == FirstRecord(s).body
    ensures s == PrintFragment(f) + s[RECORD_HEADER + |f.body|..]
  {
    f := Fragment(s[1], s[2], FirstRecord(s).body);
    assert s[3..5] == PutU16(|f.body|);
    assert PrintFragment(f) == s[..RECORD_HEADER + |f.body|];
  }

  lemma CompleteGrows(h: Bytes, more: Bytes)
    requires Complete(h)
    ensures Complete(h + more) && Want(h + more) == Want(h)
  {
  }

  /** From `handshake` on, the fragments stay within the size limit and complete the message
      with the last of them and not before. */
  predicate Finishes(handshake: Bytes, fs: seq<Fragment>)
    decreases |fs|
  {
    && fs != []
    && var collected := handshake + fs[0].body;
       && |collected| <= MAX_HANDSHAKE
       && Complete(collected) == (|fs| == 1)
       && (|fs| > 1 ==> Finishes(collected, fs[1..]))
  }

  /** The same said of the whole lot: it is complete and small enough, and without its last
      fragment it is not complete. */
  lemma {:induction false} FinishesIff(handshake: Bytes, fs: seq<Fragment>)
    requires fs != []
    ensures Finishes(handshake, fs) <==>
              && |handshake + Bodies(fs)| <= MAX_HANDSHAKE
              && Complete(handshake + Bodies(fs))
              && (|fs| > 1 ==> !Complete(handshake + Bodies(fs[..|fs| - 1])))
    decreases |fs|
  {
    var collected := handshake + fs[0].body;
    assert handshake + Bodies(fs) == collected + Bodies(fs[1..]);
    if |fs| == 1 {
      assert collected + Bodies(fs[1..]) == collected;
    } else {
      var init := fs[..|fs| - 1];
      FinishesIff(collected, fs[1..]);
      assert init[1..] == fs[1..][..|fs| - 2];
      assert handshake + Bodies(init) == collected + Bodies(init[1..]);
      if Complete(collected) {
        CompleteGrows(collected, Bodies(init[1..]));
      } else if |fs| == 2 {
        assert collected + Bodies(init[1..]) == collected;
      }
    }
  }

  lemma BodiesStep(handshake: Bytes, fs: seq<Fragment>)
    requires fs != []
    ensures handshake + Bodies(fs) == handshake + fs[0].body + Bodies(fs[1..])
  {
  }

  lemma FirstOfMany(s: Bytes, fs: seq<Fragment>, tail: Bytes) returns (after: Bytes)
    requires FragmentsOk(fs) && fs != [] && s == PrintFragments(fs) + tail
    ensures FirstRecord(s) == Whole(fs[0].body) && after == s[RECORD_HEADER + |fs[0].body|..]
    ensures FragmentsOk(fs[1..]) && after == PrintFragments(fs[1..]) + tail
    ensures |fs| == 1 ==> after == tail
  {
    after := PrintFragments(fs[1..]) + tail;
    assert s == PrintFragment(fs[0]) + after;
    FirstRecordPrinted(fs[0], after);
    if |fs| == 1 {
      assert PrintFragments(fs[1..]) == [];
    }
  }

  /** Records that finish the message are read to the last of them. */
  lemma {:induction false} ReadsFragments(s: Bytes, handshake: Bytes, left: nat, fs: seq<Fragment>, tail: Bytes)
    requires FragmentsOk(fs) && Finishes(handshake, fs) && |fs| <= left
    requires s == PrintFragments(fs) + tail
    ensures Complete(handshake + Bodies(fs))
    ensures ReadRecords(s, handshake, left) == Message(Head(handshake + Bodies(fs)), tail)
    decreases |fs|, 1
  {
    hide ReadRecords, FirstRecord;
    var after := FirstOfMany(s, fs, tail);
    if |fs| == 1 {
      ReadsLast(s, handshake, left, fs, tail);
    } else {
      ReadsOn(s, handshake, left, fs, tail, after);
    }
  }

  lemma ReadsLast(s: Bytes, handshake: Bytes, left: nat, fs: seq<Fragment>, tail: Bytes)
    requires |fs| == 1 && left > 0 && Finishes(handshake, fs)
    requires FirstRecord(s) == Whole(fs[0].body) && tail == s[RECORD_HEADER + |fs[0].body|..]
    ensures Complete(handshake + Bodies(fs))
    ensures ReadRecords(s, handshake, left) == Message(Head(handshake + Bodies(fs)), tail)
  {
    hide ReadRecords;
    BodiesStep(handshake, fs);
    EndsHere(s, handshake, left);
  }

  lemma {:induction false} ReadsOn(s: Bytes, handshake: Bytes, left: nat, fs: seq<Fragment>, tail: Bytes, after: Bytes)
    requires 1 < |fs| <= left && Finishes(handshake, fs)
    requires FirstRecord(s) == Whole(fs[0].body) && after == s[RECORD_HEADER + |fs[0].body|..]
    requires FragmentsOk(fs[1..]) && after == PrintFragments(fs[1..]) + tail
    ensures Complete(handshake + Bodies(fs))
    ensures ReadRecords(s, handshake, left) == Message(Head(handshake + Bodies(fs)), tail)
    decreases |fs|, 0
  {
    hide ReadRecords, FirstRecord, PrintFragments;
    BodiesStep(handshake, fs);
    GoesOn(s, handshake, left, fs[0].body, after);
    ReadsFragments(after, handshake + fs[0].body, left - 1, fs[1..], tail);
  }

  /** A stream in which a message is found starts with records that finish it. */
  lemma {:induction false} OnlyFragmentsRead(rest: Bytes, handshake: Bytes, left: nat)
      returns (fs: seq<Fragment>)
    requires !Complete(handshake)
    requires ReadRecords(rest, handshake, left).Message?
    ensures FragmentsOk(fs) && Finishes(handshake, fs) && |fs| <= left
    ensures PrintFragments(fs) <= rest
    decreases left
  {
    hide ReadRecords, FirstRecord;
    EndsHere(rest, handshake, left);
    var f := FirstRecordParsed(rest);
    var collected := handshake + f.body;
    if Complete(collected) {
      fs := [f];
      assert PrintFragments(fs) == PrintFragment(f);
    } else {
      var after := rest[RECORD_HEADER + |f.body|..];
      GoesOn(rest, handshake, left, f.body, after);
      var more := OnlyFragmentsRead(after, collected, left - 1);
      fs := [f] + more;
      assert fs[1..] == more;
    }
  }

  // ---------- main results ----------

  /** The records at the head of a stream that Peek reads as one message. */
  predicate Reassembles(fs: seq<Fragment>) {
    FragmentsOk(fs) && Finishes([], fs) && |fs| <= MAX_RECORDS
  }

  lemma ReadsReassembling(fs: seq<Fragment>, tail: Bytes)
    requires Reassembles(fs)
    ensures Complete(Bodies(fs)) && ReadStream(PrintFragments(fs) + tail) == Message(Head(Bodies(fs)), tail)
  {
    assert [] + Bodies(fs) == Bodies(fs);
    ReadsFragments(PrintFragments(fs) + tail, [], MAX_RECORDS, fs, tail);
  }

  /** s is these records, which hold the message, and then the tail. */
  predicate OnWire(s: Bytes, message: Bytes, tail: Bytes, fs: seq<Fragment>) {
    && Reassembles(fs) && s == PrintFragments(fs) + tail
    && Complete(Bodies(fs)) && message == Head(Bodies(fs))
  }

  /** Peek finds a message exactly when the stream starts with at most eight records that
      finish it within 16384 collected bytes; all the rest is left unread. */
  lemma MessageIffRecords(s: Bytes, message: Bytes, tail: Bytes)
    ensures ReadStream(s) == Message(message, tail) <==> exists fs :: OnWire(s, message, tail, fs)
  {
    if ReadStream(s) == Message(message, tail) {
      var fs := OnlyFragmentsRead(s, [], MAX_RECORDS);
      var after := s[|PrintFragments(fs)|..];
      assert s == PrintFragments(fs) + after;
      ReadsReassembling(fs, after);
      assert OnWire(s, message, tail, fs);
    }
    forall fs | OnWire(s, message, tail, fs)
      ensures ReadStream(s) == Message(message, tail)
    {
      ReadsReassembling(fs, tail);
    }
  }

  /** A message whose header states its length, as every honest client sends it. */
  predicate WholeMessage(m: Bytes) { |m| >= HANDSHAKE_HEAD && Want(m) == |m| }

  predicate Honest(t: CH.Tree) { CH.TreeOk(t) && WholeMessage(CH.Print(t)) }

  /** Any cut of a message of at most 16384 bytes into one to eight non-empty records, with
      anything after it, is read back to that message, and reading stops where the records
      end. */
  lemma FragmentationRoundTrip(m: Bytes, fs: seq<Fragment>, tail: Bytes)
    requires WholeMessage(m) && |m| <= MAX_HANDSHAKE
    requires FragmentsOk(fs) && Bodies(fs) == m && |fs| <= MAX_RECORDS
    ensures ReadStream(PrintFragments(fs) + tail) == Message(m, tail)
  {
    SplitFinishes(m, fs);
    ReadsReassembling(fs, tail);
  }

  lemma SplitFinishes(m: Bytes, fs: seq<Fragment>)
    requires WholeMessage(m) && |m| <= MAX_HANDSHAKE && FragmentsOk(fs) && Bodies(fs) == m
    ensures fs != [] && Finishes([], fs)
  {
    var before := Bodies(fs[..|fs| - 1]);
    LastCompletes(fs);
    assert [] + m == m && [] + before == before;
    FinishesIff([], fs);
  }

  /** So every fragmentation of a hello gets the verdict of its tree: the name it carries,
      when it carries one, and the same for every split. */
  lemma HelloRoundTrip(t: CH.Tree, fs: seq<Fragment>, tail: Bytes)
    requires Honest(t) && |CH.Print(t)| <= MAX_HANDSHAKE
    requires FragmentsOk(fs) && Bodies(fs) == CH.Print(t) && |fs| <= MAX_RECORDS
    ensures OutcomeOf(ReadStream(PrintFragments(fs) + tail)) == Classified(CH.TreeVerdict(t))
    ensures forall name :: CH.Carries(t, name) <==>
              OutcomeOf(ReadStream(PrintFragments(fs) + tail)) == Classified(CH.Found(name))
  {
    FragmentationRoundTrip(CH.Print(t), fs, tail);
    CH.ParsePrinted(t);
    forall name ensures CH.TreeVerdict(t) == CH.Found(name) <==> CH.Carries(t, name) {
      CH.CarriesIsFound(t, name);
    }
  }

  lemma HeadOfWhole(m: Bytes, extra: Bytes)
    requires WholeMessage(m)
    ensures Complete(m + extra) && Head(m + extra) == m
  {
    CompleteGrows(m, extra);
  }

  /** Leaving out the last record leaves the message short. */
  lemma LastCompletes(fs: seq<Fragment>)
    requires FragmentsOk(fs) && fs != [] && |Bodies(fs)| >= HANDSHAKE_HEAD && Want(Bodies(fs)) == |Bodies(fs)|
    ensures !Complete(Bodies(fs[..|fs| - 1]))
  {
    var init := fs[..|fs| - 1];
    assert fs == init + [fs[|fs| - 1]];
    BodiesConcat(init, [fs[|fs| - 1]]);
    assert Bodies([fs[|fs| - 1]]) == fs[|fs| - 1].body;
    if Complete(Bodies(init)) {
      CompleteGrows(Bodies(init), fs[|fs| - 1].body);
    }
  }

  lemma {:induction false} BodiesConcat(a: seq<Fragment>, b: seq<Fragment>)
    ensures Bodies(a + b) == Bodies(a) + Bodies(b)
  {
    if a == [] {
      assert a + b == b;
    } else {
      assert (a + b)[1..] == a[1..] + b;
      BodiesConcat(a[1..], b);
    }
  }

  predicate CarriedBy(s: Bytes, name: Bytes, fs: seq<Fragment>, tail: Bytes, t: CH.Tree, extra: Bytes) {
    && Reassembles(fs) && s == PrintFragments(fs) + tail
    && Honest(t) && Bodies(fs) == CH.Print(t) + extra && CH.Carries(t, name)
  }

  /** The name a stream is routed by: there is one exactly when the stream starts with
      records carrying a hello that names it first. */
  lemma FoundIffHelloOnWire(s: Bytes, name: Bytes)
    ensures OutcomeOf(ReadStream(s)) == Classified(CH.Found(name)) <==>
              exists fs, tail, t, extra :: CarriedBy(s, name, fs, tail, t, extra)
  {
    if OutcomeOf(ReadStream(s)) == Classified(CH.Found(name)) {
      OnlyMessagesClassified(s, [], MAX_RECORDS);
      var message, tail := ReadStream(s).message, ReadStream(s).rest;
      MessageIffRecords(s, message, tail);
      var fs :| OnWire(s, message, tail, fs);
      CH.FoundIffCarried(message, name);
      var t :| CH.TreeOk(t) && CH.Print(t) == message && CH.Carries(t, name);
      HeadIsHonest(Bodies(fs), t);
      assert CarriedBy(s, name, fs, tail, t, Bodies(fs)[|message|..]);
    }
    forall fs, tail, t, extra | CarriedBy(s, name, fs, tail, t, extra)
      ensures OutcomeOf(ReadStream(s)) == Classified(CH.Found(name))
    {
      ReadsReassembling(fs, tail);
      HeadOfWhole(CH.Print(t), extra);
      CH.ParsePrinted(t);
      CH.CarriesIsFound(t, name);
    }
  }

  lemma HeadIsHonest(collected: Bytes, t: CH.Tree)
    requires Complete(collected) && CH.TreeOk(t) && CH.Print(t) == Head(collected)
    ensures Honest(t) && collected == CH.Print(t) + collected[|Head(collected)|..]
  {
  }

  lemma {:induction false} OnlyMessagesClassified(rest: Bytes, handshake: Bytes, left: nat)
    ensures var r := ReadRecords(rest, handshake, left);
            r.Stopped? ==> !r.outcome.Classified?
    decreases left
  {
    hide ReadRecords, FirstRecord;
    EndsHere(rest, handshake, left);
    if left > 0 && FirstRecord(rest).Whole? {
      var body := FirstRecord(rest).body;
      var after := rest[RECORD_HEADER + |body|..];
      if |handshake + body| <= MAX_HANDSHAKE && !Complete(handshake + body) {
        GoesOn(rest, handshake, left, body, after);
        OnlyMessagesClassified(after, handshake + body, left - 1);
      }
    }
  }

  // ---------- bounds ----------

  lemma {:induction false} TakenBound(rest: Bytes, handshake: Bytes, left: nat)
    requires |handshake| <= MAX_HANDSHAKE
    ensures var r := ReadRecords(rest, handshake, left);
            var taken := |rest| - |r.rest|;
            taken <= left * RECORD_HEADER + MAX_HANDSHAKE - |handshake| + if r.Message? then 0 else MAX_HANDSHAKE
    decreases left
  {
    hide ReadRecords;
    EndsHere(rest, handshake, left);
    if left > 0 && FirstRecord(rest).Whole? {
      var body := FirstRecord(rest).body;
      var after := rest[RECORD_HEADER + |body|..];
      if |handshake + body| <= MAX_HANDSHAKE && !Complete(handshake + body) {
        GoesOn(rest, handshake, left, body, after);
        TakenBound(after, handshake + body, left - 1);
        assert left * RECORD_HEADER == (left - 1) * RECORD_HEADER + RECORD_HEADER;
      }
    }
  }

  /** raw, which is what the stream has over `rest`, holds at most 16424 bytes when a message
      was classified and 32808 in any case. */
  lemma PeekBounds(s: Bytes, raw: Bytes)
    requires raw + ReadStream(s).rest == s
    ensures ReadStream(s).Message? ==> |raw| <= 16424
    ensures |raw| <= 32808
  {
    var r := ReadStream(s);
    TakenBound(s, [], MAX_RECORDS);
    assert MAX_RECORDS * RECORD_HEADER == 40;
    assert |s| - |r.rest| <= 40 + MAX_HANDSHAKE + if r.Message? then 0 else MAX_HANDSHAKE;
    assert |raw| + |r.rest| == |s|;
  }
}
