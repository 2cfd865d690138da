# MeshMorphic: the visitor path, the route table and the identities behind them

MeshMorphic lets a machine at home serve a web site through other people's edges. A visitor
connects to an edge; the edge reads just enough of the connection to learn the host name,
finds the tunnel whose agent serves that name, announces the visitor on a new stream, replays
the bytes it has read and from then on copies. This project models that path from the
visitor's first byte to the agent's TLS or HTTP server, the table that decides which agent
gets a name, and what the decision rests on: names and IDs computed from public keys, and a
signed handshake.

Text is a sequence of bytes, as it is in Go. A connection is the byte string that arrives on
it before reading fails, and every read returns some of it, as much or as little as it likes;
a contract that mentions only that byte string therefore holds for every way the network cuts
it up. A write may fail after any part of its bytes; what must arrive is stated for write sides
that do not break (`Sink.sound`), and what may have arrived for all. SHA-256, Ed25519, base64
and JSON are parameters, with these assumptions and no others:

* digests have 32 bytes, checksums two;
* base64 and JSON decoding undo encoding, base64 text has no white space around it, and a
  body decoded for a type has that type;
* a signature verifies for what was signed, and a text that verifies under an honest key was
  signed with that key; 32-byte nonces that a server draws have not been seen before.

The files, in the order in which they build on each other:

| file | what it holds |
|---|---|
| `ByteText.dfy` | bytes, big-endian numbers, ASCII text operations |
| `Streams.dfy` | connections, full reads, sinks, copying |
| `ClientHello.dfy` | the lenient ClientHello grammar: trees, printer, parser |
| `Sni.dfy` | the cursor, the ClientHello walk, the record loop |
| `Reassembly.dfy` | fragments on the wire and what the record loop makes of them |
| `HelloBytes.dfy` | the visitor's TLS stream byte by byte |
| `Hosts.dfy` | normalizing and validating host names |
| `HttpHead.dfy` | the Host header of a cleartext request |
| `Frames.dfy` | length-prefixed frames and typed messages |
| `ZBase32.dfy` | bit strings, the base32 code, the streaming coders on wrapping words |
| `Numerals.dfy` | the base32 code as arithmetic on whole numbers |
| `Recovery.dfy` | recovery keys |
| `Identity.dfy` | host labels and peer IDs |
| `Handshake.dfy` | both halves of the authentication exchange |
| `Agreement.dfy` | any number of handshakes on a hostile network |
| `Routes.dfy` | the edge's policy and route table |
| `RouteRuns.dfy` | the table under every interleaving of checks, installs and withdrawals |
| `FirstCome.dfy` | first come, first served for custom names, and when it breaks |
| `Visitor.dfy` | one visitor at the edge |
| `Agent.dfy` | the agent's names and streams, and one visit from end to end |
| `MeshNames.dfy` | names below the mesh domains |
| `Mesh.dfy` | network, handshakes, table and visits together: who gets a visitor's bytes |
| `Gateway.dfy` | sessions replacing each other at a gateway |
| `Reconcile.dfy` | edge tunnels following the edge list |

`dafny verify dfyconfig.toml` checks all of them.

## What the code does where its comments say otherwise

* The alphabet of recovery keys contains `1` and `o` (internal/recovery/recovery.go:34 says it
  has no `1`), and a key has eleven groups, not twelve (internal/recovery/recovery.go:10).
* For a name below a mesh domain the answer is not a calculation from the key alone: the first
  domain in the list that matches decides (internal/edge/edge.go:279-292), and it must be
  exactly what normalizing leaves below the label. So a peer does not get its own name when
  nested domains are listed in the wrong order (`MeshNames.NestedDomainIsLost`) or when the
  domain is listed with a trailing dot (`MeshNames.TrailingDotIsLost`).
  `MeshNames.AutomaticNameIff` says for every domain when the edge takes the name.
* Before that the agent checks what a gateway offers it (internal/agent/agent.go:307-313), and
  refuses the whole welcome when one of the names is not its own label, a dot and something
  more. A gateway that has a domain of which normalizing leaves nothing, as `:80` or `.`, thereby
  gives nobody a name below any of its domains (`MeshNames.VanishingDomainLosesAll`), even where
  an edge would take the bare label as a custom name (`MeshNames.BareLabelPasses`).
  `MeshNames.AutomaticNameMeetsIff` says when the whole path from the gateway's list to the
  agent's answer works, and `MeshNames.LoneDomainMeetsIff` what that comes to with one domain.
* That a custom name goes to its first claimant (internal/edge/edge.go:273) holds for claims
  that do not overlap. The lock is released between check and install, so overlapping claims
  can hand a served name to another peer; `FirstCome.OvertakenIffContested` says exactly when.
* Normalizing a name is not always final: `a..` becomes `a.` and then `a`. Names a user adds
  are validated and safe from this; names from the configuration are not validated
  (internal/agent/agent.go:155-157). One that is held unsettled, and its final form not, is
  lost, because edge and agent each normalize once more (`Agent.UnsettledNameIsLost`), and one that normalizes to
  nothing is settled but refused by the edge (`Agent.EmptyNameIsRefused`).
  `Agent.ConfiguredNameMeetsIff` says when a single held name is claimed, announced and served
  as one name, and `Agent.HeldNameMeetsIff` when one among others is.
* A recovery body without its prefix decodes too, except when it happens to begin with `mm1`
  (`Recovery.BareBodyIff`), as the bodies of all seeds that begin 0x5A, 0xE4 do.
* The role a peer presents is not part of what it signs; `Agreement.RoleIsNotCovered`.

## Model

| member | source | states |
|---|---|---|
| Streams.ReadFull | internal/sni/sni.go:60-63 | a full read gives exactly the next n bytes, or fails and has swallowed what was left, however the bytes arrive |
| Streams.CopyPiece | internal/edge/edge.go:416-428 | one turn of a copy writes exactly what it read; if the write breaks off, what went out is a prefix of it, and over a write side that does not break it never does |
| Streams.CopyOn | internal/edge/edge.go:416-428 | whatever happens between the turns, what has gone out is what has been read, in order, and all of it when the copy is over without loss; nothing is lost over a write side that does not break |
| ClientHello.PrintParsed | internal/sni/sni.go:100-169 | every byte string has a well-formed tree of the lenient grammar that prints to it |
| ClientHello.ParsePrinted | internal/sni/sni.go:100-169 | parsing a printed tree gives that tree back |
| ClientHello.TreeUnique | internal/sni/sni.go:100-169 | the grammar is unambiguous |
| ClientHello.VerdictIffTree | internal/sni/sni.go:100-169 | the answer, name or error, is the one the grammar assigns to the one tree of the bytes |
| ClientHello.FoundIffCarried | internal/sni/sni.go:125-169 | a name comes out exactly when the bytes print from a hello whose first server_name extension has that non-empty name as its first host_name entry |
| Sni.Parser.Skip | internal/sni/sni.go:185-191 | the cursor moves by n or not at all, and never past the end |
| Sni.Parser.Uint8 | internal/sni/sni.go:193-200 | one byte is taken exactly when there is one |
| Sni.Parser.Uint16 | internal/sni/sni.go:202-209 | two bytes, big-endian, are taken exactly when there are two |
| Sni.Parser.Vector | internal/sni/sni.go:212-227 | a vector is cut off exactly when length and body are there; on failure the cursor may stand behind the length field |
| Sni.Parser.SkipVector | internal/sni/sni.go:229-232 | the same, without the body |
| Sni.ParseServerNameList | internal/sni/sni.go:145-169 | the list walk gives the verdict of the list's tree and stays within bounds |
| Sni.ParseClientHello | internal/sni/sni.go:100-141 | for every byte string the walk gives the verdict of its tree: an absent extension block and up to three trailing bytes mean no name, not malformed |
| Sni.ReadRecord | internal/sni/sni.go:60-77 | one record is read or refused as the record at the head of the stream demands |
| Sni.Peek | internal/sni/sni.go:50-94 | outcome and replay depend on the stream alone, not on how it is read; the replay is a prefix of the stream, and everything read unless a read fell short |
| Reassembly.FragmentationRoundTrip | internal/sni/sni.go:59-92 | a message cut anywhere into one to eight non-empty records, with any tail, is put together again and the tail left alone |
| Reassembly.HelloRoundTrip | internal/sni/sni.go:50-94 | a printed hello gets the same verdict under every such split: the name it carries, exactly when it carries one |
| Reassembly.MessageIffRecords | internal/sni/sni.go:59-92 | the record loop delivers a message exactly when the stream is a run of records that completes it within the size and count limits, and not before the last |
| Reassembly.FoundIffHelloOnWire | internal/sni/sni.go:50-94 | Peek finds a name exactly when such records carrying a hello with that name head the stream |
| Reassembly.PeekBounds | internal/sni/sni.go:56-93 | at most 16424 bytes are replayed with a message, and at most 32808 ever |
| HelloBytes.EveryCut | internal/sni/sni.go:50-94 | every message of at most 16384 bytes whose header states its length, big-endian, cut into one to eight records of type 22 with big-endian lengths, gets its own verdict, and what follows is left unread |
| HelloBytes.FoundIffHello | internal/sni/sni.go:100-169 | a message gives a name exactly when it is, byte for byte, a hello whose first extension of type 0 has a list whose first entry of type 0 is that name, not empty |
| HelloBytes.StreamNamesIff | internal/sni/sni.go:50-169 | the same for the whole stream, from the first record byte to the name |
| HelloBytes.Refusals | internal/sni/sni.go:59-93 | each refusal and how much is left unread, by what follows the records read so far: cut off, not a handshake record, empty or longer than 16384, too much, or a ninth record |
| HelloBytes.OtherVerdicts | internal/sni/sni.go:100-169 | a message is not a hello exactly when it is shorter than four bytes or does not begin with 1, and nameless exactly in the four ways the grammar has for it |
| Hosts.NormalizesIffSpelling | internal/edge/edge.go:506-526 | a text normalizes to a canonical name exactly when it is that name in some letter case, with white space, a trailing dot or a numeric port as it may be |
| Hosts.SpellingNormalizes | internal/agent/tunnel.go:352-372 | every such spelling normalizes to the name, at the agent as at the edge |
| Hosts.NormalizedIsSpelling | internal/edge/edge.go:506-526 | normalizing never changes more than that, for any text |
| Hosts.NormalizeIff | internal/edge/edge.go:506-526 | the whole of normalizing for every text: tab to carriage return and space go at both ends, then a colon and digits if something stands before them, then one dot, and A to Z become a to z; nothing else |
| Hosts.FixedIffSettled | internal/edge/edge.go:506-526 | a text is left alone exactly when it has no outer white space, port, trailing dot or capital |
| Hosts.NormalizeTwiceDiffers | internal/edge/edge.go:506-514 | a second trailing dot outlives the first pass: every canonical name with two dots is one that normalizing twice changes twice |
| Hosts.NormalizeAfter | internal/edge/edge.go:506-514 | below a label, normalizing works on the rest alone, for every rest that begins with a dot |
| Hosts.ValidIsCanonical | internal/agent/control.go:112-146 | every name that passes validation is canonical and a fixed point of normalizing |
| Hosts.ValidIff | internal/agent/control.go:112-146 | a name passes validation exactly when it is at most 253 bytes of two or more labels joined by dots, the last not "local", each 1 to 63 of a to z, 0 to 9 and dash, with no dash at its ends |
| Hosts.InvalidIff | internal/agent/control.go:112-146 | and each error is given exactly for its fault, the first in the order of the checks |
| HttpHead.HeadRoundTrip | internal/edge/edge.go:464-476 | for a head written as lines, the host is the value of the first Host header line, in any case and with any white space, and there is none exactly when there is no such line |
| HttpHead.JoinSplit | internal/edge/edge.go:465 | every head is lines: splitting at CRLF gives lines without CRLF that join to the head |
| HttpHead.HostFromHeadIff | internal/edge/edge.go:464-476 | for every head, the host is a value exactly when the head is a request line and header lines of which the first Host header has that value |
| HttpHead.HostIffRequest | internal/edge/edge.go:451-476 | a stream's first head gives a host exactly when the stream begins with a request line, non-empty header lines and a blank line, all ended by the bytes 13 and 10, and the first Host header has that value |
| HttpHead.HostValueIff | internal/edge/edge.go:467-473 | a line counts as Host header exactly when it is "host" in some letter case, a colon and the value, each with any of the six white space bytes around it, and the value has none at its ends |
| HttpHead.HeadEndOfPrefix | internal/edge/edge.go:447-455 | reading further never moves the end of the head, and reading less only hides it |
| HttpHead.PeekHttpHost | internal/edge/edge.go:439-461 | whatever the reads, a head that ends within 8192 bytes gets its answer; the replay is exactly what was read and at most 8703 bytes |
| Frames.WriteFrame | internal/proto/proto.go:223-238 | a message whose body is over 1 MiB is refused before anything is sent; any other goes out as one frame, and is sent for certain over a write side that does not break |
| Frames.ReadFrame | internal/proto/proto.go:244-258 | the first frame of the stream or the error its first fault demands, with what follows untouched; no body exceeds the cap |
| Frames.FirstFrameIff | internal/proto/proto.go:244-258 | a stream begins with a frame exactly when it is the encoding of that body followed by the rest |
| Frames.FramesIff | internal/proto/proto.go:223-258 | n frames are read from a stream exactly when it is the concatenation of those n frames and the tail: frame streams decode uniquely |
| Frames.ReadExpect | internal/proto/proto.go:262-304 | the message of the wanted type, or the remote's own error, or the fault, in the order in which the code looks; bytes after the frame stay unread |
| Frames.FirstMessageIff | internal/proto/proto.go:244-304 | a stream gives a message of the wanted type exactly when it begins with a frame, its length big-endian in four bytes, whose body has that type in its envelope and decodes to it |
| Frames.ExpectedIff | internal/proto/proto.go:262-304 | and for a body each error is given exactly for its fault: no envelope, no type, an error message where none was wanted, another type |
| Frames.MessageRoundTrip | internal/proto/proto.go:223-304 | a message written as a frame is read back and leaves what follows; an error message surfaces with its code and text |
| ZBase32.EncodeBase32 | internal/recovery/recovery.go:132-147 | the streaming encoder, whose accumulator is never cleared and wraps at 32 or 64 bits, gives the big-endian bits in groups of five, zero padded |
| ZBase32.DecodeBase32 | internal/recovery/recovery.go:150-166 | the streaming decoder gives the whole bytes of the symbols' bits, and fails exactly on a foreign character |
| ZBase32.RoundTrip | internal/recovery/recovery.go:132-166 | decoding undoes encoding for byte strings of every length |
| ZBase32.EncodedInjective | internal/identity/identity.go:115-130 | different byte strings have different texts |
| Numerals.EncodedIff | internal/recovery/recovery.go:132-147 | a text is the encoding of a byte string exactly when it is the fewest letters of "ybndrfg8ejkmcpqxot1uwisza345h769" that have room for it and, as a number in base 32, the bytes' number in base 256 shifted to fill them |
| Numerals.DecodedIff | internal/recovery/recovery.go:150-166 | decoding gives the whole bytes of the text's number shifted back, and fails exactly on a byte outside the alphabet |
| Recovery.Grouped | internal/recovery/recovery.go:68-73 | the grouping loop writes the body in capitals in dashed groups of five |
| Recovery.DashedShape | internal/recovery/recovery.go:68-73 | in the printed groups a dash stands before every fifth letter from the first, and every letter in its place as a capital |
| Recovery.Encode | internal/recovery/recovery.go:58-74 | the key of a usable identity is "MM1" and the grouped body of its first 32 bytes and their checksum; without a private key of 64 bytes it is refused |
| Recovery.RecoveryRoundTrip | internal/recovery/recovery.go:58-120 | a key written down in any case, with dashes, spaces, tabs, line feeds, carriage returns and underscores anywhere, even inside the prefix, and any white space around, gives the seed back, also when the body begins like the prefix |
| Recovery.PrintedKeyWrites | internal/recovery/recovery.go:58-120 | in particular the text that Encode prints does |
| Recovery.DecodeIff | internal/recovery/recovery.go:81-120 | a text is accepted exactly when the body it is read as is in the alphabet and its bits begin with a seed of 32 bytes and its checksum; it is malformed exactly when that is shorter than 55 letters or has a foreign byte |
| Recovery.ReadsIff | internal/recovery/recovery.go:81-91 | every text is read as one body: what it writes in small letters, without the six bytes that mean nothing, white space around it and one "mm1" in front |
| Recovery.OnlyFirstBitsMatter | internal/recovery/recovery.go:95-113 | the answer depends on the first 272 bits only |
| Recovery.ChecksumTypoCaught | internal/recovery/recovery.go:106-113 | replacing symbol 52 or 53 of a valid key always gives the checksum error, for any checksum function |
| Recovery.BareBodyIff | internal/recovery/recovery.go:90-93 | a body without the prefix decodes to its seed exactly when it does not itself begin with the prefix |
| Recovery.SomeBodiesBeginLikeThePrefix | internal/recovery/recovery.go:90-93 | such bodies exist, whatever the checksum: those of all seeds beginning 0x5A, 0xE4; they decode with the prefix and not without it |
| Identity.LabelShape | internal/identity/identity.go:87-93 | a host label is twenty lower-case letters and digits |
| Identity.LabelMessage | internal/identity/identity.go:71-93 | the message a label is hashed from tells the key and is never a key itself, so labels and IDs are hashes of different messages |
| Identity.LabelsEqualIff | internal/identity/identity.go:87-130 | two different keys have one label exactly when SHA-256 collides in twelve bytes on their messages, each "meshmorphic-host-v1", a zero byte and the key |
| Identity.LabelsCollideIff | internal/identity/identity.go:96-101 | a name verifies for a key of 32 bytes exactly when it is its label in some letter case, and for two keys exactly when for one, and the other is the same or collides with it |
| Identity.IdsCollideIff | internal/identity/identity.go:66-69 | two different keys have one peer ID exactly when SHA-256 collides on them in twenty bytes |
| Identity.IdShape | internal/identity/identity.go:66-69 | an ID is "mm1" and thirty-two small letters and digits |
| Handshake.AuthInputInjective | internal/transport/transport.go:155-163 | the signed bytes determine nonce and server key, for nonces of any length |
| Handshake.SeparatorAloneIsAmbiguous | internal/transport/transport.go:155-163 | they do so only because keys have one length: the zero byte between them separates nothing by itself |
| Handshake.KeyRoundTrip | internal/identity/identity.go:134-149 | an encoded key decodes exactly when it has 32 bytes |
| Handshake.ClientReadsIff | internal/transport/transport.go:195-215 | the client answers exactly a challenge whose nonce has at least 32 bytes and whose key has 32, the pinned one if there is one, and refuses any other for its nonce, its key or its server, in this order |
| Handshake.OpeningIff | internal/transport/transport.go:236-262 | the server admits exactly a hello of version 1 with a key of 32 bytes and the ID of that key, and keeps its role and agent; any other is refused for its version, its key or its ID, in this order |
| Handshake.RefusalCodes | internal/transport/transport.go:240-284 | what a refused peer is told: unsupported_version, bad_identity or bad_signature, and nothing when reading or writing failed |
| Handshake.ClosingIff | internal/transport/transport.go:271-285 | the answer is accepted exactly when it is a signature that verifies under the peer's key over the domain, the nonce and the server's key, byte by byte, and else refused as no text or no signature |
| Handshake.ClientHandshake | internal/transport/transport.go:175-223 | the client sends its hello and signs at most once, only a nonce of at least 32 bytes and the server key it pinned; what has gone out when sending breaks off is a prefix; every other error has its cause in the server's bytes, and over a write side that does not break the result is exactly what these bytes demand |
| Handshake.ServerHandshake | internal/transport/transport.go:230-286 | success proves an ID that is the key's own and a signature over this nonce and this server; the challenge goes only to an admitted hello, a refusal is sent where the code sends one, and every error has its cause in the client's bytes; over a write side that does not break the result and all that is sent are exactly what these bytes demand |
| Handshake.HonestExchange | internal/transport/transport.go:175-286 | each side's messages, with anything behind them, are what the other accepts: the client accepts the challenge and the server admits the hello and the signature, learning the client's key, ID and role |
| Handshake.Undisturbed | internal/transport/transport.go:175-286 | the two handshakes against each other, over write sides that do not break: both succeed, the server with the client's key, ID and role, and what the client read is what the server wrote |
| Agreement.RunKeepsInv | internal/transport/transport.go:175-286 | every run keeps what the theorem below rests on |
| Agreement.InjectiveAgreement | internal/transport/transport.go:175-286 | in every run, each session completed for an honest key has its own client run that signed for this server and this nonce, wanted this server, and did so between challenge and completion |
| Agreement.CompletedHandshakeIsRun | internal/transport/transport.go:230-286 | a server handshake that succeeds in the midst of any other steps is a completed run, so an honest client's run agrees with it |
| Agreement.RoleIsNotCovered | internal/transport/transport.go:183-190 | the role is not part of that: a run where both complete with different roles |
| Routes.Server.Authorize | internal/edge/edge.go:278-303 | the loop over the mesh domains decides as the first domain that matches does, and a custom name by who serves it |
| Routes.Server.Claim | internal/edge/edge.go:246-263 | every name of a list is judged as if it came first, in any order; routes are added for those that pass, none is taken away |
| Routes.Server.WithdrawAll | internal/edge/edge.go:306-317 | exactly the routes the tunnel owns go, whatever order the map is walked in |
| Routes.AcceptedIff | internal/edge/edge.go:246-263 | a name of a claim is accepted exactly when its normal form is not empty and the policy allows it, whatever stands beside it |
| Routes.ClaimConcat | internal/edge/edge.go:246-263 | what a claim answers to a list, accepted and rejected, is what it answers to the parts, in order |
| Routes.RefusedIff | internal/edge/edge.go:278-303 | each reason for refusing a host, exactly: more than one label, not the key's label, no custom names here, taken by that peer |
| Routes.MatchingDomainIff | internal/edge/edge.go:279-284 | the deciding domain is the first in the list that the host lies under |
| RouteRuns.PolicyIff | internal/edge/edge.go:247-303 | a name passes exactly when it is non-empty, below a mesh domain is the label the key derives, and outside is served by nobody or the same peer on an edge that takes custom names |
| RouteRuns.EveryRunIsSafe | internal/edge/edge.go:175-317 | over every interleaving of accept, check, install and withdraw: every route's owner is still open, connection and peer ID are the owner's, the peer ID is that of its key, and the key is entitled to the name |
| RouteRuns.WithdrawnForGood | internal/edge/edge.go:193-317 | a departing tunnel takes exactly its own routes, a reconnected peer keeps the new ones, and no name ever leads to the departed tunnel again |
| RouteRuns.ClaimIsRun | internal/edge/edge.go:246-263 | the method Claim is the step machine with nobody else moving |
| FirstCome.FirstComeHolds | internal/edge/edge.go:246-303 | with claims one at a time, over every run the peer behind a custom name never changes while its route stays |
| FirstCome.ReclaimIff | internal/edge/edge.go:296-302 | a claim on a served custom name succeeds exactly for the peer that serves it |
| FirstCome.OvertakenIffContested | internal/edge/edge.go:253-259 | pending installs can hand a served name to another peer exactly when two peers are after it at once |
| FirstCome.OverlappingClaimsOvertake | internal/edge/edge.go:253-259 | the run in which that happens, for any two peers and any custom name |
| MeshNames.MeshHoldersCollide | internal/edge/edge.go:278-292 | two different keys hold one mesh name, at any moments of any runs, only if SHA-256 collides in twelve bytes on their label messages |
| MeshNames.MeshTakeoverIff | internal/edge/edge.go:278-292 | a claim takes over a served mesh name exactly when the keys are one, or collide in that way |
| MeshNames.AutomaticNormalized | internal/gateway/gateway.go:221-225 | the name a gateway computes is normalized below its label alone, whatever its domain |
| MeshNames.AutomaticNameIff | internal/edge/edge.go:246-303 | for every domain, an edge takes a peer's name below it exactly when the domain, as normalizing leaves it, is the first listed one it lies under, or it lies under none and the name is free as a custom one |
| MeshNames.WelcomeTakenIff | internal/agent/agent.go:307-313 | the agent accepts what a gateway offers exactly when normalizing leaves something of every one of the gateway's domains |
| MeshNames.AutomaticNameMeetsIff | internal/agent/agent.go:307-314 | for every list of domains a gateway may have and whatever else the agent holds: the welcome is taken, and the name for a domain is accepted by the edge and served when announced, exactly when normalizing leaves something of every domain, what it leaves of this one after two passes passes at the edge, and what it leaves after three is what one pass leaves of some listed domain, or makes a name otherwise held |
| MeshNames.LoneDomainMeetsIff | internal/agent/agent.go:307-314 | with one domain and no other names: exactly when something is left of the domain, nothing more is left to normalize, and the name passes |
| MeshNames.VanishingDomainLosesAll | internal/agent/agent.go:307-313 | one empty domain, or one that is only a port, and the agent refuses the welcome, whatever the others are |
| MeshNames.BareLabelPasses | internal/edge/edge.go:246-303 | the edge's policy alone would let such a name pass as a custom one |
| MeshNames.ListedDomainIff | internal/edge/edge.go:279-292 | for a listed domain with nothing to normalize the order of the list alone decides |
| MeshNames.NestedDomainIsLost | internal/edge/edge.go:279-287 | two nested domains in the wrong order, below which nobody gets a name |
| MeshNames.TrailingDotIsLost | internal/edge/edge.go:105-107 | a single domain with a trailing dot, below which nobody gets a name |
| Visitor.NamesIff | internal/edge/edge.go:354-361 | which streams name a host, byte by byte: records carrying a hello with it, or a request whose first Host header has it |
| Visitor.Classify | internal/edge/edge.go:354-366 | the name the stream asks for and exactly the bytes read, for either kind of connection |
| Visitor.Splice | internal/edge/edge.go:412-430 | both directions, their pieces alternating in any way: each carries its bytes in order, all of them unless its write side breaks, and then its write side is closed |
| Visitor.ServeVisitor | internal/edge/edge.go:347-406 | a stream, opened only on the route of the normalized name, gets its header, with protocol, host and visitor's address, and then the visitor's bytes from the first, and nothing else; over write sides that do not break, a visitor of a routed name whose stream opens is always spliced and everything arrives both ways; one who is not spliced gets the page for no route or for no stream, and only over HTTP; both ends are closed |
| Agent.Agent.constructor | internal/agent/agent.go:155-157 | configured names are normalized, and not validated |
| Agent.Agent.AddHostname | internal/agent/control.go:67-91 | the name is added exactly when it is a domain of two or more proper labels and not below the agent's own, then every spelling of it is served, and tunnels are woken when the set changed |
| Agent.Agent.RemoveHostname | internal/agent/control.go:94-107 | no spelling is served any more, and an automatic address is never removed |
| Agent.Agent.TakeWelcome | internal/agent/agent.go:307-314 | the agent takes a welcome exactly when every offered name, normalized, is its own label, a dot and the rest, and then holds all of them; otherwise it takes none |
| Agent.Agent.AddHostnames | internal/agent/agent.go:484-492 | the names held grow by exactly the normal forms of the list, without the empty one |
| Agent.Agent.HandleVisitorStream | internal/agent/tunnel.go:206-244 | only a served name is delivered, to the server its protocol names, with every byte after the header still unread |
| Agent.HeaderArrives | internal/edge/edge.go:390-405 | the agent reads the header the edge announced, and behind it the visitor's stream from its first byte |
| Agent.ByteTransparency | internal/agent/tunnel.go:206-244 | what the agent's server, the one for the visitor's protocol, reads is the visitor's stream, whole when the tunnel stream was whole, a prefix when it broke |
| Agent.Visit | internal/edge/edge.go:347-430 | one visit from end to end: a visitor who names a routed host in time is spliced to the agent at the far end of the route's connection; if that agent serves the name, the server for the visitor's protocol reads the visitor's bytes under the visitor's address and the visitor the site's, unaltered, and all of them over write sides that do not break; if not, the site reads nothing |
| Agent.NamesMeet | internal/agent/tunnel.go:247-251 | claimed key, visitor lookup and the agent's check are one name, for every spelling |
| Agent.HeldNameMeetsIff | internal/agent/agent.go:155-157 | whatever else stands in the claim, a held name is routed to its agent and served exactly when the edge's form of it passes the policy and the agent holds the form after two passes |
| Agent.ConfiguredNameMeetsIff | internal/agent/agent.go:155-157 | a held name by itself is accepted by the edge and served when announced exactly when it is settled, not empty and passes the policy |
| Agent.UnsettledNameIsLost | internal/agent/tunnel.go:226-230 | a name configured with two trailing dots: the edge accepts and announces what the agent refuses |
| Agent.EmptyNameIsRefused | internal/edge/edge.go:248-252 | the configured name `.` is held as the empty name, settled, and refused by the edge |
| Mesh.RoutesAreAuthentic | internal/edge/edge.go:175-303 | in every run of network, handshakes and table, a route leads to a connection on which a handshake with this edge completed for the key that has the route's peer ID, derives the mesh name and, if honest, signed this edge's challenge |
| Mesh.ConnectionsSignSeparately | internal/edge/edge.go:175-193 | one client's signature never stands behind two connections |
| Mesh.SomeRunServes | internal/edge/edge.go:175-263 | for every honest key and every name the policy allows it, there is a run after which the name leads to a connection authentic for that key |
| Mesh.VisitInRun | internal/edge/edge.go:347-406 | after any run, a visitor is spliced only to such a connection for the name asked for; one who names a routed host in time is spliced, and both ways the bytes pass unaltered, all of them, over write sides that do not break |
| Gateway.SessionsReplaced | internal/gateway/gateway.go:227-247 | over every interleaving no done channel is closed twice, a mapped session's is open, the map holds a peer's latest session exactly while it has not ended, and a superseded one has been told |
| Gateway.Server.Enter | internal/gateway/gateway.go:227-239 | a session that registers replaces and closes the peer's earlier one, and closes nothing twice |
| Gateway.Server.Leave | internal/gateway/gateway.go:241-247 | a session that ends takes the entry away only if it is still its own |
| Reconcile.WantedEdges | internal/agent/agent.go:418-421 | of several entries for an edge the last counts |
| Reconcile.Tunnels.Reconcile | internal/agent/agent.go:417-453 | afterwards the active tunnels are those of the list, none that was running is restarted, only edges without one get a new one, each with one supervisor |
| Reconcile.Tunnels.StopAll | internal/agent/agent.go:456-463 | afterwards none is active and every context was cancelled exactly once |
| Reconcile.Tunnels.Session | internal/agent/agent.go:328-363 | over a session with any edge lists, every context ever created is cancelled exactly once and had one supervisor |

## Left out

- The device store of the panel (internal/panel/devices.go), `internal/panel/site.go`, the panel's pages and the commands: interface and file handling, and a pairing list whose properties can be read off its code.
- QUIC, TLS and certificates, dialling, listening, autocert: library calls. The identity key also signs TLS handshakes; the agreement theorem covers any other signing of texts that do not begin with the handshake's domain and a zero byte.
- Deadlines and timeouts: an expired deadline is one of the ways in which reading fails.
- Reads that return neither bytes nor an error; Go discourages them.
- Case folding and white space beyond ASCII, and bytes that are not valid UTF-8: names that matter here are ASCII.
- Unbounded counts: lengths are unbounded integers, as no list here comes near the width of a Go int.
- The text of the error pages that a cleartext visitor gets when there is no route or no stream.
- `parseRemote` (internal/agent/tunnel.go): the address a site sees is the announced text, not what is parsed from it.
- Visitor.Splice: a read and the write of what it gave are one step; that a peer may answer a closed write side by closing its own is part of what arrives.
- Handshake.Refuse: the wording of refusals is a parameter, the codes are the code's.
- Frames.ReadExpect: `ReadTyped` is part of it; the other users of `ReadTyped` only dispatch.
- Sni.Parser.Vector: the length field is one or two bytes wide, the only widths in use.
- Trimming and lower-casing of the configured mesh domains (`New` in internal/edge/edge.go): the results hold for lists of any texts.
- `maintainClaim`, keepalives and back-off: when a claim is sent again depends on a ticker.
- Edge entries at a gateway, `broadcastEdges` and `learnGateways`: entries are deleted without an owner check and pushed lists may be dropped or overtake each other, so the code promises no convergence.
- Mesh.VisitInRun: that the far end of a connection is the party whose signature completed its handshake rests on TLS, which is not modelled.
- Recovery.Encode: the key pair that Ed25519 derives from the seed is not computed; a decoded key is its seed.
- Reconcile.Tunnels.Supervise: what a supervisor does under its context is not modelled.
