/** internal/identity/identity.go: peer IDs and host labels derived from a public key.

    SHA-256 is a parameter: any function to 32 bytes. */
module Identity {
  import opened ByteText
  import Z = ZBase32

  const PUBLIC_KEY_SIZE: nat := 32
  const DIGEST_SIZE: nat := 32
  const ID_DIGEST: nat := 20
  const LABEL_DIGEST: nat := 12

  ghost predicate IsHash(sha: Bytes -> Bytes) { forall m :: |sha(m)| == DIGEST_SIZE }

  /** "mm1". */
  const PREFIX: Bytes := [109, 109, 49]

  function HostLabelInput(pub: Bytes): Bytes { Ascii("meshmorphic-host-v1") + [0] + pub }

  /** The twelve digest bytes a host label is made of. */
  function LabelDigest(sha: Bytes -> Bytes, pub: Bytes): Bytes
    requires IsHash(sha)
  {
    sha(HostLabelInput(pub))[..LABEL_DIGEST]
  }

  function HostLabel(sha: Bytes -> Bytes, pub: Bytes): Bytes
    requires IsHash(sha)
  {
    Z.Encoded(LabelDigest(sha, pub))
  }

  function PeerId(sha: Bytes -> Bytes, pub: Bytes): Bytes
    requires IsHash(sha)
  {
    PREFIX + Z.Encoded(sha(pub)[..ID_DIGEST])
  }

  predicate VerifyHostLabel(sha: Bytes -> Bytes, name: Bytes, pub: Bytes)
    requires IsHash(sha)
  {
    |pub| == PUBLIC_KEY_SIZE && EqualFold(name, HostLabel(sha, pub))
  }

  predicate VerifyId(sha: Bytes -> Bytes, id: Bytes, pub: Bytes)
    requires IsHash(sha)
  {
    |pub| == PUBLIC_KEY_SIZE && id == PeerId(sha, pub)
  }

  /** A label is twenty letters and digits, in lower case already. */
  lemma LabelShape(sha: Bytes -> Bytes, pub: Bytes)
    requires IsHash(sha)
    ensures var l := HostLabel(sha, pub);
            |l| == 20 && Lower(l) == l && forall k :: 0 <= k < 20 ==> IsLower(l[k]) || IsDigit(l[k])
  {
    var bits := Z.BitsOfBytes(LabelDigest(sha, pub));
    Z.SymbolsCount(bits);
    forall k | 0 <= k < 20 ensures var c := HostLabel(sha, pub)[k]; IsLower(c) || IsDigit(c) {
      LetterShape(Z.Symbols(bits)[k]);
    }
  }

  lemma LetterShape(i: Z.Symbol)
    ensures IsLower(Z.Letter(i)) || IsDigit(Z.Letter(i))
  {
  }

  /** What is hashed for a label: "meshmorphic-host-v1", a zero byte and the key. */
  function NameMessage(pub: Bytes): Bytes {
    [109, 101, 115, 104, 109, 111, 114, 112, 104, 105, 99, 45, 104, 111, 115, 116, 45, 118, 49, 0] + pub
  }

  /** Two different messages whose hashes begin with the same n bytes. */
  ghost predicate Collide(sha: Bytes -> Bytes, a: Bytes, b: Bytes, n: nat)
    requires IsHash(sha) && n <= 32
  {
    a != b && sha(a)[..n] == sha(b)[..n]
  }

  /** The label is made of the first twelve bytes of one hash. What is hashed tells the key, and
      is never a key itself, so a label and a peer ID come from different messages. */
  lemma LabelMessage(sha: Bytes -> Bytes, p: Bytes, q: Bytes)
    requires IsHash(sha)
    ensures HostLabel(sha, p) == Z.Encoded(sha(NameMessage(p))[..12])
    ensures NameMessage(p) == NameMessage(q) <==> p == q
    ensures |p| == 32 && |q| == 32 ==> NameMessage(p) != q
  {
    assert HostLabelInput(p) == NameMessage(p);
    assert NameMessage(p)[20..] == p && NameMessage(q)[20..] == q;
  }

  /** Two keys have one label exactly when their messages collide in twelve bytes. */
  lemma LabelsEqualIff(sha: Bytes -> Bytes, p: Bytes, q: Bytes)
    requires IsHash(sha)
    ensures HostLabel(sha, p) == HostLabel(sha, q) <==> p == q || Collide(sha, NameMessage(p), NameMessage(q), 12)
  {
    LabelMessage(sha, p, q);
    LabelMessage(sha, q, p);
    if HostLabel(sha, p) == HostLabel(sha, q) {
      Z.EncodedInjective(sha(NameMessage(p))[..12], sha(NameMessage(q))[..12]);
    }
  }

  /** One label verifies for two keys exactly when it is that of one, in some letter case, and the
      other is a key with the same label. */
  lemma LabelsCollideIff(sha: Bytes -> Bytes, name: Bytes, p: Bytes, q: Bytes)
    requires IsHash(sha)
    ensures VerifyHostLabel(sha, name, p) <==> |p| == 32 && InSomeCase(name, HostLabel(sha, p))
    ensures VerifyHostLabel(sha, name, p) && VerifyHostLabel(sha, name, q) <==>
              && VerifyHostLabel(sha, name, p) && |q| == 32
              && (p == q || Collide(sha, NameMessage(p), NameMessage(q), 12))
  {
    LabelShape(sha, p);
    LabelShape(sha, q);
    InSomeCaseIff(name, HostLabel(sha, p));
    LabelsEqualIff(sha, p, q);
  }

  /** A peer ID is "mm1" and thirty-two letters and digits. */
  lemma IdShape(sha: Bytes -> Bytes, pub: Bytes)
    requires IsHash(sha)
    ensures var id := PeerId(sha, pub);
            |id| == 35 && id[..3] == [109, 109, 49] && forall k :: 0 <= k < 35 ==> IsLower(id[k]) || IsDigit(id[k])
  {
    var bits := Z.BitsOfBytes(sha(pub)[..20]);
    Z.SymbolsCount(bits);
    forall k | 3 <= k < 35 ensures var c := PeerId(sha, pub)[k]; IsLower(c) || IsDigit(c) {
      LetterShape(Z.Symbols(bits)[k - 3]);
    }
  }

  /** Two keys have one ID exactly when they collide in twenty bytes. */
  lemma IdsCollideIff(sha: Bytes -> Bytes, p: Bytes, q: Bytes)
    requires IsHash(sha)
    ensures PeerId(sha, p) == PeerId(sha, q) <==> p == q || Collide(sha, p, q, 20)
  {
    if PeerId(sha, p) == PeerId(sha, q) {
      assert PeerId(sha, p)[3..] == Z.Encoded(sha(p)[..ID_DIGEST]);
      assert PeerId(sha, q)[3..] == Z.Encoded(sha(q)[..ID_DIGEST]);
      Z.EncodedInjective(sha(p)[..ID_DIGEST], sha(q)[..ID_DIGEST]);
    }
  }
}
