/** ML-DSA-87 keys in PKCS#8 and SubjectPublicKeyInfo form: the loader and the printers of
    macula-pqc/src/signatures.rs. */
module Pkcs8 {
  import opened Machine
  import opened D = Der
  import opened MlDsaParams
  import opened MlDsaCodec
  import opened MlDsaScheme
  import opened MlDsaInternal
  import opened MlDsa

  /** The algorithm identifier's contents. */
  const ID_ML_DSA_87: seq<Byte> := [0x06, 0x09, 0x60, 0x86, 0x48, 0x01, 0x65, 0x03, 0x04, 0x03, 0x13]

  /** Base-128 groups, most significant first; all but the last of a number have their top bit set. */
  function Groups(b: seq<Byte>, acc: nat): (r: seq<nat>)
    decreases |b|
  {
    if b == [] then []
    else if b[0] < 0x80 then [acc * 128 + b[0]] + Groups(b[1..], 0)
    else Groups(b[1..], acc * 128 + b[0] % 0x80)
  }

  /** The arcs of an object identifier: section 8.19 of ITU-T X.690. The first number holds two arcs. */
  function Arcs(b: seq<Byte>): (r: seq<nat>) {
    var g := Groups(b, 0);
    if g == [] then []
    else
      var first: nat := if g[0] < 40 then 0 else if g[0] < 80 then 1 else 2;
      [first, g[0] - 40 * first] + g[1..]
  }

  /** The arcs after 2.16.840.1.101.3 fit in a byte each. */
  lemma SmallGroups(a: Byte, rest: seq<Byte>)
    requires a < 0x80
    ensures Groups([a] + rest, 0) == [a as nat] + Groups(rest, 0)
  {
    assert ([a] + rest)[1..] == rest;
  }

  lemma TwoBytes840(rest: seq<Byte>)
    ensures Groups([0x86, 0x48] + rest, 0) == [840] + Groups(rest, 0)
  {
    var b := [0x86, 0x48] + rest;
    assert b[1..] == [0x48] + rest && b[1..][1..] == rest;
  }

  lemma NoGroups()
    ensures Groups([], 0) == []
  {
  }

  lemma LastGroups()
    ensures Groups([0x03, 0x04, 0x03, 0x13], 0) == [3, 4, 3, 19]
  {
    hide Groups;
    NoGroups();
    SmallGroups(0x13, []);
    SmallGroups(0x03, [0x13]);
    SmallGroups(0x04, [0x03, 0x13]);
    SmallGroups(0x03, [0x04, 0x03, 0x13]);
    assert [0x03] + [0x04, 0x03, 0x13] == [0x03, 0x04, 0x03, 0x13];
    assert [0x04] + [0x03, 0x13] == [0x04, 0x03, 0x13] && [0x03] + [0x13] == [0x03, 0x13];
    assert [0x13] + [] == [0x13];
  }

  lemma LaterGroups()
    ensures Groups([0x01, 0x65, 0x03, 0x04, 0x03, 0x13], 0) == [1, 101, 3, 4, 3, 19]
  {
    hide Groups;
    LastGroups();
    SmallGroups(0x65, [0x03, 0x04, 0x03, 0x13]);
    SmallGroups(0x01, [0x65, 0x03, 0x04, 0x03, 0x13]);
    assert [0x65] + [0x03, 0x04, 0x03, 0x13] == [0x65, 0x03, 0x04, 0x03, 0x13];
    assert [0x01] + [0x65, 0x03, 0x04, 0x03, 0x13] == [0x01, 0x65, 0x03, 0x04, 0x03, 0x13];
  }

  lemma IdGroups()
    ensures Groups(ID_ML_DSA_87[2..], 0) == [96, 840, 1, 101, 3, 4, 3, 19]
  {
    hide Groups;
    var last: seq<Byte> := [0x01, 0x65, 0x03, 0x04, 0x03, 0x13];
    LaterGroups();
    TwoBytes840(last);
    SmallGroups(0x60, [0x86, 0x48] + last);
    assert ID_ML_DSA_87[2..] == [0x60] + ([0x86, 0x48] + last);
  }

  /** The identifier is that of id-ml-dsa-87, 2.16.840.1.101.3.4.3.19, with no parameters after it: RFC 9881
      section 2. */
  lemma IdIsMlDsa87()
    ensures Tlv(ID_ML_DSA_87) == Some(Element(0x06, ID_ML_DSA_87[2..], []))
    ensures Arcs(ID_ML_DSA_87[2..]) == [2, 16, 840, 1, 101, 3, 4, 3, 19]
  {
    hide Groups, Tlv;
    IdGroups();
    var oid := ID_ML_DSA_87[2..];
    assert ID_ML_DSA_87 == DerBytes(0x06, oid) + [];
    TlvOfDer(0x06, oid, []);
  }

  datatype Outcome = Loaded(key: PrivateKey) | Malformed | OtherAlgorithm | DifferentKeys

  /** What public_key returns. */
  ghost function PublicKeyFor(h: Hashes, key: PrivateKey): (r: Option<seq<Byte>>)
    requires SamplersEnd(h, ML_DSA_87) && IsPrivateKey(key)
  {
    if RightLength(key, ML_DSA_87) && Consistent(h, ML_DSA_87, Parts(h, ML_DSA_87, key))
    then Some(OwnPublicKey(h, ML_DSA_87, Parts(h, ML_DSA_87, key)))
    else None
  }

  function SeedSecret(seed: seq<Byte>): (r: Option<PrivateKey>)
    ensures r.Some? <==> |seed| == 32
    ensures r.Some? ==> r.value == Seed(seed) && IsPrivateKey(r.value)
  {
    if |seed| == 32 then Some(Seed(seed)) else None
  }

  /** The seed is kept once the expanded key is shown to be the same key. */
  ghost function BothSecret(h: Hashes, both: seq<Byte>): (r: Outcome)
    requires SamplersEnd(h, ML_DSA_87)
  {
    hide SamplersEnd, PublicKeyFor;
    match Tlv(both)
    case None => Malformed
    case Some(first) =>
      if first.tag != 0x04 then Malformed
      else match Tlv(first.rest)
        case None => Malformed
        case Some(second) =>
          if second.tag != 0x04 || second.rest != [] || |first.contents| != 32 then Malformed
          else
            var fromSeed := PublicKeyFor(h, Seed(first.contents));
            var fromExpanded := PublicKeyFor(h, Expanded(second.contents));
            if fromSeed == None || fromExpanded == None then Malformed
            else if fromSeed == fromExpanded then Loaded(Seed(first.contents))
            else DifferentKeys
  }

  /** The private key inside the OCTET STRING, in one of its three forms. */
  ghost function InnerSecret(h: Hashes, privateKey: seq<Byte>): (r: Outcome)
    requires SamplersEnd(h, ML_DSA_87)
  {
    hide SamplersEnd, BothSecret;
    match Tlv(privateKey)
    case None => Malformed
    case Some(e) =>
      if e.rest != [] then Malformed
      else if e.tag == 0x80 then
        match SeedSecret(e.contents)
        case None => Malformed
        case Some(key) => Loaded(key)
      else if e.tag == 0x04 then Loaded(Expanded(e.contents))
      else if e.tag == 0x30 then BothSecret(h, e.contents)
      else Malformed
  }

  /** The body of the outer SEQUENCE: a version, an algorithm, a private key, and whatever follows. */
  ghost function BodySecret(h: Hashes, body: seq<Byte>): (r: Outcome)
    requires SamplersEnd(h, ML_DSA_87)
  {
    hide SamplersEnd, InnerSecret, Tlv;
    match Tlv(body)
    case None => Malformed
    case Some(version) =>
      if version.tag != 0x02 || (version.contents != [0] && version.contents != [1]) then Malformed
      else match Tlv(version.rest)
        case None => Malformed
        case Some(algorithm) =>
          if algorithm.tag != 0x30 then Malformed
          else if algorithm.contents != ID_ML_DSA_87 then OtherAlgorithm
          else match Tlv(algorithm.rest)
            case None => Malformed
            case Some(octets) =>
              if octets.tag != 0x04 then Malformed else InnerSecret(h, octets.contents)
  }

  /** secret_of */
  ghost function SecretIn(h: Hashes, pkcs8: seq<Byte>): (r: Outcome)
    requires SamplersEnd(h, ML_DSA_87)
  {
    hide SamplersEnd, BodySecret;
    match Tlv(pkcs8)
    case None => Malformed
    case Some(e) => if e.tag != 0x30 || e.rest != [] then Malformed else BodySecret(h, e.contents)
  }

  // ----- exactly which strings load -----

  /** How the elements of a key file lie inside each other. */
  datatype Layout = Layout(body: seq<Byte>, version: Byte, afterVersion: seq<Byte>, afterAlgorithm: seq<Byte>,
                           inner: seq<Byte>, more: seq<Byte>)

  /** A version, the algorithm and a private key in one outer element; anything may follow the private key. */
  ghost predicate IsKeyFile(x: seq<Byte>, l: Layout) {
    && IsElement(x, Element(0x30, l.body, []))
    && IsElement(l.body, Element(0x02, [l.version], l.afterVersion)) && (l.version == 0 || l.version == 1)
    && IsElement(l.afterVersion, Element(0x30, ID_ML_DSA_87, l.afterAlgorithm))
    && IsElement(l.afterAlgorithm, Element(0x04, l.inner, l.more))
  }

  datatype BothForm = BothForm(both: seq<Byte>, rest: seq<Byte>, expanded: seq<Byte>)

  ghost predicate IsBoth(inner: seq<Byte>, seed: seq<Byte>, b: BothForm) {
    && IsElement(inner, Element(0x30, b.both, []))
    && IsElement(b.both, Element(0x04, seed, b.rest))
    && IsElement(b.rest, Element(0x04, b.expanded, []))
  }

  ghost predicate SameKey(h: Hashes, xi: seq<Byte>, b: BothForm)
    requires SamplersEnd(h, ML_DSA_87)
  {
    PublicKeyFor(h, Expanded(b.expanded)) == Some(PublicKeyOf(h, ML_DSA_87, xi))
  }

  /** The private key is a seed, or an expanded key, or a seed beside an expanded key with the same public key. */
  ghost predicate HoldsKey(h: Hashes, inner: seq<Byte>, key: PrivateKey)
    requires SamplersEnd(h, ML_DSA_87)
  {
    match key
    case Expanded(bytes) => IsElement(inner, Element(0x04, bytes, []))
    case Seed(xi) =>
      && |xi| == 32
      && (IsElement(inner, Element(0x80, xi, [])) || exists b :: IsBoth(inner, xi, b) && SameKey(h, xi, b))
  }

  /** The loader looks through the outer elements at the private key, whatever lengths they are written with
      and whatever follows it. */
  lemma LoadsFile(h: Hashes, x: seq<Byte>, l: Layout)
    requires SamplersEnd(h, ML_DSA_87) && IsKeyFile(x, l)
    ensures SecretIn(h, x) == InnerSecret(h, l.inner)
  {
    hide SamplersEnd, InnerSecret, Tlv, IsElement;
    TlvExactly(x, Element(0x30, l.body, []));
    TlvExactly(l.body, Element(0x02, [l.version], l.afterVersion));
    TlvExactly(l.afterVersion, Element(0x30, ID_ML_DSA_87, l.afterAlgorithm));
    TlvExactly(l.afterAlgorithm, Element(0x04, l.inner, l.more));
  }

  /** Everything that is not refused as malformed or foreign has that layout. */
  lemma LayoutOf(h: Hashes, x: seq<Byte>) returns (l: Layout)
    requires SamplersEnd(h, ML_DSA_87) && SecretIn(h, x).Loaded?
    ensures IsKeyFile(x, l)
  {
    hide SamplersEnd, InnerSecret, Tlv, IsElement;
    var outer := Tlv(x).value;
    var version := Tlv(outer.contents).value;
    var algorithm := Tlv(version.rest).value;
    var octets := Tlv(algorithm.rest).value;
    l := Layout(outer.contents, version.contents[0], version.rest, algorithm.rest, octets.contents, octets.rest);
    TlvExactly(x, outer);
    TlvExactly(l.body, version);
    TlvExactly(l.afterVersion, algorithm);
    TlvExactly(l.afterAlgorithm, octets);
  }

  /** The seed form loads as its seed. */
  lemma LoadsSeed(h: Hashes, x: seq<Byte>, l: Layout, seed: seq<Byte>)
    requires SamplersEnd(h, ML_DSA_87) && IsKeyFile(x, l)
    requires |seed| == 32 && IsElement(l.inner, Element(0x80, seed, []))
    ensures SecretIn(h, x) == Loaded(Seed(seed))
  {
    hide SamplersEnd, SecretIn, IsKeyFile, IsElement, Tlv;
    LoadsFile(h, x, l);
    TlvExactly(l.inner, Element(0x80, seed, []));
  }

  lemma SeedHasPublicKey(h: Hashes, seed: seq<Byte>)
    requires SamplersEnd(h, ML_DSA_87) && |seed| == 32
    ensures PublicKeyFor(h, Seed(seed)) == Some(PublicKeyOf(h, ML_DSA_87, seed))
  {
    hide SamplersEnd, SecretOf, Consistent, OwnPublicKey;
    KeyFormsAgree(h, ML_DSA_87, seed);
  }

  /** The form that holds both, for a seed and any expanded key: the seed is taken exactly when the expanded
      key's parts agree and it has the seed's public key. */
  lemma LoadsBoth(h: Hashes, inner: seq<Byte>, seed: seq<Byte>, b: BothForm)
    requires SamplersEnd(h, ML_DSA_87) && |seed| == 32 && IsBoth(inner, seed, b)
    ensures InnerSecret(h, inner)
         == (match PublicKeyFor(h, Expanded(b.expanded))
             case None => Malformed
             case Some(pk) => if pk == PublicKeyOf(h, ML_DSA_87, seed) then Loaded(Seed(seed)) else DifferentKeys)
  {
    hide SamplersEnd, Tlv, IsElement, PublicKeyFor, PublicKeyOf;
    TlvExactly(inner, Element(0x30, b.both, []));
    TlvExactly(b.both, Element(0x04, seed, b.rest));
    TlvExactly(b.rest, Element(0x04, b.expanded, []));
    SeedHasPublicKey(h, seed);
  }

  /** In particular a generated key's two forms load together. */
  lemma LoadsGenerated(h: Hashes, inner: seq<Byte>, seed: seq<Byte>, b: BothForm)
    requires SamplersEnd(h, ML_DSA_87) && |seed| == 32 && IsBoth(inner, seed, b)
    requires SecretFits(SecretOf(h, ML_DSA_87, seed), ML_DSA_87)
    requires b.expanded == SkBytes(SecretOf(h, ML_DSA_87, seed), ML_DSA_87)
    ensures InnerSecret(h, inner) == Loaded(Seed(seed))
  {
    hide SamplersEnd, SecretOf, SkBytes, SkParts, SecretFits, Consistent, OwnPublicKey, InnerSecret, IsBoth;
    KeyFormsAgree(h, ML_DSA_87, seed);
    LoadsBoth(h, inner, seed, b);
  }

  lemma HeldIsLoaded(h: Hashes, inner: seq<Byte>, key: PrivateKey)
    requires SamplersEnd(h, ML_DSA_87) && HoldsKey(h, inner, key)
    ensures InnerSecret(h, inner) == Loaded(key)
  {
    hide SamplersEnd, Tlv, IsElement, PublicKeyFor, PublicKeyOf, IsBoth, BothSecret;
    match key {
      case Expanded(bytes) =>
        TlvExactly(inner, Element(0x04, bytes, []));
      case Seed(xi) =>
        if IsElement(inner, Element(0x80, xi, [])) {
          TlvExactly(inner, Element(0x80, xi, []));
        } else {
          var b :| IsBoth(inner, xi, b) && SameKey(h, xi, b);
          hide InnerSecret;
          LoadsBoth(h, inner, xi, b);
        }
    }
  }

  lemma LoadedIsHeld(h: Hashes, inner: seq<Byte>, key: PrivateKey)
    requires SamplersEnd(h, ML_DSA_87) && InnerSecret(h, inner) == Loaded(key)
    ensures HoldsKey(h, inner, key)
  {
    hide SamplersEnd, Tlv, IsElement, PublicKeyFor, PublicKeyOf;
    var e := Tlv(inner).value;
    TlvExactly(inner, e);
    if e.tag == 0x30 {
      var first := Tlv(e.contents).value;
      var second := Tlv(first.rest).value;
      var b := BothForm(e.contents, first.rest, second.contents);
      TlvExactly(e.contents, first);
      TlvExactly(first.rest, second);
      SeedHasPublicKey(h, first.contents);
      assert IsBoth(inner, key.xi, b) && SameKey(h, key.xi, b);
    }
  }

  /** A string loads as a key if and only if it is a key file, of any layout, that holds the key. */
  lemma LoadedExactly(h: Hashes, x: seq<Byte>, key: PrivateKey)
    requires SamplersEnd(h, ML_DSA_87)
    ensures SecretIn(h, x) == Loaded(key) <==> exists l :: IsKeyFile(x, l) && HoldsKey(h, l.inner, key)
  {
    hide SamplersEnd, SecretIn, InnerSecret, IsKeyFile, HoldsKey;
    if SecretIn(h, x) == Loaded(key) {
      var l := LayoutOf(h, x);
      LoadsFile(h, x, l);
      LoadedIsHeld(h, l.inner, key);
    }
    if exists l :: IsKeyFile(x, l) && HoldsKey(h, l.inner, key) {
      var l :| IsKeyFile(x, l) && HoldsKey(h, l.inner, key);
      LoadsFile(h, x, l);
      HeldIsLoaded(h, l.inner, key);
    }
  }

  /** Anything after the outer element makes the loader refuse, whatever the element is. */
  lemma TrailingBytesRefused(h: Hashes, x: seq<Byte>, extra: seq<Byte>)
    requires SamplersEnd(h, ML_DSA_87) && Tlv(x).Some? && extra != []
    ensures SecretIn(h, x + extra) == Malformed
  {
    hide SamplersEnd, BodySecret, Tlv;
    TlvExtends(x, extra);
  }

  // ----- what is printed is what is loaded -----

  /** The seed form as it is printed. */
  function SeedFile(seed: seq<Byte>): (r: seq<Byte>) {
    DerBytes(0x30, [0x02, 0x01, 0x00] + DerBytes(0x30, ID_ML_DSA_87) + DerBytes(0x04, DerBytes(0x80, seed)))
  }

  lemma DerIsElement(tag: Byte, contents: seq<Byte>, rest: seq<Byte>)
    requires |contents| <= 0xFFFF
    ensures IsElement(DerBytes(tag, contents) + rest, Element(tag, contents, rest))
  {
    hide Tlv, DerBytes, IsElement;
    TlvOfDer(tag, contents, rest);
    TlvExactly(DerBytes(tag, contents) + rest, Element(tag, contents, rest));
  }

  lemma DerIsWhole(tag: Byte, contents: seq<Byte>)
    requires |contents| <= 0xFFFF
    ensures IsElement(DerBytes(tag, contents), Element(tag, contents, []))
  {
    hide IsElement;
    DerIsElement(tag, contents, []);
    assert DerBytes(tag, contents) + [] == DerBytes(tag, contents);
  }

  lemma VersionBytes()
    ensures DerBytes(0x02, [0]) == [0x02, 0x01, 0x00]
  {
  }

  lemma SeedFileIsKeyFile(seed: seq<Byte>) returns (l: Layout)
    requires |seed| == 32
    ensures IsKeyFile(SeedFile(seed), l) && IsElement(l.inner, Element(0x80, seed, []))
  {
    VersionBytes();
    var inner := DerBytes(0x80, seed);
    var afterVersion := DerBytes(0x30, ID_ML_DSA_87) + DerBytes(0x04, inner);
    var body := DerBytes(0x02, [0]) + afterVersion;
    l := Layout(body, 0, afterVersion, DerBytes(0x04, inner), inner, []);
    assert |body| <= 0xFFFF;
    hide DerBytes, IsElement;
    assert SeedFile(seed) == DerBytes(0x30, body) by {
      assert [0x02, 0x01, 0x00] + DerBytes(0x30, ID_ML_DSA_87) + DerBytes(0x04, inner) == body;
    }
    DerIsWhole(0x30, body);
    DerIsElement(0x02, [0], afterVersion);
    DerIsElement(0x30, ID_ML_DSA_87, DerBytes(0x04, inner));
    DerIsWhole(0x04, inner);
    DerIsWhole(0x80, seed);
  }

  /** pkcs8_of_seed: the loader gives the seed back. */
  method PrintSeed(seed: seq<Byte>) returns (r: seq<Byte>)
    requires |seed| == 32
    ensures r == SeedFile(seed)
    ensures forall h :: SamplersEnd(h, ML_DSA_87) ==> SecretIn(h, r) == Loaded(Seed(seed))
  {
    hide SamplersEnd, SecretIn, DerBytes, IsKeyFile, IsElement, Tlv;
    var privateKey := D.Der(0x80, seed);
    var octets := D.Der(0x04, privateKey);
    var algorithm := D.Der(0x30, ID_ML_DSA_87);
    r := D.Der(0x30, [0x02, 0x01, 0x00] + algorithm + octets);
    ghost var l := SeedFileIsKeyFile(seed);
    forall h | SamplersEnd(h, ML_DSA_87)
      ensures SecretIn(h, r) == Loaded(Seed(seed))
    {
      LoadsSeed(h, r, l, seed);
    }
  }

  // ----- public keys -----

  function Spki(public: seq<Byte>): (r: seq<Byte>) {
    DerBytes(0x30, DerBytes(0x30, ID_ML_DSA_87) + DerBytes(0x03, [0] + public))
  }

  lemma EndsWithTail(a: seq<Byte>, b: seq<Byte>, end: seq<Byte>)
    requires |end| <= |b| && b[|b| - |end|..] == end
    ensures var s := a + b; s[|s| - |end|..] == end
  {
  }

  lemma EndsWith(tag: Byte, contents: seq<Byte>, end: seq<Byte>)
    requires |end| <= |contents| && contents[|contents| - |end|..] == end
    ensures var d := DerBytes(tag, contents); |d| > |end| && d[|d| - |end|..] == end
  {
    EndsWithTail([tag] + LengthBytes(|contents|), contents, end);
  }

  /** An encoding ends with its key. */
  lemma SpkiEnds(public: seq<Byte>)
    ensures |Spki(public)| > |public| && Spki(public)[|Spki(public)| - |public|..] == public
  {
    hide DerBytes;
    var bits := [0] + public;
    var key := DerBytes(0x03, bits);
    assert bits[|bits| - |public|..] == public;
    EndsWith(0x03, bits, public);
    EndsWithTail(DerBytes(0x30, ID_ML_DSA_87), key, public);
    EndsWith(0x30, DerBytes(0x30, ID_ML_DSA_87) + key, public);
  }

  /** A public key's encoding is a sequence of the identifier and a bit string of the key with no unused bits. */
  lemma SpkiIs(public: seq<Byte>)
    requires |public| <= 0xFF00
    ensures exists body, key ::
      && IsElement(Spki(public), Element(0x30, body, []))
      && IsElement(body, Element(0x30, ID_ML_DSA_87, key))
      && IsElement(key, Element(0x03, [0] + public, []))
  {
    var bits := [0] + public;
    var key := DerBytes(0x03, bits);
    var body := DerBytes(0x30, ID_ML_DSA_87) + key;
    assert |body| <= 0xFFFF;
    hide DerBytes, IsElement;
    DerIsWhole(0x30, body);
    DerIsElement(0x30, ID_ML_DSA_87, key);
    DerIsWhole(0x03, bits);
  }

  /** subject_public_key_info: the key comes last. */
  method SubjectPublicKeyInfo(public: seq<Byte>) returns (r: seq<Byte>)
    ensures r == Spki(public)
    ensures |r| > |public| && r[|r| - |public|..] == public
  {
    hide DerBytes;
    var algorithm := D.Der(0x30, ID_ML_DSA_87);
    var bits: seq<Byte> := [0];
    bits := bits + public;
    var key := D.Der(0x03, bits);
    r := D.Der(0x30, algorithm + key);
    SpkiEnds(public);
  }

  /** is_ml_dsa_87_key: the strings accepted are exactly the encodings of keys of the right length. */
  method IsMlDsa87Key(spki: seq<Byte>) returns (ok: bool)
    ensures PublicKeyLen(ML_DSA_87) == 2592
    ensures ok <==> exists public :: |public| == 2592 && Spki(public) == spki
  {
    hide Spki;
    var keyLen := PublicKeyLen(ML_DSA_87);
    forall public: seq<Byte> | |public| == 2592 && Spki(public) == spki
      ensures |spki| > 2592 && spki[|spki| - 2592..] == public
    {
      SpkiEnds(public);
    }
    if |spki| <= keyLen {
      return false;
    }
    var again := SubjectPublicKeyInfo(spki[|spki| - keyLen..]);
    ok := again == spki;
  }
}
