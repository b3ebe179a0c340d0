/** `imgtool`'s signed image as a value: header, body, protected TLVs, TLVs. */
module ImageFormat {
  import opened Bytes
  import opened Options
  import opened Tlv

  const IMAGE_MAGIC: U32 := 0x96f3b83d
  const IMAGE_HEADER_SIZE: nat := 32
  const TLV_INFO_MAGIC: U16 := 0x6907
  const TLV_PROT_INFO_MAGIC: U16 := 0x6908

  const KEYHASH: Byte := 0x01
  const PUBKEY: Byte := 0x02
  const SHA256: Byte := 0x10
  const SHA384: Byte := 0x11
  const SHA512: Byte := 0x12
  const RSA2048: Byte := 0x20
  const ECDSASIG: Byte := 0x22
  const RSA3072: Byte := 0x23
  const ED25519: Byte := 0x24
  const SIG_PURE: Byte := 0x25
  const DEPENDENCY: Byte := 0x40
  const SEC_CNT: Byte := 0x50
  const BOOT_RECORD: Byte := 0x60
  const UUID_VID: Byte := 0x74
  const UUID_CID: Byte := 0x75

  const VENDOR_MIN: int := 0xa0
  const VENDOR_MAX: int := 0xfffe

  const NON_BOOTABLE: nat := 0x10
  const RAM_LOAD: nat := 0x20
  const ROM_FIXED: nat := 0x100

  datatype Version = Version(major: Byte, minor: Byte, revision: U16, build: U32)

  /** A dependency on another image: its number and least version. */
  datatype Dependency = Dependency(image: Byte, version: Version)

  /** A caller's own TLV; the kind is not yet known to be in the vendor range. */
  datatype Custom = Custom(kind: int, data: seq<Byte>)

  /** What `create` is given for an unencrypted, uncompressed little-endian image. `payload` is the loaded file with its
      header area in front; `bootRecord` is the CBOR record that stands for `sw_type`. */
  datatype Source = Source(
    headerSize: nat,
    payload: seq<Byte>,
    loadAddr: U32,
    romFixed: U32,
    nonBootable: bool,
    version: Version,
    securityCounter: Option<U32>,
    bootRecord: Option<seq<Byte>>,
    dependencies: seq<Dependency>,
    vid: Option<seq<Byte>>,
    cid: Option<seq<Byte>>,
    custom: seq<Custom>)
  {
    /** The command line refuses smaller headers, and identifiers are UUIDs. */
    predicate Valid() {
      && headerSize >= IMAGE_HEADER_SIZE
      && (vid.Some? ==> |vid.value| == 16)
      && (cid.Some? ==> |cid.value| == 16)
    }
  }

  // ----- keys and hashes -----

  datatype Sha = Sha256 | Sha384 | Sha512

  type Hash = (Sha, seq<Byte>) -> seq<Byte>

  function ShaTlv(sha: Sha): (kind: Byte) {
    match sha
    case Sha256 => SHA256
    case Sha384 => SHA384
    case Sha512 => SHA512
  }

  function ShaOfTlv(kind: int): (sha: Option<Sha>)
    ensures forall x :: sha == Some(x) <==> kind == ShaTlv(x)
  {
    if kind == SHA256 then Some(Sha256) else if kind == SHA384 then Some(Sha384) else if kind == SHA512 then Some(Sha512) else None
  }

  datatype KeyKind = Ecdsa384 | Ecdsa384Public | Ecdsa256 | Ecdsa256Public | Rsa | RsaPublic | Ed25519 | Ed25519Public

  function Allowed(kind: KeyKind): (shas: seq<Sha>)
    ensures shas != []
  {
    match kind
    case Ecdsa384 | Ecdsa384Public => [Sha384]
    case Ecdsa256 => [Sha256]
    case Ecdsa256Public => [Sha256, Sha512]
    case Rsa | RsaPublic => [Sha256]
    case Ed25519 | Ed25519Public => [Sha256, Sha512]
  }

  /** The hash that goes with a key and the user's choice (`None` is `auto`), or `None` for a refusal. */
  function SelectSha(kind: Option<KeyKind>, user: Option<Sha>, pure: bool): (sha: Option<Sha>) {
    if kind.None? then if user.None? then Some(Sha256) else user
    else if pure then if kind.value.Ed25519? then Some(Sha512) else None
    else if user.None? then Some(Allowed(kind.value)[0])
    else if user.value in Allowed(kind.value) then user
    else None
  }

  /** Signs and verifies the image itself rather than its digest. */
  predicate WholeImage(kind: KeyKind) {
    !kind.Ed25519? && !kind.Ed25519Public?
  }

  datatype Key = Key(kind: KeyKind, sigTlv: Byte, publicBytes: seq<Byte>, sign: seq<Byte> -> seq<Byte>,
                     verify: (seq<Byte>, seq<Byte>) -> bool)
  {
    /** The signature TLV is the kind's own. */
    predicate Valid() {
      match kind
      case Rsa | RsaPublic => sigTlv == RSA2048 || sigTlv == RSA3072
      case Ed25519 | Ed25519Public => sigTlv == ED25519
      case _ => sigTlv == ECDSASIG
    }

    predicate Private() {
      kind in {Ecdsa384, Ecdsa256, Rsa, Ed25519}
    }
  }

  /** `checker` is `signer` or its public half: it accepts what `signer` signs. */
  ghost predicate Pair(signer: Key, checker: Key) {
    && signer.Valid() && signer.Private() && checker.Valid() && checker.sigTlv == signer.sigTlv
    && (checker.kind == signer.kind || checker.kind == PublicOf(signer.kind))
    && forall m :: checker.verify(signer.sign(m), m)
  }

  function PublicOf(kind: KeyKind): (p: KeyKind) {
    match kind
    case Ecdsa384 => Ecdsa384Public
    case Ecdsa256 => Ecdsa256Public
    case Rsa => RsaPublic
    case Ed25519 => Ed25519Public
    case _ => kind
  }

  // ----- the protected area -----

  function VersionBytes(v: Version): (b: seq<Byte>)
    ensures |b| == 8
  {
    [v.major, v.minor] + Le16(v.revision) + Le32(v.build)
  }

  function DependencyBytes(d: Dependency): (b: seq<Byte>)
    ensures |b| == 12
  {
    [d.image, 0, 0, 0] + VersionBytes(d.version)
  }

  function Opt(kind: U16, data: Option<seq<Byte>>): (es: seq<Entry>) {
    if data.Some? then [Entry(kind, data.value)] else []
  }

  function DependencyTlvs(ds: seq<Dependency>): (es: seq<Entry>)
    ensures |es| == |ds|
  {
    seq(|ds|, i requires 0 <= i < |ds| => Entry(DEPENDENCY, DependencyBytes(ds[i])))
  }

  predicate InVendorRange(c: Custom) {
    VENDOR_MIN <= c.kind <= VENDOR_MAX
  }

  function CustomTlvs(cs: seq<Custom>): (es: seq<Entry>)
    requires AllVendor(cs)
    ensures |es| == |cs|
  {
    seq(|cs|, i requires 0 <= i < |cs| => assert InVendorRange(cs[i]); Entry(cs[i].kind, cs[i].data))
  }

  /** The protected TLVs, in the order they are added. */
  function ProtectedTlvs(s: Source): (es: seq<Entry>)
    requires AllVendor(s.custom)
  {
    Opt(SEC_CNT, if s.securityCounter.Some? then Some(Le32(s.securityCounter.value)) else None) + Opt(BOOT_RECORD, s.bootRecord) +
    DependencyTlvs(s.dependencies) + Opt(UUID_VID, s.vid) + Opt(UUID_CID, s.cid) + CustomTlvs(s.custom)
  }

  predicate AllValid(es: seq<Entry>) {
    forall e :: e in es ==> e.Valid()
  }

  /** `TLV.get`: nothing for an empty area, else magic, total and records. */
  function Area(magic: U16, es: seq<Entry>): (b: seq<Byte>)
    requires AllValid(es) && 4 + |Encode(es)| < 0x1_0000
  {
    if es == [] then [] else Le16(magic) + Le16(4 + |Encode(es)|) + Encode(es)
  }

  predicate AllVendor(cs: seq<Custom>) {
    forall i :: 0 <= i < |cs| ==> InVendorRange(cs[i])
  }

  // ----- the size computed before any TLV exists -----

  function CustomSize(cs: seq<Custom>): (n: nat)
  {
    if cs == [] then 0 else CustomSize(cs[..|cs| - 1]) + 4 + |cs[|cs| - 1].data|
  }

  function SizeOf(s: Source): (n: nat)
  {
    var n := (if s.securityCounter.Some? then 8 else 0) + (if s.vid.Some? then 20 else 0) + (if s.cid.Some? then 20 else 0) +
             (if s.bootRecord.Some? then 4 + |s.bootRecord.value| else 0) + |s.dependencies| * 16 + CustomSize(s.custom);
    if n == 0 then 0 else n + 4
  }

  /** Bytes that a list of records takes. */
  function Sum(es: seq<Entry>): (n: nat)
  {
    if es == [] then 0 else Sum(es[..|es| - 1]) + 4 + |es[|es| - 1].data|
  }

  lemma {:induction false} SumSplit(a: seq<Entry>, b: seq<Entry>)
    ensures Sum(a + b) == Sum(a) + Sum(b)
    decreases |b|
  {
    if b == [] {
      assert a + b == a;
    } else {
      assert (a + b)[..|a + b| - 1] == a + b[..|b| - 1];
      SumSplit(a, b[..|b| - 1]);
    }
  }

  lemma {:induction false} EncodeIsSum(es: seq<Entry>)
    requires AllValid(es)
    ensures |Encode(es)| == Sum(es)
    decreases |es|
  {
    if es != [] {
      assert es[|es| - 1] in es;
      EncodeIsSum(es[..|es| - 1]);
    }
  }

  lemma {:induction false} DependencySum(ds: seq<Dependency>)
    ensures Sum(DependencyTlvs(ds)) == 16 * |ds|
  {
    if ds != [] {
      assert DependencyTlvs(ds)[..|ds| - 1] == DependencyTlvs(ds[..|ds| - 1]);
      DependencySum(ds[..|ds| - 1]);
    }
  }

  lemma {:induction false} CustomSum(cs: seq<Custom>)
    requires AllVendor(cs)
    ensures Sum(CustomTlvs(cs)) == CustomSize(cs)
  {
    if cs != [] {
      assert CustomTlvs(cs)[..|cs| - 1] == CustomTlvs(cs[..|cs| - 1]);
      CustomSum(cs[..|cs| - 1]);
    }
  }

  /** The precomputed size is the size of the area that is then emitted. */
  lemma ProtectedSizeIsEmitted(s: Source)
    requires s.Valid() && AllVendor(s.custom)
    ensures SizeOf(s) == if ProtectedTlvs(s) == [] then 0 else 4 + Sum(ProtectedTlvs(s))
  {
    hide Opt;
    var a := Opt(SEC_CNT, if s.securityCounter.Some? then Some(Le32(s.securityCounter.value)) else None);
    var b, c, d, e, f := Opt(BOOT_RECORD, s.bootRecord), DependencyTlvs(s.dependencies), Opt(UUID_VID, s.vid), Opt(UUID_CID, s.cid), CustomTlvs(s.custom);
    OptSum(SEC_CNT, if s.securityCounter.Some? then Some(Le32(s.securityCounter.value)) else None);
    OptSum(BOOT_RECORD, s.bootRecord);
    OptSum(UUID_VID, s.vid);
    OptSum(UUID_CID, s.cid);
    DependencySum(s.dependencies);
    CustomSum(s.custom);
    SumSplit(a + b + c + d + e, f);
    SumSplit(a + b + c + d, e);
    SumSplit(a + b + c, d);
    SumSplit(a + b, c);
    SumSplit(a, b);
    if ProtectedTlvs(s) == [] {
      assert Sum([]) == 0;
    } else {
      SumPositive(ProtectedTlvs(s));
    }
  }

  lemma OptSum(kind: U16, data: Option<seq<Byte>>)
    ensures Sum(Opt(kind, data)) == if data.Some? then 4 + |data.value| else 0
  {
    if data.Some? {
      assert Opt(kind, data)[..0] == [];
      assert Sum([]) == 0;
    }
  }

  lemma SumPositive(es: seq<Entry>)
    requires es != []
    ensures Sum(es) >= 4
  {
  }

  // ----- header and image -----

  function Flags(s: Source): (f: U32) {
    (if s.loadAddr != 0 then RAM_LOAD else 0) + (if s.romFixed != 0 then ROM_FIXED else 0) + (if s.nonBootable then NON_BOOTABLE else 0)
  }

  function Address(s: Source): (a: U32) {
    if s.romFixed != 0 then s.romFixed else s.loadAddr
  }

  /** Every header field holds its value. */
  predicate HeaderFits(s: Source) {
    && s.headerSize <= 0xffff && SizeOf(s) <= 0xffff
    && 0 <= |s.payload| - s.headerSize < 0x1_0000_0000
  }

  function HeaderBytes(s: Source): (b: seq<Byte>)
    requires HeaderFits(s)
    ensures |b| == IMAGE_HEADER_SIZE
  {
    Le32(IMAGE_MAGIC) + Le32(Address(s)) + Le16(s.headerSize) + Le16(SizeOf(s)) + Le32(|s.payload| - s.headerSize) +
    Le32(Flags(s)) + VersionBytes(s.version) + Le32(0)
  }

  /** The payload with the header in place. */
  function Head(s: Source): (b: seq<Byte>)
    requires s.Valid() && HeaderFits(s)
    ensures |b| == |s.payload|
  {
    HeaderBytes(s) + s.payload[IMAGE_HEADER_SIZE..]
  }

  /** The emitted protected area has the size the header announces. */
  function ProtectedBytes(s: Source): (b: seq<Byte>)
    requires s.Valid() && HeaderFits(s) && AllVendor(s.custom)
    ensures |b| == SizeOf(s)
  {
    ProtectedFits(s);
    Area(TLV_PROT_INFO_MAGIC, ProtectedTlvs(s))
  }

  /** What is hashed: the header, the body and the protected TLVs. */
  function Region(s: Source): (b: seq<Byte>)
    requires s.Valid() && HeaderFits(s) && AllVendor(s.custom)
  {
    Head(s) + ProtectedBytes(s)
  }

  /** How `create` is to hash and sign. */
  datatype Signing = Signing(hash: Hash, sha: Sha, key: Option<Key>, keyAsHash: bool, pure: bool)

  function Message(g: Signing, region: seq<Byte>): (m: seq<Byte>)
    requires g.key.Some?
  {
    if WholeImage(g.key.value.kind) || g.pure then region else g.hash(g.sha, region)
  }

  function SigningTlvs(g: Signing, region: seq<Byte>): (es: seq<Entry>) {
    [Entry(ShaTlv(g.sha), g.hash(g.sha, region))] + (if g.pure then [Entry(SIG_PURE, [1])] else []) +
    if g.key.None? then []
    else [if g.keyAsHash then Entry(KEYHASH, g.hash(g.sha, g.key.value.publicBytes)) else Entry(PUBKEY, g.key.value.publicBytes),
          Entry(g.key.value.sigTlv, g.key.value.sign(Message(g, region)))]
  }

  /** The records of an area have lengths, and a total, that fit their 16-bit fields. */
  predicate AreaFits(es: seq<Entry>) {
    AllValid(es) && 4 + |Encode(es)| < 0x1_0000
  }

  function ImageOf(s: Source, g: Signing): (b: seq<Byte>)
    requires s.Valid() && HeaderFits(s) && AllVendor(s.custom) && AreaFits(SigningTlvs(g, Region(s)))
  {
    Region(s) + Area(TLV_INFO_MAGIC, SigningTlvs(g, Region(s)))
  }

  /** Once the precomputed size fits its header field, so does every protected record. */
  lemma ProtectedFits(s: Source)
    requires s.Valid() && HeaderFits(s) && AllVendor(s.custom)
    ensures AreaFits(ProtectedTlvs(s))
    ensures |Area(TLV_PROT_INFO_MAGIC, ProtectedTlvs(s))| == SizeOf(s)
  {
    hide ProtectedTlvs, SizeOf, Area;
    var es := ProtectedTlvs(s);
    ProtectedSizeIsEmitted(s);
    SumBounds(es);
    EncodeIsSum(es);
    AreaLength(TLV_PROT_INFO_MAGIC, es);
  }

  lemma AreaLength(magic: U16, es: seq<Entry>)
    requires AreaFits(es)
    ensures |Area(magic, es)| == if es == [] then 0 else 4 + |Encode(es)|
  {
  }

  /** A list of records whose bytes add up to little has only short records. */
  lemma {:induction false} SumBounds(es: seq<Entry>)
    ensures forall e :: e in es ==> |e.data| + 4 <= Sum(es)
  {
    if es != [] {
      SumBounds(es[..|es| - 1]);
      assert es == es[..|es| - 1] + [es[|es| - 1]];
    }
  }
}
