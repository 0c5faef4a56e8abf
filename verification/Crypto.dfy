/**
 Firmware verification. ECDSA and the curve check are oracles; everything around
 them is computed: the chunked CRC and hash of the slot equal the whole-image values,
 and what the host tool signs is what the device accepts.
 */
module Crypto {
  import opened Bytes
  import opened Layout
  import opened Flash
  import opened FirmwareImage
  import Crc32
  import Sha256
  import LowS

  const CHUNK: nat := 1024

  type PublicKey = k: seq<byte> | |k| == 64 witness Fill(64, 0)
  type Digest = d: seq<byte> | |d| == 32 witness Fill(32, 0)

  /** The embedded key with its fingerprint, and the two primitives of the ECDSA library. */
  datatype Trust = Trust(key: PublicKey, fingerprint: Digest,
                         onCurve: PublicKey -> bool, ecdsa: (Digest, seq<byte>) -> bool)

  predicate KeyOk(t: Trust) {
    t.onCurve(t.key) && Sha256.Hash(t.key) == t.fingerprint
  }

  type Slot = s: seq<byte> | |s| == SLOT_SIZE witness Fill(SLOT_SIZE, 0xFF)

  /** Size fields the verifier goes on with. */
  predicate SizeOk(s: Slot) {
    0 < PayloadSize(s) <= MAX_PAYLOAD
  }

  function Payload(s: Slot): seq<byte>
    requires SizeOk(s)
  {
    s[HEADER_SIZE..HEADER_SIZE + PayloadSize(s)]
  }

  /** Header with the signature field zeroed, then the payload. */
  function SignedRegion(s: Slot): (r: seq<byte>)
    requires SizeOk(s)
    ensures |r| == HEADER_SIZE + PayloadSize(s)
  {
    s[..SIGNATURE_OFFSET] + Fill(SIGNATURE_SIZE, 0) + s[SIGNATURE_OFFSET + SIGNATURE_SIZE..HEADER_SIZE] + Payload(s)
  }

  /** What crypto_verify_firmware decides, as a function of the slot's bytes. */
  predicate VerifySlot(t: Trust, s: Slot) {
    && KeyOk(t)
    && Magic(s) == FIRMWARE_MAGIC
    && SizeOk(s)
    && Crc32.Checksum(Payload(s)) == PayloadCrc(s)
    && LowS.Canonical(Signature(s))
    && t.ecdsa(Sha256.Hash(SignedRegion(s)), Signature(s))
  }

  lemma VerifiedHeader(t: Trust, s: Slot)
    requires VerifySlot(t, s)
    ensures Magic(s) == FIRMWARE_MAGIC && SizeOk(s)
  {
    hide KeyOk, Crc32.Checksum, Sha256.Hash, LowS.Canonical, SignedRegion, Payload, Magic, PayloadSize;
  }

  /** crypto_constant_time_equal: no early exit. */
  method ConstantTimeEqual(a: seq<byte>, b: seq<byte>) returns (equal: bool)
    requires |a| == |b|
    ensures equal <==> a == b
  {
    var diff := false;
    var i := 0;
    while i < |a|
      invariant 0 <= i <= |a|
      invariant diff <==> exists j :: 0 <= j < i && a[j] != b[j]
    {
      diff := diff || a[i] != b[i];
      i := i + 1;
    }
    equal := !diff;
  }

  method ValidatePublicKey(t: Trust) returns (ok: bool)
    ensures ok == KeyOk(t)
  {
    hide Sha256.Hash;
    if !t.onCurve(t.key) {
      return false;
    }
    var hash := Sha256.Sha256(t.key);
    ok := ConstantTimeEqual(hash, t.fingerprint);
  }

  /** The chunked CRC over the payload equals the checksum of the whole payload. */
  method PayloadChecksum(nor: Nor, addr: u32, size: nat) returns (crc: u32)
    requires nor.Valid() && FLASH_BASE <= addr && addr + size <= FLASH_BASE + FLASH_SIZE
    ensures crc == Crc32.Checksum(nor.Mem()[addr - FLASH_BASE..addr - FLASH_BASE + size])
  {
    hide Crc32.Absorb, Crc32.Finalize;
    ghost var payload := nor.Mem()[addr - FLASH_BASE..addr - FLASH_BASE + size];
    var state, at, remaining := Crc32.ONES, addr, size;
    assert Crc32.Absorb(Crc32.ONES, payload[..0]) == Crc32.ONES by { AbsorbNothing(Crc32.ONES); }
    while remaining > 0
      invariant 0 <= remaining <= size && at == addr + (size - remaining)
      invariant state == Crc32.Absorb(Crc32.ONES, payload[..size - remaining])
    {
      var chunk := if remaining > CHUNK then CHUNK else remaining;
      var buf := nor.Read(at, chunk);
      ghost var done := size - remaining;
      SliceOfSlice(nor.Mem(), addr - FLASH_BASE, size, done, done + chunk);
      assert payload[..done] + buf == payload[..done + chunk];
      Crc32.AbsorbConcat(Crc32.ONES, payload[..done], buf);
      state := Crc32.Update(state, buf);
      at := at + chunk;
      remaining := remaining - chunk;
    }
    assert payload[..size] == payload;
    crc := Crc32.Finalize(state);
  }

  lemma AbsorbNothing(c: bv32)
    ensures Crc32.Absorb(c, []) == c
  {
  }

  /** The header pieces of hash_signed_region. */
  method HashHeader(hdr: seq<byte>) returns (ctx: Sha256.Context)
    requires |hdr| == HEADER_SIZE
    ensures fresh(ctx) && fresh(ctx.data) && fresh(ctx.state) && ctx.Valid()
    ensures ctx.message == hdr[..SIGNATURE_OFFSET] + Fill(SIGNATURE_SIZE, 0) + hdr[SIGNATURE_OFFSET + SIGNATURE_SIZE..]
  {
    hide Sha256.Context.Valid;
    ctx := new Sha256.Context();
    ctx.Update(hdr[..SIGNATURE_OFFSET]);
    ctx.Update(Fill(SIGNATURE_SIZE, 0));
    ctx.Update(hdr[SIGNATURE_OFFSET + SIGNATURE_SIZE..]);
  }

  /** Streams a stretch of flash into a hash context, `chunk` bytes at a time. */
  method HashFlash(ctx: Sha256.Context, nor: Nor, addr: u32, size: nat, chunk: nat)
    requires nor.Valid() && FLASH_BASE <= addr && addr + size <= FLASH_BASE + FLASH_SIZE && chunk > 0
    requires ctx.Valid() && ctx.data as object != nor.cells as object && ctx.state as object != nor.cells as object
    requires ctx as object != nor as object
    modifies ctx, ctx.data, ctx.state
    ensures ctx.Valid()
    ensures ctx.message == old(ctx.message) + nor.Mem()[addr - FLASH_BASE..addr - FLASH_BASE + size]
  {
    hide Sha256.Context.Valid;
    ghost var before := ctx.message;
    ghost var data := nor.Mem()[addr - FLASH_BASE..addr - FLASH_BASE + size];
    var at, remaining := addr, size;
    while remaining > 0
      invariant 0 <= remaining <= size && at == addr + (size - remaining)
      invariant ctx.Valid() && nor.Mem() == old(nor.Mem())
      invariant ctx.message == before + data[..size - remaining]
    {
      var n := if remaining > chunk then chunk else remaining;
      var buf := nor.Read(at, n);
      ghost var done := size - remaining;
      assert before + data[..done] + buf == before + data[..done + n];
      ctx.Update(buf);
      at := at + n;
      remaining := remaining - n;
    }
    assert data[..size] == data;
  }

  /** hash_signed_region: three header pieces, then the payload in chunks. */
  method HashSignedRegion(nor: Nor, addr: u32, hdr: seq<byte>) returns (out: Digest)
    requires nor.Valid() && (addr == SLOT_A_ADDR || addr == SLOT_B_ADDR)
    requires hdr == SlotAt(nor.Mem(), addr)[..HEADER_SIZE] && SizeOk(SlotAt(nor.Mem(), addr))
    ensures out == Sha256.Hash(SignedRegion(SlotAt(nor.Mem(), addr)))
  {
    hide Sha256.Hash, Sha256.Context.Valid;
    ghost var s := SlotAt(nor.Mem(), addr);
    var size := PayloadSize(hdr);
    assert hdr[8..12] == s[8..12];
    SliceOfSlice(nor.Mem(), addr - FLASH_BASE, SLOT_SIZE, HEADER_SIZE, HEADER_SIZE + size);
    assert hdr[..SIGNATURE_OFFSET] == s[..SIGNATURE_OFFSET];
    assert hdr[SIGNATURE_OFFSET + SIGNATURE_SIZE..] == s[SIGNATURE_OFFSET + SIGNATURE_SIZE..HEADER_SIZE];
    var ctx := HashHeader(hdr);
    HashFlash(ctx, nor, addr + HEADER_SIZE, size, CHUNK);
    assert ctx.message == SignedRegion(s);
    out := ctx.Final();
  }

  /** crypto_verify_firmware. */
  method VerifyFirmware(t: Trust, nor: Nor, addr: u32) returns (ok: bool)
    requires nor.Valid() && (addr == SLOT_A_ADDR || addr == SLOT_B_ADDR)
    ensures ok == VerifySlot(t, SlotAt(nor.Mem(), addr))
  {
    hide KeyOk, Crc32.Checksum, Sha256.Hash, LowS.Canonical, SignedRegion;
    ghost var s := SlotAt(nor.Mem(), addr);
    var keyOk := ValidatePublicKey(t);
    if !keyOk {
      return false;
    }
    var hdr := nor.Read(addr, HEADER_SIZE);
    assert hdr == s[..HEADER_SIZE];
    assert hdr[0..4] == s[0..4] && hdr[8..12] == s[8..12] && hdr[16..20] == s[16..20];
    assert Signature(hdr) == Signature(s);
    if Magic(hdr) != FIRMWARE_MAGIC {
      return false;
    }
    if PayloadSize(hdr) == 0 {
      return false;
    }
    if PayloadSize(hdr) > MAX_PAYLOAD {
      return false;
    }
    var crc := PayloadChecksum(nor, addr + HEADER_SIZE, PayloadSize(hdr));
    SliceOfSlice(nor.Mem(), addr - FLASH_BASE, SLOT_SIZE, HEADER_SIZE, HEADER_SIZE + PayloadSize(hdr));
    if crc != PayloadCrc(hdr) {
      return false;
    }
    var hash := HashSignedRegion(nor, addr, hdr);
    var lowS := LowS.IsCanonicalLowS(Signature(hdr));
    if !lowS {
      return false;
    }
    ok := t.ecdsa(hash, Signature(hdr));
  }

  /** The decision depends on the logical image alone, not on what follows it in the slot. */
  lemma VerifyReadsLogicalImage(t: Trust, s: Slot, s': Slot)
    requires SizeOk(s) && s[..HEADER_SIZE + PayloadSize(s)] == s'[..HEADER_SIZE + PayloadSize(s)]
    ensures VerifySlot(t, s) == VerifySlot(t, s')
  {
    hide KeyOk, Crc32.Checksum, Sha256.Hash, LowS.Canonical;
    var n := HEADER_SIZE + PayloadSize(s);
    forall lo, hi | 0 <= lo <= hi <= HEADER_SIZE ensures s[lo..hi] == s'[lo..hi] {
      assert s[lo..hi] == s[..n][lo..hi] && s'[lo..hi] == s'[..n][lo..hi];
    }
    assert Magic(s) == Magic(s') && PayloadSize(s) == PayloadSize(s') && PayloadCrc(s) == PayloadCrc(s');
    assert Signature(s) == Signature(s');
    assert Payload(s) == s[..n][HEADER_SIZE..] && Payload(s') == s'[..n][HEADER_SIZE..];
    assert s[..SIGNATURE_OFFSET] == s[0..SIGNATURE_OFFSET] && s'[..SIGNATURE_OFFSET] == s'[0..SIGNATURE_OFFSET];
    assert SignedRegion(s) == SignedRegion(s');
  }

  // ----- The signing tool ---------------------------------------------------------

  /** sign_firmware.py: parse the unsigned file, put the encoded signature in, serialise. */
  function SignTool(blob: seq<byte>, r: nat, s: nat): Option<seq<byte>>
    requires s < LowS.ORDER
  {
    match ParseUnsigned(blob)
    case Bad(_) => None
    case Good(img) => SignedImage(img.(signature := LowS.Encode(r, s)))
  }

  /** (r, s) is a signature of the digest, and the oracle does not tell s from n - s. */
  predicate Signs(t: Trust, digest: Digest, r: nat, s: nat) {
    && 0 < r < LowS.ORDER && 0 < s < LowS.ORDER
    && t.ecdsa(digest, ToBigEndian(r, 32) + ToBigEndian(s, 32))
    && t.ecdsa(digest, ToBigEndian(r, 32) + ToBigEndian(LowS.ORDER - s, 32))
  }

  /** The image as create_image.py leaves it: the signature field is zero. */
  function Unsigned(version: u32, timestamp: u32, payload: seq<byte>): Image {
    Image(version, timestamp, payload, Fill(SIGNATURE_SIZE, 0))
  }

  /** The tool, run on a file it can parse, puts exactly the encoded signature into the image. */
  lemma SignToolBuilds(img: Image, r: nat, s: nat)
    requires s < LowS.ORDER && img.signature == Fill(SIGNATURE_SIZE, 0)
    requires img.payload != [] && |img.payload| <= MAX_PAYLOAD
    ensures SignedImage(img).Some? && HeaderBytes(img, LowS.Encode(r, s)).Some?
    ensures SignTool(SignedImage(img).value, r, s) == Some(HeaderBytes(img, LowS.Encode(r, s)).value + img.payload)
  {
    hide Crc32.Checksum, LowS.Encode, ParseUnsigned;
    ParseBuilt(img, []);
    assert SignedImage(img).value + [] == SignedImage(img).value;
  }

  /** A slot that starts with a well-signed image passes verification. */
  lemma SignedSlotVerifies(t: Trust, img: Image, sig: seq<byte>, slot: Slot)
    requires KeyOk(t) && img.payload != [] && |img.payload| <= MAX_PAYLOAD
    requires HeaderBytes(img, sig).Some? && HeaderBytes(img, sig).value + img.payload <= slot
    requires LowS.Canonical(sig) && t.ecdsa(Sha256.Hash(SigningBytes(img).value), sig)
    ensures VerifySlot(t, slot) && Version(slot) == img.version && Payload(slot) == img.payload
  {
    hide KeyOk, Crc32.Checksum, Sha256.Hash, LowS.Canonical, HeaderBytes, SigningBytes;
    hide Magic, PayloadCrc, Signature, Version, Timestamp, SignedRegion;
    var h := HeaderBytes(img, sig).value;
    SignedRegionIsSigningBytes(img, sig, slot);
    HeaderFields(img, sig, slot[|h|..]);
    assert h + slot[|h|..] == slot;
  }

  /**
   For every payload that fits a slot: the image the tools build, sign and serialise
   passes verification in any slot that starts with it, and it is what the delta
   tool and the device take to be the logical image of that slot.
   */
  lemma SignThenVerify(t: Trust, img: Image, r: nat, s: nat, slot: Slot)
    requires KeyOk(t) && img == Unsigned(img.version, img.timestamp, img.payload)
    requires 0 < |img.payload| <= MAX_PAYLOAD
    requires Signs(t, Sha256.Hash(SigningBytes(img).value), r, s)
    requires var signed := SignTool(SignedImage(img).value, r, s); signed.Some? ==> signed.value <= slot
    ensures VerifySlot(t, slot) && Version(slot) == img.version && Payload(slot) == img.payload
    ensures LogicalSignedBytes(slot) == SignTool(SignedImage(img).value, r, s)
  {
    hide KeyOk, Crc32.Checksum, Sha256.Hash, LowS.Canonical, LowS.Encode, SignTool, VerifySlot;
    hide Version, Payload, SigningBytes, ToBigEndian, LogicalSignedBytes;
    var sig := LowS.Encode(r, s);
    SignToolBuilds(img, r, s);
    LowS.EncodedIsCanonical(r, s);
    EncodeIsOneOf(r, s);
    SignedSlotVerifies(t, img, sig, slot);
    var signed := img.(signature := sig);
    assert HeaderBytes(signed, sig) == HeaderBytes(img, sig);
    var whole := SignedImage(signed).value;
    LogicalOfBuilt(signed, slot[|whole|..]);
    assert whole + slot[|whole|..] == slot;
  }

  lemma EncodeIsOneOf(r: nat, s: nat)
    requires s < LowS.ORDER
    ensures LowS.Encode(r, s) == ToBigEndian(r, 32) + ToBigEndian(s, 32)
         || LowS.Encode(r, s) == ToBigEndian(r, 32) + ToBigEndian(LowS.ORDER - s, 32)
  {
  }

  /** The device's zero-signature region is what the tool signs. */
  lemma SignedRegionIsSigningBytes(img: Image, sig: seq<byte>, slot: Slot)
    requires HeaderBytes(img, sig).Some? && |img.payload| <= MAX_PAYLOAD && img.payload != []
    requires HeaderBytes(img, sig).value + img.payload <= slot
    ensures SizeOk(slot) && SigningBytes(img) == Some(SignedRegion(slot)) && Payload(slot) == img.payload
  {
    hide Crc32.Checksum, Magic, PayloadSize, PayloadCrc, Signature, Version, Timestamp, Le32;
    var h := HeaderBytes(img, sig).value;
    var rest := slot[|h|..];
    HeaderFields(img, sig, rest);
    assert h + rest == slot;
    var zero := HeaderBytes(img, Fill(SIGNATURE_SIZE, 0)).value;
    assert slot[..SIGNATURE_OFFSET] == h[..SIGNATURE_OFFSET] == zero[..SIGNATURE_OFFSET];
    assert zero == zero[..SIGNATURE_OFFSET] + Fill(SIGNATURE_SIZE, 0) + Fill(RESERVED_SIZE, 0);
    assert Payload(slot) == img.payload;
  }

  // ----- The decision, exactly ------------------------------------------------------

  /**
   The whole decision on the bytes of a slot. `region` is header and payload with the
   octets 20 to 83 zero: nothing passes that the curve check, the fingerprint, the
   checksum, the range of a signature or the signature itself speaks against.
   */
  lemma VerifyDecides(t: Trust, s: Slot, size: nat, region: seq<byte>)
    requires size == U32(s[8..12])
    requires size <= MAX_PAYLOAD ==>
      |region| == 512 + size && forall i :: 0 <= i < |region| ==> region[i] == if 20 <= i < 84 then 0 else s[i]
    ensures VerifySlot(t, s) <==>
      && t.onCurve(t.key) && Sha256.Hash(t.key) == t.fingerprint
      && s[..4] == [0xEF, 0xBE, 0xAD, 0xDE]
      && 0 < size <= 470_528 && Crc32.Checksum(s[512..512 + size]) == U32(s[16..20])
      && 0 < BigEndian(s[20..52]) && 0 < BigEndian(s[52..84]) <= LowS.ORDER / 2
      && t.ecdsa(Sha256.Hash(region), s[20..84])
  {
    hide Crc32.Checksum, Sha256.Hash, BigEndian, U32;
    MagicBytes(s);
    if 0 < size <= MAX_PAYLOAD {
      assert SignedRegion(s) == region;
      assert Signature(s)[..32] == s[20..52] && Signature(s)[32..] == s[52..84];
    }
  }

  lemma MagicBytes(s: Slot)
    ensures Magic(s) == FIRMWARE_MAGIC <==> s[..4] == [0xEF, 0xBE, 0xAD, 0xDE]
  {
    assert s[..4] == s[0..4];
    U32RoundTrip(s[0..4]);
    assert Le32(FIRMWARE_MAGIC) == [0xEF, 0xBE, 0xAD, 0xDE];
    Le32RoundTrip(FIRMWARE_MAGIC);
  }

  /** A signature of what the tool signs, both halves in range as numbers. */
  predicate GoodSignature(t: Trust, img: Image, sig: seq<byte>) {
    && |sig| == 64 && SigningBytes(img).Some?
    && 0 < BigEndian(sig[..32]) && 0 < BigEndian(sig[32..]) <= LowS.ORDER / 2
    && t.ecdsa(Sha256.Hash(SigningBytes(img).value), sig)
  }

  /** A slot that starts with an image of the tool verifies if and only if key and signature are good. */
  lemma VerifyExactly(t: Trust, img: Image, sig: seq<byte>, slot: Slot)
    requires 0 < |img.payload| <= MAX_PAYLOAD
    requires HeaderBytes(img, sig).Some? && HeaderBytes(img, sig).value + img.payload <= slot
    ensures VerifySlot(t, slot) <==>
      t.onCurve(t.key) && Sha256.Hash(t.key) == t.fingerprint && GoodSignature(t, img, sig)
  {
    hide Crc32.Checksum, Sha256.Hash, HeaderBytes, SigningBytes, BigEndian;
    hide Magic, PayloadCrc, Signature, Version, Timestamp, SignedRegion;
    SignatureSize(img, sig);
    var h := HeaderBytes(img, sig).value;
    SignedRegionIsSigningBytes(img, sig, slot);
    HeaderFields(img, sig, slot[|h|..]);
    assert h + slot[|h|..] == slot;
  }

  lemma SignatureSize(img: Image, sig: seq<byte>)
    requires HeaderBytes(img, sig).Some?
    ensures |sig| == 64
  {
  }
}
