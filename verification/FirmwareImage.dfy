/**
 The firmware image: the 512-byte header in front of the payload, the host tools that
 build, sign and take images apart, and the logical image a delta is based on.
 */
module FirmwareImage {
  import opened Bytes
  import opened Layout
  import Crc32

  const SIGNATURE_OFFSET: nat := 20
  const SIGNATURE_SIZE: nat := 64
  const RESERVED_SIZE: nat := 428

  // ----- The header as stored -------------------------------------------------

  function Magic(img: seq<byte>): u32
    requires |img| >= 20
  { U32(img[0..4]) }

  function Version(img: seq<byte>): u32
    requires |img| >= 20
  { U32(img[4..8]) }

  function PayloadSize(img: seq<byte>): u32
    requires |img| >= 20
  { U32(img[8..12]) }

  function Timestamp(img: seq<byte>): u32
    requires |img| >= 20
  { U32(img[12..16]) }

  function PayloadCrc(img: seq<byte>): u32
    requires |img| >= 20
  { U32(img[16..20]) }

  function Signature(img: seq<byte>): (sig: seq<byte>)
    requires |img| >= HEADER_SIZE
    ensures |sig| == SIGNATURE_SIZE
  { img[SIGNATURE_OFFSET..SIGNATURE_OFFSET + SIGNATURE_SIZE] }

  // ----- firmware_image.py --------------------------------------------------------

  datatype Image = Image(version: u32, timestamp: u32, payload: seq<byte>, signature: seq<byte>)

  /** header_bytes: None where the tool raises. */
  function HeaderBytes(img: Image, sig: seq<byte>): (r: Option<seq<byte>>)
    ensures r.Some? ==> |r.value| == HEADER_SIZE
  {
    if |sig| != SIGNATURE_SIZE || |img.payload| >= 0x1_0000_0000 then None
    else Some(Le32(FIRMWARE_MAGIC) + Le32(img.version) + Le32(|img.payload|) + Le32(img.timestamp)
              + Le32(Crc32.Checksum(img.payload)) + sig + Fill(RESERVED_SIZE, 0))
  }

  function SigningBytes(img: Image): Option<seq<byte>> {
    var h := HeaderBytes(img, Fill(SIGNATURE_SIZE, 0));
    if h.None? then None else Some(h.value + img.payload)
  }

  function SignedImage(img: Image): Option<seq<byte>> {
    var h := HeaderBytes(img, img.signature);
    if h.None? then None else Some(h.value + img.payload)
  }

  // ----- sign_firmware.py ----------------------------------------------------------

  datatype ParseError = TooSmall | BadMagic | PayloadShort | CrcMismatch

  datatype Parsed = Good(img: Image) | Bad(error: ParseError)

  /** parse_unsigned: the stored signature is not kept. */
  function ParseUnsigned(blob: seq<byte>): Parsed {
    if |blob| <= HEADER_SIZE then Bad(TooSmall)
    else if Magic(blob) != FIRMWARE_MAGIC then Bad(BadMagic)
    else if |blob| < HEADER_SIZE + PayloadSize(blob) then Bad(PayloadShort)
    else
      var payload := blob[HEADER_SIZE..HEADER_SIZE + PayloadSize(blob)];
      if Crc32.Checksum(payload) != PayloadCrc(blob) then Bad(CrcMismatch)
      else Good(Image(Version(blob), Timestamp(blob), payload, Fill(SIGNATURE_SIZE, 0)))
  }

  // ----- delta_common.py ---------------------------------------------------------

  /** logical_signed_bytes: None where the tool raises. */
  function LogicalSignedBytes(data: seq<byte>): Option<seq<byte>> {
    if |data| < HEADER_SIZE || Magic(data) != FIRMWARE_MAGIC || |data| < HEADER_SIZE + PayloadSize(data) then None
    else Some(data[..HEADER_SIZE + PayloadSize(data)])
  }

  /** The tool takes a file for an image if and only if it starts with the magic number and is long enough. */
  lemma LogicalExactly(data: seq<byte>)
    ensures LogicalSignedBytes(data).Some? <==>
      |data| >= 512 && data[..4] == [0xEF, 0xBE, 0xAD, 0xDE] && |data| >= 512 + U32(data[8..12])
    ensures LogicalSignedBytes(data).Some? ==> LogicalSignedBytes(data).value == data[..512 + U32(data[8..12])]
  {
    hide U32;
    if |data| >= 512 {
      assert data[..4] == data[0..4];
      U32RoundTrip(data[0..4]);
      assert Le32(FIRMWARE_MAGIC) == [0xEF, 0xBE, 0xAD, 0xDE];
      Le32RoundTrip(FIRMWARE_MAGIC);
    }
  }

  // ----- Round trips ------------------------------------------------------------

  /** What the header fields of a serialised image read back as. */
  lemma HeaderFields(img: Image, sig: seq<byte>, rest: seq<byte>)
    requires HeaderBytes(img, sig).Some?
    ensures var b := HeaderBytes(img, sig).value + rest;
      && Magic(b) == FIRMWARE_MAGIC && Version(b) == img.version && PayloadSize(b) == |img.payload|
      && Timestamp(b) == img.timestamp && PayloadCrc(b) == Crc32.Checksum(img.payload) && Signature(b) == sig
      && b[84..HEADER_SIZE] == Fill(RESERVED_SIZE, 0) && b[HEADER_SIZE..] == rest
  {
    hide Crc32.Checksum, Le32, U32;
    var b := HeaderBytes(img, sig).value + rest;
    var crc := Crc32.Checksum(img.payload);
    assert b[0..4] == Le32(FIRMWARE_MAGIC) && b[4..8] == Le32(img.version) && b[8..12] == Le32(|img.payload|);
    assert b[12..16] == Le32(img.timestamp) && b[16..20] == Le32(crc);
    Le32RoundTrip(FIRMWARE_MAGIC);
    Le32RoundTrip(img.version);
    Le32RoundTrip(|img.payload|);
    Le32RoundTrip(img.timestamp);
    Le32RoundTrip(crc);
  }

  /** Where the fields of firmware_header_t lie. */
  lemma HeaderLayout(img: Image, sig: seq<byte>)
    requires HeaderBytes(img, sig).Some?
    ensures var h := HeaderBytes(img, sig).value;
      && |h| == 512 && h[..4] == [0xEF, 0xBE, 0xAD, 0xDE] && U32(h[4..8]) == img.version
      && U32(h[8..12]) == |img.payload| && U32(h[12..16]) == img.timestamp
      && U32(h[16..20]) == Crc32.Checksum(img.payload) && h[20..84] == sig
      && forall i :: 84 <= i < 512 ==> h[i] == 0
  {
    hide Crc32.Checksum, U32;
    var h := HeaderBytes(img, sig).value;
    HeaderFields(img, sig, []);
    assert h + [] == h && h[..4] == h[0..4] == Le32(FIRMWARE_MAGIC);
    var pad := h[84..512];
    assert pad == Fill(RESERVED_SIZE, 0);
    forall i | 84 <= i < 512 ensures h[i] == 0 {
      assert h[i] == pad[i - 84];
    }
  }

  /** A tool-built image parses back to itself, whatever its signature field holds. */
  lemma ParseBuilt(img: Image, rest: seq<byte>)
    requires SignedImage(img).Some? && img.payload != []
    ensures ParseUnsigned(SignedImage(img).value + rest)
         == Good(img.(signature := Fill(SIGNATURE_SIZE, 0)))
  {
    hide Crc32.Checksum, Magic, Version, PayloadSize, Timestamp, PayloadCrc, Signature, HeaderBytes;
    var h := HeaderBytes(img, img.signature).value;
    HeaderFields(img, img.signature, img.payload + rest);
    var b := SignedImage(img).value + rest;
    assert b == h + (img.payload + rest);
    assert b[HEADER_SIZE..HEADER_SIZE + |img.payload|] == img.payload;
  }

  /**
   Whatever parses is, up to the fields the tool does not read, the serialisation of
   the result: the signing bytes differ from the file only in signature and padding.
   */
  lemma BuildParsed(blob: seq<byte>)
    requires ParseUnsigned(blob).Good?
    ensures var size := PayloadSize(blob);
      SigningBytes(ParseUnsigned(blob).img) == Some(
        blob[..SIGNATURE_OFFSET] + Fill(SIGNATURE_SIZE, 0) + Fill(RESERVED_SIZE, 0)
        + blob[HEADER_SIZE..HEADER_SIZE + size])
  {
    hide Crc32.Checksum, Le32, U32;
    var img := ParseUnsigned(blob).img;
    U32RoundTrip(blob[0..4]);
    U32RoundTrip(blob[4..8]);
    U32RoundTrip(blob[8..12]);
    U32RoundTrip(blob[12..16]);
    U32RoundTrip(blob[16..20]);
    assert blob[..20] == blob[0..4] + blob[4..8] + blob[8..12] + blob[12..16] + blob[16..20];
  }

  /** The logical image of a built image with anything after it is the built image. */
  lemma LogicalOfBuilt(img: Image, rest: seq<byte>)
    requires SignedImage(img).Some?
    ensures LogicalSignedBytes(SignedImage(img).value + rest) == SignedImage(img)
  {
    hide Crc32.Checksum, Magic, Version, PayloadSize, Timestamp, PayloadCrc, Signature, HeaderBytes;
    HeaderFields(img, img.signature, img.payload + rest);
    var h := HeaderBytes(img, img.signature).value;
    assert SignedImage(img).value + rest == h + (img.payload + rest);
  }
}
