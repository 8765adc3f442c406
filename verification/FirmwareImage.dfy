/** tools/image.py: the packed firmware image. */
module FirmwareImage {
  import opened Words
  import opened Crc32

  const APP_START: nat := 0x4000
  const IMAGE_ROUND: nat := 256
  const HEADER: nat := 64
  const LENGTH_VECTOR: nat := 0x20
  const MAGIC: nat := 0x12345678

  function Ascii(s: string): (b: seq<byte>)
    ensures |b| == |s|
  {
    seq<byte>(|s|, i requires 0 <= i < |s| => s[i] as int % 0x100)
  }

  /** The text that opens an image, filled up to 52 bytes. */
  function Banner(): (b: seq<byte>)
    ensures |b| == 52 && b[..6] == Ascii("j4cDAC")
  {
    Ascii("j4cDAC") + Ascii(" firmware image - DO NOT EDIT\n~~~~~~~~~~~~~~~\n")
  }

  /** The program length rounded up to whole pages. */
  function PaddedLength(n: nat): (len: nat)
    requires n > 0
    ensures len % IMAGE_ROUND == 0 && n <= len < n + IMAGE_ROUND
  {
    var len := n - 1 + IMAGE_ROUND;
    len - len % IMAGE_ROUND
  }

  function Zeros(n: nat): (b: seq<byte>)
    ensures |b| == n && forall i :: 0 <= i < n ==> b[i] == 0
  {
    seq<byte>(n, _ => 0)
  }

  /** The data part of an image: a program with its padded length in vector 8,
      zero padding, and its CRC at the front of a last page. */
  predicate IsPayload(payload: seq<byte>, prog: seq<byte>) {
    && prog != []
    && var len := PaddedLength(|prog|);
    && len < TWO_TO_THE_32 && |payload| == len + 256
    && Le32(payload, LENGTH_VECTOR) == len
    && Le32(payload, len) == Crc(0, payload[..len])
    && (forall i :: 0 <= i < |prog| && !(LENGTH_VECTOR <= i < LENGTH_VECTOR + 4) ==> payload[i] == prog[i])
    && (forall i :: |prog| <= i < len && LENGTH_VECTOR + 4 <= i ==> payload[i] == 0)
    && (forall i :: len + 4 <= i < len + 256 ==> payload[i] == 0)
  }

  /** The 64-byte header repeats the length and the CRC for the bootloader. */
  predicate IsHeader(header: seq<byte>, payload: seq<byte>, len: nat) {
    && |header| == HEADER && len + 4 <= |payload|
    && header[..6] == Ascii("j4cDAC")
    && Le32(header, 52) == MAGIC && Le32(header, 56) == Le32(payload, len) && Le32(header, 60) == len
  }

  predicate IsImage(image: seq<byte>, prog: seq<byte>) {
    && |image| >= HEADER && IsPayload(image[HEADER..], prog)
    && IsHeader(image[..HEADER], image[HEADER..], PaddedLength(|prog|))
  }

  /** prog holds the bytes from APP_START to the last address of the hex file,
      gaps filled. */
  method Build(prog: seq<byte>) returns (image: seq<byte>)
    requires 0 < |prog| < 0x8000_0000
    ensures IsImage(image, prog)
  {
    hide Crc, Pack32, IsPayload, IsHeader, Le32;
    var imagelen := |prog| - 1 + IMAGE_ROUND;
    imagelen := imagelen - imagelen % IMAGE_ROUND;
    var dataLen := Pack32(imagelen);
    Le32OfPack32(imagelen);
    var data := PutBytes(prog, LENGTH_VECTOR, dataLen);
    data := data + Zeros(imagelen - |data|);
    CrcBound(0, data);
    var crc := Crc(0, data);
    var crcData := Pack32(crc);
    Le32OfPack32(crc);
    var body := data;
    data := data + (crcData + Zeros(252));
    PayloadMade(prog, body, crcData);
    var header := Banner()
                  + Pack32(MAGIC) + crcData + dataLen;
    HeaderMade(header, crcData, dataLen, data, imagelen);
    image := header + data;
    assert image[..HEADER] == header && image[HEADER..] == data;
  }

  /** Bytes placed at an offset; bytes skipped over read as 0xFF. */
  function PutBytes(data: seq<byte>, at: nat, bytes: seq<byte>): (r: seq<byte>)
    ensures |r| == if |data| >= at + |bytes| then |data| else at + |bytes|
    ensures r[at..at + |bytes|] == bytes
    ensures forall i :: 0 <= i < |data| && !(at <= i < at + |bytes|) ==> r[i] == data[i]
  {
    var n := if |data| >= at + |bytes| then |data| else at + |bytes|;
    seq<byte>(n, i requires 0 <= i < n =>
      if at <= i < at + |bytes| then bytes[i - at] else if i < |data| then data[i] else 0xFF)
  }

  lemma PayloadMade(prog: seq<byte>, body: seq<byte>, crcData: seq<byte>)
    requires prog != [] && |body| == PaddedLength(|prog|) < TWO_TO_THE_32 && |crcData| == 4
    requires body[LENGTH_VECTOR..LENGTH_VECTOR + 4] == Pack32(|body|)
    requires forall i :: 0 <= i < |prog| && !(LENGTH_VECTOR <= i < LENGTH_VECTOR + 4) ==> body[i] == prog[i]
    requires forall i :: |prog| <= i < |body| && LENGTH_VECTOR + 4 <= i ==> body[i] == 0
    requires Le32(crcData, 0) == Crc(0, body)
    ensures IsPayload(body + (crcData + Zeros(252)), prog)
    ensures Le32(body + (crcData + Zeros(252)), |body|) == Le32(crcData, 0)
  {
    hide Crc;
    var payload, len := body + (crcData + Zeros(252)), |body|;
    assert payload[..len] == body;
    assert payload[len..len + 4] == crcData;
    Le32OfSlice(payload, len);
    Le32OfSlice(payload, LENGTH_VECTOR);
    assert payload[LENGTH_VECTOR..LENGTH_VECTOR + 4] == body[LENGTH_VECTOR..LENGTH_VECTOR + 4];
    Le32OfPack32(len);
  }

  lemma Le32OfSlice(s: seq<byte>, i: nat)
    requires i + 4 <= |s|
    ensures Le32(s, i) == Le32(s[i..i + 4], 0)
  {
  }

  lemma HeaderMade(header: seq<byte>, crcData: seq<byte>, dataLen: seq<byte>, payload: seq<byte>, len: nat)
    requires |crcData| == 4 && |dataLen| == 4 && len + 4 <= |payload|
    requires Le32(dataLen, 0) == len && Le32(crcData, 0) == Le32(payload, len)
    requires header == Banner() + Pack32(MAGIC) + crcData + dataLen
    ensures IsHeader(header, payload, len)
  {
    assert header[52..56] == Pack32(MAGIC) && header[56..60] == crcData && header[60..64] == dataLen;
    Le32OfSlice(header, 52);
    Le32OfSlice(header, 56);
    Le32OfSlice(header, 60);
    Le32OfPack32(MAGIC);
    assert header[..6] == Banner()[..6];
  }
}
