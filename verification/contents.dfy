/** The index of a pack (`contents.json`): its JSON records and its fixed 256-byte binary header. */
module Contents {
  import opened Wrappers
  import opened Bytes
  import Utf8

  /**
   * One index record.  The key is optional: the decryptor matches it as present or absent,
   * although the encryptor always fills it in.
   */
  datatype ContentsRootItem = ContentsRootItem(path: string, key: Option<string>)

  datatype ContentsRoot = ContentsRoot(version: int, content: seq<ContentsRootItem>)

  /** `std::io::ErrorKind::InvalidInput`, the one error the header builder reports. */
  datatype HeaderError = InvalidInput

  /** Size of the binary header in front of the encrypted index body. */
  const HeaderSize: nat := 0x100

  /** Width of the UUID text field that follows the length byte. */
  const UuidField: nat := 0xEF

  /** The format's magic number, written little-endian at offset 4. */
  const MagicNumber: nat := 0x9BCFB9FC

  /** The `width` little-endian bytes of `n` (`to_le_bytes`), taken modulo 256^width. */
  function LeBytes(n: nat, width: nat): (bs: seq<byte>)
    ensures |bs| == width
  {
    if width == 0 then [] else [n % 256] + LeBytes(n / 256, width - 1)
  }

  /** The header layout, field by field: what bytes a header for UUID bytes `uuid` holds where. */
  ghost predicate IsHeaderFor(h: seq<byte>, uuid: seq<byte>) {
    && |h| == HeaderSize
    && |uuid| <= UuidField
    && (forall i :: 0 <= i < 4 ==> h[i] == 0)
    && h[4..8] == [0xFC, 0xB9, 0xCF, 0x9B]
    && (forall i :: 8 <= i < 16 ==> h[i] == 0)
    && h[16] == |uuid|
    && h[17..17 + |uuid|] == uuid
    && (forall i :: 17 + |uuid| <= i < HeaderSize ==> h[i] == 0)
  }

  /** The 16 bytes before the UUID section: zero `i32`, magic `u32`, zero `i64`. */
  function Preamble(): (p: seq<byte>)
    ensures |p| == 16
    ensures forall i :: 0 <= i < 4 ==> p[i] == 0
    ensures p[4..8] == [0xFC, 0xB9, 0xCF, 0x9B]
    ensures forall i :: 8 <= i < 16 ==> p[i] == 0
  {
    var p := LeBytes(0, 4) + LeBytes(MagicNumber, 4) + LeBytes(0, 8);
    assert LeBytes(MagicNumber, 4) == [0xFC, 0xB9, 0xCF, 0x9B];
    assert LeBytes(0, 4) == [0, 0, 0, 0];
    assert LeBytes(0, 8) == [0, 0, 0, 0, 0, 0, 0, 0];
    p
  }

  /** What the header builder does as written: a header, the length error, or a panic. */
  datatype HeaderOutcome = Built(header: seq<byte>) | Rejected(error: HeaderError) | Panicked

  /**
   * The header builder as written: it rejects UUIDs over 255 bytes, but computes the
   * padding as `0xEF - len` in `usize`, which underflows (and panics) for 240..255 bytes.
   */
  function GenerateContentsHeaderAsWritten(uuid: string): (r: HeaderOutcome)
    ensures r.Rejected? <==> |Utf8.Encode(uuid)| > 255
    ensures r.Panicked? <==> UuidField < |Utf8.Encode(uuid)| <= 255
    ensures r.Built? ==> IsHeaderFor(r.header, Utf8.Encode(uuid))
  {
    var bytes := Utf8.Encode(uuid);
    var len := |bytes|;
    if len > 255 then Rejected(InvalidInput)
    else if len > UuidField then Panicked
    else
      var h := Preamble() + [len] + bytes + Zeros(UuidField - len);
      assert h[17..17 + len] == bytes;
      Built(h)
  }

  /** A 240-byte UUID passes the 255-byte check and then makes the padding computation underflow. */
  lemma UuidLengthGap()
    ensures GenerateContentsHeaderAsWritten(seq(240, _ => 'a')).Panicked?
  {
    var uuid: string := seq(240, _ => 'a');
    assert Utf8.IsAscii(uuid);
    Utf8.AsciiEncoding(uuid);
  }

  /**
   * The header builder with the length check tightened to the field width: every UUID it
   * accepts yields exactly one 256-byte header, and every longer one is `InvalidInput`.
   */
  function GenerateContentsHeader(uuid: string): (r: Result<seq<byte>, HeaderError>)
    ensures r.Success? <==> |Utf8.Encode(uuid)| <= UuidField
    ensures r.Success? ==> IsHeaderFor(r.value, Utf8.Encode(uuid))
    ensures r.Failure? ==> r.error == InvalidInput
  {
    var bytes := Utf8.Encode(uuid);
    var len := |bytes|;
    if len > UuidField then Failure(InvalidInput)
    else
      var h := Preamble() + [len] + bytes + Zeros(UuidField - len);
      assert h[17..17 + len] == bytes;
      Success(h)
  }

  /** Where the builder as written produces a header, the corrected one produces the same header. */
  lemma CorrectedHeaderAgrees(uuid: string)
    ensures GenerateContentsHeaderAsWritten(uuid).Built? ==>
      GenerateContentsHeader(uuid) == Success(GenerateContentsHeaderAsWritten(uuid).header)
    ensures GenerateContentsHeaderAsWritten(uuid).Rejected? ==> GenerateContentsHeader(uuid).Failure?
  {
  }

  /** The UUID can be read back out of a header: length byte, then that many UTF-8 bytes. */
  lemma HeaderRecoversUuid(uuid: string)
    requires GenerateContentsHeader(uuid).Success?
    ensures var h := GenerateContentsHeader(uuid).value;
      Utf8.Decode(h[17..17 + h[16]]) == Some(uuid)
  {
    Utf8.DecodeEncode(uuid);
  }

  /** Cutting a header-prefixed file at offset 0x100 gives back exactly what followed the header. */
  lemma BodyAfterHeader(header: seq<byte>, uuid: seq<byte>, body: seq<byte>)
    requires IsHeaderFor(header, uuid)
    ensures |header + body| >= HeaderSize
    ensures (header + body)[HeaderSize..] == body
  {
  }
}
