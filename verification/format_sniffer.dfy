/**
 * Classifying an audio file by the magic bytes at its start rather than by
 * its extension (music.py, `detect_actual_format` and the signature half of
 * `validate_flac_file`).
 */
module FormatSniffer {
  import opened Wrappers
  import opened Builtins

  datatype AudioFormat = Flac | Wav | Mp3 | Ogg | M4a | Unknown

  /** The lower-case name the program reports and embeds in backup file names. */
  function Name(f: AudioFormat): string {
    match f
    case Flac => "flac"
    case Wav => "wav"
    case Mp3 => "mp3"
    case Ogg => "ogg"
    case M4a => "m4a"
    case Unknown => "unknown"
  }

  /** "fLaC", the FLAC stream marker (section 6 of RFC 9639). */
  const FlacMarker: seq<byte> := [0x66, 0x4C, 0x61, 0x43]
  /** "RIFF" at offset 0 of a RIFF container. */
  const RiffTag: seq<byte> := [0x52, 0x49, 0x46, 0x46]
  /** "WAVE", the RIFF form type at offset 8 of a WAV file. */
  const WaveTag: seq<byte> := [0x57, 0x41, 0x56, 0x45]
  /** "ID3", the start of an ID3v2 tag in front of MP3 audio. */
  const Id3Tag: seq<byte> := [0x49, 0x44, 0x33]
  /** 0xFF 0xFB: MPEG-1 Layer III frame sync without CRC. */
  const MpegSync: seq<byte> := [0xFF, 0xFB]
  /** "OggS", the Ogg capture pattern (section 6 of RFC 3533). */
  const OggCapture: seq<byte> := [0x4F, 0x67, 0x67, 0x53]
  /** "ftyp", the File Type Box type at offset 4 (section 4.3 of ISO/IEC 14496-12). */
  const FtypBox: seq<byte> := [0x66, 0x74, 0x79, 0x70]
  /** Big-endian box sizes 24, 28 and 32 that commonly open an MP4 file. */
  const BoxSize24: seq<byte> := [0x00, 0x00, 0x00, 0x18]
  const BoxSize28: seq<byte> := [0x00, 0x00, 0x00, 0x1C]
  const BoxSize32: seq<byte> := [0x00, 0x00, 0x00, 0x20]

  /** `header[off:off + len(sig)] == sig` under Python's clamped slicing. */
  predicate At(header: seq<byte>, off: nat, sig: seq<byte>) {
    Slice(header, off, off + |sig|) == sig
  }

  /**
   * What each format's signature is, taken on its own, with no priority
   * between formats. `Unknown` has no signature.
   */
  predicate Signature(f: AudioFormat, header: seq<byte>) {
    match f
    case Flac => At(header, 0, FlacMarker)
    case Wav => At(header, 0, RiffTag) && At(header, 8, WaveTag)
    case Mp3 => At(header, 0, Id3Tag) || At(header, 0, MpegSync)
    case Ogg => At(header, 0, OggCapture)
    case M4a =>
      || At(header, 4, FtypBox)
      || At(header, 0, BoxSize24) || At(header, 0, BoxSize28) || At(header, 0, BoxSize32)
    case Unknown => false
  }

  /** The order in which signatures are tried; the first that matches wins. */
  const Priority: seq<AudioFormat> := [Flac, Wav, Mp3, Ogg, M4a]

  /**
   * Classifies a header. The result is the first format of `Priority` whose
   * signature matches, and `Unknown` exactly when none does; the function is
   * total, so any header (however short) gets an answer.
   */
  function DetectHeader(header: seq<byte>): (r: AudioFormat)
    ensures r != Unknown ==> Signature(r, header)
    ensures r == Unknown <==> forall i :: 0 <= i < |Priority| ==> !Signature(Priority[i], header)
    ensures forall i, j :: 0 <= i < j < |Priority| && Priority[j] == r ==> !Signature(Priority[i], header)
  {
    assert Priority == [Flac, Wav, Mp3, Ogg, M4a];
    if At(header, 0, FlacMarker) then
      assert Signature(Priority[0], header); Flac
    else if At(header, 0, RiffTag) && At(header, 8, WaveTag) then
      assert Signature(Priority[1], header); Wav
    else if At(header, 0, Id3Tag) || At(header, 0, MpegSync) then
      assert Signature(Priority[2], header); Mp3
    else if At(header, 0, OggCapture) then
      assert Signature(Priority[3], header); Ogg
    else if || At(header, 4, FtypBox)
            || At(header, 0, BoxSize24) || At(header, 0, BoxSize28) || At(header, 0, BoxSize32) then
      assert Signature(Priority[4], header); M4a
    else Unknown
  }

  /**
   * `detect_actual_format`: reads at most 12 bytes; a file that cannot be
   * opened (`None`) is `Unknown` rather than an error.
   */
  function DetectFile(contents: Option<seq<byte>>): (r: AudioFormat)
    ensures contents.None? ==> r == Unknown
    ensures contents.Some? ==> r == DetectHeader(Slice(contents.value, 0, 12))
  {
    match contents
    case None => Unknown
    case Some(bytes) => DetectHeader(Slice(bytes, 0, 12))
  }

  /** Only the first 12 bytes of a file matter to the classification. */
  lemma DetectReadsTwelveBytes(a: seq<byte>, b: seq<byte>)
    requires |a| >= 12 && |b| >= 12 && a[..12] == b[..12]
    ensures DetectFile(Some(a)) == DetectFile(Some(b))
  {
  }

  /** A FLAC marker wins even when bytes 4..8 also spell an MP4 `ftyp` box. */
  lemma FlacBeatsFtyp(header: seq<byte>)
    requires At(header, 0, FlacMarker) && At(header, 4, FtypBox)
    ensures Signature(M4a, header)
    ensures DetectHeader(header) == Flac
  {
  }

  /** `wav` needs both `RIFF` at 0 and `WAVE` at 8: a RIFF file of another form is not WAV. */
  lemma WavNeedsBothTags(header: seq<byte>)
    ensures DetectHeader(header) == Wav <==>
              At(header, 0, RiffTag) && At(header, 8, WaveTag) && !At(header, 0, FlacMarker)
  {
  }

  /** Headers too short to hold any signature (fewer than two bytes, an empty file included) are `Unknown`. */
  lemma {:induction false} ShortHeaderIsUnknown(header: seq<byte>)
    requires |header| < 2
    ensures DetectHeader(header) == Unknown
  {
    forall sig: seq<byte>, off: nat | |sig| >= 2
      ensures !At(header, off, sig)
    {
      assert |Slice(header, off, off + |sig|)| < 2;
    }
  }

  /**
   * The signature half of `validate_flac_file`: the first four bytes must be
   * the FLAC marker; an unreadable file fails.
   */
  predicate FlacHeaderOk(contents: Option<seq<byte>>) {
    contents.Some? && Slice(contents.value, 0, 4) == FlacMarker
  }

  /** The 4-byte check of `validate_flac_file` agrees with the 12-byte sniffer's FLAC verdict. */
  lemma {:induction false} FlacHeaderAgreesWithSniffer(contents: Option<seq<byte>>)
    ensures FlacHeaderOk(contents) <==> DetectFile(contents) == Flac
  {
    if contents.Some? {
      var bytes := contents.value;
      var h := Slice(bytes, 0, 12);
      SliceEqualsIff(bytes, 0, FlacMarker);
      SliceEqualsIff(h, 0, FlacMarker);
      if 4 <= |bytes| {
        assert h[..4] == bytes[..4];
      }
    }
  }
}
