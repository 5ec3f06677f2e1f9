/** Models lib/load.ts: `getExifBytes`, which classifies the input of `load`
    by its prefix, and `load`, which assembles the metadata document from the
    directories an EXIF reader decodes.

    The reader (lib/exif_reader), the tag table (lib/constants) and the
    base64 decoder (`utils.atob`) are not part of this model: the reader is
    the datatype ExifReader below, whose directory decoding is left as
    function-valued fields, and the decoder and `ExifReader.load` are
    function parameters of the operations that use them. */
module Load {
  import opened Utils
  import opened Js
  import opened Binary

  /** A decoded tag value, in the shapes the reader produces: a number, a
      byte string, a list of numbers, a rational `[num, den]`, or a list of
      rationals. */
  datatype TagValue =
    | Int(n: int)
    | Bytes(s: string)
    | Ints(ns: seq<int>)
    | Rational(num: int, den: int)
    | Rationals(rs: seq<(int, int)>)

  /** JavaScript truthiness of a tag value: a number is truthy unless it is
      zero, a string unless it is empty, and any array is truthy. */
  predicate Truthy(v: TagValue) {
    match v
    case Int(n) => n != 0
    case Bytes(s) => |s| > 0
    case _ => true
  }

  /** One image file directory: tag number to value. */
  type Ifd = map<int, TagValue>

  /** The directory kinds `getIfd` is asked for: '0th', 'Exif', 'GPS', 'Interop', '1st'. */
  datatype IfdKind = Zeroth | Exif | Gps | Interop | First

  /** The `IExif` object `load` returns. Every directory `load` visits is
      stored under its key even when the reader decoded nothing there
      (JavaScript stores `undefined`), hence `Option<Ifd>`. */
  datatype ExifDoc = ExifDoc(ifds: map<IfdKind, Option<Ifd>>, thumbnail: Option<string>)

  /** `{}`. */
  const EmptyDoc := ExifDoc(map[], None)

  /** What `ExifReader.load` hands back when it finds EXIF data: the TIFF
      bytes, their byte order, the directory decoder, and the reader of the
      4-byte next-directory pointer that follows a directory. */
  datatype ExifReader = ExifReader(
    tiftag: string,
    endian: Endian,
    getIfd: (TagValue, IfdKind) -> Option<Ifd>,
    getFirstIfdPointer: (nat, IfdKind) -> Option<string>)

  /** The exceptions `load` throws. */
  datatype LoadError =
    | InvalidFileData          // no recognised input prefix
    | Unpack(e: UnpackError)   // `struct.unpack` rejected a pointer
    | NullFirstIfdPointer      // the reader returned no next-directory pointer

  // Tag numbers (TIFF 6.0 and EXIF 2.3 tag tables).
  const ExifTag := 34665                      // 0x8769, in the 0th IFD
  const GpsTag := 34853                       // 0x8825, in the 0th IFD
  const InteroperabilityTag := 40965          // 0xA005, in the Exif IFD
  const JpegInterchangeFormat := 513          // 0x0201, thumbnail offset
  const JpegInterchangeFormatLength := 514    // 0x0202, thumbnail length

  /** The 0th-IFD offset sits at bytes 4..8 of the TIFF header. */
  const IfdPointerBegin := 4
  const IfdPointerLength := 4

  /** Start-Of-Image marker of a JPEG stream (Table B.1 of ITU-T T.81). */
  const JpegSoi := "\U{FF}\U{D8}"
  const JpegDataUri := "data:image/jpeg;base64,"
  const JpgDataUri := "data:image/jpg;base64,"
  const ExifPrefix := "Exif"
  /** `Exif\0\0`: the identifier dropped from a raw EXIF blob. */
  const ExifHeaderLength := 6

  /** A next-directory pointer of four NUL bytes: no further directory. */
  const NoNextIfd := "\0\0\0\0"

  /** The input shapes `load` accepts. */
  predicate Recognised(bytes: string) {
    JpegSoi <= bytes || JpegDataUri <= bytes || JpgDataUri <= bytes || ExifPrefix <= bytes
  }

  /** `getExifBytes`: a JPEG stream is passed through; a JPEG data URI is
      base64-decoded (`bytes.split(',')[1]`); a raw EXIF blob loses its
      6-character identifier; anything else is rejected. */
  function GetExifBytes(bytes: string, atob: string -> string): (r: Result<string, LoadError>)
    ensures JpegSoi <= bytes ==> r == Success(bytes)
    ensures JpegDataUri <= bytes || JpgDataUri <= bytes ==>
              ',' in bytes && r == Success(atob(Split(bytes, ',')[1]))
    ensures ExifPrefix <= bytes ==>
              r == Success(if |bytes| < ExifHeaderLength then "" else bytes[ExifHeaderLength..])
    ensures r.Failure? <==> !Recognised(bytes)
    ensures r.Failure? ==> r.error == InvalidFileData
  {
    SlicePrefix(bytes, JpegSoi);
    SlicePrefix(bytes, JpegDataUri);
    SlicePrefix(bytes, JpgDataUri);
    SlicePrefix(bytes, ExifPrefix);
    PrefixesExclusive(bytes);
    if Slice(bytes, 0, 2) == JpegSoi then
      Success(bytes)
    else if Slice(bytes, 0, 23) == JpegDataUri || Slice(bytes, 0, 22) == JpgDataUri then
      assert bytes[|JpgDataUri| - 1] == ',' || bytes[|JpegDataUri| - 1] == ',';
      Success(atob(Split(bytes, ',')[1]))
    else if Slice(bytes, 0, 4) == ExifPrefix then
      Success(Slice(bytes, ExifHeaderLength, |bytes|))
    else
      Failure(InvalidFileData)
  }

  /** The four prefixes exclude each other, so the order of the tests in
      `getExifBytes` does not matter. */
  lemma PrefixesExclusive(bytes: string)
    ensures JpegSoi <= bytes ==> !(JpegDataUri <= bytes || JpgDataUri <= bytes || ExifPrefix <= bytes)
    ensures JpegDataUri <= bytes ==> !(JpgDataUri <= bytes || ExifPrefix <= bytes)
    ensures JpgDataUri <= bytes ==> !(ExifPrefix <= bytes)
  {
    PrefixesConflict(JpegSoi, JpegDataUri, bytes, 0);
    PrefixesConflict(JpegSoi, JpgDataUri, bytes, 0);
    PrefixesConflict(JpegSoi, ExifPrefix, bytes, 0);
    PrefixesConflict(JpegDataUri, JpgDataUri, bytes, 13);
    PrefixesConflict(JpegDataUri, ExifPrefix, bytes, 0);
    PrefixesConflict(JpgDataUri, ExifPrefix, bytes, 0);
  }

  /** Two prefixes that differ at some position cannot both start `s`. */
  lemma PrefixesConflict(p: string, q: string, s: string, i: nat)
    requires i < |p| && i < |q| && p[i] != q[i]
    ensures !(p <= s && q <= s)
  {
  }

  /** A data URI yields the decoding of the text between its first comma and
      the next one (or the end of the input). */
  lemma DataUriPayload(bytes: string, atob: string -> string, payload: string, rest: string)
    requires bytes == JpegDataUri + payload + rest || bytes == JpgDataUri + payload + rest
    requires ',' !in payload
    requires rest == "" || rest[0] == ','
    ensures GetExifBytes(bytes, atob) == Success(atob(payload))
  {
    var prefix := if bytes == JpegDataUri + payload + rest then JpegDataUri else JpgDataUri;
    var head := prefix[..|prefix| - 1];
    assert prefix == head + [','];
    assert bytes == head + [','] + payload + rest;
    assert prefix <= bytes;
    SecondField(head, payload, rest);
  }

  /** Field 1 of `split(',')` on `head,payload` or `head,payload,...`. */
  lemma SecondField(head: string, payload: string, rest: string)
    requires ',' !in head && ',' !in payload
    requires rest == "" || rest[0] == ','
    ensures var parts := Split(head + [','] + payload + rest, ',');
            |parts| >= 2 && parts[1] == payload
  {
    assert head + [','] + payload + rest == head + [','] + (payload + rest);
    SplitCons(head, payload + rest, ',');
    SplitFirst(payload, rest, ',');
  }

  /** The reader `load` works with, when the input is recognised. */
  function ReaderFor(bytes: string, atob: string -> string,
                     openReader: string -> Option<ExifReader>): (rd: Option<ExifReader>)
  {
    match GetExifBytes(bytes, atob)
    case Success(exifBytes) => openReader(exifBytes)
    case Failure(_) => None
  }

  /** The 0th-IFD offset: the u32 at bytes 4..8 of the TIFF data. */
  function ZerothIfdPointer(rd: ExifReader): (p: Result<nat, UnpackError>) {
    ReadU32(rd.endian, Slice(rd.tiftag, IfdPointerBegin, IfdPointerBegin + IfdPointerLength))
  }

  /** `ifd?.[tag]` is truthy. */
  predicate PointsOn(ifd: Option<Ifd>, tag: int) {
    ifd.Some? && tag in ifd.value && Truthy(ifd.value[tag])
  }

  /** The thumbnail's offset and length, when the 1st IFD holds both
      JPEGInterchangeFormat tags as numbers. Presence is what counts, so a
      zero offset or length still yields a range. */
  function ThumbnailRange(first: Option<Ifd>): (range: Option<(int, int)>) {
    if first.Some? && JpegInterchangeFormat in first.value
       && JpegInterchangeFormatLength in first.value
       && first.value[JpegInterchangeFormat].Int?
       && first.value[JpegInterchangeFormatLength].Int?
    then Some((first.value[JpegInterchangeFormat].n, first.value[JpegInterchangeFormatLength].n))
    else None
  }

  /** What `load` promises once a reader has been opened: the 0th-IFD
      pointer and, unless it is four NULs, the next-directory pointer must be
      readable, the latter must exist, and then the document holds the
      directories DirectoriesFrom describes. */
  predicate AssembledFrom(rd: ExifReader, r: Result<ExifDoc, LoadError>) {
    match ZerothIfdPointer(rd)
    case Failure(e) => r == Failure(Unpack(e))
    case Success(p) =>
      var next := rd.getFirstIfdPointer(p, Zeroth);
      if next.None? then r == Failure(NullFirstIfdPointer)
      else if next.value != NoNextIfd && ReadU32(rd.endian, next.value).Failure? then
        r == Failure(Unpack(ReadU32(rd.endian, next.value).error))
      else r.Success? && DirectoriesFrom(rd, p, next.value, r.value)
  }

  /** The directories of a document built from reader `rd`, whose 0th IFD is
      at `p` and is followed by the next-directory pointer bytes `next`. */
  predicate DirectoriesFrom(rd: ExifReader, p: nat, next: string, doc: ExifDoc) {
    // 0th is always decoded, at the header's pointer.
    && Zeroth in doc.ifds
    && doc.ifds[Zeroth] == rd.getIfd(Int(p), Zeroth)
    // Exif and GPS exactly when the 0th IFD's pointer tag is truthy, at that pointer.
    && (Exif in doc.ifds <==> PointsOn(doc.ifds[Zeroth], ExifTag))
    && (Exif in doc.ifds ==> doc.ifds[Exif] == rd.getIfd(doc.ifds[Zeroth].value[ExifTag], Exif))
    && (Gps in doc.ifds <==> PointsOn(doc.ifds[Zeroth], GpsTag))
    && (Gps in doc.ifds ==> doc.ifds[Gps] == rd.getIfd(doc.ifds[Zeroth].value[GpsTag], Gps))
    // Interop exactly when the Exif IFD was decoded and its pointer tag is truthy.
    && (Interop in doc.ifds <==> Exif in doc.ifds && PointsOn(doc.ifds[Exif], InteroperabilityTag))
    && (Interop in doc.ifds ==>
          doc.ifds[Interop] == rd.getIfd(doc.ifds[Exif].value[InteroperabilityTag], Interop))
    // 1st exactly when the next-directory pointer is not four NULs, at that pointer.
    && (First in doc.ifds <==> next != NoNextIfd)
    && (First in doc.ifds ==>
          && ReadU32(rd.endian, next).Success?
          && doc.ifds[First] == rd.getIfd(Int(ReadU32(rd.endian, next).value), First))
    // The thumbnail exactly when 1st holds both thumbnail tags; it is the
    // clamped slice of the TIFF data they describe.
    && (doc.thumbnail.Some? <==> First in doc.ifds && ThumbnailRange(doc.ifds[First]).Some?)
    && (doc.thumbnail.Some? ==>
          var (off, len) := ThumbnailRange(doc.ifds[First]).value;
          doc.thumbnail.value == Slice(rd.tiftag, off, off + len))
  }

  /** `load`: the document of the directories found in `bytes`. */
  method Load(bytes: string, atob: string -> string,
              openReader: string -> Option<ExifReader>)
    returns (r: Result<ExifDoc, LoadError>)
    // An unrecognised input is rejected before any reader is opened.
    ensures GetExifBytes(bytes, atob).Failure? ==> r == Failure(InvalidFileData)
    // No EXIF data: the empty document.
    ensures GetExifBytes(bytes, atob).Success? && ReaderFor(bytes, atob, openReader).None? ==>
              r == Success(EmptyDoc)
    ensures ReaderFor(bytes, atob, openReader).Some? ==>
              AssembledFrom(ReaderFor(bytes, atob, openReader).value, r)
  {
    var exifBytes;
    match GetExifBytes(bytes, atob) {
      case Failure(e) => return Failure(e);
      case Success(b) => exifBytes := b;
    }

    var exifObj := EmptyDoc;
    var reader := openReader(exifBytes);
    if reader.None? {
      return Success(exifObj);
    }
    r := AssembleDirectories(reader.value);
  }

  /** The part of `load` after the reader has been opened: decode 0th, then
      the directories its pointers lead to, then 1st and the thumbnail. */
  method AssembleDirectories(exifReader: ExifReader) returns (r: Result<ExifDoc, LoadError>)
    ensures AssembledFrom(exifReader, r)
  {
    var exifObj := EmptyDoc;
    var firstIfd: Option<Ifd> := None;
    var exifIfd: Option<Ifd> := None;
    var interopIfd: Option<Ifd> := None;
    var gpsIfd: Option<Ifd> := None;
    var thumbnail: Option<string> := None;

    var zerothIfdPointer;
    match ReadU32(exifReader.endian,
                  Slice(exifReader.tiftag, IfdPointerBegin, IfdPointerBegin + IfdPointerLength)) {
      case Failure(e) => return Failure(Unpack(e));
      case Success(p) => zerothIfdPointer := p;
    }

    var zerothIfd := exifReader.getIfd(Int(zerothIfdPointer), Zeroth);
    exifObj := exifObj.(ifds := exifObj.ifds[Zeroth := zerothIfd]);

    if PointsOn(zerothIfd, ExifTag) {
      var exifIfdPointer := zerothIfd.value[ExifTag];
      exifIfd := exifReader.getIfd(exifIfdPointer, Exif);
      exifObj := exifObj.(ifds := exifObj.ifds[Exif := exifIfd]);
    }

    if PointsOn(zerothIfd, GpsTag) {
      var gpsIfdPointer := zerothIfd.value[GpsTag];
      gpsIfd := exifReader.getIfd(gpsIfdPointer, Gps);
      exifObj := exifObj.(ifds := exifObj.ifds[Gps := gpsIfd]);
    }

    if PointsOn(exifIfd, InteroperabilityTag) {
      var interopIfdPointer := exifIfd.value[InteroperabilityTag];
      interopIfd := exifReader.getIfd(interopIfdPointer, Interop);
      exifObj := exifObj.(ifds := exifObj.ifds[Interop := interopIfd]);
    }

    var firstIfdPointerBytes := exifReader.getFirstIfdPointer(zerothIfdPointer, Zeroth);
    if firstIfdPointerBytes.None? {
      return Failure(NullFirstIfdPointer);
    }

    if firstIfdPointerBytes.value != NoNextIfd {
      var firstIfdPointer;
      match ReadU32(exifReader.endian, firstIfdPointerBytes.value) {
        case Failure(e) => return Failure(Unpack(e));
        case Success(p) => firstIfdPointer := p;
      }
      firstIfd := exifReader.getIfd(Int(firstIfdPointer), First);
      exifObj := exifObj.(ifds := exifObj.ifds[First := firstIfd]);
      var range := ThumbnailRange(firstIfd);
      if range.Some? {
        var (offset, length) := range.value;
        var thumbnailEnd := offset + length;
        thumbnail := Some(Slice(exifReader.tiftag, offset, thumbnailEnd));
        exifObj := exifObj.(thumbnail := thumbnail);
      }
    }

    return Success(exifObj);
  }

  /** Consequences for the shape of a built document: Interop only beside
      Exif; the thumbnail only beside 1st, never longer than its recorded
      length, and exactly the bytes `[offset, offset + length)` when those
      lie inside the TIFF data. */
  lemma DocumentShape(rd: ExifReader, r: Result<ExifDoc, LoadError>)
    requires AssembledFrom(rd, r) && r.Success?
    ensures Zeroth in r.value.ifds
    ensures Interop in r.value.ifds ==> Exif in r.value.ifds
    ensures r.value.thumbnail.Some? ==>
              && First in r.value.ifds
              && ThumbnailRange(r.value.ifds[First]).Some?
              && var (off, len) := ThumbnailRange(r.value.ifds[First]).value;
              && (len >= 0 ==> |r.value.thumbnail.value| <= len)
              && (0 <= off && off + len <= |rd.tiftag| && len >= 0 ==>
                    r.value.thumbnail.value == rd.tiftag[off..off + len])
  {
    if r.value.thumbnail.Some? {
      var (off, len) := ThumbnailRange(r.value.ifds[First]).value;
      if len >= 0 {
        SliceLengthAtMost(rd.tiftag, off, len);
      }
    }
  }

  /** The raw EXIF blob used by the library's round-trip test: big-endian
      TIFF data whose 0th IFD holds ImageWidth = 10 and ImageLength = 10. */
  const TestTiff := "MM\0*\0\0\0\U{8}\0\U{2}\U{1}\0\0\U{4}\0\0\0\U{1}\0\0\0\n"
                    + "\U{1}\U{1}\0\U{4}\0\0\0\U{1}\0\0\0\n\0\0\0\0"
  const TestBlob := "Exif\0\0" + TestTiff

  /** `load` takes the blob's raw-EXIF path and hands the reader the TIFF data. */
  lemma TestBlobPath(atob: string -> string)
    ensures GetExifBytes(TestBlob, atob) == Success(TestTiff)
  {
    assert TestBlob[..4] == ExifPrefix;
    assert TestBlob[ExifHeaderLength..] == TestTiff;
  }

  /** In the blob's big-endian TIFF data the header points at offset 8, and
      the two-entry directory there is followed by a next-directory pointer
      of four NULs, so no 1st IFD is decoded. */
  lemma TestTiffLayout()
    ensures TestTiff[..4] == "MM\0*"
    ensures ReadU32(Big, Slice(TestTiff, IfdPointerBegin, IfdPointerBegin + IfdPointerLength)) == Success(8)
    ensures TestTiff[8..10] == "\0\U{2}"
    ensures TestTiff[8 + 2 + 2 * 12..8 + 2 + 2 * 12 + 4] == NoNextIfd
  {
    assert Slice(TestTiff, 4, 8) == TestTiff[4..8] == "\0\0\0\U{8}";
  }

  /** The 0th IFD of the test blob: ImageWidth (256) = 10, ImageLength (257) = 10. */
  const TestZerothIfd: Ifd := map[256 := Int(10), 257 := Int(10)]

  /** `load` of the test blob yields exactly `{'0th': {256: 10, 257: 10}}`,
      for a reader over its TIFF data that decodes the directory at offset 8
      into those two entries and reports the four NULs after it. */
  lemma TestBlobDocument(rd: ExifReader, r: Result<ExifDoc, LoadError>)
    requires rd.tiftag == TestTiff && rd.endian == Big
    requires rd.getFirstIfdPointer(8, Zeroth) == Some(TestTiff[34..38])
    requires rd.getIfd(Int(8), Zeroth) == Some(TestZerothIfd)
    requires AssembledFrom(rd, r)
    ensures r == Success(ExifDoc(map[Zeroth := Some(TestZerothIfd)], None))
  {
    TestTiffLayout();
    assert ZerothIfdPointer(rd) == Success(8);
    var doc := r.value;
    assert !PointsOn(doc.ifds[Zeroth], ExifTag) && !PointsOn(doc.ifds[Zeroth], GpsTag);
    forall k: IfdKind
      ensures k in doc.ifds <==> k == Zeroth
    {
    }
    assert doc.ifds.Keys == {Zeroth};
    assert doc.ifds == map[Zeroth := Some(TestZerothIfd)];
  }
}
