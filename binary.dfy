/** The one read lib/load.ts makes through `struct.unpack`: an unsigned
    32-bit integer (format `L`) from four characters of a binary string, in
    the byte order the EXIF reader detected (`>` big-endian for a TIFF header
    starting `MM`, `<` little-endian for `II`). lib/struct is not part of
    this model; the read and the matching write are stated here directly. */
module Binary {
  import opened Utils

  datatype Endian = Big | Little

  datatype UnpackError = LengthMismatch

  /** Width in bytes of format `L`. */
  const U32Size: nat := 4

  /** A binary string: every character is one byte (code below 256). */
  predicate IsByteString(s: string) {
    forall i :: 0 <= i < |s| ==> s[i] as int < 256
  }

  /** Value of four bytes, most significant first. */
  function BigEndianValue(b0: int, b1: int, b2: int, b3: int): (v: int) {
    ((b0 * 256 + b1) * 256 + b2) * 256 + b3
  }

  /** `struct.unpack(endian + 'L', b)[0]`: fails unless `b` has exactly the
      four characters the format asks for. */
  function ReadU32(e: Endian, b: string): (r: Result<nat, UnpackError>)
    ensures r.Success? <==> |b| == U32Size
    ensures r.Success? && IsByteString(b) ==> r.value < 0x1_0000_0000
  {
    if |b| != U32Size then Failure(LengthMismatch)
    else match e
      case Big => Success(BigEndianValue(b[0] as int, b[1] as int, b[2] as int, b[3] as int))
      case Little => Success(BigEndianValue(b[3] as int, b[2] as int, b[1] as int, b[0] as int))
  }

  /** The inverse write of ReadU32: `n` as four bytes in byte order `e`. */
  function PackU32(e: Endian, n: nat): (b: string)
    requires n < 0x1_0000_0000
    ensures |b| == U32Size && IsByteString(b)
  {
    var b3, n1 := n % 256, n / 256;
    var b2, n2 := n1 % 256, n1 / 256;
    var b1, b0 := n2 % 256, n2 / 256;
    match e
    case Big => [b0 as char, b1 as char, b2 as char, b3 as char]
    case Little => [b3 as char, b2 as char, b1 as char, b0 as char]
  }

  /** Little-endian is big-endian on the reversed bytes. */
  lemma LittleIsReversedBig(b: string)
    requires |b| == U32Size
    ensures ReadU32(Little, b) == ReadU32(Big, [b[3], b[2], b[1], b[0]])
  {
  }

  /** Reading back what was written gives the number written. */
  lemma ReadPack(e: Endian, n: nat)
    requires n < 0x1_0000_0000
    ensures ReadU32(e, PackU32(e, n)) == Success(n)
  {
    var b3, n1 := n % 256, n / 256;
    var b2, n2 := n1 % 256, n1 / 256;
    var b1, b0 := n2 % 256, n2 / 256;
    assert n == n1 * 256 + b3;
    assert n1 == n2 * 256 + b2;
    assert n2 == b0 * 256 + b1;
    assert BigEndianValue(b0, b1, b2, b3) == n;
  }

  /** Writing what was read gives back the four bytes. */
  lemma PackRead(e: Endian, b: string)
    requires |b| == U32Size && IsByteString(b)
    ensures ReadU32(e, b).Success? && PackU32(e, ReadU32(e, b).value) == b
  {
    var x0, x1, x2, x3 := b[0] as int, b[1] as int, b[2] as int, b[3] as int;
    var y0, y1, y2, y3 := if e == Big then x0 else x3, if e == Big then x1 else x2,
                          if e == Big then x2 else x1, if e == Big then x3 else x0;
    var n := BigEndianValue(y0, y1, y2, y3);
    assert n == ReadU32(e, b).value;
    assert n % 256 == y3 && n / 256 == (y0 * 256 + y1) * 256 + y2;
    assert ((y0 * 256 + y1) * 256 + y2) % 256 == y2 && ((y0 * 256 + y1) * 256 + y2) / 256 == y0 * 256 + y1;
    assert (y0 * 256 + y1) % 256 == y1 && (y0 * 256 + y1) / 256 == y0;
    var p := PackU32(e, n);
    assert p[0] as int == x0 && p[1] as int == x1 && p[2] as int == x2 && p[3] as int == x3;
    assert p == b;
  }

  /** On byte strings the pointer is zero exactly when its four bytes are NUL. */
  lemma ZeroIffNulBytes(e: Endian, b: string)
    requires |b| == U32Size && IsByteString(b)
    ensures ReadU32(e, b) == Success(0) <==> b == "\0\0\0\0"
  {
    if ReadU32(e, b) == Success(0) {
      PackRead(e, b);
      assert PackU32(e, 0) == "\0\0\0\0";
    }
  }
}
