# exif-library: input classification and directory assembly of `load`

This project is a Dafny model of the entry point of a TypeScript EXIF
library, along with one string utility the library has.

- **`getExifBytes`** decides what kind of input `load` was given:
  - A JPEG stream starts with the Start-Of-Image marker `FF D8` and is passed through unchanged.
  - A `data:image/jpeg;base64,` or `data:image/jpg;base64,` URI has its payload base64-decoded.
  - A raw EXIF blob starting `Exif` has its 6-character identifier removed.
  - Any other input is rejected.
- **`load`** builds the metadata document from what an EXIF reader decodes:
  - It reads the 0th-IFD offset from bytes 4..8 of the TIFF header, in the reader's byte order.
  - It follows the Exif, GPS and Interoperability pointer tags when they are truthy.
  - It follows the next-IFD pointer to the 1st IFD unless that pointer is four NUL bytes.
  - It cuts the thumbnail out of the TIFF data when both JPEGInterchangeFormat tags are present.
- **`repeatString`** concatenates `num` copies of a string in a loop.

Modules:

- `Utils` (`utils.dfy`): the source's `Option` type, `Result` for thrown errors, and `repeatString` with its reference definition `Repeat`.
- `Js` (`js.dfy`): the semantics of JavaScript's `String.prototype.slice` (negative positions count from the end, positions are clamped) and of `split` on one character.
- `Binary` (`binary.dfy`): the u32 read behind `struct.unpack('L')`, in big-endian (`MM`) and little-endian (`II`) order, and its inverse.
- `Load` (`load.dfy`): `getExifBytes`, `load` and the document they produce.

Strings are `seq<char>`. The inputs `load` is meant for are binary strings
(file contents read as `binary`, or the raw EXIF blob), where each character is
one byte and a byte's value is the character's code.

Inputs the model cannot see are parameters:

- the base64 decoder `utils.atob`;
- `ExifReader.load`, which returns `None` where the source returns `null`;
- an opened reader's `getIfd` and `getFirstIfdPointer`, as function-valued fields of `ExifReader`.

`load` is written as two methods. `Load` does the input classification and opens
the reader (lib/load.ts:7-14). `AssembleDirectories` does the rest of the
function body (lib/load.ts:16-86); its contract is the predicate
`AssembledFrom`.

Where the two descriptions differ, the model follows the code:

- The code checks only the 4-character prefix `Exif`, not `Exif\0\0`, before dropping 6 characters. So `"Exif"` alone is accepted and gives the empty string.
- The source treats a JPEGInterchangeFormat tag that is present with the value 0 as present. So a zero offset or length still produces a thumbnail. The model does the same.
- Every directory `load` asks the reader for is stored under its key, even when the reader returns `undefined`. This is why directories in `ExifDoc` are `Option<Ifd>`.

## Model

| member | source | states |
|---|---|---|
| `Utils.RepeatString` | lib/utils.ts:7-13 | the result is `num` copies of `ch`: its length is the length of `ch` times `num` for `num >= 0`; it is empty when `num <= 0` or `ch` is empty; character `k` is the character of `ch` at position `k` mod the length of `ch` |
| `Utils.Repeat` | lib/utils.ts:7-13 | reference definition of `n` copies, built by prepending; its length is the length of `ch` times `n`, or 0 when `n <= 0` |
| `Utils.RepeatAppend` | lib/utils.ts:9-11 | adding one copy at the end, as the loop does, equals one more repetition: `Repeat(ch, n + 1) == Repeat(ch, n) + ch` |
| `Utils.RepeatAt` | lib/utils.ts:7-13 | every position `i` of the repetition holds the character of `ch` at position `i` mod the length of `ch` |
| `Js.Slice` | lib/load.ts:78-81 | `slice` never yields more than the string; inside the bounds it is exactly `s[start..end]`; an end past the string runs to its end |
| `Js.SliceLengthAtMost` | lib/load.ts:75-81 | a slice `[off, off + len)` with `len >= 0` has at most `len` characters, for any `off`, including negative ones |
| `Js.SlicePrefix` | lib/load.ts:95-106 | comparing the first characters of `s`, as many as `p` has, with `p` is the same as testing that `p` is a prefix of `s` |
| `Js.Split` | lib/load.ts:103 | `split` yields at least one part; no part contains the separator; joining the parts gives back the input; there is a single part exactly when the separator does not occur |
| `Js.SplitCons` | lib/load.ts:103 | the text before the first separator is the first part, and splitting continues after that separator |
| `Js.SplitFirst` | lib/load.ts:103 | the first part is the text before the first separator |
| `Js.SplitJoin` | lib/load.ts:103 | splitting parts that were joined gives back those parts, when no part contains the separator |
| `Binary.ReadU32` | lib/load.ts:24-30 | the read succeeds exactly on four characters; on a byte string the value is below 2^32 |
| `Binary.PackU32` | lib/load.ts:24-30 | the inverse write of the u32 read at these lines gives exactly four characters, each a byte (code below 256) |
| `Binary.ReadPack` | lib/load.ts:24-30 | reading back four written bytes gives the number written, in both byte orders |
| `Binary.PackRead` | lib/load.ts:64-67 | writing a value that was read gives back the same four bytes |
| `Binary.LittleIsReversedBig` | lib/load.ts:24-30 | a little-endian read is a big-endian read of the reversed bytes |
| `Binary.ZeroIffNulBytes` | lib/load.ts:63-67 | on byte strings, the pointer bytes are `\0\0\0\0` exactly when they read as 0 |
| `Load.GetExifBytes` | lib/load.ts:89-111 | JPEG input (`FF D8`) is returned unchanged; a JPEG data URI gives `atob` of `split(',')[1]`; an `Exif` input loses its first 6 characters; the result is an `InvalidFileData` error exactly when none of the four prefixes matches |
| `Load.PrefixesExclusive` | lib/load.ts:95-110 | no input starts with two of the four prefixes, so the order of the tests does not matter |
| `Load.DataUriPayload` | lib/load.ts:99-104 | a data URI yields the decoding of the text between its first comma and the next comma or the end |
| `Load.SecondField` | lib/load.ts:103 | field 1 of `split(',')` on `head,payload` or `head,payload,...` is `payload` |
| `Load.Load` | lib/load.ts:7-14 | an unrecognised input is an `InvalidFileData` error; with no EXIF data the result is the empty document; otherwise the result satisfies `AssembledFrom` for the opened reader |
| `Load.AssembleDirectories` | lib/load.ts:16-86 | an unreadable 0th pointer, a missing next-IFD pointer, or an unreadable non-NUL next-IFD pointer is an error. Otherwise 0th is decoded at the header's u32. Exif and GPS are present exactly when their tag in 0th is truthy, and are decoded at that tag's value. Interop is present exactly when Exif was decoded and its tag is truthy. 1st is present exactly when the next-IFD pointer is not four NULs. The thumbnail is present exactly when 1st holds both thumbnail tags, and equals `tiftag.slice(off, off + len)` |
| `Load.DocumentShape` | lib/load.ts:47-83 | in a built document, Interop appears only beside Exif; a thumbnail appears only beside 1st; a thumbnail is never longer than its recorded length; it is exactly `tiftag[off..off + len]` when that range lies inside the TIFF data |
| `Load.TestBlobPath` | tests/exif-library.test.ts:70 | the library's test blob takes the raw-EXIF path and gives its TIFF data |
| `Load.TestBlobDocument` | tests/exif-library.test.ts:69-79 | for a reader over the blob's TIFF data that decodes the directory at offset 8 into ImageWidth = 10 and ImageLength = 10 and reports the four NULs after it, the document `load` builds is exactly `{'0th': {256: 10, 257: 10}}`, with no other directory and no thumbnail |

## Left out

- `utils.atob` and `utils.btoa` wrap Node's `Buffer` base64 and UTF-8 conversion, which is foreign code. The decoder is a function parameter, and `btoa` is not used by the modelled code.
- `ExifReader.load`, `getIfd` and `getFirstIfdPointer` (lib/exif_reader) are not part of this model. They are parameters, and any exception they raise is not modelled.
- lib/struct is not part of this model. `Binary.ReadU32` states the one read `load` makes, and rejects any input that is not exactly four characters long.
- lib/dump, lib/insert, lib/remove, lib/constants and lib/helper are not part of this model. The five tag numbers `load` uses are constants in `Load`.
- The `typeof bytes === 'string'` check at lib/load.ts:91 cannot fail for an input that is typed as a string.
- Utils.RepeatString: the count is an integer. A non-integer `num`, which JavaScript allows, is not modelled.
- Load.AssembleDirectories: a thumbnail is made only when both JPEGInterchangeFormat values are numbers. For other values the source relies on JavaScript's `+` and `slice` coercions; the model then sets no thumbnail.
- Binary.ReadU32: the value is below 2^32 only for byte strings. For characters above `\xff` the source's behaviour depends on lib/struct, which is not part of this model.
- Positions and lengths in the model count characters. JavaScript's `slice` counts UTF-16 code units, so the two agree only when every character is below U+10000. A lone surrogate cannot be represented.
- Load.GetExifBytes: `utils.atob` decodes base64 and then reads the bytes as UTF-8, so on the data-URI path the string it hands to the reader need not be a byte string. The model passes on whatever the decoder parameter returns and does not promise a byte string there.
- The degrees/minutes/seconds helpers in tests/helper.test.ts use floating-point arithmetic in code that is not shown.
- The test files, their file reads and the `jpeg-js` pixel decoder are not modelled.
