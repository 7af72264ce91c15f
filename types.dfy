/** Values shared by the model of load_text_file: the byte and code-unit
    types, codepage identifiers, the errors the operation raises and the
    record of the platform calls it makes. */
module Types {

  /** One byte of the file (memcmp compares bytes as unsigned). */
  newtype byte = x: int | 0 <= x < 0x100

  /** One UTF-16 code unit: a Windows wchar_t. */
  newtype char16 = x: int | 0 <= x < 0x1_0000

  /** An unsigned 32-bit integer: uint32_t, UINT. */
  newtype uint32 = x: int | 0 <= x < 0x1_0000_0000

  /** A codepage identifier; 0 asks for autodetection. */
  type Codepage = uint32

  const Autodetect: Codepage := 0
  const Utf8: Codepage := 65001
  const Utf16LE: Codepage := 1200
  const Utf16BE: Codepage := 1201

  /** The largest accepted file length in bytes (1 MiB). */
  const MaxFileSize: nat := 0x100000

  /** U+FEFF, ZERO WIDTH NO-BREAK SPACE, used as the byte-order mark. */
  const ByteOrderMark: char16 := 0xFEFF

  datatype Option<T> = None | Some(value: T)

  datatype Error =
    | FileTooBig(message: string)  // the runtime_error of the size guard
    | PlatformError(call: string)  // a failed HRESULT, named by the text of the failing call

  datatype Result<T> = Success(value: T) | Failure(error: Error)

  /** A call into the platform's multi-language service, in the order made. */
  datatype Call =
    | DetectCall                                   // DetectCodepageInIStream
    | Measure(codepage: Codepage)                  // ConvertStringToUnicode without an output buffer
    | Fill(codepage: Codepage, capacity: nat)      // ConvertStringToUnicode into a buffer of `capacity` units
}
