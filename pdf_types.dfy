/**
 * The PDF objects that the encoding-remap engine of unicodify_pdf reads and
 * writes: content-stream operands and operators, /Differences arrays, font
 * dictionaries, and the errors the engine can raise.
 */
module PdfTypes {

  /** A single byte of a PDF string. */
  type Byte = b: int | 0 <= b < 256

  /** The byte 0x20, the one byte the PDF word-spacing rule applies to. */
  const Space: Byte := 0x20

  /** An operand of a content-stream operator (ISO 32000-1, section 7.3). */
  datatype Operand =
    | Str(bytes: seq<Byte>)
    | Num(value: real)
    | Name(name: string)
    | Arr(elems: seq<Operand>)

  /** One parsed content-stream instruction: its operands and its operator keyword. */
  datatype Op = Op(operands: seq<Operand>, operator: string)

  /** An entry of a /Differences array: an integer code or a glyph name such as "/A". */
  datatype DiffEntry = Offset(code: int) | Glyph(name: string)

  /** The /Encoding entry of a font: a name, or a dictionary with an optional /Differences array. */
  datatype Encoding =
    | NamedEncoding(name: string)
    | DictEncoding(differences: Option<seq<DiffEntry>>)

  /**
   * The glyph names of a CFF font program's built-in encoding, indexed by code,
   * as the font-program decoder returns them (never more than 256 of them).
   */
  type GlyphNames = s: seq<string> | |s| <= 256

  /** The ToUnicode stream of a font: the fixed CMap this engine attaches, or any other. */
  datatype ToUnicode = FixedCMap | OtherCMap(data: seq<Byte>)

  /**
   * A font dictionary. `program` is the decoded built-in encoding of the
   * /FontDescriptor's /FontFile3, absent when there is no descriptor, no
   * font file or no CFF encoding. `others` holds every entry not listed here.
   */
  datatype Font = Font(
    encoding: Encoding,
    program: Option<GlyphNames>,
    widths: Option<seq<int>>,
    firstChar: Option<int>,
    lastChar: Option<int>,
    toUnicode: Option<ToUnicode>,
    others: map<string, Operand>)

  /** Glyph name (with its leading slash) to standard single-byte code. */
  type GlyphTable = map<string, Byte>

  /** Custom code to standard code, for one font; absent codes are kept. */
  type DiffMap = map<int, Byte>

  /** Font resource key to difference map, for the fonts of one page. */
  type Registry = map<string, DiffMap>

  /** The exceptions the engine raises. */
  datatype Error =
    | MissingOperand(operator: string)   // `operands[0]` or `operands.pop()` on too short a list
    | UnexpectedTJOperand                // a TJ operand that is not an array
    | NonNumericWordSpacing              // `word_spacing * -1000` on a non-number
    | WidthIndexOutOfRange               // `orig_widths[...]` past the end of /Widths

  datatype Option<T> = None | Some(value: T)

  datatype Result<T> = Ok(value: T) | Err(error: Error)
}
