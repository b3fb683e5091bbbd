/**
 The SIC/XE Format 3/4 instruction decoder of `analyze_hex_code`: a hex code
 is read as a number, written out as a 24-bit binary string, and cut into a
 6-bit opcode, the six flag bits n, i, x, b, p, e and a 12-bit displacement;
 the flags are classified and a target address is computed from the
 displacement and the program counter.

 The word is modelled twice: as the binary string the code slices, and as a
 number below 2^24 with fields taken by division and remainder.  The lemmas
 below connect the two.
 */
module HexCode {
  import opened Numerals

  /** One flag bit, as `int('0')` or `int('1')` gives it. */
  type Bit = b: nat | b < 2

  /** A 24-bit instruction word. */
  type Word = w: nat | w < 0x100_0000

  const WORD_BITS: nat := 24

  datatype Flags = Flags(n: Bit, i: Bit, x: Bit, b: Bit, p: Bit, e: Bit)

  datatype AddressingMode = Simple | Indirect | Immediate | SicStandard

  datatype InstructionFormat = Format3 | Format4

  datatype AddressingKind = PcRelative | BaseRelative | Direct

  /** `int(hex_code, 16)` raises ValueError: the only failure of the decoder. */
  datatype Error = InvalidLiteral

  datatype Result<T> = Ok(value: T) | Err(error: Error)

  /** The dictionary the decoder returns, less the random Register A. */
  datatype Analysis = Analysis(
    hexInput: string,
    binaryCode: string,
    opcode: string,
    nixbpe: string,
    flags: Flags,
    flagDescription: string,
    dispAddr: string,
    dispDecimal: nat,
    targetAddress: string,
    pcValue: string)

  // ---------------------------------------------------------------------
  // The decoder, step by step as the code does it, on the binary string
  // ---------------------------------------------------------------------

  /** `bin(v)[2:].zfill(24)`: at least 24 binary digits, never truncated. */
  function BinaryCode(v: nat): (bc: string)
    ensures |bc| >= WORD_BITS && AllDigits(bc, 2)
  {
    ValueZFill(ToDigits(v, 2), WORD_BITS, 2);
    ZFill(ToDigits(v, 2), WORD_BITS)
  }

  /** The six flags, one from each character of the nixbpe bits. */
  function FlagsOf(nixbpe: string): Flags
    requires |nixbpe| == 6 && AllDigits(nixbpe, 2)
  {
    Flags(DigitValue(nixbpe[0]), DigitValue(nixbpe[1]), DigitValue(nixbpe[2]),
          DigitValue(nixbpe[3]), DigitValue(nixbpe[4]), DigitValue(nixbpe[5]))
  }

  /** The addressing mode selected by n and i. */
  function Mode(n: Bit, i: Bit): AddressingMode
  {
    if n == 1 && i == 1 then Simple
    else if n == 1 && i == 0 then Indirect
    else if n == 0 && i == 1 then Immediate
    else SicStandard
  }

  /** The instruction format selected by e. */
  function Format(e: Bit): InstructionFormat
  {
    if e == 1 then Format4 else Format3
  }

  /** The relative-addressing kind: p takes precedence over b. */
  function Kind(p: Bit, b: Bit): AddressingKind
  {
    if p == 1 then PcRelative
    else if b == 1 then BaseRelative
    else Direct
  }

  function ModeName(m: AddressingMode): string
  {
    match m
    case Simple => "SIC/XE, Simple"
    case Indirect => "Indirect"
    case Immediate => "Immediate"
    case SicStandard => "SIC Standard"
  }

  function KindName(k: AddressingKind): string
  {
    match k
    case PcRelative => "PC-relative"
    case BaseRelative => "Base-relative"
    case Direct => "Direct"
  }

  function FormatName(f: InstructionFormat): string
  {
    match f
    case Format3 => "Format 3"
    case Format4 => "Format 4"
  }

  /** The `flag_description` entry of the result. */
  function FlagDescription(m: AddressingMode, k: AddressingKind, f: InstructionFormat): string
  {
    "SIC/XE, " + ModeName(m) + ", " + KindName(k) + ", " + FormatName(f)
  }

  /** The displacement field read as a 12-bit two's-complement number. */
  function SignedDisplacement(disp: nat): int
  {
    if disp >= 2048 then disp - 4096 else disp
  }

  /** PC plus the signed displacement when p is set; otherwise the raw
      displacement, whatever b says: no base register is consulted. */
  function TargetAddress(p: Bit, disp: nat, pc: nat): int
  {
    if p == 1 then pc + SignedDisplacement(disp) else disp
  }

  /** `hex(t)[2:].upper()`.  For a negative t Python writes "-0x…", so the
      slice keeps "x…" and the result starts with "X". */
  function HexTail(t: int): string
  {
    if t >= 0 then Upper(ToDigits(t, 16)) else "X" + Upper(ToDigits(-t, 16))
  }

  /** The opcode in hex (`opcode_hex`); the code prints it but does not
      return it. */
  function OpcodeHex(opcodeBinary: string): string
    requires AllDigits(opcodeBinary, 2)
  {
    PaddedHex(Value(opcodeBinary, 2), 2)
  }

  /** `analyze_hex_code`, with the program counter as a parameter.  It fails
      exactly when the input is not a non-empty string of hex digits. */
  function Analyze(hexCode: string, pc: nat): (r: Result<Analysis>)
    ensures r.Ok? <==> |hexCode| > 0 && forall k :: 0 <= k < |hexCode| ==> IsHexDigit(hexCode[k])
  {
    match ParseInt(hexCode, 16)
    case None => Err(InvalidLiteral)
    case Some(decimalValue) => Ok(AnalyzeBinary(hexCode, BinaryCode(decimalValue), pc))
  }

  /** Everything `analyze_hex_code` does once the binary string is made:
      slicing, classifying and computing the target address. */
  function AnalyzeBinary(hexCode: string, binaryCode: string, pc: nat): Analysis
    requires |binaryCode| >= WORD_BITS && AllDigits(binaryCode, 2)
  {
    var opcodeBinary := binaryCode[..6];
    var nixbpeBits := binaryCode[6..12];
    var flags := FlagsOf(nixbpeBits);
    var mode := Mode(flags.n, flags.i);
    var format := Format(flags.e);
    var kind := Kind(flags.p, flags.b);
    var dispBits := binaryCode[12..];
    var dispDecimal := Value(dispBits, 2);
    var target := TargetAddress(flags.p, dispDecimal, pc);
    Analysis(
      Upper(hexCode),
      binaryCode,
      opcodeBinary,
      nixbpeBits,
      flags,
      FlagDescription(mode, kind, format),
      PaddedHex(dispDecimal, 3),
      dispDecimal,
      HexTail(target),
      HexTail(pc))
  }

  // ---------------------------------------------------------------------
  // The same word as a number: fields by division and remainder
  // ---------------------------------------------------------------------

  datatype Fields = Fields(opcode: nat, flags: Flags, disp: nat)

  /** The six flags packed as the number the nixbpe bits spell. */
  function EncodeFlags(f: Flags): (v: nat)
    ensures v < 64
  {
    32 * f.n + 16 * f.i + 8 * f.x + 4 * f.b + 2 * f.p + f.e
  }

  function DecodeFlags(v: nat): Flags
    requires v < 64
  {
    Flags(v / 32, (v / 16) % 2, (v / 8) % 2, (v / 4) % 2, (v / 2) % 2, v % 2)
  }

  /** Opcode = w div 2^18, nixbpe = (w div 2^12) mod 64, disp = w mod 2^12. */
  function Decode(w: Word): (f: Fields)
    ensures f.opcode < 64 && f.disp < 4096
  {
    Fields(w / 0x4_0000, DecodeFlags((w / 0x1000) % 64), w % 0x1000)
  }

  /** Assembling a word from its fields. */
  function Encode(f: Fields): Word
    requires f.opcode < 64 && f.disp < 4096
  {
    f.opcode * 0x4_0000 + EncodeFlags(f.flags) * 0x1000 + f.disp
  }

  /** Bit k of the word, counting from the most significant bit as 0. */
  function BitAt(w: Word, k: nat): Bit
    requires k < WORD_BITS
  {
    (w / Pow(2, WORD_BITS - 1 - k)) % 2
  }
}
