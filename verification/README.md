# SIC/XE instruction decoder (`analyze_hex_code`)

A Dafny model of `analyze_hex_code` from `HEXCODE.py`. The function takes one
SIC/XE Format 3/4 machine instruction written in hex and:

- reads it as a number and writes it out as a binary string padded to 24 digits;
- cuts that string into a 6-bit opcode, the six flag bits `nixbpe` and a 12-bit
  displacement;
- classifies the addressing mode from n and i, the format from e, and the
  relative-addressing kind from p and b;
- computes the target address.

With p set, the displacement is read as 12-bit two's complement and added to
the program counter. Otherwise the raw displacement is the address.

The project has three modules:

- `Numerals` (`numerals.dfy`) models the Python conversions the decoder is
  built from: `int(s, base)` on plain digit strings, `bin(n)[2:]` and
  `hex(n)[2:]`, `zfill` and `upper`. It proves their laws: the rendering reads
  back, padding keeps the value, and the width is exact exactly when the
  value fits.
- `HexCode` (`hexcode.dfy`) models the decoder itself.
  - `Analyze` goes step by step over the binary string, as the code does.
    `AnalyzeBinary` holds everything after the string is built.
  - `Decode` and `Encode` are a second, arithmetic view of the word: a number
    below 2^24 whose fields come from division and remainder.
- `DecoderLaws` (`laws.dfy`) connects the two views. It proves:
  - the 24-digit string reads back to the input;
  - the three slices partition the string and read back to the arithmetic
    fields;
  - each flag is one bit of the word;
  - the classifications are total and exclusive;
  - the displacement is two's complement;
  - with p set, the target address stays within a signed 12-bit step of the
    PC; with p clear it is the raw displacement, below 4096;
  - the hex renderings are upper case, have their stated widths and read
    back (the target address when it is not negative).

  It ends with the program's own input, `032600`, analysed in full.

The program counter is a parameter. The code draws it at random from
0x1000, 0x2000, 0x3000, 0x4000 and 0x5000. All of these are at least 2048,
which `AnalyzeTarget` uses to show that the target is never negative.

The description string is reproduced as written. For n = i = 1 the mode name
is "SIC/XE, Simple", and the format string prefixes another "SIC/XE, ", so
the result reads "SIC/XE, SIC/XE, Simple, ...".

## Model

| member | source | states |
|---|---|---|
| Numerals.ParseInt | HEXCODE.py:24 | `int(s, base)` succeeds exactly when s is a non-empty string of digits of the base; then it gives the value of the digits, which is below base^len(s) |
| Numerals.ToDigits | HEXCODE.py:29 | `bin(n)[2:]` / `hex(n)[2:]` is a non-empty string of digits of the base |
| Numerals.ValueToDigits | HEXCODE.py:29 | reading a rendering back gives the number rendered |
| Numerals.ToDigitsLength | HEXCODE.py:29 | a rendering has at most k digits exactly when n < base^k |
| Numerals.ZFill | HEXCODE.py:29 | `zfill(width)` has length max(len, width), ends with the original string, is '0' before it, and never truncates |
| Numerals.ValueZFill | HEXCODE.py:29 | zero padding keeps the digit string and its value |
| Numerals.Upper | HEXCODE.py:225 | `upper()` keeps the length, maps each character to its upper case, and leaves no lower-case letter |
| Numerals.ValueUpper | HEXCODE.py:225 | upper-casing a digit string keeps its value |
| Numerals.PaddedHexShape | HEXCODE.py:144 | `hex(n)[2:].upper().zfill(w)` is upper case, at least w wide, and exactly w wide iff n < 16^w |
| Numerals.PaddedHexRoundTrip | HEXCODE.py:144 | the padded upper-case rendering parses back to n |
| HexCode.BinaryCode | HEXCODE.py:29 | `bin(v)[2:].zfill(24)` has at least 24 characters, all binary digits |
| HexCode.Analyze | HEXCODE.py:24-243 | the decoder fails (`int` raises) exactly when the input is not a non-empty hex-digit string |
| HexCode.AnalyzeBinary | HEXCODE.py:42-243 | everything after the binary string is built: slices, flags, classification, displacement, target and the returned renderings; what each field means is stated by `AnalyzeFields`, `AnalyzeRenderings` and `AnalyzeTarget` |
| HexCode.FlagsOf | HEXCODE.py:61-69 | one flag from each character of nixbpe, in the order n, i, x, b, p, e; `FlagsOfDigits` and `FlagsAreBits` show these are bits 6 to 11 of the word |
| HexCode.Mode | HEXCODE.py:85-99 | the addressing mode from (n, i), in the order the code decides it; `ModeBijective` shows it is total and one-to-one |
| HexCode.Format | HEXCODE.py:104-110 | Format 4 when e = 1, else Format 3; `FormatByE` states both directions |
| HexCode.Kind | HEXCODE.py:115-126 | the addressing kind, with p taking precedence over b; `KindPrecedence` states each kind as an if-and-only-if on (p, b) |
| HexCode.FlagDescription | HEXCODE.py:237 | "SIC/XE, " then mode, kind and format joined by ", ", with the code's mode names (so Simple reads "SIC/XE, Simple"); `AnalyzeRenderings` ties it to the word's flags |
| HexCode.SignedDisplacement | HEXCODE.py:172-179 | the 12-bit two's-complement reading; `SignedDisplacementRange`, `SignedDisplacementBits` and `DisplacementRoundTrip` state its range, bit weights and inverse |
| HexCode.TargetAddress | HEXCODE.py:168-197 | pc plus the signed displacement when p = 1, the raw displacement otherwise; `TargetAddressBounds` and `AnalyzeTarget` state its bounds and congruence |
| HexCode.HexTail | HEXCODE.py:240-242 | `hex(t)[2:].upper()`, including the "X…" a negative t gives; `HexTailReadsBack` states when it parses back |
| HexCode.OpcodeHex | HEXCODE.py:44-46 | `opcode_hex` from the opcode bits; `OpcodeHexWidth` states it is two digits parsing back to the field |
| Numerals.PaddedHex | HEXCODE.py:144 | `hex(n)[2:].upper().zfill(w)`, also used for `opcode_hex` at line 46; `PaddedHexShape` and `PaddedHexRoundTrip` state its width and value |
| HexCode.Decode | HEXCODE.py:42-141 | the arithmetic fields of a word: opcode below 64, displacement below 4096 |
| HexCode.EncodeFlags | HEXCODE.py:61-69 | the six flags packed as the number nixbpe spells, below 64 |
| DecoderLaws.BinaryCodeReadsBack | HEXCODE.py:24-29 | the binary string reads back to the value; it is exactly 24 wide iff the value is below 2^24; when wider it is the unpadded `bin`; leading zeros are kept |
| DecoderLaws.BinaryWord | HEXCODE.py:29 | for a 24-bit word: 24 binary digits spelling the word |
| DecoderLaws.BinaryDigitsUnique | HEXCODE.py:29 | two binary strings of equal width and equal value are equal, so the 24-digit spelling is unique |
| DecoderLaws.BinaryCodeFields | HEXCODE.py:42-141 | the three slices concatenate back to the string; they read back to opcode = w div 2^18, nixbpe = (w div 2^12) mod 64 and disp = w mod 2^12; the flags read from nixbpe are the word's flags |
| DecoderLaws.FlagsOfDigits | HEXCODE.py:61-69 | reading the six flags one character at a time agrees with reading nixbpe as a number and splitting its bits |
| DecoderLaws.BinaryCodeBit | HEXCODE.py:29 | character k of the binary string is bit k of the word, counting from the most significant bit |
| DecoderLaws.FlagsAreBits | HEXCODE.py:64-69 | n, i, x, b, p, e are bits 6, 7, 8, 9, 10, 11 of the word |
| DecoderLaws.FlagsRoundTrip | HEXCODE.py:61-69 | unpacking then packing six flag bits gives the number back |
| DecoderLaws.FlagsEncodeDecode | HEXCODE.py:61-69 | packing then unpacking flags gives the flags back |
| DecoderLaws.EncodeDecode | HEXCODE.py:42-141 | every 24-bit word is the assembly of its three fields |
| DecoderLaws.DecodeEncode | HEXCODE.py:42-141 | decoding an assembled word gives back its fields |
| DecoderLaws.ModeBijective | HEXCODE.py:85-99 | the mode is (1,1) Simple, (1,0) Indirect, (0,1) Immediate, (0,0) SIC Standard, and each mode has exactly one (n, i) |
| DecoderLaws.FormatByE | HEXCODE.py:105-110 | Format 4 iff e = 1, Format 3 iff e = 0 |
| DecoderLaws.KindPrecedence | HEXCODE.py:116-126 | PC-relative iff p = 1 whatever b is; Base-relative iff p = 0 and b = 1; Direct iff both are 0 |
| DecoderLaws.EncodeDisplacement | HEXCODE.py:175-179 | storing a signed displacement in [-2048, 2047] gives a 12-bit field |
| DecoderLaws.SignedDisplacementRange | HEXCODE.py:175-189 | the two's-complement reading lies in [-2048, 2047], is negative iff the field is at least 2048, and is congruent to the field mod 4096 |
| DecoderLaws.DisplacementRoundTrip | HEXCODE.py:175-179 | reading and storing a 12-bit displacement are inverse both ways |
| DecoderLaws.SignedDisplacementBits | HEXCODE.py:172-179 | the signed reading weighs the top bit of the 12 by -2048 and the other bits as usual |
| DecoderLaws.TargetAddressBounds | HEXCODE.py:168-197 | with p = 1 the target is within [pc - 2048, pc + 2047] and congruent to pc + disp mod 4096; with p = 0 it is the raw displacement |
| DecoderLaws.HexTailReadsBack | HEXCODE.py:240-242 | `hex(t)[2:].upper()` parses back to t when t >= 0; for t < 0 it starts with 'X' and does not parse; either way it is upper case |
| DecoderLaws.OpcodeHexWidth | HEXCODE.py:44-46 | `opcode_hex` is exactly two upper-case hex digits and parses back to the opcode field |
| DecoderLaws.DispHexWidth | HEXCODE.py:141-144 | `disp_hex` of a 12-bit field is exactly three upper-case hex digits and parses back to the field |
| DecoderLaws.AnalyzeBinaryString | HEXCODE.py:24-29 | for an input spelling a 24-bit word, `binary_code` is 24 digits parsing back to the word; opcode, nixbpe and the displacement slice (6, 6, 12 digits) concatenate back to it |
| DecoderLaws.AnalyzeFields | HEXCODE.py:42-141 | `opcode` and `nixbpe` parse back to the opcode and packed flags of the word; `flags` and `disp_decimal` are the word's flags and displacement |
| DecoderLaws.AnalyzeFlagBits | HEXCODE.py:61-69 | the returned flags are bits 6 to 11 of the word |
| DecoderLaws.AnalyzeRenderings | HEXCODE.py:224-243 | `hex_input` is the upper-cased input and parses to the word; `flag_description` is built from the word's mode, kind and format; `disp_addr` is 3 upper-case digits parsing to the displacement; `target_address` renders the target in upper case and parses back when it is not negative; `pc_value` is upper case and parses back to the PC; `hex_input` is upper case |
| DecoderLaws.AnalyzeTarget | HEXCODE.py:157-197 | PC-relative: target = pc + signed displacement, within a signed 12-bit step of the PC; otherwise target = displacement < 4096, base-relative included; with pc >= 2048 the target is not negative and its rendering parses back to it |
| DecoderLaws.AnalyzeWide | HEXCODE.py:24-141 | a value of 2^24 or more is not cut: `binary_code` is the full unpadded `bin`; the opcode slice is its top six bits; the displacement slice keeps all remaining digits, so `disp_decimal` = v mod 2^(len - 12) |
| DecoderLaws.ExampleWord | HEXCODE.py:279 | "032600" parses to 0x032600, whose fields are opcode 0, flags 110010 and displacement 0x600 |
| DecoderLaws.ExampleSlices | HEXCODE.py:279 | the 24 binary digits of that word slice to "000000", "110010" and "011000000000" |
| DecoderLaws.ExampleBits | HEXCODE.py:279-286 | any spelling of that word analyses to `binary_code` "000000110010011000000000", opcode "000000", nixbpe "110010" |
| DecoderLaws.ExampleStrings | HEXCODE.py:279-286 | with the PC at 0x1000: flags 1 1 0 0 1 0, Simple / PC-relative / Format 3, `disp_addr` "600", `disp_decimal` 1536, target "1600", PC "1000" |
| DecoderLaws.Example032600 | HEXCODE.py:279-286 | the full result for the program's own input "032600" with the PC at 0x1000, including the description "SIC/XE, SIC/XE, Simple, PC-relative, Format 3" as written |

## Left out

- The console narration inside `analyze_hex_code` is left out, as is all of `print_analysis` and the `__main__` driver. They are output only.
- `random.choice` of the program counter is not modelled. The PC is a parameter of `Analyze`.
- Register A is not modelled. The code draws it at random and only renders it, so the result record has no `register_a` field.
- Python's `int(s, 16)` also accepts a `0x` prefix, underscores, surrounding whitespace, a sign and non-ASCII Unicode decimal digits (fullwidth "０３２６００" reads as 0x32600). `ParseInt` rejects all of these and reports `InvalidLiteral`, so `Analyze` does too.
- `opcode_hex` is computed by the code but only printed, not returned. It is `OpcodeHex`, with its width proved, and is not part of the result.
- No base register is modelled. The code has none: with p = 0 the target is the raw displacement, even when b = 1. SIC/XE base-relative addressing would add register B to the displacement, and the code does not.
- The code accepts values above 0xFFFFFF, and `Analyze` accepts them too. `AnalyzeWide` states what the slices then mean.
- Format 4's 20-bit address field is not modelled, because the code always takes a 12-bit displacement.
- The target address is not masked to any width, because the code does not mask it. A negative target renders as "X…", exactly as `hex(t)[2:]` does.
- Numerals.ToDigits: its contract gives only shape. Its relation to the number is in `ValueToDigits` and `ToDigitsLength`.
- HexCode.BinaryCode: its contract gives only the width and the digits. What the string means is in `BinaryCodeReadsBack`.
