/**
 What the decoder promises: the binary string is 24 digits wide and reads
 back to the input, its slices are the arithmetic fields of the word, each
 flag is one bit of the word, the classifications cover every case, the
 displacement is 12-bit two's complement, and the hex renderings have their
 stated widths and read back to the fields.
 */
module DecoderLaws {
  import opened Numerals
  import opened HexCode

  lemma PowersOfTwo()
    ensures Pow(2, 0) == 1 && Pow(2, 1) == 2 && Pow(2, 5) == 32 && Pow(2, 6) == 64
    ensures Pow(2, 11) == 2048 && Pow(2, 12) == 4096 && Pow(2, 18) == 0x4_0000
    ensures Pow(2, 24) == 0x100_0000
    ensures Pow(16, 2) == 256 && Pow(16, 3) == 4096
  {
  }

  // ---------------------------------------------------------------------
  // The binary string
  // ---------------------------------------------------------------------

  /** The binary string reads back (base 2) to the value it renders; it is
      exactly 24 digits wide when the value fits in 24 bits, and small values
      keep their leading zeros. */
  lemma BinaryCodeReadsBack(v: nat)
    ensures Value(BinaryCode(v), 2) == v
    ensures |BinaryCode(v)| == WORD_BITS <==> v < 0x100_0000
    ensures |BinaryCode(v)| > WORD_BITS ==> BinaryCode(v) == ToDigits(v, 2)
    ensures forall j :: 0 <= j < WORD_BITS - |ToDigits(v, 2)| ==> BinaryCode(v)[j] == '0'
  {
    ValueToDigits(v, 2);
    ValueZFill(ToDigits(v, 2), WORD_BITS, 2);
    ToDigitsLength(v, 2, WORD_BITS);
    PowersOfTwo();
  }

  /** The binary string of a 24-bit word: 24 binary digits spelling it. */
  lemma BinaryWord(w: Word)
    ensures |BinaryCode(w)| == WORD_BITS && AllDigits(BinaryCode(w), 2)
    ensures Value(BinaryCode(w), 2) == w
  {
    BinaryCodeReadsBack(w);
  }

  /** Two binary strings of one width with one value are the same string:
      the 24-digit rendering of a word is unique. */
  lemma {:induction false} BinaryDigitsUnique(s: string, t: string)
    requires |s| == |t| && AllDigits(s, 2) && AllDigits(t, 2)
    requires Value(s, 2) == Value(t, 2)
    ensures s == t
  {
    if s != [] {
      var s', t' := s[..|s| - 1], t[..|t| - 1];
      var a, b := DigitValue(s[|s| - 1]), DigitValue(t[|t| - 1]);
      DivModUnique(Value(s, 2), 2, Value(s', 2), a);
      DivModUnique(Value(t, 2), 2, Value(t', 2), b);
      BinaryDigitsUnique(s', t');
      assert s[|s| - 1] == t[|t| - 1] by {
        DigitOfValue(s[|s| - 1]);
        DigitOfValue(t[|t| - 1]);
      }
      assert s == s' + [s[|s| - 1]] && t == t' + [t[|t| - 1]];
    }
  }

  /** A binary digit is determined by its value. */
  lemma DigitOfValue(c: char)
    requires IsDigit(c, 2)
    ensures c == if DigitValue(c) == 0 then '0' else '1'
  {
  }

  /** The three slices partition the binary string, and each reads back to
      the arithmetic field of the word. */
  lemma BinaryCodeFields(w: Word)
    ensures |BinaryCode(w)| == WORD_BITS
    ensures BinaryCode(w)[..6] + BinaryCode(w)[6..12] + BinaryCode(w)[12..] == BinaryCode(w)
    ensures Value(BinaryCode(w)[..6], 2) == Decode(w).opcode
    ensures Value(BinaryCode(w)[6..12], 2) == EncodeFlags(Decode(w).flags)
    ensures FlagsOf(BinaryCode(w)[6..12]) == Decode(w).flags
    ensures Value(BinaryCode(w)[12..], 2) == Decode(w).disp
  {
    BinaryWord(w);
    SpelledFields(BinaryCode(w), w);
  }

  /** The same, for any 24 binary digits spelling the word. */
  lemma SpelledFields(bc: string, w: Word)
    requires |bc| == WORD_BITS && AllDigits(bc, 2) && Value(bc, 2) == w
    ensures bc[..6] + bc[6..12] + bc[12..] == bc
    ensures Value(bc[..6], 2) == Decode(w).opcode
    ensures Value(bc[6..12], 2) == EncodeFlags(Decode(w).flags)
    ensures FlagsOf(bc[6..12]) == Decode(w).flags
    ensures Value(bc[12..], 2) == Decode(w).disp
  {
    assert bc[..6] + bc[6..12] + bc[12..] == bc;
    SpelledOpcode(bc, w);
    SpelledNixbpe(bc, w);
    SpelledDisp(bc, w);
  }

  lemma SpelledOpcode(bc: string, w: Word)
    requires |bc| == WORD_BITS && AllDigits(bc, 2) && Value(bc, 2) == w
    ensures Value(bc[..6], 2) == w / 0x4_0000
  {
    assert Pow(2, 18) == 0x4_0000 by { PowersOfTwo(); }
    SplitValue(bc, 6, 2);
  }

  lemma SpelledNixbpe(bc: string, w: Word)
    requires |bc| == WORD_BITS && AllDigits(bc, 2) && Value(bc, 2) == w
    ensures Value(bc[6..12], 2) == (w / 0x1000) % 64 == EncodeFlags(Decode(w).flags)
    ensures FlagsOf(bc[6..12]) == Decode(w).flags
  {
    SpelledNixbpeValue(bc, w);
    FlagsOfDigits(bc[6..12]);
    FlagsRoundTrip((w / 0x1000) % 64);
  }

  lemma SpelledNixbpeValue(bc: string, w: Word)
    requires |bc| == WORD_BITS && AllDigits(bc, 2) && Value(bc, 2) == w
    ensures AllDigits(bc[6..12], 2) && Value(bc[6..12], 2) == (w / 0x1000) % 64
  {
    assert Pow(2, 12) == 0x1000 && Pow(2, 6) == 64 by { PowersOfTwo(); }
    SliceValue(bc, 6, 12, 2);
  }

  lemma SpelledDisp(bc: string, w: Word)
    requires |bc| == WORD_BITS && AllDigits(bc, 2) && Value(bc, 2) == w
    ensures Value(bc[12..], 2) == w % 0x1000
  {
    assert Pow(2, 12) == 0x1000 by { PowersOfTwo(); }
    SplitValue(bc, 12, 2);
  }

  /** Reading the flags character by character agrees with reading the six
      bits as one number and taking its bits apart. */
  lemma FlagsOfDigits(nixbpe: string)
    requires |nixbpe| == 6 && AllDigits(nixbpe, 2)
    ensures Value(nixbpe, 2) < 64 && FlagsOf(nixbpe) == DecodeFlags(Value(nixbpe, 2))
  {
    PowersOfTwo();
    ValueBound(nixbpe, 2);
    var v := Value(nixbpe, 2);
    forall k | 0 <= k < 6
      ensures DigitValue(nixbpe[k]) == (v / Pow(2, 5 - k)) % 2
    {
      SliceValue(nixbpe, k, k + 1, 2);
      ValueOfDigit(nixbpe[k..k + 1], 2);
    }
    assert Pow(2, 4) == 16 && Pow(2, 3) == 8 && Pow(2, 2) == 4;
  }

  /** Character k of the binary string is bit k of the word. */
  lemma BinaryCodeBit(w: Word, k: nat)
    requires k < WORD_BITS
    ensures |BinaryCode(w)| == WORD_BITS && DigitValue(BinaryCode(w)[k]) == BitAt(w, k)
  {
    BinaryWord(w);
    SpelledBit(BinaryCode(w), w, k);
  }

  lemma SpelledBit(bc: string, w: Word, k: nat)
    requires |bc| == WORD_BITS && AllDigits(bc, 2) && Value(bc, 2) == w
    requires k < WORD_BITS
    ensures DigitValue(bc[k]) == BitAt(w, k)
  {
    PowersOfTwo();
    SliceValue(bc, k, k + 1, 2);
    ValueOfDigit(bc[k..k + 1], 2);
  }

  /** n, i, x, b, p and e are bits 6 to 11 of the word. */
  lemma FlagsAreBits(w: Word)
    ensures Decode(w).flags == Flags(BitAt(w, 6), BitAt(w, 7), BitAt(w, 8),
                                     BitAt(w, 9), BitAt(w, 10), BitAt(w, 11))
  {
    BinaryCodeFields(w);
    var nixbpe := BinaryCode(w)[6..12];
    BinaryCodeBit(w, 6);
    BinaryCodeBit(w, 7);
    BinaryCodeBit(w, 8);
    BinaryCodeBit(w, 9);
    BinaryCodeBit(w, 10);
    BinaryCodeBit(w, 11);
    assert nixbpe[0] == BinaryCode(w)[6] && nixbpe[5] == BinaryCode(w)[11];
  }

  // ---------------------------------------------------------------------
  // Fields of the word: decoding and encoding are inverse
  // ---------------------------------------------------------------------

  lemma FlagsRoundTrip(v: nat)
    requires v < 64
    ensures EncodeFlags(DecodeFlags(v)) == v
  {
    var h1 := v / 2;
    DivMod(v, 2);
    var h2 := h1 / 2;
    DivMod(h1, 2);
    DivModUnique(v, 4, h2, 2 * (h1 % 2) + v % 2);
    var h3 := h2 / 2;
    DivMod(h2, 2);
    DivModUnique(v, 8, h3, 4 * (h2 % 2) + 2 * (h1 % 2) + v % 2);
    var h4 := h3 / 2;
    DivMod(h3, 2);
    DivModUnique(v, 16, h4, 8 * (h3 % 2) + 4 * (h2 % 2) + 2 * (h1 % 2) + v % 2);
    DivMod(h4, 2);
    DivModUnique(v, 32, h4 / 2, 16 * (h4 % 2) + 8 * (h3 % 2) + 4 * (h2 % 2) + 2 * (h1 % 2) + v % 2);
  }

  lemma FlagsEncodeDecode(f: Flags)
    ensures DecodeFlags(EncodeFlags(f)) == f
  {
    BitsOfSum(f.n, f.i, f.x, f.b, f.p, f.e);
  }

  /** The bits of 32n + 16i + 8x + 4b + 2p + e, one division at a time. */
  lemma BitsOfSum(n: nat, i: nat, x: nat, b: nat, p: nat, e: nat)
    requires n < 2 && i < 2 && x < 2 && b < 2 && p < 2 && e < 2
    ensures var v := 32 * n + 16 * i + 8 * x + 4 * b + 2 * p + e;
      && v / 32 == n && (v / 16) % 2 == i && (v / 8) % 2 == x
      && (v / 4) % 2 == b && (v / 2) % 2 == p && v % 2 == e
  {
    var v := 32 * n + 16 * i + 8 * x + 4 * b + 2 * p + e;
    DivModUnique(v, 32, n, 16 * i + 8 * x + 4 * b + 2 * p + e);
    DivModUnique(v, 16, 2 * n + i, 8 * x + 4 * b + 2 * p + e);
    DivModUnique(2 * n + i, 2, n, i);
    DivModUnique(v, 8, 4 * n + 2 * i + x, 4 * b + 2 * p + e);
    DivModUnique(4 * n + 2 * i + x, 2, 2 * n + i, x);
    DivModUnique(v, 4, 8 * n + 4 * i + 2 * x + b, 2 * p + e);
    DivModUnique(8 * n + 4 * i + 2 * x + b, 2, 4 * n + 2 * i + x, b);
    DivModUnique(v, 2, 16 * n + 8 * i + 4 * x + 2 * b + p, e);
    DivModUnique(16 * n + 8 * i + 4 * x + 2 * b + p, 2, 8 * n + 4 * i + 2 * x + b, p);
  }

  /** Every 24-bit word is the assembly of its fields. */
  lemma EncodeDecode(w: Word)
    ensures Encode(Decode(w)) == w
  {
    var q, r := w / 0x1000, w % 0x1000;
    DivMod(w, 0x1000);
    DivMod(q, 64);
    DivModUnique(w, 0x4_0000, q / 64, (q % 64) * 0x1000 + r);
    FlagsRoundTrip(q % 64);
  }

  /** Decoding an assembled word gives back its fields. */
  lemma DecodeEncode(f: Fields)
    requires f.opcode < 64 && f.disp < 4096
    ensures Decode(Encode(f)) == f
  {
    var w := Encode(f);
    var nix := EncodeFlags(f.flags);
    DivModUnique(w, 0x1000, f.opcode * 64 + nix, f.disp);
    DivModUnique(f.opcode * 64 + nix, 64, f.opcode, nix);
    FlagsEncodeDecode(f.flags);
  }

  // ---------------------------------------------------------------------
  // Classification
  // ---------------------------------------------------------------------

  /** The (n, i) pair that selects each addressing mode. */
  function ModeBits(m: AddressingMode): (Bit, Bit)
  {
    match m
    case Simple => (1, 1)
    case Indirect => (1, 0)
    case Immediate => (0, 1)
    case SicStandard => (0, 0)
  }

  /** Mode is a bijection between the four (n, i) pairs and the four modes. */
  lemma ModeBijective(n: Bit, i: Bit, m: AddressingMode)
    ensures Mode(n, i) == m <==> ModeBits(m) == (n, i)
  {
  }

  lemma FormatByE(e: Bit)
    ensures Format(e) == Format4 <==> e == 1
    ensures Format(e) == Format3 <==> e == 0
  {
  }

  /** p wins over b: PC-relative whenever p is set, base-relative only when
      p is clear and b set, direct when both are clear. */
  lemma KindPrecedence(p: Bit, b: Bit)
    ensures Kind(p, b) == PcRelative <==> p == 1
    ensures Kind(p, b) == BaseRelative <==> p == 0 && b == 1
    ensures Kind(p, b) == Direct <==> p == 0 && b == 0
  {
  }

  // ---------------------------------------------------------------------
  // Displacement and target address
  // ---------------------------------------------------------------------

  /** The 12-bit field a signed displacement is stored as. */
  function EncodeDisplacement(s: int): (d: nat)
    requires -2048 <= s < 2048
    ensures d < 4096
  {
    if s < 0 then s + 4096 else s
  }

  /** A 12-bit field read as two's complement lies in [-2048, 2047], is
      negative exactly when the field is at least 2048, and is congruent to
      the field modulo 4096. */
  lemma SignedDisplacementRange(disp: nat)
    requires disp < 4096
    ensures -2048 <= SignedDisplacement(disp) < 2048
    ensures SignedDisplacement(disp) < 0 <==> disp >= 2048
    ensures (disp - SignedDisplacement(disp)) % 4096 == 0
  {
  }

  /** Reading and storing a displacement are inverse. */
  lemma DisplacementRoundTrip(disp: nat, s: int)
    requires disp < 4096 && -2048 <= s < 2048
    ensures EncodeDisplacement(SignedDisplacement(disp)) == disp
    ensures SignedDisplacement(EncodeDisplacement(s)) == s
  {
  }

  /** The two's-complement reading weighs the top bit of the field -2048. */
  lemma SignedDisplacementBits(dispBits: string)
    requires |dispBits| == 12 && AllDigits(dispBits, 2)
    ensures AllDigits(dispBits[1..], 2)
    ensures SignedDisplacement(Value(dispBits, 2))
            == Value(dispBits[1..], 2) - 2048 * DigitValue(dispBits[0])
  {
    assert dispBits == dispBits[..1] + dispBits[1..];
    ValueAppend(dispBits[..1], dispBits[1..], 2);
    ValueOfDigit(dispBits[..1], 2);
    ValueBound(dispBits[1..], 2);
    PowersOfTwo();
  }

  /** With p set the target is within a signed 12-bit step of the PC and
      congruent to PC + disp modulo 4096; with p clear it is the raw field,
      a number in [0, 4095], whatever b is. */
  lemma TargetAddressBounds(p: Bit, disp: nat, pc: nat)
    requires disp < 4096
    ensures p == 1 ==> pc - 2048 <= TargetAddress(p, disp, pc) <= pc + 2047
    ensures p == 1 ==> (pc + disp - TargetAddress(p, disp, pc)) % 4096 == 0
    ensures p == 0 ==> TargetAddress(p, disp, pc) == disp
  {
    SignedDisplacementRange(disp);
  }

  /** The rendering of a target address reads back to it when it is not
      negative; a negative target renders as a string that is not hex. */
  lemma HexTailReadsBack(t: int)
    ensures t >= 0 ==> ParseInt(HexTail(t), 16) == Some(t)
    ensures t < 0 ==> ParseInt(HexTail(t), 16) == None && HexTail(t)[0] == 'X'
    ensures IsUpperCase(HexTail(t))
  {
    if t >= 0 {
      ValueToDigits(t, 16);
      ValueUpper(ToDigits(t, 16), 16);
    } else {
      var tail := Upper(ToDigits(-t, 16));
      assert HexTail(t) == "X" + tail;
      assert forall k :: 1 <= k < |HexTail(t)| ==> HexTail(t)[k] == tail[k - 1];
      assert !IsDigit(HexTail(t)[0], 16);
    }
  }

  /** The opcode in hex is two upper-case digits and reads back to the
      opcode field of the word. */
  lemma OpcodeHexWidth(w: Word)
    ensures var bc := BinaryCode(w);
      && |bc| == WORD_BITS
      && |OpcodeHex(bc[..6])| == 2 && IsUpperCase(OpcodeHex(bc[..6]))
      && ParseInt(OpcodeHex(bc[..6]), 16) == Some(Decode(w).opcode)
  {
    BinaryCodeFields(w);
    assert Pow(16, 2) == 256 by { PowersOfTwo(); }
    PaddedHexShape(Decode(w).opcode, 2);
    PaddedHexRoundTrip(Decode(w).opcode, 2);
  }

  /** The displacement in hex is three upper-case digits and reads back to
      the displacement field. */
  lemma DispHexWidth(disp: nat)
    requires disp < 4096
    ensures |PaddedHex(disp, 3)| == 3 && IsUpperCase(PaddedHex(disp, 3))
    ensures ParseInt(PaddedHex(disp, 3), 16) == Some(disp)
  {
    assert Pow(16, 3) == 4096 by { PowersOfTwo(); }
    PaddedHexShape(disp, 3);
    PaddedHexRoundTrip(disp, 3);
  }

  // ---------------------------------------------------------------------
  // The whole decoder
  // ---------------------------------------------------------------------

  /** Decoding a 24-bit hex code: the binary string is 24 digits reading
      back to the word, and the opcode, nixbpe and displacement slices cut it
      into three consecutive pieces. */
  lemma AnalyzeBinaryString(hexCode: string, pc: nat, w: Word)
    requires ParseInt(hexCode, 16) == Some(w)
    ensures Analyze(hexCode, pc).Ok?
    ensures var a := Analyze(hexCode, pc).value;
      && a.binaryCode == BinaryCode(w) && |a.binaryCode| == WORD_BITS
      && ParseInt(a.binaryCode, 2) == Some(w)
      && a.opcode + a.nixbpe + a.binaryCode[12..] == a.binaryCode
      && |a.opcode| == 6 && |a.nixbpe| == 6 && |a.binaryCode[12..]| == 12
  {
    BinaryWord(w);
    SpelledSlices(hexCode, BinaryCode(w), pc);
  }

  lemma SpelledSlices(hexCode: string, bc: string, pc: nat)
    requires |bc| >= WORD_BITS && AllDigits(bc, 2)
    ensures var a := AnalyzeBinary(hexCode, bc, pc);
      && a.binaryCode == bc && a.opcode == bc[..6] && a.nixbpe == bc[6..12]
      && a.opcode + a.nixbpe + a.binaryCode[12..] == a.binaryCode
      && AllDigits(bc[12..], 2) && a.dispDecimal == Value(bc[12..], 2)
  {
    Partition(bc);
    SuffixDigits(bc, 12, 2);
  }

  lemma Partition(s: string)
    requires |s| >= 12
    ensures s[..6] + s[6..12] + s[12..] == s
  {
  }

  /** The slices of the binary string read back to the fields of the word:
      the opcode to w div 2^18, nixbpe to the packed flags, the displacement
      to w mod 2^12; the flags are those of the decoded word. */
  lemma AnalyzeFields(hexCode: string, pc: nat, w: Word)
    requires ParseInt(hexCode, 16) == Some(w)
    ensures Analyze(hexCode, pc).Ok?
    ensures var a := Analyze(hexCode, pc).value;
      && ParseInt(a.opcode, 2) == Some(Decode(w).opcode)
      && ParseInt(a.nixbpe, 2) == Some(EncodeFlags(Decode(w).flags))
      && a.flags == Decode(w).flags
      && a.dispDecimal == Decode(w).disp
  {
    BinaryWord(w);
    SpelledSlices(hexCode, BinaryCode(w), pc);
    SpelledAnalysis(hexCode, BinaryCode(w), pc, w);
  }

  lemma SpelledAnalysis(hexCode: string, bc: string, pc: nat, w: Word)
    requires |bc| == WORD_BITS && AllDigits(bc, 2) && Value(bc, 2) == w
    ensures var a := AnalyzeBinary(hexCode, bc, pc);
      && ParseInt(bc[..6], 2) == Some(Decode(w).opcode)
      && ParseInt(bc[6..12], 2) == Some(EncodeFlags(Decode(w).flags))
      && a.flags == Decode(w).flags
      && a.dispDecimal == Decode(w).disp
  {
    SpelledOpcode(bc, w);
    SpelledNixbpe(bc, w);
    SpelledDisp(bc, w);
  }

  /** The six flags of the result are bits 6 to 11 of the word. */
  lemma AnalyzeFlagBits(hexCode: string, pc: nat, w: Word)
    requires ParseInt(hexCode, 16) == Some(w)
    ensures Analyze(hexCode, pc).Ok?
    ensures Analyze(hexCode, pc).value.flags
            == Flags(BitAt(w, 6), BitAt(w, 7), BitAt(w, 8), BitAt(w, 9), BitAt(w, 10), BitAt(w, 11))
  {
    AnalyzeFields(hexCode, pc, w);
    FlagsAreBits(w);
  }

  /** The strings of the result: the input upper-cased, the classification
      of the flags, the displacement in three hex digits, and the target
      address and PC rendered in hex. */
  lemma AnalyzeRenderings(hexCode: string, pc: nat, w: Word)
    requires ParseInt(hexCode, 16) == Some(w)
    ensures Analyze(hexCode, pc).Ok?
    ensures var a := Analyze(hexCode, pc).value;
      var f := Decode(w);
      var target := TargetAddress(f.flags.p, f.disp, pc);
      && a.hexInput == Upper(hexCode) && ParseInt(a.hexInput, 16) == Some(w)
      && IsUpperCase(a.hexInput)
      && a.flagDescription == FlagDescription(Mode(f.flags.n, f.flags.i), Kind(f.flags.p, f.flags.b), Format(f.flags.e))
      && |a.dispAddr| == 3 && IsUpperCase(a.dispAddr) && ParseInt(a.dispAddr, 16) == Some(f.disp)
      && a.targetAddress == HexTail(target) && IsUpperCase(a.targetAddress)
      && (target >= 0 ==> ParseInt(a.targetAddress, 16) == Some(target))
      && IsUpperCase(a.pcValue) && ParseInt(a.pcValue, 16) == Some(pc)
  {
    AnalyzeFields(hexCode, pc, w);
    BinaryWord(w);
    SpelledRenderings(hexCode, BinaryCode(w), pc);
    DispHexWidth(Decode(w).disp);
    ValueUpper(hexCode, 16);
    var f := Decode(w);
    HexTailReadsBack(TargetAddress(f.flags.p, f.disp, pc));
    HexTailReadsBack(pc);
  }

  /** The target address of a decoded word: a signed 12-bit step from the PC
      when p is set, the raw field when p is clear (base-relative included);
      with a PC of at least 2048, as the program's own PCs are, it is never
      negative and its rendering reads back to it. */
  lemma AnalyzeTarget(hexCode: string, pc: nat, w: Word)
    requires ParseInt(hexCode, 16) == Some(w)
    ensures Analyze(hexCode, pc).Ok?
    ensures var a := Analyze(hexCode, pc).value;
      var target := TargetAddress(a.flags.p, a.dispDecimal, pc);
      && a.targetAddress == HexTail(target)
      && (Kind(a.flags.p, a.flags.b) == PcRelative ==>
            target == pc + SignedDisplacement(a.dispDecimal) && pc - 2048 <= target <= pc + 2047)
      && (Kind(a.flags.p, a.flags.b) != PcRelative ==> target == a.dispDecimal < 4096)
      && (pc >= 2048 ==> target >= 0 && ParseInt(a.targetAddress, 16) == Some(target))
  {
    BinaryWord(w);
    SpelledTarget(hexCode, BinaryCode(w), pc);
  }

  lemma SpelledTarget(hexCode: string, bc: string, pc: nat)
    requires |bc| == WORD_BITS && AllDigits(bc, 2)
    ensures var a := AnalyzeBinary(hexCode, bc, pc);
      var target := TargetAddress(a.flags.p, a.dispDecimal, pc);
      && a.targetAddress == HexTail(target)
      && (Kind(a.flags.p, a.flags.b) == PcRelative ==>
            target == pc + SignedDisplacement(a.dispDecimal) && pc - 2048 <= target <= pc + 2047)
      && (Kind(a.flags.p, a.flags.b) != PcRelative ==> target == a.dispDecimal < 4096)
      && (pc >= 2048 ==> target >= 0 && ParseInt(a.targetAddress, 16) == Some(target))
  {
    SpelledRenderings(hexCode, bc, pc);
    SpelledDisplacementBound(hexCode, bc, pc);
    var a := AnalyzeBinary(hexCode, bc, pc);
    TargetAddressBounds(a.flags.p, a.dispDecimal, pc);
    HexTailReadsBack(TargetAddress(a.flags.p, a.dispDecimal, pc));
  }

  lemma SpelledDisplacementBound(hexCode: string, bc: string, pc: nat)
    requires |bc| == WORD_BITS && AllDigits(bc, 2)
    ensures AnalyzeBinary(hexCode, bc, pc).dispDecimal < 4096
  {
    SpelledSlices(hexCode, bc, pc);
    ValueBound(bc[12..], 2);
    assert Pow(2, 12) == 4096 by { PowersOfTwo(); }
  }

  /** How each string of the result is rendered from the fields. */
  lemma SpelledRenderings(hexCode: string, bc: string, pc: nat)
    requires |bc| >= WORD_BITS && AllDigits(bc, 2)
    ensures var a := AnalyzeBinary(hexCode, bc, pc);
      && a.hexInput == Upper(hexCode)
      && a.flagDescription == FlagDescription(Mode(a.flags.n, a.flags.i), Kind(a.flags.p, a.flags.b), Format(a.flags.e))
      && a.dispAddr == PaddedHex(a.dispDecimal, 3)
      && a.targetAddress == HexTail(TargetAddress(a.flags.p, a.dispDecimal, pc))
      && a.pcValue == HexTail(pc)
  {
  }

  /** A value wider than 24 bits is not cut down: the binary string is
      longer, the opcode is its top six digits and the displacement slice
      keeps every remaining digit past the twelfth. */
  lemma AnalyzeWide(hexCode: string, pc: nat, v: nat)
    requires ParseInt(hexCode, 16) == Some(v) && v >= 0x100_0000
    ensures Analyze(hexCode, pc).Ok?
    ensures var a := Analyze(hexCode, pc).value;
      && |a.binaryCode| > WORD_BITS && a.binaryCode == ToDigits(v, 2)
      && |a.binaryCode[12..]| > 12
      && ParseInt(a.opcode, 2) == Some(v / Pow(2, |a.binaryCode| - 6))
      && a.dispDecimal == v % Pow(2, |a.binaryCode| - 12)
  {
    BinaryCodeReadsBack(v);
    SpelledWide(hexCode, BinaryCode(v), pc, v);
  }

  lemma SpelledWide(hexCode: string, bc: string, pc: nat, v: nat)
    requires |bc| > WORD_BITS && AllDigits(bc, 2) && Value(bc, 2) == v
    ensures var a := AnalyzeBinary(hexCode, bc, pc);
      && ParseInt(a.opcode, 2) == Some(v / Pow(2, |bc| - 6))
      && a.dispDecimal == v % Pow(2, |bc| - 12)
  {
    SpelledSlices(hexCode, bc, pc);
    WideSlices(bc, v);
  }

  lemma WideSlices(bc: string, v: nat)
    requires |bc| > WORD_BITS && AllDigits(bc, 2) && Value(bc, 2) == v
    ensures ParseInt(bc[..6], 2) == Some(v / Pow(2, |bc| - 6))
    ensures AllDigits(bc[12..], 2) && Value(bc[12..], 2) == v % Pow(2, |bc| - 12)
  {
    SplitValue(bc, 6, 2);
    SplitValue(bc, 12, 2);
  }

  // ---------------------------------------------------------------------
  // The program's own example
  // ---------------------------------------------------------------------

  /** The hex code 032600 spells the word 0x032600, whose fields are opcode
      0, flags n = i = p = 1 and displacement 0x600. */
  lemma ExampleWord()
    ensures ParseInt("032600", 16) == Some(0x032600)
    ensures Decode(0x032600) == Fields(0, Flags(1, 1, 0, 0, 1, 0), 0x600)
  {
    assert AllDigits("032600", 16);
    assert "03"[..1] == "0";
    assert "032"[..2] == "03";
    assert "0326"[..3] == "032";
    assert "03260"[..4] == "0326";
    assert "032600"[..5] == "03260";
    assert Value("03260", 16) == 0x3260;
  }

  lemma NixbpeLiteral()
    ensures AllDigits("110010", 2) && Value("110010", 2) == 50
  {
    assert AllDigits("110010", 2);
    assert "11"[..1] == "1";
    assert "110"[..2] == "11";
    assert "1100"[..3] == "110";
    assert "11001"[..4] == "1100";
    assert "110010"[..5] == "11001";
    assert Value("11001", 2) == 25;
  }

  lemma DisplacementLiteral()
    ensures AllDigits("011000000000", 2) && Value("011000000000", 2) == 0x600
  {
    assert "011000000000" == "011" + Zeros(9);
    ValueOfZeros(9, 2);
    assert "01"[..1] == "0";
    assert "011"[..2] == "01";
    assert Value("011", 2) == 3;
    ValueAppend("011", Zeros(9), 2);
    assert Pow(2, 9) == 512;
  }

  /** The fields of the example word, as the slices of any 24 binary
      digits spelling it. */
  lemma ExampleSlices(bc: string, w: Word)
    requires |bc| == WORD_BITS && AllDigits(bc, 2) && Value(bc, 2) == w
    requires Decode(w) == Fields(0, Flags(1, 1, 0, 0, 1, 0), 0x600)
    ensures bc[..6] == "000000" && bc[6..12] == "110010" && bc[12..] == "011000000000"
  {
    SpelledFields(bc, w);
    ValueOfZeros(6, 2);
    assert Zeros(6) == "000000";
    NixbpeLiteral();
    DisplacementLiteral();
    BinaryDigitsUnique(bc[..6], "000000");
    BinaryDigitsUnique(bc[6..12], "110010");
    BinaryDigitsUnique(bc[12..], "011000000000");
  }

  /** The binary fields of the analysis of any spelling of the example word. */
  lemma ExampleBits(hexCode: string, pc: nat, w: Word)
    requires ParseInt(hexCode, 16) == Some(w)
    requires Decode(w) == Fields(0, Flags(1, 1, 0, 0, 1, 0), 0x600)
    ensures Analyze(hexCode, pc).Ok?
    ensures var a := Analyze(hexCode, pc).value;
      && a.binaryCode == "000000110010011000000000"
      && a.opcode == "000000" && a.nixbpe == "110010"
  {
    AnalyzeBinaryString(hexCode, pc, w);
    BinaryWord(w);
    ExampleSlices(BinaryCode(w), w);
    var a := Analyze(hexCode, pc).value;
    assert a.opcode == BinaryCode(w)[..6] && a.nixbpe == BinaryCode(w)[6..12];
    Partition(BinaryCode(w));
    SlicesLiteral();
  }

  lemma SlicesLiteral()
    ensures "000000" + "110010" + "011000000000" == "000000110010011000000000"
  {
  }

  /** The example's displacement, target and PC in hex. */
  lemma RenderedLiterals()
    ensures PaddedHex(0x600, 3) == "600"
    ensures HexTail(0x1600) == "1600" && HexTail(0x1000) == "1000"
  {
    DisplacementHexLiteral();
    TargetHexLiteral();
  }

  lemma DisplacementHexLiteral()
    ensures PaddedHex(0x600, 3) == "600"
  {
  }

  lemma TargetHexLiteral()
    ensures HexTail(0x1600) == "1600"
  {
  }

  /** The rendered fields of the same analysis with the PC at 0x1000. */
  lemma ExampleStrings(hexCode: string, pc: nat, w: Word)
    requires ParseInt(hexCode, 16) == Some(w) && pc == 0x1000
    requires Decode(w) == Fields(0, Flags(1, 1, 0, 0, 1, 0), 0x600)
    ensures Analyze(hexCode, pc).Ok?
    ensures var a := Analyze(hexCode, pc).value;
      && a.flags == Flags(1, 1, 0, 0, 1, 0)
      && a.flagDescription == FlagDescription(Simple, PcRelative, Format3)
      && a.dispAddr == "600" && a.dispDecimal == 0x600
      && a.targetAddress == "1600" && a.pcValue == "1000"
  {
    AnalyzeFields(hexCode, pc, w);
    var a := Analyze(hexCode, pc).value;
    assert a.dispDecimal == 0x600;
    assert a.flags == Flags(1, 1, 0, 0, 1, 0);
    assert a.dispAddr == PaddedHex(0x600, 3);
    assert a.targetAddress == HexTail(0x1600);
    assert a.pcValue == HexTail(0x1000);
    RenderedLiterals();
  }

  /** The program's own input, 032600, with the PC at 0x1000, the first of
      the load addresses it picks from. */
  lemma Example032600()
    ensures Analyze("032600", 0x1000).Ok?
    ensures var a := Analyze("032600", 0x1000).value;
      && a.hexInput == "032600"
      && a.binaryCode == "000000110010011000000000"
      && a.opcode == "000000" && a.nixbpe == "110010"
      && a.flags == Flags(1, 1, 0, 0, 1, 0)
      && a.flagDescription == "SIC/XE, SIC/XE, Simple, PC-relative, Format 3"
      && a.dispAddr == "600" && a.dispDecimal == 0x600
      && a.targetAddress == "1600" && a.pcValue == "1000"
  {
    ExampleWord();
    ExampleBits("032600", 0x1000, 0x032600);
    ExampleStrings("032600", 0x1000, 0x032600);
    InputLiteral();
    DescriptionLiteral();
  }

  /** The input is already upper case. */
  lemma InputLiteral()
    ensures Upper("032600") == "032600"
  {
  }

  /** The description exactly as the program writes it, "SIC/XE" twice. */
  lemma DescriptionLiteral()
    ensures FlagDescription(Simple, PcRelative, Format3) == "SIC/XE, SIC/XE, Simple, PC-relative, Format 3"
  {
  }
}
