/**
 The notation of derivation paths in literal terms: which levels a quote stands for, what
 the default root is, and how numbers are written in each base.
 */
module PathNotation {
  import opened Wrappers
  import opened Decimal
  import opened DerivationPath

  /** A quote adds 2^31 to a number below 2^31, and makes any other an error. */
  lemma QuoteHardens(n: nat)
    ensures ParseComponent(Str(n) + "'") ==
      if n < 0x8000_0000 then Ok(0x8000_0000 + n) else Err("component out of allowed hardened range")
  {
    hide TrimSpace, ParseNumber, Str;
    PrintedIsTrimmed(n);
    NumberRoundTrip(n);
    assert (Str(n) + "'")[..|Str(n)|] == Str(n);
  }

  /** Without a quote every 32-bit number is a level, a hardened one too. */
  lemma PlainLevel(n: nat)
    ensures ParseComponent(Str(n)) ==
      if n < 0x1_0000_0000 then Ok(n) else Err("component out of allowed range")
  {
    hide TrimSpace, ParseNumber, Str;
    PrintedIsTrimmed(n);
    NumberRoundTrip(n);
  }

  /** A level is printed with a quote exactly from 2^31 on, and then as what it is above. */
  lemma QuoteIsPrinted(c: nat)
    ensures Quoted(PrintComponent(c)) <==> c >= 0x8000_0000
    ensures PrintComponent(c) == if c < 0x8000_0000 then Str(c) else Str(c - 0x8000_0000) + "'"
  {
    hide TrimSpace, Str;
    PrintedIsTrimmed(c);
  }

  lemma TwoDigits(n: nat)
    requires 10 <= n < 100
    ensures Str(n) == [DigitChar(n / 10), DigitChar(n % 10)]
  {
  }

  lemma PrintedLevels()
    ensures PrintComponent(0x8000_002C) == "44'" && PrintComponent(0x8000_003C) == "60'"
    ensures PrintComponent(0x8000_0000) == "0'" && PrintComponent(0) == "0"
  {
    TwoDigits(44);
    TwoDigits(60);
  }

  lemma PrintLast(path: seq<nat>, c: nat)
    ensures Print(path + [c]) == Print(path) + "/" + PrintComponent(c)
  {
    assert (path + [c])[..|path|] == path;
  }

  lemma PrintedRoot()
    ensures Print([0x8000_002C, 0x8000_003C, 0x8000_0000, 0]) == "m/44'/60'/0'/0"
  {
    PrintedLevels();
    hide Print, PrintComponent;
    assert Print([]) == "m" by { EmptyPrint(); }
    PrintLast([], 0x8000_002C);
    PrintLast([0x8000_002C], 0x8000_003C);
    PrintLast([0x8000_002C, 0x8000_003C], 0x8000_0000);
    PrintLast([0x8000_002C, 0x8000_003C, 0x8000_0000], 0);
    assert [] + [0x8000_002C] == [0x8000_002C];
    assert [0x8000_002C] + [0x8000_003C] == [0x8000_002C, 0x8000_003C];
    assert [0x8000_002C, 0x8000_003C] + [0x8000_0000] == [0x8000_002C, 0x8000_003C, 0x8000_0000];
    assert [0x8000_002C, 0x8000_003C, 0x8000_0000] + [0] == [0x8000_002C, 0x8000_003C, 0x8000_0000, 0];
  }

  lemma EmptyPrint()
    ensures Print([]) == "m"
  {
  }

  /** The default root is `m/44'/60'/0'/0`. */
  lemma DefaultRoot()
    ensures DEFAULT_ROOT == [0x8000_002C, 0x8000_003C, 0x8000_0000, 0]
    ensures Parse("m/44'/60'/0'/0") == Ok(DEFAULT_ROOT)
  {
    PrintedRoot();
    hide Parse, Print;
    RoundTrip([0x8000_002C, 0x8000_003C, 0x8000_0000, 0]);
  }

  /** One more character of a number. */
  lemma ScanLast(s: string, c: char, base: nat, afterDigit: bool)
    ensures var before := Scan(s, base, afterDigit);
      Scan(s + [c], base, afterDigit) ==
        if before.None? then None
        else if c == '_' then
          if before.value.afterDigit then Some(before.value.(afterDigit := false)) else None
        else if Digit(c) < base then Some(Scanned(before.value.value * base + Digit(c), before.value.digits + 1, true))
        else None
  {
    assert (s + [c])[..|s|] == s;
  }

  lemma ScanTwo(a: char, b: char, base: nat)
    requires Digit(a) < base && Digit(b) < base && a != '_' && b != '_'
    ensures Scan([a, b], base, true) == Some(Scanned(Digit(a) * base + Digit(b), 2, true))
    ensures Scan([a], base, true) == Some(Scanned(Digit(a), 1, true))
  {
    ScanLast("", a, base, true);
    ScanLast([a], b, base, true);
    assert "" + [a] == [a] && [a] + [b] == [a, b];
  }

  /** Forty-four in hexadecimal and in both notations of octal, and three in binary. */
  lemma HexNumbers()
    ensures ParseNumber("0x2C") == Some(44) && ParseNumber("0X2c") == Some(44)
  {
    ScanTwo('2', 'C', 16);
    ScanTwo('2', 'c', 16);
    hide Scan;
    assert "0x2C"[2..] == ['2', 'C'] && "0X2c"[2..] == ['2', 'c'];
  }

  lemma OctalNumbers()
    ensures ParseNumber("0o54") == Some(44) && ParseNumber("054") == Some(44)
  {
    ScanTwo('5', '4', 8);
    hide Scan;
    assert "0o54"[2..] == ['5', '4'] && "054"[1..] == ['5', '4'];
  }

  lemma BinaryNumbers()
    ensures ParseNumber("0b11") == Some(3) && ParseNumber("0B11") == Some(3)
  {
    ScanTwo('1', '1', 2);
    hide Scan;
    assert "0b11"[2..] == ['1', '1'] && "0B11"[2..] == ['1', '1'];
  }

  /** A digit that the base does not have ends a number. */
  lemma NoSuchDigit()
    ensures ParseNumber("08").None? && ParseNumber("0x").None? && ParseNumber("").None?
  {
    ScanLast("", '8', 8, true);
    assert "08"[1..] == "" + ['8'] && "0x"[2..] == "";
  }

  lemma ScanUnderscore(base: nat, afterDigit: bool)
    requires base == 10 || base == 8
    ensures Scan("_", base, afterDigit) == if afterDigit then Some(Scanned(0, 0, false)) else None
    ensures Scan("4", base, afterDigit) == Some(Scanned(4, 1, true))
    ensures Scan("4_", base, afterDigit) == Some(Scanned(4, 1, false))
  {
    ScanLast("", '_', base, afterDigit);
    ScanLast("", '4', base, afterDigit);
    ScanLast("4", '_', base, afterDigit);
    assert Scan("", base, afterDigit) == Some(Scanned(0, 0, afterDigit));
    hide Scan;
    assert "" + ['_'] == "_" && "" + ['4'] == "4" && "4" + ['_'] == "4_";
  }

  /** An underscore may stand between two digits, and behind the zero of an octal number. */
  lemma UnderscoreBetween()
    ensures ParseNumber("4_4") == Some(44) && ParseNumber("0_4") == Some(4)
  {
    ScanUnderscore(10, false);
    ScanLast("4_", '4', 10, false);
    ScanUnderscore(8, true);
    ScanLast("_", '4', 8, true);
    hide Scan;
    assert "4_" + ['4'] == "4_4" && "_" + ['4'] == "_4" && "0_4"[1..] == "_4";
  }

  /** It may not stand in front, behind, or twice. */
  lemma UnderscoreElsewhere()
    ensures ParseNumber("4__4").None? && ParseNumber("_4").None? && ParseNumber("4_").None?
  {
    ScanUnderscore(10, false);
    ScanLast("4_", '_', 10, false);
    ScanLast("4__", '4', 10, false);
    ScanLast("_", '4', 10, false);
    hide Scan;
    assert "4_" + ['_'] == "4__" && "4__" + ['4'] == "4__4" && "_" + ['4'] == "_4";
  }

  /** A sign may stand in front; a negative number is no level. */
  lemma Signs(n: nat)
    ensures ParseNumber("+" + Str(n)) == Some(n) && ParseNumber("-" + Str(n)) == Some(-(n as int))
  {
    NumberRoundTrip(n);
    StrIsDigits(n);
    hide ParseUnsigned;
    assert ("+" + Str(n))[1..] == Str(n) && ("-" + Str(n))[1..] == Str(n);
  }

  /** White space by code point: in ASCII the tab, the four controls after it, and the space. */
  lemma SpaceCodes(c: char)
    ensures c as int < 0x80 ==> (IsSpace(c) <==> 9 <= c as int <= 13 || c as int == 32)
    ensures c as int >= 0x80 ==> (IsSpace(c) <==>
      c as int in {0x85, 0xA0, 0x1680, 0x2028, 0x2029, 0x202F, 0x205F, 0x3000} || 0x2000 <= c as int <= 0x200A)
  {
  }
}
