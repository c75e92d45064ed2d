/**
 Derivation paths of hierarchical deterministic wallets (BIP-32, section "The key tree";
 BIP-44, section "Path levels"): a printer, and a parser that accepts a good deal more
 than the printer produces.
 */
module DerivationPath {
  import opened Wrappers
  import opened Decimal

  const HARDENED: nat := 0x8000_0000
  const MAX_UINT32: nat := 0xFFFF_FFFF

  const DEFAULT_ROOT: seq<nat> := [HARDENED + 44, HARDENED + 60, HARDENED, 0]

  predicate IsPath(path: seq<nat>) {
    forall i :: 0 <= i < |path| ==> path[i] <= MAX_UINT32
  }

  /** White space in the sense of Unicode. */
  predicate IsSpace(c: char) {
    || c == '\t' || c == '\n' || c == '\U{0B}' || c == '\U{0C}' || c == '\r' || c == ' '
    || c == '\U{85}' || c == '\U{A0}' || c == '\U{1680}' || '\U{2000}' <= c <= '\U{200A}'
    || c == '\U{2028}' || c == '\U{2029}' || c == '\U{202F}' || c == '\U{205F}' || c == '\U{3000}'
  }

  function TrimLeft(s: string): (t: string)
    ensures |t| <= |s|
  {
    if s != "" && IsSpace(s[0]) then TrimLeft(s[1..]) else s
  }

  function TrimRight(s: string): (t: string)
    ensures |t| <= |s|
  {
    if s != "" && IsSpace(s[|s| - 1]) then TrimRight(s[..|s| - 1]) else s
  }

  function TrimSpace(s: string): string {
    TrimRight(TrimLeft(s))
  }

  /** The parts of a string between slashes; there is always at least one. */
  function Split(s: string): (parts: seq<string>)
    ensures |parts| > 0
  {
    if s == "" then [""]
    else
      var parts, last := Split(s[..|s| - 1]), s[|s| - 1];
      if last == '/' then parts + [""] else parts[..|parts| - 1] + [parts[|parts| - 1] + [last]]
  }

  /** The digit a character stands for in bases up to 36; 64 if none. */
  function Digit(c: char): nat {
    if '0' <= c <= '9' then c as nat - '0' as nat
    else if 'a' <= c <= 'z' then c as nat - 'a' as nat + 10
    else if 'A' <= c <= 'Z' then c as nat - 'A' as nat + 10
    else 64
  }

  /** How far a scan of digits has come: value, number of digits, and whether a separator may follow. */
  datatype Scanned = Scanned(value: nat, digits: nat, afterDigit: bool)

  /** Digits of a base, single underscores between them. */
  function Scan(s: string, base: nat, afterDigit: bool): Option<Scanned> {
    if s == "" then Some(Scanned(0, 0, afterDigit))
    else
      var before, c := Scan(s[..|s| - 1], base, afterDigit), s[|s| - 1];
      if before.None? then None
      else if c == '_' then
        if before.value.afterDigit then Some(before.value.(afterDigit := false)) else None
      else if Digit(c) < base then Some(Scanned(before.value.value * base + Digit(c), before.value.digits + 1, true))
      else None
  }

  function Finished(scan: Option<Scanned>): Option<nat> {
    if scan.Some? && scan.value.digits > 0 && scan.value.afterDigit then Some(scan.value.value) else None
  }

  /** An unsigned number whose base is given by its prefix: binary, octal, hexadecimal, or else decimal. */
  function ParseUnsigned(s: string): Option<nat> {
    if |s| > 1 && s[0] == '0' then
      if s[1] == 'b' || s[1] == 'B' then Finished(Scan(s[2..], 2, true))
      else if s[1] == 'o' || s[1] == 'O' then Finished(Scan(s[2..], 8, true))
      else if s[1] == 'x' || s[1] == 'X' then Finished(Scan(s[2..], 16, true))
      else Finished(Scan(s[1..], 8, true))
    else Finished(Scan(s, 10, false))
  }

  /** A number with an optional sign. */
  function ParseNumber(s: string): Option<int> {
    if s != "" && (s[0] == '-' || s[0] == '+') then
      var n := ParseUnsigned(s[1..]);
      if n.None? then None else Some(if s[0] == '-' then -(n.value as int) else n.value)
    else
      var n := ParseUnsigned(s);
      if n.None? then None else Some(n.value)
  }

  predicate Quoted(c: string) {
    c != "" && c[|c| - 1] == '\''
  }

  /** The level a number stands for, hardened or not. */
  function Level(number: Option<int>, hardened: bool): (r: Result<nat>)
    ensures r.Ok? ==> r.value <= MAX_UINT32
  {
    var offset: nat := if hardened then HARDENED else 0;
    if number.None? then Err("invalid component")
    else if number.value < 0 || number.value > MAX_UINT32 - offset then
      Err(if hardened then "component out of allowed hardened range" else "component out of allowed range")
    else Ok(offset + number.value)
  }

  /** The number in a part: without outer white space, and without the quote that hardens it. */
  function Unquoted(raw: string): string {
    var c := TrimSpace(raw);
    if Quoted(c) then TrimSpace(c[..|c| - 1]) else c
  }

  /** One level of a path. */
  function ParseComponent(raw: string): Result<nat> {
    Level(ParseNumber(Unquoted(raw)), Quoted(TrimSpace(raw)))
  }

  function ParseComponents(parts: seq<string>): (r: Result<seq<nat>>)
    ensures r.Ok? ==> IsPath(r.value) && |r.value| == |parts|
  {
    if parts == [] then Ok([])
    else
      var before := ParseComponents(parts[..|parts| - 1]);
      if before.Err? then before
      else
        var last := ParseComponent(parts[|parts| - 1]);
        if last.Err? then Err(last.message) else Ok(before.value + [last.value])
  }

  /** The parts of a path that are levels: all but the `m` of an absolute path. */
  function Levels(s: string): seq<string> {
    var parts := Split(s);
    if TrimSpace(parts[0]) == "m" then parts[1..] else parts
  }

  /** Where the levels start: absolute paths at the top, all others below the default root. */
  function Root(s: string): seq<nat> {
    if TrimSpace(Split(s)[0]) == "m" then [] else DEFAULT_ROOT
  }

  function Parse(s: string): Result<seq<nat>> {
    if TrimSpace(Split(s)[0]) == "" then Err("ambiguous path")
    else if Levels(s) == [] then Err("empty derivation path")
    else
      var levels := ParseComponents(Levels(s));
      if levels.Err? then levels else Ok(Root(s) + levels.value)
  }

  function PrintComponent(c: nat): string {
    if c >= HARDENED then Str(c - HARDENED) + "'" else Str(c)
  }

  function Print(path: seq<nat>): string {
    if path == [] then "m" else Print(path[..|path| - 1]) + "/" + PrintComponent(path[|path| - 1])
  }

  /** The body of the parser's loop. */
  method OneComponent(raw: string) returns (r: Result<nat>)
    ensures r == ParseComponent(raw)
  {
    hide IsSpace, TrimSpace, ParseNumber;
    var component := TrimSpace(raw);
    var value: nat := 0;
    if component != "" && component[|component| - 1] == '\'' {
      value := HARDENED;
      component := TrimSpace(component[..|component| - 1]);
    }
    var bigval := ParseNumber(component);
    if bigval == None {
      return Err("invalid component");
    }
    var max := MAX_UINT32 - value;
    if bigval.value < 0 || bigval.value > max {
      if value == 0 {
        return Err("component out of allowed range");
      }
      return Err("component out of allowed hardened range");
    }
    return Ok(value + bigval.value);
  }

  method ParseDerivationPath(path: string) returns (r: Result<seq<nat>>)
    ensures r == Parse(path)
  {
    hide IsSpace, TrimSpace, ParseComponent, Split;
    var result: seq<nat> := [];
    var components := Split(path);
    if TrimSpace(components[0]) == "" {
      return Err("ambiguous path");
    } else if TrimSpace(components[0]) == "m" {
      components := components[1..];
    } else {
      result := DEFAULT_ROOT;
    }
    if |components| == 0 {
      return Err("empty derivation path");
    }
    ghost var root := result;
    for i := 0 to |components|
      invariant ParseComponents(components[..i]).Ok? && result == root + ParseComponents(components[..i]).value
    {
      assert components[..i + 1][..i] == components[..i];
      var value := OneComponent(components[i]);
      if value.Err? {
        FirstErrorWins(components, i + 1, value.message);
        return Err(value.message);
      }
      result := result + [value.value];
    }
    assert components[..|components|] == components;
    assert [] + ParseComponents(components).value == ParseComponents(components).value;
    return Ok(result);
  }

  lemma {:induction false} FirstErrorWins(parts: seq<string>, k: nat, message: string)
    requires k <= |parts| && ParseComponents(parts[..k]) == Err(message)
    ensures ParseComponents(parts) == Err(message)
    decreases |parts|
  {
    if k == |parts| {
      assert parts[..k] == parts;
    } else {
      assert parts[..|parts| - 1][..k] == parts[..k];
      FirstErrorWins(parts[..|parts| - 1], k, message);
    }
  }

  /** The printer's loop over the levels. */
  method String(path: seq<nat>) returns (result: string)
    ensures result == Print(path)
  {
    result := "m";
    for i := 0 to |path|
      invariant result == Print(path[..i])
    {
      assert path[..i + 1][..i] == path[..i];
      var component, hardened := path[i], false;
      if component >= HARDENED {
        component := component - HARDENED;
        hardened := true;
      }
      result := result + "/" + Str(component);
      if hardened {
        result := result + "'";
      }
    }
    assert path[..|path|] == path;
  }

  /** A list of parts is accepted exactly if every part is, and part by part. */
  lemma {:induction false} PartsAreRead(parts: seq<string>)
    ensures ParseComponents(parts).Ok? <==> forall i :: 0 <= i < |parts| ==> ParseComponent(parts[i]).Ok?
    ensures ParseComponents(parts).Ok? ==>
      forall i :: 0 <= i < |parts| ==> ParseComponent(parts[i]) == Ok(ParseComponents(parts).value[i])
  {
    hide ParseComponent;
    if parts != [] {
      var init, last := parts[..|parts| - 1], parts[|parts| - 1];
      PartsAreRead(init);
      assert parts == init + [last];
      if !ParseComponents(init).Ok? {
        var i :| 0 <= i < |init| && !ParseComponent(init[i]).Ok?;
        assert parts[i] == init[i];
      }
    }
  }

  /**
   Accepted are exactly the paths whose first part is not blank, that have a level, and all
   of whose levels are accepted; the path is the root with the levels below it.
   */
  lemma AcceptedExactly(s: string)
    ensures Parse(s).Ok? <==>
      && TrimSpace(Split(s)[0]) != "" && Levels(s) != []
      && forall i :: 0 <= i < |Levels(s)| ==> ParseComponent(Levels(s)[i]).Ok?
    ensures Parse(s).Ok? ==>
      && Root(s) <= Parse(s).value && |Parse(s).value| == |Root(s)| + |Levels(s)|
      && IsPath(Parse(s).value)
      && forall i :: 0 <= i < |Levels(s)| ==> ParseComponent(Levels(s)[i]) == Ok(Parse(s).value[|Root(s)| + i])
  {
    hide ParseComponent, ParseComponents, TrimSpace, Split;
    PartsAreRead(Levels(s));
  }

  /** Decimal notation is plain digits, without a leading zero unless it is the only digit. */
  lemma {:induction false} StrIsDigits(n: nat)
    ensures forall i :: 0 <= i < |Str(n)| ==> '0' <= Str(n)[i] <= '9'
    ensures |Str(n)| > 1 ==> Str(n)[0] != '0'
    ensures n > 0 ==> Str(n)[0] != '0'
  {
    if n >= 10 {
      StrIsDigits(n / 10);
    }
  }

  lemma {:induction false} ScanDecimal(s: string)
    requires forall i :: 0 <= i < |s| ==> '0' <= s[i] <= '9'
    ensures Scan(s, 10, false) == Some(Scanned(Int(s), |s|, s != ""))
  {
    if s != "" {
      ScanDecimal(s[..|s| - 1]);
      assert '0' <= s[|s| - 1] <= '9';
    }
  }

  /** A printed number is read as that number: no prefix makes it octal or anything else. */
  lemma NumberRoundTrip(n: nat)
    ensures ParseNumber(Str(n)) == Some(n)
  {
    StrIsDigits(n);
    ScanDecimal(Str(n));
    IntOfStr(n);
  }

  /** A digit of a base up to sixteen, and a number in that base. */
  function DigitIn(d: nat): char
    requires d < 16
  {
    "0123456789abcdef"[d]
  }

  predicate IsBase(base: nat) {
    base == 2 || base == 8 || base == 16
  }

  function Higher(n: nat, base: nat): (q: nat)
    requires IsBase(base)
    ensures q * base <= n < q * base + base && (n > 0 ==> q < n)
  {
    if base == 2 then n / 2 else if base == 8 then n / 8 else n / 16
  }

  function StrIn(n: nat, base: nat): (s: string)
    requires IsBase(base)
    ensures |s| > 0
  {
    if n < base then [DigitIn(n)] else StrIn(Higher(n, base), base) + [DigitIn(n - Higher(n, base) * base)]
  }

  lemma {:induction false} ScanIn(n: nat, base: nat)
    requires IsBase(base)
    ensures Scan(StrIn(n, base), base, true) == Some(Scanned(n, |StrIn(n, base)|, true))
  {
    hide Digit, DigitIn, Higher;
    if n < base {
      ScanMore("", 0, n, base);
      assert "" + [DigitIn(n)] == [DigitIn(n)];
    } else {
      var q := Higher(n, base);
      ScanIn(q, base);
      ScanMore(StrIn(q, base), q, n - q * base, base);
    }
  }

  /** One digit more. */
  lemma ScanMore(s: string, n: nat, d: nat, base: nat)
    requires base <= 16 && d < base && Scan(s, base, true) == Some(Scanned(n, |s|, true))
    ensures Scan(s + [DigitIn(d)], base, true) == Some(Scanned(n * base + d, |s| + 1, true))
  {
    assert (s + [DigitIn(d)])[..|s|] == s;
    DigitIsRead(d);
  }

  lemma DigitIsRead(d: nat)
    requires d < 16
    ensures Digit(DigitIn(d)) == d && DigitIn(d) != '_'
  {
  }

  /** The base a prefix letter stands for. */
  function PrefixBase(c: char): nat {
    if c == 'x' || c == 'X' then 16 else if c == 'b' || c == 'B' then 2 else 8
  }

  predicate IsPrefix(c: char) {
    c == 'x' || c == 'X' || c == 'b' || c == 'B' || c == 'o' || c == 'O'
  }

  lemma PrefixIsRead(t: string)
    requires |t| > 2 && t[0] == '0' && IsPrefix(t[1])
    ensures ParseNumber(t) == Finished(Scan(t[2..], PrefixBase(t[1]), true))
  {
    hide Scan, Finished;
  }

  lemma ZeroIsOctal(t: string)
    requires |t| > 1 && t[0] == '0' && !IsPrefix(t[1])
    ensures ParseNumber(t) == Finished(Scan(t[1..], 8, true))
  {
    hide Scan, Finished;
  }

  /** A number with a prefix is read in the base of the prefix. */
  lemma PrefixedRoundTrip(n: nat, c: char)
    requires IsPrefix(c)
    ensures ParseNumber(['0', c] + StrIn(n, PrefixBase(c))) == Some(n)
  {
    hide Scan, ParseNumber, StrIn;
    var s := StrIn(n, PrefixBase(c));
    ScanIn(n, PrefixBase(c));
    PrefixIsRead(['0', c] + s);
    assert (['0', c] + s)[2..] == s;
  }

  /** A leading zero alone means octal. */
  lemma OctalRoundTrip(n: nat)
    ensures ParseNumber(['0'] + StrIn(n, 8)) == Some(n)
  {
    hide Scan, ParseNumber, StrIn;
    var s := StrIn(n, 8);
    ScanIn(n, 8);
    OctalDigits(n);
    ZeroIsOctal(['0'] + s);
    assert (['0'] + s)[1..] == s;
  }

  /** No octal digit is mistaken for a prefix. */
  lemma {:induction false} OctalDigits(n: nat)
    ensures '0' <= StrIn(n, 8)[0] <= '7'
  {
    if n >= 8 {
      OctalDigits(Higher(n, 8));
    }
  }

  lemma NothingToTrim(s: string)
    requires s != "" && !IsSpace(s[0]) && !IsSpace(s[|s| - 1])
    ensures TrimSpace(s) == s
  {
  }

  lemma PrintedIsTrimmed(n: nat)
    ensures TrimSpace(Str(n)) == Str(n) && TrimSpace(Str(n) + "'") == Str(n) + "'" && !Quoted(Str(n))
    ensures forall i :: 0 <= i < |Str(n)| ==> Str(n)[i] != '/'
  {
    StrIsDigits(n);
    NothingToTrim(Str(n));
    NothingToTrim(Str(n) + "'");
  }

  lemma ComponentRoundTrip(c: nat)
    requires c <= MAX_UINT32
    ensures ParseComponent(PrintComponent(c)) == Ok(c)
    ensures forall i :: 0 <= i < |PrintComponent(c)| ==> PrintComponent(c)[i] != '/'
  {
    hide TrimSpace, ParseNumber, Str;
    var n := if c >= HARDENED then c - HARDENED else c;
    PrintedIsTrimmed(n);
    NumberRoundTrip(n);
    if c >= HARDENED {
      assert (Str(n) + "'")[..|Str(n)|] == Str(n);
    }
  }

  /** A part without slashes, after a slash, is the last part. */
  lemma {:induction false} SplitLast(a: string, b: string)
    requires forall i :: 0 <= i < |b| ==> b[i] != '/'
    ensures Split(a + "/" + b) == Split(a) + [b]
    decreases |b|
  {
    var s := a + "/" + b;
    if b == "" {
      assert s[..|s| - 1] == a;
    } else {
      var init := b[..|b| - 1];
      SplitLast(a, init);
      assert s[..|s| - 1] == a + "/" + init;
      assert (Split(a) + [init])[..|Split(a)|] == Split(a);
      assert init + [b[|b| - 1]] == b;
    }
  }

  lemma {:induction false} PartsRoundTrip(path: seq<nat>)
    requires IsPath(path)
    ensures |Split(Print(path))| == |path| + 1 && Split(Print(path))[0] == "m"
    ensures ParseComponents(Split(Print(path))[1..]) == Ok(path)
    decreases |path|
  {
    hide ParseComponent, PrintComponent;
    if path == [] {
      SplitRoot();
    } else {
      var init, last := path[..|path| - 1], path[|path| - 1];
      PartsRoundTrip(init);
      ComponentRoundTrip(last);
      SplitLast(Print(init), PrintComponent(last));
      var parts := Split(Print(path))[1..];
      assert parts == Split(Print(init))[1..] + [PrintComponent(last)];
      assert parts[..|parts| - 1] == Split(Print(init))[1..];
      assert path == init + [last];
    }
  }

  /** Printing and parsing gives the path back, except for the empty path, which does not parse. */
  lemma RoundTrip(path: seq<nat>)
    requires IsPath(path)
    ensures Parse(Print(path)) == Ok(path) <==> path != []
    ensures path == [] ==> Parse(Print(path)) == Err("empty derivation path")
  {
    hide Split, Print, ParseComponents, TrimSpace;
    PartsRoundTrip(path);
    RootIsTrimmed();
    assert Root(Print(path)) + path == path;
  }

  lemma RootIsTrimmed()
    ensures TrimSpace("m") == "m"
  {
    NothingToTrim("m");
  }

  /** Whatever was accepted, printing it and parsing that again changes nothing. */
  lemma Normalised(s: string)
    requires Parse(s).Ok?
    ensures Parse(Print(Parse(s).value)) == Parse(s)
  {
    hide Parse, Split, TrimSpace, ParseComponent, Print;
    AcceptedExactly(s);
    RoundTrip(Parse(s).value);
  }

  /** Different paths print differently. */
  lemma PrintIsInjective(p: seq<nat>, q: seq<nat>)
    requires IsPath(p) && IsPath(q) && Print(p) == Print(q)
    ensures p == q
  {
    PartsRoundTrip(p);
    PartsRoundTrip(q);
  }

  lemma SplitStep(s: string)
    requires s != ""
    ensures var parts, last := Split(s[..|s| - 1]), s[|s| - 1];
      Split(s) == if last == '/' then parts + [""] else parts[..|parts| - 1] + [parts[|parts| - 1] + [last]]
  {
  }

  lemma SplitRoot()
    ensures Split("m") == ["m"] && Split("") == [""]
  {
    SplitStep("m");
    assert "m"[..0] == "" && Split("") == [""];
    assert [""][..0] == [] && "" + ['m'] == "m";
  }

  lemma {:induction false} SplitPrefix(s: string)
    ensures Split("m/" + s) == ["m"] + Split(s)
  {
    hide Split;
    if s == "" {
      assert "m/" + s == "m" + "/" + s;
      SplitRoot();
      SplitLast("m", s);
    } else {
      var t := "m/" + s;
      SplitPrefix(s[..|s| - 1]);
      assert t[..|t| - 1] == "m/" + s[..|s| - 1];
      SplitStep(s);
      SplitStep(t);
      var parts := Split(s[..|s| - 1]);
      assert (["m"] + parts)[..|parts|] == ["m"] + parts[..|parts| - 1];
    }
  }

  /** A relative path means the default root followed by the same levels as an absolute one. */
  lemma RelativeIsBelowRoot(s: string)
    requires TrimSpace(Split(s)[0]) != "" && TrimSpace(Split(s)[0]) != "m"
    ensures Parse(s).Ok? <==> Parse("m/" + s).Ok?
    ensures Parse(s).Ok? ==> Parse(s).value == DEFAULT_ROOT + Parse("m/" + s).value
  {
    hide Split, ParseComponents, TrimSpace;
    SplitPrefix(s);
    RootIsTrimmed();
    assert (["m"] + Split(s))[1..] == Split(s);
    assert Levels("m/" + s) == Levels(s) && Root("m/" + s) == [];
  }
}
