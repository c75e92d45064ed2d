/**
 What white space does to a derivation path.  The documentation says that it is ignored;
 it is ignored around the parts and around the quote of a part, and nowhere else.
 */
module WhiteSpace {
  import opened Wrappers
  import opened DerivationPath

  ghost predicate NoSpace(s: string) {
    forall i :: 0 <= i < |s| ==> !IsSpace(s[i])
  }

  /** All white space removed. */
  function Strip(s: string): string {
    if s == "" then ""
    else Strip(s[..|s| - 1]) + if IsSpace(s[|s| - 1]) then "" else [s[|s| - 1]]
  }

  function StripAll(parts: seq<string>): (r: seq<string>)
    ensures |r| == |parts| && forall i :: 0 <= i < |parts| ==> r[i] == Strip(parts[i])
  {
    if parts == [] then [] else StripAll(parts[..|parts| - 1]) + [Strip(parts[|parts| - 1])]
  }

  lemma {:induction false} StripConcat(a: string, b: string)
    ensures Strip(a + b) == Strip(a) + Strip(b)
    decreases |b|
  {
    if b == "" {
      assert a + b == a;
    } else {
      StripConcat(a, b[..|b| - 1]);
      assert (a + b)[..|a + b| - 1] == a + b[..|b| - 1];
    }
  }

  /** Stripping leaves no white space, and changes nothing where there is none. */
  lemma {:induction false} StripIsClean(s: string)
    ensures NoSpace(Strip(s)) && |Strip(s)| <= |s|
    ensures NoSpace(s) ==> Strip(s) == s
  {
    if s != "" {
      StripIsClean(s[..|s| - 1]);
      hide IsSpace;
      assert s == s[..|s| - 1] + [s[|s| - 1]];
    }
  }

  lemma {:induction false} TrimmedLeft(s: string)
    ensures Strip(TrimLeft(s)) == Strip(s)
    ensures TrimLeft(s) == "" || !IsSpace(TrimLeft(s)[0])
  {
    hide IsSpace;
    if s != "" && IsSpace(s[0]) {
      TrimmedLeft(s[1..]);
      StripConcat([s[0]], s[1..]);
      assert [s[0]] + s[1..] == s;
      assert [s[0]][..0] == "";
    }
  }

  lemma {:induction false} TrimmedRight(s: string)
    ensures Strip(TrimRight(s)) == Strip(s)
    ensures TrimRight(s) <= s
    ensures TrimRight(s) == "" || !IsSpace(TrimRight(s)[|TrimRight(s)| - 1])
  {
    hide IsSpace;
    if s != "" && IsSpace(s[|s| - 1]) {
      TrimmedRight(s[..|s| - 1]);
    }
  }

  /** A trimmed string is empty or has no white space at its ends. */
  ghost predicate Trimmed(s: string) {
    s == "" || (!IsSpace(s[0]) && !IsSpace(s[|s| - 1]))
  }

  lemma TrimKeepsRest(s: string)
    ensures Strip(TrimSpace(s)) == Strip(s) && Trimmed(TrimSpace(s))
  {
    hide IsSpace, Strip, TrimLeft, TrimRight;
    TrimmedLeft(s);
    TrimmedRight(TrimLeft(s));
  }

  lemma TrimOfTrimmed(s: string)
    requires Trimmed(s)
    ensures TrimSpace(s) == s
  {
    hide IsSpace;
  }

  lemma TrimOfStripped(s: string)
    ensures TrimSpace(Strip(s)) == Strip(s)
  {
    StripIsClean(s);
    TrimOfTrimmed(Strip(s));
  }

  /** A trimmed string keeps its first and last character when it is stripped. */
  lemma StripKeepsEnds(s: string)
    requires Trimmed(s) && s != ""
    ensures Strip(s) != "" && Strip(s)[0] == s[0] && Strip(s)[|Strip(s)| - 1] == s[|s| - 1]
    ensures |s| > 1 ==> |Strip(s)| > 1
  {
    hide IsSpace;
    var n := |s| - 1;
    assert [s[0]][..0] == "";
    StripConcat([s[0]], s[1..]);
    assert [s[0]] + s[1..] == s;
    if n > 0 {
      assert s[..n] == [s[0]] + s[1..n];
      StripConcat([s[0]], s[1..n]);
    }
  }

  /** The parts after one more character. */
  function SplitMore(parts: seq<string>, c: char): seq<string>
    requires parts != []
  {
    if c == '/' then parts + [""] else parts[..|parts| - 1] + [parts[|parts| - 1] + [c]]
  }

  lemma StripSplitMore(parts: seq<string>, c: char)
    requires parts != []
    ensures StripAll(SplitMore(parts, c))
         == if IsSpace(c) then StripAll(parts) else SplitMore(StripAll(parts), c)
  {
    StripOneMore(parts[|parts| - 1], c);
    SlashIsNoSpace(c);
    hide IsSpace, Strip;
    var after := StripAll(SplitMore(parts, c));
    if IsSpace(c) {
      assert Strip(parts[|parts| - 1]) + "" == Strip(parts[|parts| - 1]);
      assert after == StripAll(parts);
    } else {
      assert after == SplitMore(StripAll(parts), c);
    }
  }

  lemma SplitIsMore(t: string, c: char)
    ensures Split(t + [c]) == SplitMore(Split(t), c)
  {
    assert (t + [c])[..|t|] == t;
    SplitStep(t + [c]);
  }

  lemma SlashIsNoSpace(c: char)
    ensures c == '/' ==> !IsSpace(c)
    ensures Strip("") == ""
  {
  }

  /** Splitting at slashes and stripping can be exchanged. */
  lemma {:induction false} SplitOfStripped(s: string)
    ensures Split(Strip(s)) == StripAll(Split(s))
  {
    hide Split, IsSpace, Strip, SplitMore;
    if s == "" {
      SplitRoot();
      SlashIsNoSpace('/');
      assert StripAll([""]) == [""];
    } else {
      var init, last := s[..|s| - 1], s[|s| - 1];
      SplitOfStripped(init);
      assert s == init + [last];
      SplitIsMore(init, last);
      StripSplitMore(Split(init), last);
      StripOneMore(init, last);
      if IsSpace(last) {
        assert Strip(init) + "" == Strip(init);
      } else {
        SplitIsMore(Strip(init), last);
      }
    }
  }

  lemma StripOneMore(s: string, c: char)
    ensures Strip(s + [c]) == Strip(s) + if IsSpace(c) then "" else [c]
  {
    assert (s + [c])[..|s|] == s;
  }

  /** No number has white space in it: there is none between digits in any base. */
  lemma {:induction false} SpaceEndsScan(s: string, base: nat, afterDigit: bool)
    requires !NoSpace(s) && base <= 16
    ensures Scan(s, base, afterDigit) == None
  {
    var init, last := s[..|s| - 1], s[|s| - 1];
    if IsSpace(last) {
      SpaceIsNoDigit(last);
    } else {
      hide IsSpace;
      var i :| 0 <= i < |s| && IsSpace(s[i]);
      assert init[i] == s[i];
      SpaceEndsScan(init, base, afterDigit);
    }
  }

  lemma SpaceIsNoDigit(c: char)
    requires IsSpace(c)
    ensures c != '_' && c != '-' && c != '+' && c != '0' && !IsPrefix(c) && Digit(c) == 64
  {
  }

  lemma DropKeepsSpace(s: string, n: nat)
    requires !NoSpace(s) && n <= |s| && forall i :: 0 <= i < n ==> !IsSpace(s[i])
    ensures !NoSpace(s[n..])
  {
    hide IsSpace;
    var i :| 0 <= i < |s| && IsSpace(s[i]);
    assert s[n..][i - n] == s[i];
  }

  lemma SpaceBreaksUnsigned(s: string)
    requires !NoSpace(s)
    ensures ParseUnsigned(s) == None
  {
    if |s| > 1 && s[0] == '0' {
      assert !IsSpace(s[0]);
      if IsPrefix(s[1]) {
        DropKeepsSpace(s, 2);
        SpaceEndsScan(s[2..], PrefixBase(s[1]), true);
      } else {
        DropKeepsSpace(s, 1);
        SpaceEndsScan(s[1..], 8, true);
      }
    } else {
      SpaceEndsScan(s, 10, false);
    }
  }

  lemma SpaceBreaksNumber(s: string)
    requires !NoSpace(s)
    ensures ParseNumber(s) == None
  {
    if s != "" && (s[0] == '-' || s[0] == '+') {
      assert !IsSpace(s[0]);
      DropKeepsSpace(s, 1);
      SpaceBreaksUnsigned(s[1..]);
    } else {
      SpaceBreaksUnsigned(s);
    }
  }

  /** Stripping a part strips its number and keeps its quote. */
  lemma StrippedPart(raw: string)
    ensures Quoted(TrimSpace(Strip(raw))) == Quoted(TrimSpace(raw))
    ensures Unquoted(Strip(raw)) == Strip(Unquoted(raw))
  {
    hide IsSpace, Strip, TrimSpace;
    var c := TrimSpace(raw);
    TrimKeepsRest(raw);
    TrimOfStripped(raw);
    if c == "" {
      StripIsClean(c);
    } else {
      StripKeepsEnds(c);
      if Quoted(c) {
        var body := c[..|c| - 1];
        StripQuoted(body, c);
        TrimKeepsRest(body);
        TrimOfStripped(body);
      }
    }
  }

  lemma StripQuoted(body: string, c: string)
    requires Quoted(c) && body == c[..|c| - 1]
    ensures Strip(c)[..|Strip(c)| - 1] == Strip(body)
  {
  }

  /** A part is accepted only without white space in its number, and then also with all of it removed. */
  lemma PartIgnoresOuterSpace(raw: string)
    ensures ParseComponent(raw).Ok? ==> NoSpace(Unquoted(raw))
    ensures NoSpace(Unquoted(raw)) ==> ParseComponent(Strip(raw)) == ParseComponent(raw)
  {
    hide NoSpace, Strip, TrimSpace, ParseNumber, Unquoted;
    StrippedPart(raw);
    StripIsClean(Unquoted(raw));
    if !NoSpace(Unquoted(raw)) {
      SpaceBreaksNumber(Unquoted(raw));
    }
  }

  /** The first part is blank, or `m`, with its white space just when it is without. */
  lemma FirstPart(p: string)
    ensures TrimSpace(Strip(p)) == "" <==> TrimSpace(p) == ""
    ensures TrimSpace(Strip(p)) == "m" <==> TrimSpace(p) == "m"
  {
    hide IsSpace, Strip, TrimSpace;
    var t := TrimSpace(p);
    TrimKeepsRest(p);
    TrimOfStripped(p);
    StripIsClean(t);
    if t != "" {
      StripKeepsEnds(t);
      if |t| == 1 {
        assert t == [t[0]] && Strip(t) == [t[0]];
      }
    }
  }

  /** White space only where it is ignored: none within the number of any level. */
  ghost predicate OuterSpaceOnly(s: string) {
    forall i :: 0 <= i < |Levels(s)| ==> NoSpace(Unquoted(Levels(s)[i]))
  }

  lemma StripLevels(s: string)
    ensures Levels(Strip(s)) == StripAll(Levels(s)) && Root(Strip(s)) == Root(s)
    ensures TrimSpace(Split(Strip(s))[0]) == "" <==> TrimSpace(Split(s)[0]) == ""
  {
    hide Strip, Split, TrimSpace;
    SplitOfStripped(s);
    FirstPart(Split(s)[0]);
    var parts := Split(s);
    assert StripAll(parts)[1..] == StripAll(parts[1..]);
  }

  lemma {:induction false} PartsIgnoreOuterSpace(parts: seq<string>)
    requires forall i :: 0 <= i < |parts| ==> NoSpace(Unquoted(parts[i]))
    ensures ParseComponents(StripAll(parts)) == ParseComponents(parts)
  {
    hide Strip, ParseComponent, Unquoted, NoSpace;
    if parts != [] {
      var n := |parts| - 1;
      PartsIgnoreOuterSpace(parts[..n]);
      assert NoSpace(Unquoted(parts[n]));
      PartIgnoresOuterSpace(parts[n]);
      assert StripAll(parts)[..n] == StripAll(parts[..n]);
    }
  }

  /** Where white space is only outside the numbers, removing it changes nothing, not even the error. */
  lemma OuterSpaceIsIgnored(s: string)
    requires OuterSpaceOnly(s)
    ensures Parse(Strip(s)) == Parse(s)
  {
    hide Strip, Split, TrimSpace, ParseComponents, Unquoted, NoSpace;
    StripLevels(s);
    PartsIgnoreOuterSpace(Levels(s));
  }

  /** Every accepted path parses the same with all white space removed. */
  lemma AcceptedIgnoresSpace(s: string)
    requires Parse(s).Ok?
    ensures OuterSpaceOnly(s) && Parse(Strip(s)) == Parse(s)
  {
    hide Strip, Split, TrimSpace, ParseComponents, ParseComponent, Parse, Unquoted, NoSpace;
    AcceptedExactly(s);
    forall i | 0 <= i < |Levels(s)|
      ensures NoSpace(Unquoted(Levels(s)[i]))
    {
      PartIgnoresOuterSpace(Levels(s)[i]);
    }
    OuterSpaceIsIgnored(s);
  }

  /** So white space costs an otherwise good path its acceptance exactly if it stands within a number. */
  lemma SpaceIsIgnoredExactly(s: string)
    ensures Parse(s).Ok? <==> Parse(Strip(s)).Ok? && OuterSpaceOnly(s)
  {
    hide Strip, Parse, OuterSpaceOnly;
    if Parse(s).Ok? {
      AcceptedIgnoresSpace(s);
    } else if OuterSpaceOnly(s) {
      OuterSpaceIsIgnored(s);
    }
  }

  /** A space within a number is not ignored. */
  lemma InnerSpaceIsNotIgnored()
    ensures Parse("m/4 4").Err? && Strip("m/4 4") == "m/44" && Parse("m/44") == Ok([44])
  {
    var s := "m/4 4";
    StripLiteral();
    SplitLiteral();
    RootIsTrimmed();
    TrimOfTrimmed("4 4");
    assert Levels(s) == ["4 4"];
    assert Levels(s)[0][1] == ' ' && !NoSpace(Unquoted(Levels(s)[0]));
    assert !OuterSpaceOnly(s);
    hide Strip, Parse, OuterSpaceOnly;
    SpaceIsIgnoredExactly(s);
    FortyFour();
  }

  lemma StripInner(a: string, c: char, b: string)
    requires NoSpace(a) && IsSpace(c) && NoSpace(b)
    ensures Strip(a + [c] + b) == a + b
  {
    StripIsClean(a);
    StripIsClean(b);
    StripConcat(a + [c], b);
    StripOneMore(a, c);
    assert a + "" == a;
  }

  lemma StripLiteral()
    ensures Strip("m/4 4") == "m/44"
  {
    hide Strip;
    StripInner("m/4", ' ', "4");
    assert "m/4" + [' '] + "4" == "m/4 4" && "m/4" + "4" == "m/44";
  }

  lemma SplitLiteral()
    ensures Split("m/4 4") == ["m", "4 4"]
  {
    assert "m/4 4" == "m" + "/" + "4 4";
    SplitLast("m", "4 4");
    SplitRoot();
  }

  lemma FortyFour()
    ensures Parse("m/44") == Ok([44])
  {
    assert Print([44]) == "m/44" by {
      assert [44][..0] == [] && Print([]) == "m";
      assert PrintComponent(44) == "44";
    }
    RoundTrip([44]);
  }
}
