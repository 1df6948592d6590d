// One specenum constant (`EnumValue`): its identifier and optional name, the
// line syntax shared by value lines and option lines, and the `#define`
// lines it contributes to the generated header.
module EnumValues {
  import opened Wrappers
  import opened Text
  import opened Errors

  // A constant: SPECENUM_VALUEx is `identifier`, SPECENUM_VALUExNAME is `name`.
  datatype EnumValue = EnumValue(identifier: string, name: Option<string>)

  // What a well-formed value line can produce: an identifier of word
  // characters, and a name that is non-empty and stripped (inner whitespace kept).
  predicate WellFormedValue(v: EnumValue) {
    v.identifier != [] && AllWordChars(v.identifier) && WellFormedArg(v.name)
  }

  predicate WellFormedArg(arg: Option<string>) {
    arg.Some? ==> arg.value != [] && Trimmed(arg.value)
  }

  // ---------------------------------------------------------------------------
  // Line syntax: `^\s*(C+)(?:\s+(\S+(?:\s+\S+)*))?\s*$`, where C is `\w` for
  // value lines and `[\w-]` for option lines.

  // A leading word and its optional argument.
  datatype Head = Head(word: string, arg: Option<string>)

  predicate IsHeadChar(c: char, dash: bool) {
    IsWordChar(c) || (dash && c == '-')
  }

  predicate AllHeadChars(s: string, dash: bool) {
    forall i :: 0 <= i < |s| ==> IsHeadChar(s[i], dash)
  }

  // The end of the run of head characters that starts at i.
  function HeadEnd(s: string, i: nat, dash: bool): (j: nat)
    requires i <= |s|
    ensures i <= j <= |s|
    decreases |s| - i
  {
    if i < |s| && IsHeadChar(s[i], dash) then HeadEnd(s, i + 1, dash) else i
  }

  // The whole match: the word is the longest run of head characters after the
  // leading whitespace; what follows it is either only whitespace (no
  // argument) or whitespace and then the argument, stripped.
  function ParseHead(line: string, dash: bool): Option<Head> {
    var s := LStrip(line);
    var j := HeadEnd(s, 0, dash);
    var rest := s[j..];
    if j == 0 then None
    else if AllSpace(rest) then Some(Head(s[..j], None))
    else if IsSpace(rest[0]) then Some(Head(s[..j], Some(Trim(rest))))
    else None
  }

  // The text of an optional argument ("" when absent).
  function ArgText(arg: Option<string>): string {
    if arg.Some? then arg.value else ""
  }

  // `line` spells head h: leading whitespace, the word, a gap, the argument,
  // trailing whitespace, with a non-empty gap before an argument.
  predicate Spells(line: string, h: Head, lead: string, gap: string, trail: string) {
    AllSpace(lead) && AllSpace(gap) && AllSpace(trail) && (h.arg.Some? ==> gap != []) &&
    line == lead + h.word + gap + ArgText(h.arg) + trail
  }

  predicate WellFormedHead(h: Head, dash: bool) {
    h.word != [] && AllHeadChars(h.word, dash) && WellFormedArg(h.arg)
  }

  // `HeadEnd` stops exactly at the first character that is not a head character.
  lemma {:induction false} HeadEndFacts(s: string, i: nat, dash: bool)
    requires i <= |s|
    ensures AllHeadChars(s[i..HeadEnd(s, i, dash)], dash)
    ensures HeadEnd(s, i, dash) < |s| ==> !IsHeadChar(s[HeadEnd(s, i, dash)], dash)
    decreases |s| - i
  {
    if i < |s| && IsHeadChar(s[i], dash) {
      HeadEndFacts(s, i + 1, dash);
      var j := HeadEnd(s, i, dash);
      forall k | 0 <= k < j - i
        ensures IsHeadChar(s[i..j][k], dash)
      {
        if k > 0 {
          assert s[i..j][k] == s[i + 1..j][k - 1];
        }
      }
    }
  }

  // A run of head characters followed by a non-head character (or the end).
  lemma {:induction false} HeadEndOf(s: string, i: nat, j: nat, dash: bool)
    requires i <= j <= |s|
    requires forall k :: i <= k < j ==> IsHeadChar(s[k], dash)
    requires j < |s| ==> !IsHeadChar(s[j], dash)
    ensures HeadEnd(s, i, dash) == j
    decreases j - i
  {
    if i < j {
      HeadEndOf(s, i + 1, j, dash);
    }
  }

  // Every well-formed head, spelled with any whitespace, parses back to itself.
  lemma ParseHeadSpelled(line: string, h: Head, lead: string, gap: string, trail: string, dash: bool)
    requires WellFormedHead(h, dash) && Spells(line, h, lead, gap, trail)
    ensures ParseHead(line, dash) == Some(h)
  {
    var after := gap + ArgText(h.arg) + trail;
    var s := h.word + after;
    assert line == lead + s;
    assert !IsSpace(h.word[0]) by {
      assert IsHeadChar(h.word[0], dash);
    }
    LStripPadded(lead, s);
    forall k | 0 <= k < |h.word|
      ensures IsHeadChar(s[k], dash)
    {
      assert s[k] == h.word[k];
    }
    if after != [] {
      assert s[|h.word|] == after[0];
      if gap != [] {
        assert after[0] == gap[0];
      } else {
        assert h.arg.None?;
        assert after == trail;
      }
    }
    HeadEndOf(s, 0, |h.word|, dash);
    assert s[..|h.word|] == h.word;
    assert s[|h.word|..] == after;
    if h.arg.Some? {
      var a := h.arg.value;
      assert after[|gap|] == a[0];
      assert !AllSpace(after);
      assert after == gap + a + trail;
      TrimPadded(gap, a, trail);
    } else {
      assert after == gap + trail;
      assert AllSpace(after) by {
        forall k | 0 <= k < |after|
          ensures IsSpace(after[k])
        {
          if k < |gap| {
            assert after[k] == gap[k];
          } else {
            assert after[k] == trail[k - |gap|];
          }
        }
      }
    }
  }

  // Text that is not all whitespace is its stripped middle between two
  // whitespace runs.
  lemma SplitPadding(rest: string) returns (gap: string, trail: string)
    requires !AllSpace(rest)
    ensures AllSpace(gap) && AllSpace(trail) && rest == gap + Trim(rest) + trail
    ensures Trim(rest) != [] && Trimmed(Trim(rest))
  {
    var l := LStrip(rest);
    LStripSuffix(rest);
    RStripPrefix(l);
    TrimTrimmed(rest);
    var a := Trim(rest);
    gap := rest[..|rest| - |l|];
    trail := l[|a|..];
    assert l == a + trail;
    assert rest == gap + l;
  }

  lemma Regroup(a: string, b: string, c: string, d: string, e: string)
    ensures a + (b + (c + d + e)) == a + b + c + d + e
  {
  }

  // A word followed by whitespace and more text spells the word with that
  // text, stripped, as its argument.
  lemma SpellsWithArg(line: string, w: string, lead: string, rest: string)
    requires line == lead + (w + rest) && AllSpace(lead)
    requires !AllSpace(rest) && IsSpace(rest[0])
    ensures WellFormedArg(Some(Trim(rest)))
    ensures exists lead, gap, trail :: Spells(line, Head(w, Some(Trim(rest))), lead, gap, trail)
  {
    var gap, trail := SplitPadding(rest);
    assert gap != [] by {
      assert rest[0] == (gap + Trim(rest) + trail)[0];
      assert Trim(rest)[0] == (Trim(rest) + trail)[0];
    }
    Regroup(lead, w, gap, Trim(rest), trail);
    assert Spells(line, Head(w, Some(Trim(rest))), lead, gap, trail);
  }

  // The line is its leading whitespace, the word ParseHead reads, and the rest.
  lemma HeadParts(line: string, dash: bool) returns (lead: string, word: string, rest: string)
    ensures var s := LStrip(line);
      var j := HeadEnd(s, 0, dash);
      word == s[..j] && rest == s[j..] && line == lead + (word + rest) &&
      AllSpace(lead) && AllHeadChars(word, dash)
  {
    var s := LStrip(line);
    LStripSuffix(line);
    HeadEndFacts(s, 0, dash);
    var j := HeadEnd(s, 0, dash);
    lead, word, rest := line[..|line| - |s|], s[..j], s[j..];
    assert s[0..j] == word;
    assert s == word + rest;
    assert line == lead + s;
  }

  // A word followed by whitespace only spells the word without an argument.
  lemma SpellsWithoutArg(line: string, w: string, lead: string, rest: string)
    requires line == lead + (w + rest) && AllSpace(lead) && AllSpace(rest)
    ensures Spells(line, Head(w, None), lead, [], rest)
  {
    assert lead + w + [] + ArgText(None) + rest == lead + (w + rest);
  }

  // Everything ParseHead accepts is a well-formed head spelled with whitespace:
  // with ParseHeadSpelled, a line is accepted exactly when it spells a
  // well-formed head.
  lemma ParseHeadSound(line: string, dash: bool)
    requires ParseHead(line, dash).Some?
    ensures var h := ParseHead(line, dash).value;
      WellFormedHead(h, dash) &&
      exists lead, gap, trail :: Spells(line, h, lead, gap, trail)
  {
    var h := ParseHead(line, dash).value;
    var lead, word, rest := HeadParts(line, dash);
    if AllSpace(rest) {
      SpellsWithoutArg(line, word, lead, rest);
    } else {
      SpellsWithArg(line, word, lead, rest);
    }
  }

  // ---------------------------------------------------------------------------
  // EnumValue.parse

  // A value line, or the argument of `zero`/`count`; anything else is
  // an invalid-value error carrying the line.
  function ParseValue(line: string): Result<EnumValue, Error> {
    match ParseHead(line, false)
    case None => Err(InvalidValue(line))
    case Some(h) => Ok(EnumValue(h.word, h.arg))
  }

  // The head a value stands for.
  function HeadOf(v: EnumValue): Head {
    Head(v.identifier, v.name)
  }

  lemma AllWordIsHead(s: string)
    requires AllWordChars(s)
    ensures AllHeadChars(s, false)
  {
  }

  // A value line spelled from a well-formed value parses back to that value.
  lemma ParseValueSpelled(v: EnumValue, lead: string, gap: string, trail: string)
    requires WellFormedValue(v)
    requires AllSpace(lead) && AllSpace(gap) && AllSpace(trail) && (v.name.Some? ==> gap != [])
    ensures ParseValue(lead + v.identifier + gap + ArgText(v.name) + trail) == Ok(v)
  {
    var line := lead + v.identifier + gap + ArgText(v.name) + trail;
    assert Spells(line, HeadOf(v), lead, gap, trail);
    ParseHeadSpelled(line, HeadOf(v), lead, gap, trail, false);
  }

  // What parses is a well-formed value spelled with whitespace; every other
  // line is rejected with its own text.
  lemma ParseValueSound(line: string)
    ensures match ParseValue(line)
      case Ok(v) =>
        WellFormedValue(v) && exists lead, gap, trail :: Spells(line, HeadOf(v), lead, gap, trail)
      case Err(e) => e == InvalidValue(line)
  {
    if ParseHead(line, false).Some? {
      ParseHeadSound(line, false);
      var h := ParseHead(line, false).value;
      assert HeadOf(EnumValue(h.word, h.arg)) == h;
    }
  }

  // ---------------------------------------------------------------------------
  // The `#define` lines of the generated header

  // `#define SPECENUM_<symbol> <value>` and its newline.
  function DefineLine(symbol: string, value: string): string {
    "#define SPECENUM_" + symbol + " " + value + "\n"
  }

  // `#define SPECENUM_<symbol>` with no value.
  function FlagLine(symbol: string): string {
    "#define SPECENUM_" + symbol + "\n"
  }

  // code_parts_custom: the identifier under `symbol` (with the prefix), then
  // the name under `symbol` + "NAME" when there is one.
  function CodePartsCustom(v: EnumValue, symbol: string, prefix: string): seq<string> {
    [DefineLine(symbol, prefix + v.identifier)] +
    (if v.name.Some? then [DefineLine(symbol + "NAME", v.name.value)] else [])
  }

  // code_parts_value: the same under VALUE<index>.
  function CodePartsValue(v: EnumValue, index: nat, prefix: string): seq<string> {
    CodePartsCustom(v, ValueSymbol(index), prefix)
  }

  function ValueSymbol(index: nat): string {
    "VALUE" + NatToString(index)
  }
}
