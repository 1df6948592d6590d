// The definition file as a whole (`EnumsDefinition`): `enum <name>` header
// lines, each followed by the body of that enum up to its `end` line, and the
// table of all enums defined so far, which is kept across input files.
module Definitions {
  import opened Wrappers
  import opened Text
  import opened Errors
  import opened EnumValues
  import opened Specenums
  import opened Comments

  // ---------------------------------------------------------------------------
  // ENUM_HEADER_PATTERN and ENUM_END_PATTERN

  // `^\s*enum\s+(\w+)\s*(?:;\s*)?$`: the keyword, whitespace, the name (the
  // whole run of word characters), then at most a semicolon among whitespace.
  function EnumHeader(line: string): Option<string> {
    var s := LStrip(line);
    if |s| < 5 || s[..4] != "enum" || !IsSpace(s[4]) then None
    else
      var t := LStrip(s[4..]);
      var j := HeadEnd(t, 0, false);
      var after := LStrip(t[j..]);
      if j == 0 then None
      else if after == [] || (after[0] == ';' && AllSpace(after[1..])) then Some(t[..j])
      else None
  }

  // `^\s*end\s*$`.
  predicate IsEnumEnd(line: string) {
    Trim(line) == "end"
  }

  // `line` spells the header of enum `name`: whitespace, the keyword, a
  // non-empty gap, the name, whitespace, an optional semicolon, whitespace.
  predicate SpellsHeader(line: string, name: string, lead: string, gap: string, sp1: string, semi: string, sp2: string) {
    AllSpace(lead) && AllSpace(gap) && gap != [] && AllSpace(sp1) && AllSpace(sp2) &&
    (semi == "" || semi == ";") &&
    line == lead + "enum" + gap + name + sp1 + semi + sp2
  }

  lemma AllSpaceConcat(a: string, b: string)
    requires AllSpace(a) && AllSpace(b)
    ensures AllSpace(a + b)
  {
    forall i | 0 <= i < |a + b|
      ensures IsSpace((a + b)[i])
    {
      if i < |a| {
        assert (a + b)[i] == a[i];
      } else {
        assert (a + b)[i] == b[i - |a|];
      }
    }
  }

  // What follows the name: whitespace, then at most a semicolon and whitespace.
  lemma HeaderTail(sp1: string, semi: string, sp2: string)
    requires AllSpace(sp1) && AllSpace(sp2) && (semi == "" || semi == ";")
    ensures var after := LStrip(sp1 + semi + sp2);
      after == [] || (after[0] == ';' && AllSpace(after[1..]))
  {
    if semi == "" {
      AllSpaceConcat(sp1, sp2);
      assert sp1 + semi + sp2 == (sp1 + sp2) + [];
      LStripPadded(sp1 + sp2, []);
    } else {
      assert sp1 + semi + sp2 == sp1 + (semi + sp2);
      LStripPadded(sp1, semi + sp2);
      assert (semi + sp2)[1..] == sp2;
    }
  }

  // The name followed by its tail: the word run ends exactly at the name.
  lemma NameThenTail(name: string, rest: string)
    requires name != [] && AllWordChars(name)
    requires rest == [] || !IsWordChar(rest[0])
    ensures var t := name + rest;
      HeadEnd(t, 0, false) == |name| && t[..|name|] == name && t[|name|..] == rest
  {
    var t := name + rest;
    forall k | 0 <= k < |name|
      ensures IsHeadChar(t[k], false)
    {
      assert t[k] == name[k];
    }
    if rest != [] {
      assert t[|name|] == rest[0];
    }
    HeadEndOf(t, 0, |name|, false);
    assert t[..|name|] == name && t[|name|..] == rest;
  }

  // The keyword followed by whitespace.
  lemma KeywordSplit(u: string)
    requires u != [] && IsSpace(u[0])
    ensures var s := "enum" + u; |s| >= 5 && s[..4] == "enum" && s[4..] == u && IsSpace(s[4])
  {
    var s := "enum" + u;
    assert s[4] == u[0];
  }

  // The keyword after leading whitespace, then a gap before the name.
  lemma KeywordThenName(lead: string, gap: string, t: string)
    requires AllSpace(lead) && AllSpace(gap) && gap != []
    requires t != [] && !IsSpace(t[0])
    ensures var s := LStrip(lead + ("enum" + (gap + t)));
      |s| >= 5 && s[..4] == "enum" && IsSpace(s[4]) && LStrip(s[4..]) == t
  {
    var u := gap + t;
    var s := "enum" + u;
    assert s[0] == 'e';
    LStripPadded(lead, s);
    KeywordSplit(u);
    LStripPadded(gap, t);
  }

  // What follows the name does not start with a word character.
  lemma TailStart(sp1: string, semi: string, sp2: string)
    requires AllSpace(sp1) && AllSpace(sp2) && (semi == "" || semi == ";")
    ensures var rest := sp1 + semi + sp2; rest == [] || !IsWordChar(rest[0])
  {
    var rest := sp1 + semi + sp2;
    if rest != [] {
      if sp1 != [] {
        assert rest[0] == sp1[0];
      } else if semi != "" {
        assert rest[0] == semi[0];
      } else {
        assert rest[0] == sp2[0];
      }
    }
  }

  // Every header spelled from a name of word characters reads back as that name.
  lemma EnumHeaderSpelled(line: string, name: string, lead: string, gap: string, sp1: string, semi: string, sp2: string)
    requires name != [] && AllWordChars(name)
    requires SpellsHeader(line, name, lead, gap, sp1, semi, sp2)
    ensures EnumHeader(line) == Some(name)
  {
    var rest := sp1 + semi + sp2;
    var t := name + rest;
    assert line == lead + ("enum" + (gap + t));
    assert t[0] == name[0];
    KeywordThenName(lead, gap, t);
    TailStart(sp1, semi, sp2);
    NameThenTail(name, rest);
    HeaderTail(sp1, semi, sp2);
  }

  // The header's leading whitespace and keyword.
  lemma HeaderFront(line: string, t: string) returns (lead: string, gap: string)
    requires var s := LStrip(line);
      |s| >= 5 && s[..4] == "enum" && IsSpace(s[4]) && t == LStrip(s[4..]) && t != []
    ensures AllSpace(lead) && AllSpace(gap) && gap != [] && line == lead + "enum" + gap + t
  {
    var s := LStrip(line);
    lead := StripSplit(line);
    var s4 := s[4..];
    gap := StripSplit(s4);
    assert s4[0] == s[4];
    assert gap != [] by {
      assert s4 == gap + t && t[0] != s4[0];
    }
    assert s == "enum" + s4 by {
      assert s == s[..4] + s4;
    }
  }

  // What follows the header's name.
  lemma HeaderBack(t: string, j: nat) returns (sp1: string, semi: string, sp2: string)
    requires j <= |t|
    requires var after := LStrip(t[j..]);
      after == [] || (after[0] == ';' && AllSpace(after[1..]))
    ensures AllSpace(sp1) && AllSpace(sp2) && (semi == "" || semi == ";") && t[j..] == sp1 + (semi + sp2)
  {
    var r := t[j..];
    var after := LStrip(r);
    sp1 := StripSplit(r);
    if after == [] {
      semi, sp2 := "", [];
    } else {
      semi, sp2 := ";", after[1..];
      assert after == semi + sp2;
    }
  }

  lemma HeaderRegroup(lead: string, gap: string, name: string, sp1: string, semi: string, sp2: string)
    ensures lead + "enum" + gap + (name + (sp1 + (semi + sp2))) == lead + "enum" + gap + name + sp1 + semi + sp2
  {
  }

  // Everything EnumHeader accepts is a spelled header of a name of word
  // characters; with EnumHeaderSpelled, the two descriptions agree.
  lemma EnumHeaderSound(line: string)
    requires EnumHeader(line).Some?
    ensures var name := EnumHeader(line).value;
      name != [] && AllWordChars(name) &&
      (exists lead, gap, sp1, semi, sp2 :: SpellsHeader(line, name, lead, gap, sp1, semi, sp2))
  {
    var name := EnumHeader(line).value;
    var t := LStrip(LStrip(line)[4..]);
    var j := HeadEnd(t, 0, false);
    HeadEndFacts(t, 0, false);
    assert t[0..j] == name;
    var lead, gap := HeaderFront(line, t);
    var sp1, semi, sp2 := HeaderBack(t, j);
    assert t == name + t[j..];
    HeaderRegroup(lead, gap, name, sp1, semi, sp2);
    assert SpellsHeader(line, name, lead, gap, sp1, semi, sp2);
  }

  // An `end` line is not a header.
  lemma EndIsNoHeader(line: string)
    requires IsEnumEnd(line)
    ensures EnumHeader(line) == None
  {
    var s := LStrip(line);
    RStripPrefix(s);
    var e := RStrip(s);
    assert e == "end";
    if |s| >= 5 {
      assert s[..3] == e[..3];
      assert s[1] == 'n' && s[..4] != "enum";
    }
  }

  // ---------------------------------------------------------------------------
  // parse_clean_lines

  // The first `end` line at or after i (|lines| when there is none): the
  // `takewhile` that hands an enum its body stops there.
  function EndIndex(lines: seq<string>, i: nat): (j: nat)
    requires i <= |lines|
    ensures i <= j <= |lines|
    ensures forall k :: i <= k < j ==> !IsEnumEnd(lines[k])
    ensures j < |lines| ==> IsEnumEnd(lines[j])
    decreases |lines| - i
  {
    if i < |lines| && !IsEnumEnd(lines[i]) then EndIndex(lines, i + 1) else i
  }

  // The enums defined, in order, and the error that stopped the parse.
  datatype Outcome = Outcome(enums: seq<Specenum>, error: Option<Error>)

  // What the line at i starts: an error, or an enum and the line after it.
  datatype Next = Stop(error: Error) | Defined(e: Specenum, next: nat)

  // What a header's name and body define: in the model, BuildSpecenum. The
  // loop is stated for any such function, and all its properties need of it
  // is that the enum it returns carries the header's name.
  type Builder = (string, seq<string>, Option<Error>) -> Result<Specenum, Error>

  ghost predicate KeepsNames(build: Builder) {
    forall name, body, tail :: build(name, body, tail).Ok? ==> build(name, body, tail).value.name == name
  }

  // The enum Specenum(name, lines) builds is named `name`.
  lemma BuildSpecenumKeepsNames()
    ensures KeepsNames(BuildSpecenum)
  {
    forall name, body, tail | BuildSpecenum(name, body, tail).Ok?
      ensures BuildSpecenum(name, body, tail).value.name == name
    {
      BuildSpecenumOptions(name, body, tail);
    }
  }

  // One turn of the loop at line i, with `known` the names defined before. A
  // line that is not a header is unexpected; a known name is a duplicate
  // (before its body is read); otherwise the body up to the next `end` line
  // is the enum's (an enum that runs to the end of the input gets the
  // stream's error when it reads past it), and the parse goes on after the
  // `end` line.
  function StepAt(build: Builder, known: set<string>, s: LineStream, i: nat): (r: Next)
    requires i < |s.lines|
    ensures r.Defined? ==> i < r.next <= |s.lines|
    ensures r.Defined? && KeepsNames(build) ==> r.e.name !in known
  {
    match EnumHeader(s.lines[i])
    case None => Stop(UnexpectedLine(s.lines[i]))
    case Some(name) =>
      if name in known then Stop(DuplicateEnum(name))
      else
        var j := EndIndex(s.lines, i + 1);
        match build(name, s.lines[i + 1..j], Tail(s, j))
        case Err(err) => Stop(err)
        case Ok(en) => Defined(en, After(s.lines, j))
  }

  // The parse from line i on; when the lines run out, the stream's error, if
  // any, is raised.
  function ParseFrom(build: Builder, known: set<string>, s: LineStream, i: nat): Outcome
    requires i <= |s.lines|
    decreases |s.lines| - i
  {
    if i == |s.lines| then Outcome([], s.failure)
    else
      match StepAt(build, known, s, i)
      case Stop(err) => Outcome([], Some(err))
      case Defined(e, next) => Then([e], ParseFrom(build, known + {e.name}, s, next))
  }

  // The model's parse: the loop with BuildSpecenum.
  function ParseDefs(known: set<string>, s: LineStream): Outcome {
    ParseFrom(BuildSpecenum, known, s, 0)
  }

  function Names(es: seq<Specenum>): set<string> {
    set e | e in es :: e.name
  }

  predicate DistinctNames(es: seq<Specenum>) {
    forall i, j :: 0 <= i < j < |es| ==> es[i].name != es[j].name
  }

  // Where the parse goes on after an enum that ends at line j.
  function After(lines: seq<string>, j: nat): nat {
    if j < |lines| then j + 1 else j
  }

  // What the body of an enum ending at line j raises when read past.
  function Tail(s: LineStream, j: nat): Option<Error> {
    if j < |s.lines| then None else s.failure
  }

  lemma DistinctConcat(a: seq<Specenum>, b: seq<Specenum>)
    requires DistinctNames(a) && DistinctNames(b) && Names(a) !! Names(b)
    ensures DistinctNames(a + b) && Names(a + b) == Names(a) + Names(b)
  {
    var es := a + b;
    forall x, y | 0 <= x < y < |es|
      ensures es[x].name != es[y].name
    {
      if y < |a| {
        assert es[x] == a[x] && es[y] == a[y];
      } else if x >= |a| {
        assert es[x] == b[x - |a|] && es[y] == b[y - |a|];
      } else {
        assert es[x] == a[x] && es[x] in a && es[x].name in Names(a);
        assert es[y] == b[y - |a|] && es[y] in b && es[y].name in Names(b);
      }
    }
  }

  // The enums a parse defines have distinct names, none of them known before.
  lemma {:induction false} ParseFromNames(build: Builder, known: set<string>, s: LineStream, i: nat)
    requires i <= |s.lines| && KeepsNames(build)
    ensures var out := ParseFrom(build, known, s, i);
      DistinctNames(out.enums) && Names(out.enums) !! known
    decreases |s.lines| - i
  {
    if i < |s.lines| && StepAt(build, known, s, i).Defined? {
      var step := StepAt(build, known, s, i);
      ParseFromNames(build, known + {step.e.name}, s, step.next);
      var more := ParseFrom(build, known + {step.e.name}, s, step.next);
      assert Names([step.e]) == {step.e.name};
      DistinctConcat([step.e], more.enums);
    }
  }

  // An error of the line stream always surfaces: a parse that ends without
  // an error read a stream that ended without one.
  lemma {:induction false} ParseFromFailure(build: Builder, known: set<string>, s: LineStream, i: nat)
    requires i <= |s.lines|
    ensures s.failure.Some? ==> ParseFrom(build, known, s, i).error.Some?
    decreases |s.lines| - i
  {
    if i < |s.lines| && StepAt(build, known, s, i).Defined? {
      var step := StepAt(build, known, s, i);
      ParseFromFailure(build, known + {step.e.name}, s, step.next);
    }
  }

  // ---------------------------------------------------------------------------
  // A definition file written out: each enum's header, body and `end` line

  datatype Block = Block(name: string, body: seq<string>)

  function Render(bs: seq<Block>): seq<string>
    decreases |bs|
  {
    if bs == [] then [] else ["enum " + bs[0].name] + bs[0].body + ["end"] + Render(bs[1..])
  }

  // A block as the parser sees it: a name of word characters not defined
  // before, a body without `end` lines, and a body that defines a valid enum.
  predicate BlockOk(build: Builder, known: set<string>, b: Block) {
    b.name != [] && AllWordChars(b.name) && b.name !in known &&
    (forall l :: 0 <= l < |b.body| ==> !IsEnumEnd(b.body[l])) &&
    BlockEnum(build, b).Ok?
  }

  // The enum a block's header and body define, when its `end` line follows.
  function BlockEnum(build: Builder, b: Block): Result<Specenum, Error> {
    build(b.name, b.body, None)
  }

  // Every block is as the parser sees it, given the names of the blocks before it.
  predicate Renderable(build: Builder, known: set<string>, bs: seq<Block>)
    decreases |bs|
  {
    bs == [] || (BlockOk(build, known, bs[0]) && Renderable(build, known + {bs[0].name}, bs[1..]))
  }

  // The enums the blocks' bodies define.
  function Built(build: Builder, bs: seq<Block>): seq<Specenum>
    decreases |bs|
  {
    if bs == [] then []
    else
      match BlockEnum(build, bs[0])
      case Ok(en) => [en] + Built(build, bs[1..])
      case Err(_) => Built(build, bs[1..])
  }

  // The header of a block reads back as its name.
  lemma BlockHeader(name: string)
    requires name != [] && AllWordChars(name)
    ensures EnumHeader("enum " + name) == Some(name)
  {
    assert SpellsHeader("enum " + name, name, "", " ", "", "", "");
    EnumHeaderSpelled("enum " + name, name, "", " ", "", "", "");
  }

  lemma EndLine()
    ensures IsEnumEnd("end")
  {
    assert LStrip("end") == "end" && RStrip("end") == "end";
  }

  // Where the parts of a header, body, end line and rest fall in the lines.
  lemma BlockSplit<X>(lines: seq<X>, i: nat, h: X, body: seq<X>, e: X, rest: seq<X>)
    requires i <= |lines| && lines[i..] == [h] + body + [e] + rest
    ensures var j := i + 1 + |body|;
      j < |lines| && lines[i] == h && lines[i + 1..j] == body && lines[j] == e && lines[j + 1..] == rest
  {
    var j := i + 1 + |body|;
    assert [h] + body + [e] + rest == [h] + (body + ([e] + rest));
    SliceAt(lines, i, [h], body + ([e] + rest));
    SliceAt(lines, i + 1, body, [e] + rest);
    SliceAt(lines, j, [e], rest);
    assert lines[i] == lines[i..i + 1][0] && lines[j] == lines[j..j + 1][0];
  }

  // Lines from i on that are a then b: a takes the first |a| of them.
  lemma SliceAt<X>(lines: seq<X>, i: nat, a: seq<X>, b: seq<X>)
    requires i <= |lines| && lines[i..] == a + b
    ensures i + |a| <= |lines| && lines[i..i + |a|] == a && lines[i + |a|..] == b
  {
    assert |lines| - i == |a| + |b|;
    assert forall k :: 0 <= k < |a| ==> lines[i..i + |a|][k] == lines[i..][k] == a[k];
    assert forall k :: 0 <= k < |b| ==> lines[i + |a|..][k] == lines[i..][|a| + k] == b[k];
  }

  // The first block's lines: the header, the body, the `end` line.
  lemma FirstBlock(lines: seq<string>, i: nat, b: Block, more: seq<string>)
    requires i <= |lines| && lines[i..] == ["enum " + b.name] + b.body + ["end"] + more
    requires b.name != [] && AllWordChars(b.name)
    requires forall l :: 0 <= l < |b.body| ==> !IsEnumEnd(b.body[l])
    ensures i < |lines| && EnumHeader(lines[i]) == Some(b.name)
    ensures var j := EndIndex(lines, i + 1);
      j == i + 1 + |b.body| && j < |lines| && lines[i + 1..j] == b.body && lines[j + 1..] == more
  {
    BlockSplit(lines, i, "enum " + b.name, b.body, "end", more);
    BlockHeader(b.name);
    EndLine();
    var j := i + 1 + |b.body|;
    forall l | i + 1 <= l < j
      ensures !IsEnumEnd(lines[l])
    {
      assert lines[l] == lines[i + 1..j][l - i - 1];
    }
    EndIndexAt(lines, i + 1, j);
  }

  // EndIndex finds the first `end` line.
  lemma {:induction false} EndIndexAt(lines: seq<string>, i: nat, j: nat)
    requires i <= j <= |lines|
    requires forall k :: i <= k < j ==> !IsEnumEnd(lines[k])
    requires j < |lines| ==> IsEnumEnd(lines[j])
    ensures EndIndex(lines, i) == j
    decreases j - i
  {
    if i < j {
      EndIndexAt(lines, i + 1, j);
    }
  }

  // The first block is read as one enum, and the parse goes on after its `end`.
  lemma StepAtRendered(build: Builder, known: set<string>, s: LineStream, i: nat, b: Block, more: seq<string>)
    requires i <= |s.lines| && s.lines[i..] == ["enum " + b.name] + b.body + ["end"] + more
    requires BlockOk(build, known, b)
    ensures i < |s.lines| && i + 2 + |b.body| <= |s.lines| && s.lines[i + 2 + |b.body|..] == more
    ensures StepAt(build, known, s, i) == Defined(BlockEnum(build, b).value, i + 2 + |b.body|)
  {
    FirstBlock(s.lines, i, b, more);
    var j := EndIndex(s.lines, i + 1);
    assert Tail(s, j) == None && After(s.lines, j) == i + 2 + |b.body|;
  }

  // Unfolding the parse at a line that defines an enum.
  lemma ParseFromDefined(build: Builder, known: set<string>, s: LineStream, i: nat, e: Specenum, next: nat)
    requires i < |s.lines| && StepAt(build, known, s, i) == Defined(e, next)
    ensures next <= |s.lines| && ParseFrom(build, known, s, i) == Then([e], ParseFrom(build, known + {e.name}, s, next))
  {
  }

  // The parse at a rendered block: its enum, then the parse of the rest.
  lemma ParseRenderedStep(build: Builder, known: set<string>, s: LineStream, i: nat, b: Block, more: seq<string>)
    returns (next: nat)
    requires i <= |s.lines| && s.lines[i..] == ["enum " + b.name] + b.body + ["end"] + more
    requires BlockOk(build, known, b) && KeepsNames(build)
    ensures next == i + 2 + |b.body| && next <= |s.lines| && s.lines[next..] == more
    ensures ParseFrom(build, known, s, i) ==
      Then([BlockEnum(build, b).value], ParseFrom(build, known + {b.name}, s, next))
  {
    StepAtRendered(build, known, s, i, b, more);
    next := i + 2 + |b.body|;
    ParseFromDefined(build, known, s, i, BlockEnum(build, b).value, next);
  }

  // The parse at rendered blocks followed by any lines: the blocks' enums,
  // then the parse of those lines (from j) with the blocks' names known (k).
  lemma {:induction false} ParseRenderedThen(build: Builder, known: set<string>, s: LineStream, i: nat,
                                             bs: seq<Block>, more: seq<string>, k: set<string>, j: nat)
    requires i <= |s.lines| && s.lines[i..] == Render(bs) + more
    requires Renderable(build, known, bs) && KeepsNames(build)
    requires k == known + Names(Built(build, bs)) && j == i + |Render(bs)|
    ensures j <= |s.lines| && s.lines[j..] == more
    ensures ParseFrom(build, known, s, i) == Then(Built(build, bs), ParseFrom(build, k, s, j))
    decreases |bs|
  {
    if bs == [] {
      BlocksNil(build, known, bs, more);
      ThenNil(ParseFrom(build, known, s, i));
    } else {
      var b, rest := bs[0], bs[1..];
      RenderCons(bs, more);
      BuiltCons(build, bs);
      BuiltConsNames(build, known, bs);
      var next := ParseRenderedStep(build, known, s, i, b, Render(rest) + more);
      ParseRenderedThen(build, known + {b.name}, s, next, rest, more, k, j);
      ConcatAssoc([BlockEnum(build, b).value], Built(build, rest), ParseFrom(build, k, s, j).enums);
    }
  }

  // No blocks: no lines and no enums.
  lemma BlocksNil(build: Builder, known: set<string>, bs: seq<Block>, more: seq<string>)
    requires bs == []
    ensures Render(bs) + more == more && Built(build, bs) == [] && known + Names(Built(build, bs)) == known
  {
    assert Names([]) == {};
  }

  // The first block's lines, then the rest's.
  lemma RenderCons(bs: seq<Block>, more: seq<string>)
    requires bs != []
    ensures Render(bs) + more == ["enum " + bs[0].name] + bs[0].body + ["end"] + (Render(bs[1..]) + more)
    ensures |Render(bs)| == 2 + |bs[0].body| + |Render(bs[1..])|
  {
  }

  // The first block's enum, then the rest's.
  lemma BuiltCons(build: Builder, bs: seq<Block>)
    requires bs != [] && BlockEnum(build, bs[0]).Ok?
    ensures Built(build, bs) == [BlockEnum(build, bs[0]).value] + Built(build, bs[1..])
  {
  }

  // The first block's name, then the rest's.
  lemma BuiltConsNames(build: Builder, known: set<string>, bs: seq<Block>)
    requires bs != [] && BlockEnum(build, bs[0]).Ok? && KeepsNames(build)
    ensures known + Names(Built(build, bs)) == known + {bs[0].name} + Names(Built(build, bs[1..]))
  {
    var e := BlockEnum(build, bs[0]).value;
    BuiltCons(build, bs);
    NamesConcat([e], Built(build, bs[1..]));
    assert Names([e]) == {e.name};
  }

  lemma ThenNil(out: Outcome)
    ensures Then([], out) == out
  {
    assert [] + out.enums == out.enums;
  }

  // A file written out from blocks parses back to the enums their bodies
  // define, in order, with no error.
  lemma ParseRendered(known: set<string>, bs: seq<Block>)
    requires Renderable(BuildSpecenum, known, bs)
    ensures ParseDefs(known, LineStream(Render(bs), None)) == Outcome(Built(BuildSpecenum, bs), None)
  {
    var s := LineStream(Render(bs), None);
    assert s.lines[0..] == Render(bs) + [];
    BuildSpecenumKeepsNames();
    ParseRenderedThen(BuildSpecenum, known, s, 0, bs, [], known + Names(Built(BuildSpecenum, bs)), |s.lines|);
    assert Built(BuildSpecenum, bs) + [] == Built(BuildSpecenum, bs);
  }

  // A line that is not a header stops the parse with the unexpected-line error.
  lemma ParseAtUnexpected(build: Builder, known: set<string>, s: LineStream, i: nat)
    requires i < |s.lines| && EnumHeader(s.lines[i]) == None
    ensures ParseFrom(build, known, s, i) == Outcome([], Some(UnexpectedLine(s.lines[i])))
  {
  }

  // A header naming a known enum stops the parse with the duplicate-name
  // error, before the body is read.
  lemma ParseAtDuplicate(build: Builder, known: set<string>, s: LineStream, i: nat, name: string)
    requires i < |s.lines| && EnumHeader(s.lines[i]) == Some(name) && name in known
    ensures ParseFrom(build, known, s, i) == Outcome([], Some(DuplicateEnum(name)))
  {
  }

  // The outcome of an enum whose body ran to the end of the lines: the enum
  // and the stream's error, or the error building it raised.
  function LastEnum(build: Builder, name: string, body: seq<string>, failure: Option<Error>): Outcome {
    match build(name, body, failure)
    case Ok(e) => Outcome([e], failure)
    case Err(err) => Outcome([], Some(err))
  }

  // A header with no `end` line after it: the body runs to the end of the
  // lines and is built with the stream's error as its tail; nothing follows.
  lemma ParseAtUnterminated(build: Builder, known: set<string>, s: LineStream, i: nat, name: string)
    requires i < |s.lines| && EnumHeader(s.lines[i]) == Some(name) && name !in known
    requires forall l :: i < l < |s.lines| ==> !IsEnumEnd(s.lines[l])
    ensures ParseFrom(build, known, s, i) == LastEnum(build, name, s.lines[i + 1..], s.failure)
  {
    var n := |s.lines|;
    EndIndexAt(s.lines, i + 1, n);
    assert s.lines[i + 1..n] == s.lines[i + 1..];
    assert Tail(s, n) == s.failure && After(s.lines, n) == n;
    var r := StepAt(build, known, s, i);
    if r.Defined? {
      assert r.next == n;
      ThenStop([r.e], s.failure);
    }
  }

  // A line after the blocks that is not a header stops the parse with the
  // unexpected-line error; the blocks' enums stay defined.
  lemma UnexpectedAfterBlocks(build: Builder, known: set<string>, bs: seq<Block>, more: seq<string>, f: Option<Error>)
    requires Renderable(build, known, bs) && KeepsNames(build)
    requires more != [] && EnumHeader(more[0]) == None
    ensures ParseFrom(build, known, LineStream(Render(bs) + more, f), 0) ==
      Outcome(Built(build, bs), Some(UnexpectedLine(more[0])))
  {
    var s := LineStream(Render(bs) + more, f);
    assert s.lines[0..] == Render(bs) + more;
    var j := |s.lines| - |more|;
    ParseRenderedThen(build, known, s, 0, bs, more, known + Names(Built(build, bs)), j);
    assert s.lines[j] == more[0];
    ParseAtUnexpected(build, known + Names(Built(build, bs)), s, j);
    assert Built(build, bs) + [] == Built(build, bs);
  }

  // A header after the blocks that names an enum known before or defined by
  // the blocks stops the parse with the duplicate-name error, before that
  // enum's body is read.
  lemma DuplicateAfterBlocks(build: Builder, known: set<string>, bs: seq<Block>, more: seq<string>, f: Option<Error>,
                             name: string)
    requires Renderable(build, known, bs) && KeepsNames(build)
    requires more != [] && EnumHeader(more[0]) == Some(name) && name in known + Names(Built(build, bs))
    ensures ParseFrom(build, known, LineStream(Render(bs) + more, f), 0) ==
      Outcome(Built(build, bs), Some(DuplicateEnum(name)))
  {
    var s := LineStream(Render(bs) + more, f);
    assert s.lines[0..] == Render(bs) + more;
    var j := |s.lines| - |more|;
    ParseRenderedThen(build, known, s, 0, bs, more, known + Names(Built(build, bs)), j);
    assert s.lines[j] == more[0];
    ParseAtDuplicate(build, known + Names(Built(build, bs)), s, j, name);
    assert Built(build, bs) + [] == Built(build, bs);
  }

  // A header after the blocks with no `end` line after it: the enum's body
  // runs to the end of the lines, and reading past them raises the stream's
  // error. The enum is built with that error as its tail.
  lemma UnterminatedAfterBlocks(build: Builder, known: set<string>, bs: seq<Block>, b: Block, f: Option<Error>)
    requires Renderable(build, known, bs) && KeepsNames(build)
    requires b.name != [] && AllWordChars(b.name) && b.name !in known + Names(Built(build, bs))
    requires forall l :: 0 <= l < |b.body| ==> !IsEnumEnd(b.body[l])
    ensures ParseFrom(build, known, LineStream(Render(bs) + (["enum " + b.name] + b.body), f), 0) ==
      Then(Built(build, bs), LastEnum(build, b.name, b.body, f))
  {
    var more := ["enum " + b.name] + b.body;
    var s := LineStream(Render(bs) + more, f);
    assert s.lines[0..] == Render(bs) + more;
    var i := |s.lines| - |more|;
    ParseRenderedThen(build, known, s, 0, bs, more, known + Names(Built(build, bs)), i);
    assert s.lines[i] == "enum " + b.name && s.lines[i + 1..] == b.body by {
      assert s.lines[i..] == more;
      assert more[1..] == b.body;
    }
    BlockHeader(b.name);
    forall l | i < l < |s.lines|
      ensures !IsEnumEnd(s.lines[l])
    {
      assert s.lines[l] == s.lines[i + 1..][l - i - 1];
    }
    ParseAtUnterminated(build, known + Names(Built(build, bs)), s, i, b.name);
  }

  // The same block twice in one file: its enum, then the duplicate-name error.
  lemma DuplicateInOneFile(b: Block, f: Option<Error>)
    requires BlockOk(BuildSpecenum, {}, b)
    ensures ParseDefs({}, LineStream(Render([b, b]), f)) ==
      Outcome([BuildSpecenum(b.name, b.body, None).value], Some(DuplicateEnum(b.name)))
  {
    var one := ["enum " + b.name] + b.body + ["end"];
    assert [b, b][1..] == [b] && [b][1..] == [];
    assert Render([b]) == one by {
      assert one + [] == one;
    }
    assert Render([b, b]) == Render([b]) + Render([b]);
    assert Renderable(BuildSpecenum, {}, [b]);
    BlockHeader(b.name);
    BuildSpecenumKeepsNames();
    var e := BuildSpecenum(b.name, b.body, None).value;
    assert Built(BuildSpecenum, [b]) == [e] && e.name == b.name;
    assert b.name in Names(Built(BuildSpecenum, [b]));
    DuplicateAfterBlocks(BuildSpecenum, {}, [b], Render([b]), f, b.name);
  }

  // ---------------------------------------------------------------------------
  // The name table

  // The enums defined so far, followed by the outcome of the rest of the parse.
  function Then(added: seq<Specenum>, out: Outcome): Outcome {
    Outcome(added + out.enums, out.error)
  }

  lemma ThenStop(added: seq<Specenum>, err: Option<Error>)
    ensures Then(added, Outcome([], err)) == Outcome(added, err)
  {
    assert added + [] == added;
  }

  lemma ThenStep(added: seq<Specenum>, e: Specenum, more: Outcome)
    ensures Then(added, Outcome([e] + more.enums, more.error)) == Then(added + [e], more)
  {
    ConcatAssoc(added, [e], more.enums);
  }

  lemma NamesSnoc(es: seq<Specenum>, e: Specenum)
    ensures Names(es + [e]) == Names(es) + {e.name}
  {
    assert forall x :: x in es + [e] <==> x in es || x == e;
  }

  // The `takewhile` that hands an enum its body: the lines up to the next `end`.
  method FindEnd(lines: seq<string>, i: nat) returns (j: nat)
    requires i <= |lines|
    ensures j == EndIndex(lines, i)
  {
    j := i;
    while j < |lines| && !IsEnumEnd(lines[j])
      invariant i <= j <= |lines|
      invariant forall k :: i <= k < j ==> !IsEnumEnd(lines[k])
    {
      j := j + 1;
    }
    EndIndexAt(lines, i, j);
  }

  // enums_by_name as a function of the enums, in order of definition.
  function Index(es: seq<Specenum>): map<string, Specenum>
    decreases |es|
  {
    if es == [] then map[] else Index(es[..|es| - 1])[es[|es| - 1].name := es[|es| - 1]]
  }

  lemma {:induction false} IndexKeys(es: seq<Specenum>)
    ensures Index(es).Keys == Names(es)
    decreases |es|
  {
    if es != [] {
      var front := es[..|es| - 1];
      IndexKeys(front);
      assert es == front + [es[|es| - 1]];
      assert Names(es) == Names(front) + {es[|es| - 1].name};
    }
  }

  class EnumsDefinition {
    // All defined enums, in order of definition.
    var enums: seq<Specenum>
    // The enums by name.
    var enumsByName: map<string, Specenum>

    ghost predicate Valid()
      reads this
    {
      enumsByName == Index(enums) && DistinctNames(enums)
    }

    constructor()
      ensures enums == [] && enumsByName == map[] && Valid()
    {
      enums := [];
      enumsByName := map[];
    }

    // Records one more enum, whose name is new.
    method Add(e: Specenum)
      requires Valid() && e.name !in enumsByName
      modifies this
      ensures enums == old(enums) + [e] && enumsByName == old(enumsByName)[e.name := e]
      ensures Valid()
    {
      IndexKeys(enums);
      assert e.name !in Names(enums);
      forall i, j | 0 <= i < j < |enums| + 1
        ensures (enums + [e])[i].name != (enums + [e])[j].name
      {
        if j == |enums| {
          assert enums[i] in enums;
        }
      }
      enums := enums + [e];
      enumsByName := enumsByName[e.name := e];
      assert enums[..|enums| - 1] == old(enums);
    }

    // One turn of parse_clean_lines' loop: the header at line i, and the
    // enum whose body follows it.
    method ReadEnum(s: LineStream, i: nat) returns (r: Next)
      requires i < |s.lines|
      ensures r == StepAt(BuildSpecenum, enumsByName.Keys, s, i)
    {
      var line := s.lines[i];
      var header := EnumHeader(line);
      if header.None? {
        return Stop(UnexpectedLine(line));
      }
      var name := header.value;
      if name in enumsByName {
        return Stop(DuplicateEnum(name));
      }
      var j := FindEnd(s.lines, i + 1);
      var b := NewSpecenum(name, s.lines[i + 1..j], Tail(s, j));
      if b.Err? {
        return Stop(b.error);
      }
      r := Defined(b.value, if j < |s.lines| then j + 1 else j);
    }

    // parse_clean_lines: the enums defined are appended; those defined before
    // an error stay.
    method ParseCleanLines(s: LineStream) returns (err: Option<Error>)
      requires Valid()
      modifies this
      ensures Valid()
      ensures var out := ParseDefs(old(enumsByName).Keys, s);
        enums == old(enums) + out.enums && err == out.error
    {
      ghost var added: seq<Specenum> := [];
      BuildSpecenumKeepsNames();
      var i := 0;
      while i < |s.lines|
        invariant i <= |s.lines| && Valid()
        invariant enums == old(enums) + added
        invariant enumsByName.Keys == old(enumsByName).Keys + Names(added)
        invariant ParseDefs(old(enumsByName).Keys, s) == Then(added, ParseFrom(BuildSpecenum, enumsByName.Keys, s, i))
        decreases |s.lines| - i
      {
        var r := ReadEnum(s, i);
        if r.Stop? {
          ThenStop(added, Some(r.error));
          return Some(r.error);
        }
        ghost var keys := enumsByName.Keys;
        ghost var more := ParseFrom(BuildSpecenum, keys + {r.e.name}, s, r.next);
        ThenThen(added, [r.e], more);
        NamesSnoc(added, r.e);
        ConcatAssoc(old(enums), added, [r.e]);
        Add(r.e);
        assert enumsByName.Keys == keys + {r.e.name};
        added := added + [r.e];
        i := r.next;
        assert ParseFrom(BuildSpecenum, enumsByName.Keys, s, i) == more;
      }
      ThenStop(added, s.failure);
      err := s.failure;
    }

    // parse_lines: the comment stripper's lines, parsed.
    method ParseLines(lines: seq<string>) returns (err: Option<Error>)
      requires Valid()
      modifies this
      ensures Valid()
      ensures var out := ParseDefs(old(enumsByName).Keys, CleanLinesSpec(lines));
        enums == old(enums) + out.enums && err == out.error
    {
      var s := CleanLines(lines);
      err := ParseCleanLines(s);
    }
  }

  // ---------------------------------------------------------------------------
  // Several input files into one table

  // The files in order, the names of every earlier file known to the later
  // ones; the first error stops the run.
  function ParseAll(known: set<string>, files: seq<seq<string>>): Outcome
    decreases |files|
  {
    if files == [] then Outcome([], None)
    else
      var first := ParseDefs(known, CleanLinesSpec(files[0]));
      if first.error.Some? then first
      else
        var more := ParseAll(known + Names(first.enums), files[1..]);
        Outcome(first.enums + more.enums, more.error)
  }

  // The names of all enums from all files are distinct.
  lemma {:induction false} ParseAllNames(known: set<string>, files: seq<seq<string>>)
    ensures var out := ParseAll(known, files);
      DistinctNames(out.enums) && Names(out.enums) !! known
    decreases |files|
  {
    if files != [] {
      var first := ParseDefs(known, CleanLinesSpec(files[0]));
      BuildSpecenumKeepsNames();
      ParseFromNames(BuildSpecenum, known, CleanLinesSpec(files[0]), 0);
      if first.error.None? {
        var more := ParseAll(known + Names(first.enums), files[1..]);
        ParseAllNames(known + Names(first.enums), files[1..]);
        DistinctConcat(first.enums, more.enums);
      }
    }
  }

  // An enum defined in one file cannot be defined again in a later one: the
  // later file's header of that name, after any valid blocks of other
  // names, stops the run with the duplicate-name error. The enums of the
  // first file and of those blocks stay defined.
  lemma RedefinedInLaterFile(a: seq<string>, b: seq<string>, bs: seq<Block>, more: seq<string>, name: string)
    requires ParseDefs({}, CleanLinesSpec(a)).error.None?
    requires name in Names(ParseDefs({}, CleanLinesSpec(a)).enums)
    requires Renderable(BuildSpecenum, Names(ParseDefs({}, CleanLinesSpec(a)).enums), bs)
    requires CleanLinesSpec(b).lines == Render(bs) + more && more != [] && EnumHeader(more[0]) == Some(name)
    ensures ParseAll({}, [a, b]) ==
      Outcome(ParseDefs({}, CleanLinesSpec(a)).enums + Built(BuildSpecenum, bs), Some(DuplicateEnum(name)))
  {
    var first := ParseDefs({}, CleanLinesSpec(a));
    var known := Names(first.enums);
    var sb := CleanLinesSpec(b);
    assert sb == LineStream(Render(bs) + more, sb.failure);
    BuildSpecenumKeepsNames();
    DuplicateAfterBlocks(BuildSpecenum, known, bs, more, sb.failure, name);
    assert [a, b][1..] == [b] && [b][1..] == [] && {} + known == known;
    assert ParseAll(known, [b]) == Outcome(Built(BuildSpecenum, bs), Some(DuplicateEnum(name)));
  }

  // The files from n on: the n-th, then (if it raised nothing) the rest.
  lemma ParseAllFrom(known: set<string>, files: seq<seq<string>>, n: nat)
    requires n < |files|
    ensures var first := ParseDefs(known, CleanLinesSpec(files[n]));
      ParseAll(known, files[n..]) ==
        if first.error.Some? then first else Then(first.enums, ParseAll(known + Names(first.enums), files[n + 1..]))
  {
    assert files[n..][0] == files[n] && files[n..][1..] == files[n + 1..];
  }

  lemma NamesConcat(a: seq<Specenum>, b: seq<Specenum>)
    ensures Names(a + b) == Names(a) + Names(b)
  {
    assert forall x :: x in a + b <==> x in a || x in b;
  }

  lemma ThenThen(a: seq<Specenum>, b: seq<Specenum>, out: Outcome)
    ensures Then(a, Then(b, out)) == Then(a + b, out)
  {
    ConcatAssoc(a, b, out.enums);
  }

  // main: every input file parsed into one table, stopping at the first error.
  method ParseInputs(files: seq<seq<string>>) returns (defs: EnumsDefinition, err: Option<Error>)
    ensures fresh(defs) && defs.Valid()
    ensures Outcome(defs.enums, err) == ParseAll({}, files)
  {
    defs := new EnumsDefinition();
    err := None;
    var n := 0;
    assert Names([]) == {} && files[0..] == files;
    assert Then([], ParseAll({}, files)) == ParseAll({}, files);
    while n < |files|
      invariant n <= |files| && defs.Valid() && err.None?
      invariant defs.enumsByName.Keys == Names(defs.enums)
      invariant ParseAll({}, files) == Then(defs.enums, ParseAll(Names(defs.enums), files[n..]))
      decreases |files| - n
    {
      ghost var before := defs.enums;
      ghost var first := ParseDefs(Names(before), CleanLinesSpec(files[n]));
      ParseAllFrom(Names(before), files, n);
      err := defs.ParseLines(files[n]);
      IndexKeys(defs.enums);
      assert defs.enums == before + first.enums && err == first.error;
      if err.Some? {
        assert ParseAll(Names(before), files[n..]) == first;
        return;
      }
      NamesConcat(before, first.enums);
      ThenThen(before, first.enums, ParseAll(Names(before) + Names(first.enums), files[n + 1..]));
      n := n + 1;
    }
    assert files[n..] == [];
    ThenStop(defs.enums, None);
  }
}
