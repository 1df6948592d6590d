// The comment stripper of the specenum definition compiler
// (`EnumsDefinition._clean_lines` with COMMENT_START_PATTERN and
// COMMENT_END_PATTERN). Raw physical lines go in, logical lines come out:
// `#` and `//` comments run to the end of the line, `/* ... */` comments may
// span lines, and the text around a comment that spans lines is joined with
// one space.
//
// Raw lines are taken without their line terminator: no group of either
// pattern can capture a newline at the end of a line (`.` does not match it;
// `\s*`, `[^*]*` or the optional final `\n` consume it).
module Comments {
  import opened Wrappers
  import opened Text
  import opened Errors

  // What the stripper hands to the parser: the logical lines, then the error it
  // raises when asked for a line past the last one (None: it simply ends).
  // The source is a generator, so that error surfaces only at that point.
  datatype LineStream = LineStream(lines: seq<string>, failure: Option<Error>)

  // ---------------------------------------------------------------------------
  // The two patterns as scanners

  // `#` or `//` starts at position j.
  predicate LineCommentAt(s: string, j: nat)
    requires j < |s|
  {
    s[j] == '#' || (s[j] == '/' && j + 1 < |s| && s[j + 1] == '/')
  }

  // `/*` starts at position j.
  predicate BlockOpenAt(s: string, j: nat)
    requires j < |s|
  {
    s[j] == '/' && j + 1 < |s| && s[j + 1] == '*'
  }

  predicate CommentStartAt(s: string, j: nat)
    requires j < |s|
  {
    LineCommentAt(s, j) || BlockOpenAt(s, j)
  }

  // `*/` starts at position j.
  predicate BlockCloseAt(s: string, j: nat)
    requires j < |s|
  {
    s[j] == '*' && j + 1 < |s| && s[j + 1] == '/'
  }

  // No comment marker starts anywhere in s.
  predicate NoComment(s: string) {
    forall j :: 0 <= j < |s| ==> !CommentStartAt(s, j)
  }

  // A fragment of content: non-empty, stripped, and free of comment markers.
  predicate Fragment(s: string) {
    s != [] && Trimmed(s) && NoComment(s)
  }

  predicate AllFragments(ps: seq<string>) {
    forall k :: 0 <= k < |ps| ==> Fragment(ps[k])
  }

  // The leftmost position at or after i where `#`, `//` or `/*` starts; |s| if
  // none (CommentStartFromLeftmost below).
  function CommentStartFrom(s: string, i: nat): (m: nat)
    requires i <= |s|
    ensures i <= m <= |s|
    ensures m < |s| ==> CommentStartAt(s, m)
    decreases |s| - i
  {
    if i == |s| || CommentStartAt(s, i) then i else CommentStartFrom(s, i + 1)
  }

  // The leftmost position at or after i where `*/` starts; |s| if none.
  function BlockCloseFrom(s: string, i: nat): (m: nat)
    requires i <= |s|
    ensures i <= m <= |s|
    ensures m < |s| ==> BlockCloseAt(s, m)
    decreases |s| - i
  {
    if i == |s| || BlockCloseAt(s, i) then i else BlockCloseFrom(s, i + 1)
  }

  // The first `*` at or after i (the end of `[^*]*`); |s| if none.
  function StarFrom(s: string, i: nat): (m: nat)
    requires i <= |s|
    ensures i <= m <= |s|
    decreases |s| - i
  {
    if i == |s| || s[i] == '*' then i else StarFrom(s, i + 1)
  }

  // CommentStartFrom finds a marker, and no marker lies before it.
  lemma {:induction false} CommentStartFromLeftmost(s: string, i: nat)
    requires i <= |s|
    ensures forall j :: i <= j < CommentStartFrom(s, i) ==> !CommentStartAt(s, j)
    decreases |s| - i
  {
    if i < |s| && !CommentStartAt(s, i) {
      CommentStartFromLeftmost(s, i + 1);
    }
  }

  // ---------------------------------------------------------------------------
  // The two-state scanner

  // The outcome of one turn of the inner loop: the new state, the content found, what is left.
  datatype Pass = Pass(inside: bool, part: string, rest: string)

  // One turn of the inner `while line:` loop. Inside a block comment, the text
  // after the first `*/`, left-stripped, is what is left (nothing, and still
  // inside, if there is no `*/`). Outside, the content before the leftmost
  // comment marker is the part, stripped; after `/*` scanning resumes at the
  // next `*`, so `/*/` does not close the comment and `/**/` does.
  function ScanPass(inside: bool, line: string): (p: Pass)
    requires line != []
    ensures |p.rest| < |line|
  {
    if inside then
      var c := BlockCloseFrom(line, 0);
      if c == |line| then Pass(true, [], [])
      else Pass(false, [], LStrip(line[c + 2..]))
    else
      var m := CommentStartFrom(line, 0);
      var part := Trim(line[..m]);
      if m < |line| && BlockOpenAt(line, m) then Pass(true, part, line[StarFrom(line, m + 2)..])
      else Pass(false, part, [])
  }

  // The content a pass finds is stripped and free of comment markers; inside a
  // comment it finds none, and a pass that leaves the state as it was ends the line.
  lemma ScanPassPart(inside: bool, line: string)
    requires line != []
    ensures var p := ScanPass(inside, line);
      Trimmed(p.part) && NoComment(p.part) && (inside ==> p.part == []) &&
      (p.inside == inside ==> p.rest == [])
  {
    if !inside {
      var m := CommentStartFrom(line, 0);
      CommentStartFromLeftmost(line, 0);
      TrimTrimmed(line[..m]);
      NoCommentPrefix(line, m);
      NoCommentTrim(line[..m]);
    }
  }

  // The state after a whole physical line and the parts it contributed, in order.
  datatype Scan = Scan(inside: bool, parts: seq<string>)

  // The inner `while line:` loop over one physical line, starting in state `inside`.
  function ScanLine(inside: bool, line: string): Scan
    decreases |line|
  {
    if line == [] then Scan(inside, [])
    else
      var p := ScanPass(inside, line);
      var rest := ScanLine(p.inside, p.rest);
      Scan(rest.inside, (if p.part == [] then [] else [p.part]) + rest.parts)
  }

  // The outer loop from a given state and pending parts: a physical line that
  // ends outside a block comment with parts pending emits them joined by one
  // space; the end of input inside a block comment is an error.
  function CleanFrom(inside: bool, parts: seq<string>, lines: seq<string>): LineStream
    decreases |lines|
  {
    if lines == [] then LineStream([], if inside then Some(EofInBlockComment) else None)
    else
      var sc := ScanLine(inside, lines[0]);
      var acc := parts + sc.parts;
      if !sc.inside && acc != [] then
        var rest := CleanFrom(false, [], lines[1..]);
        LineStream([Join(acc, " ")] + rest.lines, rest.failure)
      else CleanFrom(sc.inside, acc, lines[1..])
  }

  // `_clean_lines` as a function of its input.
  function CleanLinesSpec(lines: seq<string>): LineStream {
    CleanFrom(false, [], lines)
  }

  function Emitted(out: seq<string>, s: LineStream): LineStream {
    LineStream(out + s.lines, s.failure)
  }

  // `_clean_lines`: the state flag and the parts list are updated pass by pass.
  method CleanLines(lines: seq<string>) returns (r: LineStream)
    ensures r == CleanLinesSpec(lines)
  {
    var inside := false;
    var parts: seq<string> := [];
    var out: seq<string> := [];
    for i := 0 to |lines|
      invariant CleanLinesSpec(lines) == Emitted(out, CleanFrom(inside, parts, lines[i..]))
    {
      ghost var parts0, out0 := parts, out;
      ghost var target := ScanLine(inside, lines[i]);
      CleanFromStep(inside, parts, lines, i);
      inside, parts := ScanPhysicalLine(inside, parts, lines[i]);
      if !inside && parts != [] {
        ghost var rest := CleanFrom(false, [], lines[i + 1..]);
        out := out + [Join(parts, " ")];
        parts := [];
        ConcatAssoc(out0, [Join(parts0 + target.parts, " ")], rest.lines);
      }
    }
    r := LineStream(out, if inside then Some(EofInBlockComment) else None);
  }

  // The inner `while line:` loop of `_clean_lines` over one physical line: the
  // state flag and the pending parts after it.
  method ScanPhysicalLine(inside0: bool, parts0: seq<string>, line0: string)
    returns (inside: bool, parts: seq<string>)
    ensures inside == ScanLine(inside0, line0).inside
    ensures parts == parts0 + ScanLine(inside0, line0).parts
  {
    ghost var target := ScanLine(inside0, line0);
    inside, parts := inside0, parts0;
    var line := line0;
    while line != []
      invariant ScanLine(inside, line).inside == target.inside
      invariant parts + ScanLine(inside, line).parts == parts0 + target.parts
      decreases |line|
    {
      var p := ScanPass(inside, line);
      ScanLineStep(inside, line);
      ghost var own := if p.part == [] then [] else [p.part];
      ConcatAssoc(parts, own, ScanLine(p.inside, p.rest).parts);
      assert p.part == [] ==> parts + own == parts;
      line, inside := p.rest, p.inside;
      if p.part != [] {
        parts := parts + [p.part];
      }
    }
    assert ScanLine(inside, line).parts == [];
    assert parts + [] == parts;
  }

  // One turn of the outer loop of CleanFrom, unfolded at line i.
  lemma CleanFromStep(inside: bool, parts: seq<string>, lines: seq<string>, i: nat)
    requires i < |lines|
    ensures var sc := ScanLine(inside, lines[i]);
      var acc := parts + sc.parts;
      CleanFrom(inside, parts, lines[i..]) ==
        if !sc.inside && acc != [] then
          var rest := CleanFrom(false, [], lines[i + 1..]);
          LineStream([Join(acc, " ")] + rest.lines, rest.failure)
        else CleanFrom(sc.inside, acc, lines[i + 1..])
  {
    assert lines[i..][0] == lines[i] && lines[i..][1..] == lines[i + 1..];
  }

  // One turn of the inner loop of ScanLine, unfolded.
  lemma ScanLineStep(inside: bool, line: string)
    requires line != []
    ensures var p := ScanPass(inside, line);
      var tail := ScanLine(p.inside, p.rest);
      ScanLine(inside, line) == Scan(tail.inside, (if p.part == [] then [] else [p.part]) + tail.parts)
  {
  }

  // ---------------------------------------------------------------------------
  // Helpers about comment markers in slices and joins

  lemma FragmentsConcat(ps: seq<string>, qs: seq<string>)
    requires AllFragments(ps) && AllFragments(qs)
    ensures AllFragments(ps + qs)
  {
    forall k | 0 <= k < |ps + qs|
      ensures Fragment((ps + qs)[k])
    {
      if k < |ps| {
        assert (ps + qs)[k] == ps[k];
      } else {
        assert (ps + qs)[k] == qs[k - |ps|];
      }
    }
  }

  lemma NoCommentPrefix(s: string, m: nat)
    requires m <= |s|
    requires forall j :: 0 <= j < m ==> !CommentStartAt(s, j)
    ensures NoComment(s[..m])
  {
    forall j | 0 <= j < m
      ensures !CommentStartAt(s[..m], j)
    {
      assert !CommentStartAt(s, j);
    }
  }

  lemma NoCommentSlice(s: string, a: nat, b: nat)
    requires a <= b <= |s| && NoComment(s)
    ensures NoComment(s[a..b])
  {
    forall j | 0 <= j < b - a
      ensures !CommentStartAt(s[a..b], j)
    {
      assert !CommentStartAt(s, a + j);
    }
  }

  lemma NoCommentTrim(s: string)
    requires NoComment(s)
    ensures NoComment(Trim(s))
  {
    var l := LStrip(s);
    LStripSuffix(s);
    RStripPrefix(l);
    NoCommentSlice(s, |s| - |l|, |s|);
    assert s[|s| - |l|..|s|] == l;
    NoCommentSlice(l, 0, |RStrip(l)|);
    assert l[0..|RStrip(l)|] == RStrip(l);
  }

  // Joining marker-free fragments with a space cannot create a marker.
  lemma NoCommentJoined(a: string, b: string)
    requires Fragment(a) && NoComment(b)
    ensures NoComment(a + " " + b)
  {
    var s := a + " " + b;
    forall j | 0 <= j < |s|
      ensures !CommentStartAt(s, j)
    {
      if j < |a| - 1 {
        assert !CommentStartAt(a, j);
      } else if j == |a| - 1 {
        assert !CommentStartAt(a, j);
        assert s[j + 1] == ' ';
      } else if j > |a| {
        assert s[j] == b[j - |a| - 1];
        assert j + 1 < |s| ==> s[j + 1] == b[j - |a|];
        assert !CommentStartAt(b, j - |a| - 1);
      }
    }
  }

  lemma {:induction false} JoinFragments(ps: seq<string>)
    requires ps != [] && AllFragments(ps)
    ensures Fragment(Join(ps, " "))
  {
    if |ps| > 1 {
      JoinFragments(ps[1..]);
      var b := Join(ps[1..], " ");
      NoCommentJoined(ps[0], b);
      assert Join(ps, " ") == ps[0] + " " + b;
    }
  }

  // ---------------------------------------------------------------------------
  // Properties of the stripper

  // Every part a physical line contributes is a fragment.
  lemma {:induction false} ScanLineFragments(inside: bool, line: string)
    ensures AllFragments(ScanLine(inside, line).parts)
    decreases |line|
  {
    if line != [] {
      var p := ScanPass(inside, line);
      var tail := ScanLine(p.inside, p.rest);
      var own := if p.part == [] then [] else [p.part];
      assert AllFragments(own) by {
        ScanPassPart(inside, line);
      }
      assert AllFragments(tail.parts) by {
        ScanLineFragments(p.inside, p.rest);
      }
      FragmentsConcat(own, tail.parts);
      ScanLineStep(inside, line);
    }
  }

  // Every logical line is non-empty, stripped and free of comment markers, and
  // the only error is the unterminated block comment.
  lemma {:induction false} CleanFromFragments(inside: bool, parts: seq<string>, lines: seq<string>)
    requires AllFragments(parts)
    ensures AllFragments(CleanFrom(inside, parts, lines).lines)
    ensures CleanFrom(inside, parts, lines).failure in {None, Some(EofInBlockComment)}
    decreases |lines|
  {
    if lines != [] {
      var sc := ScanLine(inside, lines[0]);
      var acc := parts + sc.parts;
      ScanLineFragments(inside, lines[0]);
      FragmentsConcat(parts, sc.parts);
      if !sc.inside && acc != [] {
        JoinFragments(acc);
        CleanFromFragments(false, [], lines[1..]);
      } else {
        CleanFromFragments(sc.inside, acc, lines[1..]);
      }
    }
  }

  lemma CleanLinesFragments(lines: seq<string>)
    ensures AllFragments(CleanLinesSpec(lines).lines)
    ensures CleanLinesSpec(lines).failure in {None, Some(EofInBlockComment)}
  {
    CleanFromFragments(false, [], lines);
  }

  // The scanner state after the given lines, starting in `inside`.
  function StateAfter(inside: bool, lines: seq<string>): bool
    decreases |lines|
  {
    if lines == [] then inside else StateAfter(ScanLine(inside, lines[0]).inside, lines[1..])
  }

  // The stripper fails exactly when the input ends inside a block comment.
  lemma {:induction false} CleanFailsIffUnclosed(inside: bool, parts: seq<string>, lines: seq<string>)
    ensures CleanFrom(inside, parts, lines).failure ==
      (if StateAfter(inside, lines) then Some(EofInBlockComment) else None)
    decreases |lines|
  {
    if lines != [] {
      var sc := ScanLine(inside, lines[0]);
      var acc := parts + sc.parts;
      if !sc.inside && acc != [] {
        CleanFailsIffUnclosed(false, [], lines[1..]);
      } else {
        CleanFailsIffUnclosed(sc.inside, acc, lines[1..]);
      }
    }
  }

  // A fragment scans, outside a comment, to itself.
  lemma ScanFragment(x: string)
    requires Fragment(x)
    ensures ScanLine(false, x) == Scan(false, [x])
  {
    CommentStartLeftmost(x, 0, |x|);
    assert x[..|x|] == x;
    TrimOfTrimmed(x);
    assert ScanPass(false, x) == Pass(false, x, []);
    ScanLineStep(false, x);
    assert [x] + [] == [x];
  }

  lemma {:induction false} CleanOfFragmentsFrom(ls: seq<string>, i: nat)
    requires i <= |ls| && AllFragments(ls)
    ensures CleanFrom(false, [], ls[i..]) == LineStream(ls[i..], None)
    decreases |ls| - i
  {
    if i < |ls| {
      var x := ls[i];
      assert ScanLine(false, x) == Scan(false, [x]) by {
        assert Fragment(x);
        ScanFragment(x);
      }
      CleanOfFragmentsFrom(ls, i + 1);
      CleanFromStep(false, [], ls, i);
      assert [] + [x] == [x] && [x] + ls[i + 1..] == ls[i..];
    }
  }

  lemma CleanOfFragments(ls: seq<string>)
    requires AllFragments(ls)
    ensures CleanLinesSpec(ls) == LineStream(ls, None)
  {
    CleanOfFragmentsFrom(ls, 0);
    assert ls[0..] == ls;
  }

  // Stripping the stripper's output again changes nothing and cannot fail.
  lemma CleanIdempotent(raw: seq<string>)
    ensures CleanLinesSpec(CleanLinesSpec(raw).lines) == LineStream(CleanLinesSpec(raw).lines, None)
  {
    CleanLinesFragments(raw);
    CleanOfFragments(CleanLinesSpec(raw).lines);
  }

  // The scanners find the leftmost match (by the induction in their definitions).
  lemma {:induction false} CommentStartLeftmost(s: string, i: nat, k: nat)
    requires i <= k <= |s|
    requires k < |s| ==> CommentStartAt(s, k)
    requires forall j :: i <= j < k ==> !CommentStartAt(s, j)
    ensures CommentStartFrom(s, i) == k
    decreases k - i
  {
    if i < k {
      CommentStartLeftmost(s, i + 1, k);
    }
  }

  lemma {:induction false} BlockCloseLeftmost(s: string, i: nat, k: nat)
    requires i <= k <= |s|
    requires k < |s| ==> BlockCloseAt(s, k)
    requires forall j :: i <= j < k ==> !BlockCloseAt(s, j)
    ensures BlockCloseFrom(s, i) == k
    decreases k - i
  {
    if i < k {
      BlockCloseLeftmost(s, i + 1, k);
    }
  }

  lemma {:induction false} StarLeftmost(s: string, i: nat, k: nat)
    requires i <= k <= |s|
    requires k < |s| ==> s[k] == '*'
    requires forall j :: i <= j < k ==> s[j] != '*'
    ensures StarFrom(s, i) == k
    decreases k - i
  {
    if i < k {
      StarLeftmost(s, i + 1, k);
    }
  }

  // In `a /* c` the leftmost marker is the `/*` after `a`.
  lemma OpeningMarker(a: string, c: string)
    requires Fragment(a)
    ensures CommentStartFrom(a + " /* " + c, 0) == |a| + 1
  {
    var line := a + " /* " + c;
    forall j | 0 <= j < |a| + 1
      ensures !CommentStartAt(line, j)
    {
      if j < |a| - 1 {
        assert !CommentStartAt(a, j);
      } else if j == |a| - 1 {
        assert !CommentStartAt(a, j);
        assert line[j + 1] == ' ';
      } else {
        assert line[j] == ' ';
      }
    }
    assert BlockOpenAt(line, |a| + 1);
    CommentStartLeftmost(line, 0, |a| + 1);
  }

  // Where the scanners stop in `a /* c` when c holds no `*`.
  lemma OpeningFacts(a: string, c: string)
    requires Fragment(a)
    requires forall k :: 0 <= k < |c| ==> c[k] != '*'
    ensures var line := a + " /* " + c;
      CommentStartFrom(line, 0) == |a| + 1 && BlockOpenAt(line, |a| + 1) &&
      BlockCloseFrom(line, |a| + 3) == |line| && Trim(line[..|a| + 1]) == a
  {
    var line := a + " /* " + c;
    OpeningMarker(a, c);
    forall j | |a| + 3 <= j < |line|
      ensures !BlockCloseAt(line, j)
    {
      if j > |a| + 3 {
        assert line[j] == c[j - |a| - 4];
      }
    }
    BlockCloseLeftmost(line, |a| + 3, |line|);
    assert line[..|a| + 1] == a + " ";
    TrimPadded([], a, " ");
    assert [] + a + " " == a + " ";
  }

  // `a /* c` (no `*` in c) opens a block comment that the line does not close.
  lemma OpeningLine(a: string, c: string)
    requires Fragment(a)
    requires forall k :: 0 <= k < |c| ==> c[k] != '*'
    ensures ScanLine(false, a + " /* " + c) == Scan(true, [a])
  {
    OpeningFacts(a, c);
    BlockCommentStaysOpen(a + " /* " + c);
  }

  // The pass over `d*/ b` (no `*/` in d) inside a comment leaves `b`.
  lemma ClosingPass(d: string, b: string)
    requires b == [] || !IsSpace(b[0])
    requires forall j :: 0 <= j < |d| ==> !BlockCloseAt(d, j)
    ensures ScanPass(true, d + "*/ " + b) == Pass(false, [], b)
  {
    var line := d + "*/ " + b;
    forall j | 0 <= j < |d|
      ensures !BlockCloseAt(line, j)
    {
      if j < |d| - 1 {
        assert !BlockCloseAt(d, j);
      }
    }
    BlockCloseLeftmost(line, 0, |d|);
    assert line[|d| + 2..] == " " + b;
    LStripPadded(" ", b);
  }

  // `d*/ b` (no `*/` in d) closes the comment and scans on with `b`.
  lemma ClosingLine(d: string, b: string)
    requires Fragment(b)
    requires forall j :: 0 <= j < |d| ==> !BlockCloseAt(d, j)
    ensures ScanLine(true, d + "*/ " + b) == Scan(false, [b])
  {
    ClosingPass(d, b);
    ScanLineStep(true, d + "*/ " + b);
    ScanFragment(b);
    assert [] + [b] == [b];
  }

  // Two physical lines: the first leaves the comment open after content x,
  // the second closes it before content y.
  lemma CleanTwoLines(line1: string, line2: string, x: string, y: string)
    requires ScanLine(false, line1) == Scan(true, [x])
    requires ScanLine(true, line2) == Scan(false, [y])
    ensures CleanLinesSpec([line1, line2]) == LineStream([x + " " + y], None)
  {
    var lines := [line1, line2];
    assert lines[0] == line1 && lines[1] == line2 && lines[0..] == lines && lines[2..] == [];
    assert [] + [x] == [x] && [x] + [y] == [x, y];
    CleanFromStep(false, [], lines, 0);
    CleanFromStep(true, [x], lines, 1);
    assert Join([x, y], " ") == x + " " + y by {
      assert [x, y][1..] == [y];
    }
    assert CleanFrom(false, [], []) == LineStream([], None);
  }

  // A block comment spanning two physical lines joins the text before it and
  // the text after it into one logical line, with one space between
  // (`foo /* bar` then `baz */ qux` gives `foo qux`).
  lemma BlockCommentJoins(a: string, c: string, d: string, b: string)
    requires Fragment(a) && Fragment(b)
    requires forall k :: 0 <= k < |c| ==> c[k] != '*'
    requires forall j :: 0 <= j < |d| ==> !BlockCloseAt(d, j)
    ensures CleanLinesSpec([a + " /* " + c, d + "*/ " + b]) == LineStream([a + " " + b], None)
  {
    OpeningLine(a, c);
    ClosingLine(d, b);
    CleanTwoLines(a + " /* " + c, d + "*/ " + b, a, b);
  }

  // A physical line that starts inside a block comment and holds no `*/` is
  // hidden whole, and the comment stays open.
  lemma InsideCommentHidden(line: string)
    requires BlockCloseFrom(line, 0) == |line|
    ensures ScanLine(true, line) == Scan(true, [])
  {
    if line != [] {
      ScanLineStep(true, line);
    }
  }

  // A physical line that starts inside a block comment and holds a `*/`:
  // everything up to the first `*/` is hidden, and the line is scanned on,
  // outside, from the left-stripped rest (whatever markers that holds).
  lemma InsideCommentCloses(line: string, k: nat)
    requires k == BlockCloseFrom(line, 0) && k < |line|
    ensures ScanLine(true, line) == ScanLine(false, LStrip(line[k + 2..]))
  {
    assert ScanPass(true, line) == Pass(false, [], LStrip(line[k + 2..]));
    LeavingPass(line, LStrip(line[k + 2..]));
  }

  // A pass that leaves the comment without content: the line's scan is the
  // scan of what the pass left, from outside.
  lemma LeavingPass(line: string, rest: string)
    requires line != [] && ScanPass(true, line) == Pass(false, [], rest)
    ensures ScanLine(true, line) == ScanLine(false, rest)
  {
    ScanLineStep(true, line);
    assert [] + ScanLine(false, rest).parts == ScanLine(false, rest).parts;
  }

  // Physical lines inside an open block comment with no `*/` yield nothing:
  // the parts pending before them are still pending after them.
  lemma {:induction false} CommentOnlyLines(parts: seq<string>, mids: seq<string>, rest: seq<string>)
    requires forall l :: 0 <= l < |mids| ==> BlockCloseFrom(mids[l], 0) == |mids[l]|
    ensures CleanFrom(true, parts, mids + rest) == CleanFrom(true, parts, rest)
    decreases |mids|
  {
    if mids != [] {
      var lines := mids + rest;
      InsideCommentHidden(mids[0]);
      assert lines[0] == mids[0] && lines[1..] == mids[1..] + rest;
      assert parts + [] == parts;
      CommentOnlyLines(parts, mids[1..], rest);
    } else {
      assert mids + rest == rest;
    }
  }

  // A block comment spanning any number of physical lines joins the text
  // before it and the text after it into one logical line; the lines wholly
  // inside the comment add nothing.
  lemma BlockCommentSpans(a: string, c: string, mids: seq<string>, d: string, b: string)
    requires Fragment(a) && Fragment(b)
    requires forall k :: 0 <= k < |c| ==> c[k] != '*'
    requires forall l :: 0 <= l < |mids| ==> BlockCloseFrom(mids[l], 0) == |mids[l]|
    requires forall j :: 0 <= j < |d| ==> !BlockCloseAt(d, j)
    ensures CleanLinesSpec([a + " /* " + c] + mids + [d + "*/ " + b]) == LineStream([a + " " + b], None)
  {
    var close := d + "*/ " + b;
    var lines := [a + " /* " + c] + mids + [close];
    OpeningLine(a, c);
    ClosingLine(d, b);
    assert lines[0..] == lines && lines[0] == a + " /* " + c && lines[1..] == mids + [close];
    CleanFromStep(false, [], lines, 0);
    assert [] + [a] == [a];
    CommentOnlyLines([a], mids, [close]);
    CleanTwoLines(a + " /* " + c, close, a, b);
    CleanFromStep(false, [], [a + " /* " + c, close], 0);
    assert [a + " /* " + c, close][1..] == [close];
  }

  // What a pass keeps of the content it found.
  function Kept(part: string): seq<string> {
    if part == [] then [] else [part]
  }

  // Outside a comment, a line without any marker is kept whole, stripped.
  lemma NoMarkerKeepsLine(line: string)
    requires line != [] && CommentStartFrom(line, 0) == |line|
    ensures ScanLine(false, line) == Scan(false, Kept(Trim(line)))
  {
    assert line[..|line|] == line;
    ScanLineStep(false, line);
    assert Kept(Trim(line)) + [] == Kept(Trim(line));
  }

  // Leftmost marker wins, line-comment case: when the leftmost marker is `#`
  // or `//`, the text before it is kept, stripped, and the rest of the line
  // (whatever it holds, a `/*` included) is discarded.
  lemma LineCommentWins(line: string)
    requires line != []
    requires CommentStartFrom(line, 0) < |line| && !BlockOpenAt(line, CommentStartFrom(line, 0))
    ensures ScanLine(false, line) == Scan(false, Kept(Trim(line[..CommentStartFrom(line, 0)])))
  {
    ScanLineStep(false, line);
    assert Kept(Trim(line[..CommentStartFrom(line, 0)])) + [] == Kept(Trim(line[..CommentStartFrom(line, 0)]));
  }

  // Skipping to the next `*` never skips a `*/`.
  lemma {:induction false} BlockCloseFromStar(s: string, i: nat)
    requires i <= |s|
    ensures BlockCloseFrom(s, i) == BlockCloseFrom(s, StarFrom(s, i))
    decreases |s| - i
  {
    if i < |s| && s[i] != '*' {
      BlockCloseFromStar(s, i + 1);
    }
  }

  // Searching a suffix for `*/` is searching the whole string from the same place.
  lemma {:induction false} BlockCloseFromSuffix(s: string, t: nat, i: nat)
    requires t <= i <= |s|
    ensures BlockCloseFrom(s[t..], i - t) == BlockCloseFrom(s, i) - t
    decreases |s| - i
  {
    if i < |s| {
      assert s[t..][i - t] == s[i];
      assert i + 1 < |s| ==> s[t..][i - t + 1] == s[i + 1];
      if !BlockCloseAt(s, i) {
        BlockCloseFromSuffix(s, t, i + 1);
      }
    }
  }

  // After an opening `/*` at m, the inside-comment pass starts at the next `*`
  // and finds the first `*/` that starts at m + 2 or later.
  lemma CommentBodyPass(line: string, m: nat)
    requires m + 2 <= |line|
    ensures var st := StarFrom(line, m + 2);
      var k := BlockCloseFrom(line, m + 2);
      st < |line| ==>
        ScanPass(true, line[st..]) ==
          if k < |line| then Pass(false, [], LStrip(line[k + 2..])) else Pass(true, [], [])
  {
    var st := StarFrom(line, m + 2);
    var k := BlockCloseFrom(line, m + 2);
    BlockCloseFromStar(line, m + 2);
    BlockCloseFromSuffix(line, st, st);
    if st < |line| && k < |line| {
      assert line[st..][k - st + 2..] == line[k + 2..];
    }
  }

  // Leftmost marker wins, block-comment case: when the leftmost marker is
  // `/*`, the text before it is kept, stripped, everything up to the first
  // later `*/` is hidden (`#` and `//` included), and scanning resumes after
  // it with the left-stripped remainder.
  lemma BlockCommentResumes(line: string, m: nat, k: nat)
    requires m == CommentStartFrom(line, 0) && m + 2 <= |line| && BlockOpenAt(line, m)
    requires k == BlockCloseFrom(line, m + 2) && k < |line|
    ensures ScanLine(false, line) ==
      Scan(ScanLine(false, LStrip(line[k + 2..])).inside,
           Kept(Trim(line[..m])) + ScanLine(false, LStrip(line[k + 2..])).parts)
  {
    var st := StarFrom(line, m + 2);
    OpeningStep(line, m, st);
    ClosingStep(line, m, st, k, Kept(Trim(line[..m])));
  }

  // The opening pass keeps the text before the `/*` and goes on inside the
  // comment from the next `*` (st).
  lemma OpeningStep(line: string, m: nat, st: nat)
    requires m == CommentStartFrom(line, 0) && m + 2 <= |line| && BlockOpenAt(line, m)
    requires st == StarFrom(line, m + 2)
    ensures ScanLine(false, line) ==
      Scan(ScanLine(true, line[st..]).inside, Kept(Trim(line[..m])) + ScanLine(true, line[st..]).parts)
  {
    OpeningPass(line, m, st);
    ScanLineStep(false, line);
  }

  // Inside the comment, the closing pass hides everything up to the first
  // `*/` (at k) and leaves the scanner outside, on the left-stripped rest.
  lemma ClosingStep(line: string, m: nat, st: nat, k: nat, kept: seq<string>)
    requires m + 2 <= |line| && st == StarFrom(line, m + 2)
    requires k == BlockCloseFrom(line, m + 2) && k < |line|
    ensures ScanLine(true, line[st..]) == ScanLine(false, LStrip(line[k + 2..]))
    ensures Scan(ScanLine(true, line[st..]).inside, kept + ScanLine(true, line[st..]).parts) ==
      Scan(ScanLine(false, LStrip(line[k + 2..])).inside, kept + ScanLine(false, LStrip(line[k + 2..])).parts)
  {
    assert st <= k by {
      BlockCloseFromStar(line, m + 2);
    }
    assert ScanPass(true, line[st..]) == Pass(false, [], LStrip(line[k + 2..])) by {
      CommentBodyPass(line, m);
    }
    ScanLineStep(true, line[st..]);
    assert [] + ScanLine(false, LStrip(line[k + 2..])).parts == ScanLine(false, LStrip(line[k + 2..])).parts;
  }

  // The pass at a line whose leftmost marker `/*` starts at m: the text before
  // it is kept and the pass leaves the text from the next `*` on (st).
  lemma OpeningPass(line: string, m: nat, st: nat)
    requires m == CommentStartFrom(line, 0) && m + 2 <= |line| && BlockOpenAt(line, m)
    requires st == StarFrom(line, m + 2)
    ensures ScanPass(false, line) == Pass(true, Trim(line[..m]), line[st..])
  {
  }

  // A `/*` with no later `*/` leaves the rest of the line, and the scanner,
  // inside the comment.
  lemma BlockCommentStaysOpen(line: string)
    requires line != []
    requires CommentStartFrom(line, 0) < |line| && BlockOpenAt(line, CommentStartFrom(line, 0))
    requires BlockCloseFrom(line, CommentStartFrom(line, 0) + 2) == |line|
    ensures ScanLine(false, line) == Scan(true, Kept(Trim(line[..CommentStartFrom(line, 0)])))
  {
    var m := CommentStartFrom(line, 0);
    var st := StarFrom(line, m + 2);
    var kept := Kept(Trim(line[..m]));
    var rest := line[st..];
    assert ScanLine(false, line) == Scan(ScanLine(true, rest).inside, kept + ScanLine(true, rest).parts) by {
      ScanLineStep(false, line);
    }
    if st < |line| {
      assert ScanPass(true, rest) == Pass(true, [], []) by {
        CommentBodyPass(line, m);
      }
      ScanLineStep(true, rest);
    }
    assert ScanLine(true, rest) == Scan(true, []);
    assert kept + [] == kept;
  }
}
