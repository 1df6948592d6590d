// `create_new_line_utf8strs` of the SDL3 client: a NUL-terminated string is
// cut at its newlines into a NULL-terminated array of strings. An empty piece
// before a newline becomes a single space; the text after the last newline is
// an entry only when it is not empty.
module Utf8Strings {
  import opened Wrappers
  import opened Text

  // ---------------------------------------------------------------------------
  // The string a char array holds up to its first NUL

  // The array holds a NUL at or after i.
  predicate NulFrom(a: array<char>, i: nat)
    reads a
  {
    exists j :: i <= j < a.Length && a[j] == '\0'
  }

  // The position of the first NUL at or after i.
  function StrLenFrom(a: array<char>, i: nat): (n: nat)
    reads a
    requires i <= a.Length && NulFrom(a, i)
    ensures i <= n < a.Length && a[n] == '\0'
    ensures forall k :: i <= k < n ==> a[k] != '\0'
    decreases a.Length - i
  {
    if a[i] == '\0' then i else StrLenFrom(a, i + 1)
  }

  function StrLen(a: array<char>): nat
    reads a
    requires NulFrom(a, 0)
  {
    StrLenFrom(a, 0)
  }

  // The characters before the first NUL.
  function CString(a: array<char>): string
    reads a
    requires NulFrom(a, 0)
  {
    a[..StrLen(a)]
  }

  // ---------------------------------------------------------------------------
  // The pieces between newlines, and the entries made from them

  // The text cut at every newline, the newlines dropped: one more piece than
  // there are newlines, built one character at a time as the loop reads them.
  function Split(t: string): (r: seq<string>)
    ensures |r| >= 1
    decreases |t|
  {
    if t == [] then [[]]
    else
      var front := Split(t[..|t| - 1]);
      var c := t[|t| - 1];
      if c == '\n' then front + [[]] else front[..|front| - 1] + [front[|front| - 1] + [c]]
  }

  // The piece after the last newline, still open.
  function Pending(t: string): string {
    Split(t)[|Split(t)| - 1]
  }

  // An empty piece is entered as a single space.
  function Blank(x: string): string {
    if x == [] then " " else x
  }

  // The entries for the pieces a newline has closed.
  function Done(t: string): (r: seq<string>)
    ensures |r| == |Split(t)| - 1
  {
    var closed := Split(t)[..|Split(t)| - 1];
    seq(|closed|, k requires 0 <= k < |closed| => Blank(closed[k]))
  }

  // All the entries: the closed pieces, then the open one when it is not empty.
  function Lines(t: string): seq<string> {
    Done(t) + (if Pending(t) != [] then [Pending(t)] else [])
  }

  function CountOf(t: string, c: char): nat
    decreases |t|
  {
    if t == [] then 0 else CountOf(t[..|t| - 1], c) + (if t[|t| - 1] == c then 1 else 0)
  }

  predicate NoNewline(x: string) {
    forall k :: 0 <= k < |x| ==> x[k] != '\n'
  }

  // ---------------------------------------------------------------------------
  // One more character

  // A newline closes the open piece and opens an empty one; any other
  // character extends the open piece.
  lemma SplitSnoc(t: string, c: char)
    ensures Split(t + [c]) ==
      if c == '\n' then Split(t) + [[]] else Split(t)[..|Split(t)| - 1] + [Pending(t) + [c]]
  {
    assert (t + [c])[..|t + [c]| - 1] == t;
  }

  lemma PendingSnoc(t: string, c: char)
    ensures Pending(t + [c]) == if c == '\n' then [] else Pending(t) + [c]
  {
    SplitSnoc(t, c);
  }

  // A newline enters the piece it closes; any other character enters nothing.
  lemma DoneSnoc(t: string, c: char)
    ensures Done(t + [c]) == Done(t) + (if c == '\n' then [Blank(Pending(t))] else [])
  {
    SplitSnoc(t, c);
    var xs := Split(t);
    var ys := Split(t + [c]);
    var d := Done(t + [c]);
    var e := Done(t) + (if c == '\n' then [Blank(Pending(t))] else []);
    assert |d| == |e|;
    forall k | 0 <= k < |d|
      ensures d[k] == e[k]
    {
      if k < |xs| - 1 {
        assert ys[k] == xs[k];
      }
    }
  }

  // ---------------------------------------------------------------------------
  // What the entries are

  // There is one piece more than there are newlines.
  lemma {:induction false} SplitCount(t: string)
    ensures |Split(t)| == CountOf(t, '\n') + 1
    decreases |t|
  {
    if t != [] {
      var front := t[..|t| - 1];
      assert t == front + [t[|t| - 1]];
      SplitSnoc(front, t[|t| - 1]);
      SplitCount(front);
    }
  }

  // Each newline gives one entry, and the text after the last newline gives
  // one more when it is not empty.
  lemma LinesCount(t: string)
    ensures |Lines(t)| == CountOf(t, '\n') + (if Pending(t) != [] then 1 else 0)
  {
    SplitCount(t);
  }

  // No piece holds a newline.
  lemma {:induction false} SplitNoNewline(t: string)
    ensures forall k :: 0 <= k < |Split(t)| ==> NoNewline(Split(t)[k])
    decreases |t|
  {
    if t != [] {
      var front := t[..|t| - 1];
      var c := t[|t| - 1];
      assert t == front + [c];
      SplitSnoc(front, c);
      SplitNoNewline(front);
      var xs := Split(front);
      if c != '\n' {
        var last := xs[|xs| - 1] + [c];
        assert NoNewline(last) by {
          forall k | 0 <= k < |last|
            ensures last[k] != '\n'
          {
            if k < |last| - 1 {
              assert last[k] == xs[|xs| - 1][k];
            }
          }
        }
      }
    }
  }

  // Every entry is non-empty and holds no newline.
  lemma LinesShape(t: string)
    ensures forall k :: 0 <= k < |Lines(t)| ==> Lines(t)[k] != [] && NoNewline(Lines(t)[k])
  {
    SplitNoNewline(t);
    var xs := Split(t);
    var l := Lines(t);
    forall k | 0 <= k < |l|
      ensures l[k] != [] && NoNewline(l[k])
    {
      if k < |xs| - 1 {
        assert l[k] == Blank(xs[k]);
      } else {
        assert l[k] == xs[|xs| - 1];
      }
    }
  }

  lemma JoinSnoc(xs: seq<string>, y: string, sep: string)
    requires xs != []
    ensures Join(xs + [y], sep) == Join(xs, sep) + sep + y
    decreases |xs|
  {
    if |xs| > 1 {
      assert (xs + [y])[1..] == xs[1..] + [y];
      JoinSnoc(xs[1..], y, sep);
    }
  }

  lemma JoinExtendLast(xs: seq<string>, y: string, c: char, sep: string)
    ensures Join(xs + [y + [c]], sep) == Join(xs + [y], sep) + [c]
    decreases |xs|
  {
    if xs != [] {
      assert (xs + [y + [c]])[1..] == xs[1..] + [y + [c]];
      assert (xs + [y])[1..] == xs[1..] + [y];
      JoinExtendLast(xs[1..], y, c, sep);
    }
  }

  // The pieces put back together with newlines are the text: the pieces are
  // verbatim copies of the text between newlines.
  lemma {:induction false} SplitJoin(t: string)
    ensures Join(Split(t), "\n") == t
    decreases |t|
  {
    if t != [] {
      var front := t[..|t| - 1];
      var c := t[|t| - 1];
      assert t == front + [c];
      SplitSnoc(front, c);
      SplitJoin(front);
      var xs := Split(front);
      if c == '\n' {
        JoinSnoc(xs, [], "\n");
      } else {
        var init := xs[..|xs| - 1];
        assert xs == init + [xs[|xs| - 1]];
        JoinExtendLast(init, xs[|xs| - 1], c, "\n");
      }
    }
  }

  // The entries are the closed pieces (a space for an empty one), then the
  // open piece when it is not empty.
  lemma LinesOfPieces(t: string)
    ensures var xs := Split(t);
      (forall k :: 0 <= k < |xs| - 1 ==> Lines(t)[k] == Blank(xs[k])) &&
      (|Lines(t)| == |xs| <==> xs[|xs| - 1] != []) &&
      (xs[|xs| - 1] != [] ==> Lines(t)[|xs| - 1] == xs[|xs| - 1])
  {
  }

  // The closed pieces only grow as the text grows.
  lemma {:induction false} DoneGrows(t: string, p: nat)
    requires p <= |t|
    ensures |Done(t[..p])| <= |Done(t)|
    decreases |t| - p
  {
    if p < |t| {
      assert t[..p + 1] == t[..p] + [t[p]];
      DoneSnoc(t[..p], t[p]);
      DoneGrows(t, p + 1);
    } else {
      assert t[..p] == t;
    }
  }

  // What reading the character at p does to the entries of the text read so far.
  lemma ReadOne(s: string, p: nat)
    requires p < |s|
    ensures Done(s[..p + 1]) == Done(s[..p]) + (if s[p] == '\n' then [Blank(Pending(s[..p]))] else [])
    ensures Pending(s[..p + 1]) == if s[p] == '\n' then [] else Pending(s[..p]) + [s[p]]
    ensures |Done(s[..p + 1])| <= |Done(s)|
  {
    assert s[..p + 1] == s[..p] + [s[p]];
    DoneSnoc(s[..p], s[p]);
    PendingSnoc(s[..p], s[p]);
    DoneGrows(s, p + 1);
  }

  // ---------------------------------------------------------------------------
  // create_new_line_utf8strs

  // The array contents for a list of entries: each one a string.
  function Entries(lines: seq<string>): (r: seq<Option<string>>)
    ensures |r| == |lines|
    ensures forall k :: 0 <= k < |lines| ==> r[k] == Some(lines[k])
  {
    seq(|lines|, k requires 0 <= k < |lines| => Some(lines[k]))
  }

  // Storing one more entry after those stored so far.
  lemma StoreEntry(done: seq<string>, x: Option<string>, before: seq<Option<string>>, y: string)
    requires |done| < |before|
    ensures (Entries(done) + before[|done|..])[|done| := x] == Entries(done) + [x] + before[|done| + 1..]
    ensures Entries(done + [y]) == Entries(done) + [Some(y)]
  {
    var a := (Entries(done) + before[|done|..])[|done| := x];
    var b := Entries(done) + [x] + before[|done| + 1..];
    assert |a| == |b|;
    forall k | 0 <= k < |a|
      ensures a[k] == b[k]
    {
    }
  }

  // The state of the loop while it reads s[p]: `done` holds the entries of the
  // pieces closed so far, s[start..p] is the open piece, and `cells`, the
  // buffer, holds those entries followed by what was there before.
  ghost predicate Reading(s: string, p: nat, start: nat, done: seq<string>, cells: seq<Option<string>>,
                          before: seq<Option<string>>)
  {
    start <= p <= |s| && |done| < |cells| == |before| &&
    done == Done(s[..p]) && Pending(s[..p]) == s[start..p] && cells == Entries(done) + before[|done|..]
  }

  // A newline stores the open piece (a space when it is empty) and opens an
  // empty one.
  lemma ReadNewline(s: string, p: nat, start: nat, done: seq<string>, cells: seq<Option<string>>,
                    before: seq<Option<string>>, room: nat)
    requires Reading(s, p, start, done, cells, before) && p < |s| && s[p] == '\n'
    requires |Lines(s)| < room == |before|
    ensures Reading(s, p + 1, p + 1, done + [Blank(s[start..p])],
                    cells[|done| := Some(Blank(s[start..p]))], before)
  {
    ReadOne(s, p);
    LinesCount(s);
    StoreEntry(done, Some(Blank(s[start..p])), before, Blank(s[start..p]));
  }

  // Any other character extends the open piece.
  lemma ReadOther(s: string, p: nat, start: nat, done: seq<string>, cells: seq<Option<string>>,
                  before: seq<Option<string>>)
    requires Reading(s, p, start, done, cells, before) && p < |s| && s[p] != '\n'
    ensures Reading(s, p + 1, start, done, cells, before)
  {
    ReadOne(s, p);
    assert s[start..p + 1] == s[start..p] + [s[p]];
  }

  // At the end of the text, the buffer holds the entries of the closed
  // pieces, the open piece when it is not empty, and the NULL after them.
  lemma ReadEnd(s: string, start: nat, done: seq<string>, cells: seq<Option<string>>,
                before: seq<Option<string>>, last: seq<Option<string>>)
    requires Reading(s, |s|, start, done, cells, before)
    requires |done| + (if s[start..] != [] then 1 else 0) < |cells|
    requires |Lines(s)| < |before|
    requires last == cells[..|done|] + (if s[start..] != [] then [Some(s[start..])] else []) + [None] +
      cells[|done| + (if s[start..] != [] then 1 else 0) + 1..]
    ensures last == Entries(Lines(s)) + [None] + before[|Lines(s)| + 1..]
  {
    assert s[..|s|] == s;
    var extra := if s[start..] != [] then [s[start..]] else [];
    assert Lines(s) == done + extra;
    assert Entries(Lines(s)) == Entries(done) + Entries(extra);
    assert cells[..|done|] == Entries(done);
  }

  // A newline: store the open piece, or a single space when it is empty.
  method StoreLine(buf: array<Option<string>>, count: nat, piece: string) returns (count': nat)
    requires count < buf.Length
    modifies buf
    ensures count' == count + 1
    ensures buf[..] == old(buf[..])[count := Some(Blank(piece))]
  {
    if |piece| != 0 {
      buf[count] := Some(piece);
    } else {
      buf[count] := Some(" ");
    }
    count' := count + 1;
  }

  // The end of the text: store the open piece when it is not empty, then the
  // NULL that ends the array.
  method Terminate(buf: array<Option<string>>, count: nat, piece: string) returns (count': nat)
    requires count + (if piece != [] then 1 else 0) < buf.Length
    modifies buf
    ensures count' == count + (if piece != [] then 1 else 0)
    ensures buf[..] == old(buf[..])[..count] + (if piece != [] then [Some(piece)] else []) + [None] +
      old(buf[..])[count' + 1..]
  {
    count' := count;
    if piece != [] {
      buf[count'] := Some(piece);
      count' := count' + 1;
    }
    buf[count'] := None;
  }

  // One turn of the loop: read the character at p. A newline stores the open
  // piece (a space when it is empty); the NUL after the text stores the open
  // piece when it is not empty, then the NULL.
  method ReadChar(pstr: array<char>, buf: array<Option<string>>, start: nat, p: nat, len: nat, count: nat,
                  ghost s: string, ghost done: seq<string>, ghost before: seq<Option<string>>)
    returns (start': nat, p': nat, len': nat, count': nat, ghost done': seq<string>)
    requires |s| < pstr.Length && s == pstr[..|s|] && pstr[|s|] == '\0' && p < |s|
    requires forall k :: 0 <= k < |s| ==> s[k] != '\0'
    requires |Lines(s)| < buf.Length == |before|
    requires len == p - start && count == |done| && Reading(s, p, start, done, buf[..], before)
    modifies buf
    ensures p' == p + 1 && start <= start' <= p'
    ensures p' < |s| ==> len' == p' - start' && count' == |done'| && Reading(s, p', start', done', buf[..], before)
    ensures p' == |s| ==> start' == p' && buf[..] == Entries(Lines(s)) + [None] + before[|Lines(s)| + 1..]
  {
    LinesCount(s);
    ghost var cells := buf[..];
    start', len', count', done' := start, len, count, done;
    if pstr[p] == '\n' {
      ReadNewline(s, p, start, done, cells, before, buf.Length);
      assert pstr[start..p] == s[start..p];
      count' := StoreLine(buf, count, pstr[start..p]);
      done' := done + [Blank(s[start..p])];
      start' := p + 1;
      len' := 0;
    } else {
      ReadOther(s, p, start, done, cells, before);
      len' := len + 1;
    }
    p' := p + 1;
    if pstr[p'] == '\0' {
      assert p' == |s| && s[..p'] == s;
      assert pstr[start'..p'] == s[start'..];
      cells := buf[..];
      count' := Terminate(buf, count', pstr[start'..p']);
      ReadEnd(s, start', done', cells, before, buf[..]);
      start' := p';
    }
  }

  // The length of the static array the entries go to.
  const BufSize: nat := 512

  // The loop: `start` is the first character of the open piece, `p` the
  // character being read, `len` the length of the open piece; entries go to
  // buf[count]. None stands for NULL. An empty string leaves buf as it was.
  method CreateNewLineStrs(pstr: array<char>, buf: array<Option<string>>)
    requires NulFrom(pstr, 0)
    requires buf.Length == BufSize && |Lines(CString(pstr))| + 1 <= buf.Length
    modifies buf
    ensures var s := CString(pstr);
      var lines := Lines(s);
      if s == [] then buf[..] == old(buf[..])
      else buf[..] == Entries(lines) + [None] + old(buf[..])[|lines| + 1..]
  {
    ghost var n := StrLen(pstr);
    ghost var s := CString(pstr);
    ghost var before := buf[..];
    ghost var lines := Lines(s);
    ghost var done: seq<string> := [];
    var start, p, len, count := 0, 0, 0, 0;
    while pstr[start] != '\0'
      invariant start <= p <= n
      invariant p == n ==> start == n
      invariant p < n ==>
        len == p - start && count == |done| && Reading(s, p, start, done, buf[..], before)
      invariant p == n && n > 0 ==> buf[..] == Entries(lines) + [None] + before[|lines| + 1..]
      invariant n == 0 ==> buf[..] == before
      decreases n - start, n - p
    {
      start, p, len, count, done := ReadChar(pstr, buf, start, p, len, count, s, done, before);
    }
    assert start == n;
  }
}
