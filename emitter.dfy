// The generated header: the `#define` lines for one enum (`Specenum.code_parts`)
// and the body of the output file (`write_header`: an empty line before each
// enum's lines). A decoder reads the lines back, checking the order in which
// they come; the round trip shows that every field the header carries is
// recovered and that the lines come in the fixed order.
module Emitter {
  import opened Wrappers
  import opened Text
  import opened EnumValues
  import opened SpecenumOptions
  import opened Specenums

  const DefinePrefix := "#define SPECENUM_"
  const IncludeLine := "#include \"specenum_gen.h\"\n"

  // The values ZERO and COUNT stand for when given without an argument.
  const DefaultZero := EnumValue("ZERO", None)
  const DefaultCount := EnumValue("COUNT", None)

  function Resolve(s: Special, default: EnumValue): EnumValue {
    match s
    case Default => default
    case Given(v) => v
  }

  // ---------------------------------------------------------------------------
  // code_parts

  // VALUE<i>, VALUE<i+1>, ... for the values from index i on.
  function ValueParts(vs: seq<EnumValue>, i: nat, prefix: string): seq<string>
    decreases |vs|
  {
    if vs == [] then [] else CodePartsValue(vs[0], i, prefix) + ValueParts(vs[1..], i + 1, prefix)
  }

  function BitwiseParts(e: Specenum): seq<string> {
    if e.bitwise then
      [FlagLine("BITWISE")] +
      (if e.zero.Some? then CodePartsCustom(Resolve(e.zero.value, DefaultZero), "ZERO", e.prefix) else [])
    else []
  }

  function CountParts(e: Specenum): seq<string> {
    if e.count.Some? then CodePartsCustom(Resolve(e.count.value, DefaultCount), "COUNT", e.prefix) else []
  }

  function InvalidParts(e: Specenum): seq<string> {
    if e.invalid.Some? then [DefineLine("INVALID", e.invalid.value)] else []
  }

  function FlagParts(set_: bool, symbol: string): seq<string> {
    if set_ then [FlagLine(symbol)] else []
  }

  function BitvectorParts(e: Specenum): seq<string> {
    if e.bitvector.Some? then [DefineLine("BITVECTOR", e.bitvector.value)] else []
  }

  // The lines `code_parts` yields for one enum, in order.
  function CodeParts(e: Specenum): seq<string> {
    [DefineLine("NAME", e.name)] + BitwiseParts(e) + ValueParts(e.values, 0, e.prefix) + CountParts(e) +
    InvalidParts(e) + FlagParts(e.nameOverride, "NAMEOVERRIDE") + FlagParts(e.nameUpdater, "NAME_UPDATER") +
    BitvectorParts(e) + [IncludeLine]
  }

  // What `write_header` writes between the header guards: for each enum, an
  // empty line and then its lines.
  function HeaderParts(es: seq<Specenum>): seq<string>
    decreases |es|
  {
    if es == [] then [] else ["\n"] + CodeParts(es[0]) + HeaderParts(es[1..])
  }

  // ---------------------------------------------------------------------------
  // Reading the lines back

  // The kinds of line the header holds.
  datatype Kind =
    | KName | KBitwise | KZero | KZeroName | KValue(index: nat) | KValueName(index: nat)
    | KCount | KCountName | KInvalid | KNameOverride | KNameUpdater | KBitvector | KInclude

  // A line read back: its kind and the value after the symbol (None for a flag).
  datatype Decoded = Decoded(kind: Kind, value: Option<string>)

  // The place of each kind of line in the fixed order.
  datatype Rank = Rank(major: nat, minor: nat)

  function RankOf(k: Kind): Rank {
    match k
    case KName => Rank(1, 0)
    case KBitwise => Rank(2, 0)
    case KZero => Rank(3, 0)
    case KZeroName => Rank(3, 1)
    case KValue(i) => Rank(4, 2 * i)
    case KValueName(i) => Rank(4, 2 * i + 1)
    case KCount => Rank(5, 0)
    case KCountName => Rank(5, 1)
    case KInvalid => Rank(6, 0)
    case KNameOverride => Rank(7, 0)
    case KNameUpdater => Rank(8, 0)
    case KBitvector => Rank(9, 0)
    case KInclude => Rank(10, 0)
  }

  predicate Before(a: Rank, b: Rank) {
    a.major < b.major || (a.major == b.major && a.minor < b.minor)
  }

  // The symbol after `SPECENUM_`.
  function Classify(symbol: string): Option<Kind> {
    if IsValueSymbol(symbol) then
      var r := symbol[5..];
      if AllDigits(r) then Some(KValue(DigitsValue(r)))
      else if |r| > 4 && r[|r| - 4..] == "NAME" && AllDigits(r[..|r| - 4]) then Some(KValueName(DigitsValue(r[..|r| - 4])))
      else None
    else if symbol == "NAME" then Some(KName)
    else if symbol == "BITWISE" then Some(KBitwise)
    else if symbol == "ZERO" then Some(KZero)
    else if symbol == "ZERONAME" then Some(KZeroName)
    else if symbol == "COUNT" then Some(KCount)
    else if symbol == "COUNTNAME" then Some(KCountName)
    else if symbol == "INVALID" then Some(KInvalid)
    else if symbol == "NAMEOVERRIDE" then Some(KNameOverride)
    else if symbol == "NAME_UPDATER" then Some(KNameUpdater)
    else if symbol == "BITVECTOR" then Some(KBitvector)
    else None
  }

  predicate IsValueSymbol(symbol: string) {
    |symbol| > 5 && symbol[..5] == "VALUE"
  }

  // A symbol that does not start with V is looked up among the fixed ones.
  lemma NotValueSymbol(symbol: string)
    requires symbol != [] && symbol[0] != 'V'
    ensures !IsValueSymbol(symbol)
  {
    if |symbol| > 5 {
      assert symbol[..5][0] == symbol[0];
    }
  }

  // The position of the first space at or after i.
  function SpaceFrom(s: string, i: nat): (k: nat)
    requires i <= |s|
    ensures i <= k <= |s|
    decreases |s| - i
  {
    if i < |s| && s[i] != ' ' then SpaceFrom(s, i + 1) else i
  }

  predicate NoSpace(s: string) {
    forall i :: 0 <= i < |s| ==> s[i] != ' '
  }

  function DecodeLine(line: string): Option<Decoded> {
    if line == IncludeLine then Some(Decoded(KInclude, None))
    else if |line| > |DefinePrefix| && line[..|DefinePrefix|] == DefinePrefix && line[|line| - 1] == '\n' then
      var body := line[|DefinePrefix|..|line| - 1];
      var k := SpaceFrom(body, 0);
      match Classify(body[..k])
      case None => None
      case Some(kind) => Some(Decoded(kind, if k < |body| then Some(body[k + 1..]) else None))
    else None
  }

  // The fields an enum's lines carry: the zero, values and count with the
  // prefix applied, and the zero only when the enum is bitwise.
  datatype Observed = Observed(
    name: Option<string>,
    bitwise: bool,
    zero: Option<EnumValue>,
    values: seq<EnumValue>,
    count: Option<EnumValue>,
    invalid: Option<string>,
    nameOverride: bool,
    nameUpdater: bool,
    bitvector: Option<string>)

  const Nothing := Observed(None, false, None, [], None, None, false, false, None)

  function Prefixed(v: EnumValue, prefix: string): EnumValue {
    EnumValue(prefix + v.identifier, v.name)
  }

  function PrefixedAll(vs: seq<EnumValue>, prefix: string): (r: seq<EnumValue>)
    ensures |r| == |vs|
  {
    seq(|vs|, i requires 0 <= i < |vs| => Prefixed(vs[i], prefix))
  }

  function ObservedZero(e: Specenum): Option<EnumValue> {
    if e.bitwise && e.zero.Some? then Some(Prefixed(Resolve(e.zero.value, DefaultZero), e.prefix)) else None
  }

  function ObservedCount(e: Specenum): Option<EnumValue> {
    if e.count.Some? then Some(Prefixed(Resolve(e.count.value, DefaultCount), e.prefix)) else None
  }

  // What the header says about e.
  function Observe(e: Specenum): Observed {
    Observed(Some(e.name), e.bitwise, ObservedZero(e), PrefixedAll(e.values, e.prefix), ObservedCount(e),
             e.invalid, e.nameOverride, e.nameUpdater, e.bitvector)
  }

  // What the header says about each of es, in order.
  function ObserveAll(es: seq<Specenum>): (r: seq<Observed>)
    ensures |r| == |es|
  {
    seq(|es|, i requires 0 <= i < |es| => Observe(es[i]))
  }

  function Named(v: Option<EnumValue>, name: string): Option<EnumValue>
    requires v.Some?
  {
    Some(v.value.(name := Some(name)))
  }

  // What one line adds to what has been read.
  function Update(obs: Observed, d: Decoded): Option<Observed> {
    match d.kind
    case KName => if d.value.Some? then Some(obs.(name := d.value)) else None
    case KBitwise => if d.value.None? then Some(obs.(bitwise := true)) else None
    case KZero => if d.value.Some? then Some(obs.(zero := Some(EnumValue(d.value.value, None)))) else None
    case KZeroName => if d.value.Some? && obs.zero.Some? then Some(obs.(zero := Named(obs.zero, d.value.value))) else None
    case KValue(i) =>
      if d.value.Some? && i == |obs.values| then Some(obs.(values := obs.values + [EnumValue(d.value.value, None)]))
      else None
    case KValueName(i) =>
      if d.value.Some? && i + 1 == |obs.values| then
        Some(obs.(values := obs.values[i := obs.values[i].(name := d.value)]))
      else None
    case KCount => if d.value.Some? then Some(obs.(count := Some(EnumValue(d.value.value, None)))) else None
    case KCountName => if d.value.Some? && obs.count.Some? then Some(obs.(count := Named(obs.count, d.value.value))) else None
    case KInvalid => if d.value.Some? then Some(obs.(invalid := d.value)) else None
    case KNameOverride => if d.value.None? then Some(obs.(nameOverride := true)) else None
    case KNameUpdater => if d.value.None? then Some(obs.(nameUpdater := true)) else None
    case KBitvector => if d.value.Some? then Some(obs.(bitvector := d.value)) else None
    case KInclude => if d.value.None? then Some(obs) else None
  }

  // The decoder's state: what has been read, the rank of the last line, and
  // whether the closing `#include` has been read.
  datatype DecodeState = DecodeState(obs: Observed, last: Rank, done: bool)

  const Start := DecodeState(Nothing, Rank(0, 0), false)

  // One line: it must decode, come later in the order than the last one, and fit.
  function Step(st: DecodeState, line: string): Option<DecodeState> {
    match DecodeLine(line)
    case None => None
    case Some(d) =>
      if !Before(st.last, RankOf(d.kind)) then None
      else
        match Update(st.obs, d)
        case None => None
        case Some(obs) => Some(DecodeState(obs, RankOf(d.kind), d.kind == KInclude))
  }

  // Reads lines until the `#include`, returning the state and the lines left;
  // running out of lines first leaves the state not done.
  function Walk(st: DecodeState, lines: seq<string>): Option<(DecodeState, seq<string>)>
    decreases |lines|
  {
    if st.done || lines == [] then Some((st, lines))
    else
      match Step(st, lines[0])
      case None => None
      case Some(st') => Walk(st', lines[1..])
  }

  lemma {:induction false} WalkShorter(st: DecodeState, lines: seq<string>)
    requires Walk(st, lines).Some?
    ensures |Walk(st, lines).value.1| <= |lines|
    decreases |lines|
  {
    if !st.done && lines != [] {
      WalkShorter(Step(st, lines[0]).value, lines[1..]);
    }
  }

  // One enum's lines, and the lines after them.
  function DecodeEnum(lines: seq<string>): Option<(Observed, seq<string>)> {
    match Walk(Start, lines)
    case None => None
    case Some((st, rest)) => if st.done then Some((st.obs, rest)) else None
  }

  // The header body: an empty line before each enum's lines.
  function DecodeHeader(lines: seq<string>): Option<seq<Observed>>
    decreases |lines|
  {
    if lines == [] then Some([])
    else if lines[0] != "\n" then None
    else
      match DecodeEnum(lines[1..])
      case None => None
      case Some((obs, rest)) =>
        WalkShorter(Start, lines[1..]);
        match DecodeHeader(rest)
        case None => None
        case Some(more) => Some([obs] + more)
  }

  // ---------------------------------------------------------------------------
  // The round trip

  // Walking over two pieces of input is walking over the first and then the
  // second from where the first left off.
  lemma {:induction false} WalkConcat(st: DecodeState, a: seq<string>, b: seq<string>, mid: DecodeState)
    requires Walk(st, a) == Some((mid, [])) && !mid.done
    ensures Walk(st, a + b) == Walk(mid, b)
    decreases |a|
  {
    if a == [] {
      assert a + b == b;
    } else {
      assert !st.done;
      var st' := Step(st, a[0]).value;
      assert (a + b)[0] == a[0] && (a + b)[1..] == a[1..] + b;
      WalkConcat(st', a[1..], b, mid);
    }
  }

  lemma NoSpaceConcat(a: string, b: string)
    requires NoSpace(a) && NoSpace(b)
    ensures NoSpace(a + b)
  {
    forall i | 0 <= i < |a + b|
      ensures (a + b)[i] != ' '
    {
      if i < |a| {
        assert (a + b)[i] == a[i];
      } else {
        assert (a + b)[i] == b[i - |a|];
      }
    }
  }

  lemma {:induction false} SpaceFromAt(s: string, i: nat, k: nat)
    requires i <= k <= |s|
    requires forall j :: i <= j < k ==> s[j] != ' '
    requires k < |s| ==> s[k] == ' '
    ensures SpaceFrom(s, i) == k
    decreases k - i
  {
    if i < k {
      SpaceFromAt(s, i + 1, k);
    }
  }

  // The body of a `#define` line after the prefix.
  lemma DefineBody(symbol: string, rest: string)
    ensures var line := DefinePrefix + symbol + rest;
      |line| >= |DefinePrefix| && line[..|DefinePrefix|] == DefinePrefix &&
      line[|DefinePrefix|..] == symbol + rest && line != IncludeLine
  {
    var line := DefinePrefix + symbol + rest;
    assert line[1] == 'd';
    assert line[|DefinePrefix|..] == symbol + rest;
  }

  // The text between the prefix and the line end of a `#define` line.
  lemma DefineLineShape(symbol: string, value: string)
    ensures var line := DefineLine(symbol, value);
      line != IncludeLine && |line| > |DefinePrefix| && line[..|DefinePrefix|] == DefinePrefix &&
      line[|line| - 1] == '\n' && line[|DefinePrefix|..|line| - 1] == symbol + " " + value
  {
    var line := DefineLine(symbol, value);
    assert line == DefinePrefix + symbol + (" " + value + "\n");
    DefineBody(symbol, " " + value + "\n");
    assert line[|DefinePrefix|..|line| - 1] == symbol + " " + value;
  }

  // The symbol ends at the first space; the value follows it.
  lemma SymbolThenValue(symbol: string, value: string)
    requires NoSpace(symbol)
    ensures var body := symbol + " " + value;
      SpaceFrom(body, 0) == |symbol| && body[..|symbol|] == symbol && body[|symbol| + 1..] == value
  {
    var body := symbol + " " + value;
    assert body[|symbol|] == ' ';
    assert forall j :: 0 <= j < |symbol| ==> body[j] == symbol[j];
    SpaceFromAt(body, 0, |symbol|);
    assert body[..|symbol|] == symbol && body[|symbol| + 1..] == value;
  }

  // A `#define` line with a value reads back as its kind and the value.
  lemma DecodeDefineLine(symbol: string, value: string)
    requires NoSpace(symbol) && Classify(symbol).Some?
    ensures DecodeLine(DefineLine(symbol, value)) == Some(Decoded(Classify(symbol).value, Some(value)))
  {
    DefineLineShape(symbol, value);
    SymbolThenValue(symbol, value);
  }

  // A `#define` line without a value reads back as its kind.
  lemma DecodeFlagLine(symbol: string)
    requires NoSpace(symbol) && Classify(symbol).Some?
    ensures DecodeLine(FlagLine(symbol)) == Some(Decoded(Classify(symbol).value, None))
  {
    var line := FlagLine(symbol);
    assert line == DefinePrefix + symbol + "\n";
    DefineBody(symbol, "\n");
    assert line[|DefinePrefix|..|line| - 1] == symbol;
    SpaceFromAt(symbol, 0, |symbol|);
    assert symbol[..|symbol|] == symbol;
  }

  lemma DigitsNoSpace(d: string)
    requires AllDigits(d)
    ensures NoSpace(d)
  {
  }

  // VALUE<i> and VALUE<i>NAME are told apart and give back i.
  lemma ClassifyValue(i: nat)
    ensures NoSpace(ValueSymbol(i)) && Classify(ValueSymbol(i)) == Some(KValue(i))
    ensures NoSpace(ValueSymbol(i) + "NAME") && Classify(ValueSymbol(i) + "NAME") == Some(KValueName(i))
  {
    var d := NatToString(i);
    DigitsNoSpace(d);
    NoSpaceConcat("VALUE", d);
    NoSpaceConcat(ValueSymbol(i), "NAME");
    var s := ValueSymbol(i);
    assert s[..5] == "VALUE" && s[5..] == d;
    var n := s + "NAME";
    assert n[..5] == "VALUE";
    var r := n[5..];
    assert r == d + "NAME";
    assert !IsDigit(r[|r| - 4]);
    assert r[|r| - 4..] == "NAME" && r[..|r| - 4] == d;
  }

  // The states a piece of the header may start from: not done, and the last
  // rank before the piece's major rank.
  predicate ReadyFor(st: DecodeState, major: nat) {
    !st.done && st.last.major < major
  }

  // After a piece: not done, and the last rank at most the piece's major rank.
  predicate LeftAt(st: DecodeState, major: nat) {
    !st.done && st.last.major <= major
  }

  // Reading one `#define` line with a value.
  lemma StepDefine(st: DecodeState, symbol: string, value: string)
    requires NoSpace(symbol) && Classify(symbol).Some?
    requires !st.done && Before(st.last, RankOf(Classify(symbol).value))
    requires Update(st.obs, Decoded(Classify(symbol).value, Some(value))).Some?
    requires Classify(symbol).value != KInclude
    ensures var k := Classify(symbol).value;
      Walk(st, [DefineLine(symbol, value)]) ==
        Some((DecodeState(Update(st.obs, Decoded(k, Some(value))).value, RankOf(k), false), []))
  {
    DecodeDefineLine(symbol, value);
    var k := Classify(symbol).value;
    var st' := DecodeState(Update(st.obs, Decoded(k, Some(value))).value, RankOf(k), false);
    assert Step(st, DefineLine(symbol, value)) == Some(st');
    assert [DefineLine(symbol, value)][1..] == [];
  }

  // Reading one `#define` flag line.
  lemma StepFlag(st: DecodeState, symbol: string)
    requires NoSpace(symbol) && Classify(symbol).Some?
    requires !st.done && Before(st.last, RankOf(Classify(symbol).value))
    requires Update(st.obs, Decoded(Classify(symbol).value, None)).Some?
    requires Classify(symbol).value != KInclude
    ensures var k := Classify(symbol).value;
      Walk(st, [FlagLine(symbol)]) ==
        Some((DecodeState(Update(st.obs, Decoded(k, None)).value, RankOf(k), false), []))
  {
    DecodeFlagLine(symbol);
    var k := Classify(symbol).value;
    var st' := DecodeState(Update(st.obs, Decoded(k, None)).value, RankOf(k), false);
    assert Step(st, FlagLine(symbol)) == Some(st');
    assert [FlagLine(symbol)][1..] == [];
  }

  // SPECENUM_VALUE<i>: appends the identifier.
  lemma StepValue(st: DecodeState, i: nat, id: string)
    requires !st.done && Before(st.last, Rank(4, 2 * i)) && |st.obs.values| == i
    ensures Walk(st, [DefineLine(ValueSymbol(i), id)]) ==
      Some((DecodeState(st.obs.(values := st.obs.values + [EnumValue(id, None)]), Rank(4, 2 * i), false), []))
  {
    ClassifyValue(i);
    StepDefine(st, ValueSymbol(i), id);
  }

  // SPECENUM_VALUE<i>NAME: names the value just appended.
  lemma StepValueName(st: DecodeState, i: nat, name: string)
    requires !st.done && Before(st.last, Rank(4, 2 * i + 1)) && |st.obs.values| == i + 1
    ensures Walk(st, [DefineLine(ValueSymbol(i) + "NAME", name)]) ==
      Some((DecodeState(st.obs.(values := st.obs.values[i := st.obs.values[i].(name := Some(name))]), Rank(4, 2 * i + 1), false), []))
  {
    ClassifyValue(i);
    StepDefine(st, ValueSymbol(i) + "NAME", name);
  }

  // Reading a value (VALUE<i> and, with a name, VALUE<i>NAME) appends it.
  lemma WalkValue(st: DecodeState, v: EnumValue, i: nat, prefix: string)
    requires !st.done && Before(st.last, Rank(4, 2 * i)) && |st.obs.values| == i
    ensures Walk(st, CodePartsValue(v, i, prefix)) ==
      Some((DecodeState(st.obs.(values := st.obs.values + [Prefixed(v, prefix)]),
                        Rank(4, if v.name.Some? then 2 * i + 1 else 2 * i), false), []))
  {
    if v.name.Some? {
      WalkNamedValue(st, v, i, prefix);
    } else {
      StepValue(st, i, prefix + v.identifier);
    }
  }

  lemma WalkNamedValue(st: DecodeState, v: EnumValue, i: nat, prefix: string)
    requires !st.done && Before(st.last, Rank(4, 2 * i)) && |st.obs.values| == i && v.name.Some?
    ensures Walk(st, CodePartsValue(v, i, prefix)) ==
      Some((DecodeState(st.obs.(values := st.obs.values + [Prefixed(v, prefix)]), Rank(4, 2 * i + 1), false), []))
  {
    var first := DefineLine(ValueSymbol(i), prefix + v.identifier);
    var second := DefineLine(ValueSymbol(i) + "NAME", v.name.value);
    StepValue(st, i, prefix + v.identifier);
    var mid := DecodeState(st.obs.(values := st.obs.values + [EnumValue(prefix + v.identifier, None)]), Rank(4, 2 * i), false);
    StepValueName(mid, i, v.name.value);
    NameLast(st.obs.values, EnumValue(prefix + v.identifier, None), v.name);
    var fin := DecodeState(st.obs.(values := st.obs.values + [Prefixed(v, prefix)]), Rank(4, 2 * i + 1), false);
    WalkPair(st, first, second, mid, fin);
  }

  lemma NameLast(vs: seq<EnumValue>, v: EnumValue, name: Option<string>)
    ensures (vs + [v])[|vs| := (vs + [v])[|vs|].(name := name)] == vs + [v.(name := name)]
  {
  }

  // Two lines in a row.
  lemma WalkPair(st: DecodeState, a: string, b: string, mid: DecodeState, fin: DecodeState)
    requires Walk(st, [a]) == Some((mid, [])) && !mid.done && Walk(mid, [b]) == Some((fin, []))
    ensures Walk(st, [a] + [b]) == Some((fin, []))
  {
    WalkConcat(st, [a], [b], mid);
  }

  lemma PrefixedAllCons(vs: seq<EnumValue>, prefix: string)
    requires vs != []
    ensures PrefixedAll(vs, prefix) == [Prefixed(vs[0], prefix)] + PrefixedAll(vs[1..], prefix)
  {
  }

  // Reading the values from index i on appends them all.
  lemma {:induction false} WalkValues(st: DecodeState, vs: seq<EnumValue>, i: nat, prefix: string)
    requires !st.done && Before(st.last, Rank(4, 2 * i)) && |st.obs.values| == i
    requires st.last.major <= 4
    ensures Walk(st, ValueParts(vs, i, prefix)).Some?
    ensures var r := Walk(st, ValueParts(vs, i, prefix)).value;
      r.1 == [] && LeftAt(r.0, 4) &&
      r.0.obs == st.obs.(values := st.obs.values + PrefixedAll(vs, prefix))
    decreases |vs|
  {
    if vs == [] {
      assert st.obs.values + PrefixedAll(vs, prefix) == st.obs.values;
    } else {
      var v := vs[0];
      var head, rest := CodePartsValue(v, i, prefix), ValueParts(vs[1..], i + 1, prefix);
      assert ValueParts(vs, i, prefix) == head + rest;
      WalkValue(st, v, i, prefix);
      var mid := DecodeState(st.obs.(values := st.obs.values + [Prefixed(v, prefix)]),
                             Rank(4, if v.name.Some? then 2 * i + 1 else 2 * i), false);
      WalkValues(mid, vs[1..], i + 1, prefix);
      WalkConcat(st, head, rest, mid);
      PrefixedAllCons(vs, prefix);
      ConcatAssoc(st.obs.values, [Prefixed(v, prefix)], PrefixedAll(vs[1..], prefix));
    }
  }

  // SPECENUM_NAME.
  lemma WalkName(st: DecodeState, name: string) returns (st': DecodeState)
    requires ReadyFor(st, 1)
    ensures Walk(st, [DefineLine("NAME", name)]) == Some((st', [])) && LeftAt(st', 1)
    ensures st'.obs == st.obs.(name := Some(name))
  {
    NotValueSymbol("NAME");
    assert NoSpace("NAME") && Classify("NAME") == Some(KName);
    StepDefine(st, "NAME", name);
    st' := Walk(st, [DefineLine("NAME", name)]).value.0;
  }

  // SPECENUM_ZERO and SPECENUM_ZERONAME are looked up among the fixed symbols.
  lemma ClassifyZero()
    ensures NoSpace("ZERO") && Classify("ZERO") == Some(KZero)
    ensures "ZERO" + "NAME" == "ZERONAME" && NoSpace("ZERONAME") && Classify("ZERONAME") == Some(KZeroName)
  {
    NotValueSymbol("ZERO");
    NotValueSymbol("ZERONAME");
  }

  // SPECENUM_ZERO and SPECENUM_ZERONAME.
  lemma WalkZero(st: DecodeState, v: EnumValue, prefix: string) returns (st': DecodeState)
    requires ReadyFor(st, 3)
    ensures Walk(st, CodePartsCustom(v, "ZERO", prefix)) == Some((st', [])) && LeftAt(st', 3)
    ensures st'.obs == st.obs.(zero := Some(Prefixed(v, prefix)))
  {
    ClassifyZero();
    var first := DefineLine("ZERO", prefix + v.identifier);
    StepDefine(st, "ZERO", prefix + v.identifier);
    var mid := DecodeState(st.obs.(zero := Some(EnumValue(prefix + v.identifier, None))), Rank(3, 0), false);
    if v.name.Some? {
      var second := DefineLine("ZERONAME", v.name.value);
      StepDefine(mid, "ZERONAME", v.name.value);
      st' := DecodeState(st.obs.(zero := Some(Prefixed(v, prefix))), Rank(3, 1), false);
      WalkPair(st, first, second, mid, st');
    } else {
      st' := mid;
    }
  }

  // SPECENUM_BITWISE and the zero, for a bitwise enum.
  lemma WalkBitwise(st: DecodeState, e: Specenum) returns (st': DecodeState)
    requires ReadyFor(st, 2) && !st.obs.bitwise && st.obs.zero.None?
    ensures Walk(st, BitwiseParts(e)) == Some((st', [])) && LeftAt(st', 3)
    ensures st'.obs == st.obs.(bitwise := e.bitwise, zero := ObservedZero(e))
  {
    if e.bitwise {
      NotValueSymbol("BITWISE");
      assert NoSpace("BITWISE") && Classify("BITWISE") == Some(KBitwise);
      StepFlag(st, "BITWISE");
      var mid := Walk(st, [FlagLine("BITWISE")]).value.0;
      if e.zero.Some? {
        var z := WalkZero(mid, Resolve(e.zero.value, DefaultZero), e.prefix);
        WalkConcat(st, [FlagLine("BITWISE")], CodePartsCustom(Resolve(e.zero.value, DefaultZero), "ZERO", e.prefix), mid);
        st' := z;
      } else {
        assert BitwiseParts(e) == [FlagLine("BITWISE")];
        st' := mid;
      }
    } else {
      st' := st;
    }
  }

  // The values, from VALUE0 on.
  lemma WalkAllValues(st: DecodeState, e: Specenum) returns (st': DecodeState)
    requires ReadyFor(st, 4) && st.obs.values == []
    ensures Walk(st, ValueParts(e.values, 0, e.prefix)) == Some((st', [])) && LeftAt(st', 4)
    ensures st'.obs == st.obs.(values := PrefixedAll(e.values, e.prefix))
  {
    WalkValues(st, e.values, 0, e.prefix);
    st' := Walk(st, ValueParts(e.values, 0, e.prefix)).value.0;
    assert [] + PrefixedAll(e.values, e.prefix) == PrefixedAll(e.values, e.prefix);
  }

  // SPECENUM_COUNT and SPECENUM_COUNTNAME are looked up among the fixed symbols.
  lemma ClassifyCount()
    ensures NoSpace("COUNT") && Classify("COUNT") == Some(KCount)
    ensures "COUNT" + "NAME" == "COUNTNAME" && NoSpace("COUNTNAME") && Classify("COUNTNAME") == Some(KCountName)
  {
    NotValueSymbol("COUNT");
    NotValueSymbol("COUNTNAME");
  }

  // SPECENUM_COUNT and SPECENUM_COUNTNAME.
  lemma WalkCountValue(st: DecodeState, v: EnumValue, prefix: string) returns (st': DecodeState)
    requires ReadyFor(st, 5)
    ensures Walk(st, CodePartsCustom(v, "COUNT", prefix)) == Some((st', [])) && LeftAt(st', 5)
    ensures st'.obs == st.obs.(count := Some(Prefixed(v, prefix)))
  {
    ClassifyCount();
    var first := DefineLine("COUNT", prefix + v.identifier);
    StepDefine(st, "COUNT", prefix + v.identifier);
    var mid := DecodeState(st.obs.(count := Some(EnumValue(prefix + v.identifier, None))), Rank(5, 0), false);
    if v.name.Some? {
      var second := DefineLine("COUNTNAME", v.name.value);
      StepDefine(mid, "COUNTNAME", v.name.value);
      st' := DecodeState(st.obs.(count := Some(Prefixed(v, prefix))), Rank(5, 1), false);
      WalkPair(st, first, second, mid, st');
    } else {
      st' := mid;
    }
  }

  lemma WalkCount(st: DecodeState, e: Specenum) returns (st': DecodeState)
    requires ReadyFor(st, 5) && st.obs.count.None?
    ensures Walk(st, CountParts(e)) == Some((st', [])) && LeftAt(st', 5)
    ensures st'.obs == st.obs.(count := ObservedCount(e))
  {
    if e.count.Some? {
      st' := WalkCountValue(st, Resolve(e.count.value, DefaultCount), e.prefix);
    } else {
      st' := st;
    }
  }

  // SPECENUM_INVALID.
  lemma WalkInvalid(st: DecodeState, e: Specenum) returns (st': DecodeState)
    requires ReadyFor(st, 6) && st.obs.invalid.None?
    ensures Walk(st, InvalidParts(e)) == Some((st', [])) && LeftAt(st', 6)
    ensures st'.obs == st.obs.(invalid := e.invalid)
  {
    if e.invalid.Some? {
      NotValueSymbol("INVALID");
      assert NoSpace("INVALID") && Classify("INVALID") == Some(KInvalid);
      StepDefine(st, "INVALID", e.invalid.value);
      st' := Walk(st, InvalidParts(e)).value.0;
    } else {
      st' := st;
    }
  }

  // SPECENUM_NAMEOVERRIDE.
  lemma WalkNameOverride(st: DecodeState, e: Specenum) returns (st': DecodeState)
    requires ReadyFor(st, 7) && !st.obs.nameOverride
    ensures Walk(st, FlagParts(e.nameOverride, "NAMEOVERRIDE")) == Some((st', [])) && LeftAt(st', 7)
    ensures st'.obs == st.obs.(nameOverride := e.nameOverride)
  {
    if e.nameOverride {
      NotValueSymbol("NAMEOVERRIDE");
      assert NoSpace("NAMEOVERRIDE") && Classify("NAMEOVERRIDE") == Some(KNameOverride);
      StepFlag(st, "NAMEOVERRIDE");
      st' := Walk(st, FlagParts(e.nameOverride, "NAMEOVERRIDE")).value.0;
    } else {
      st' := st;
    }
  }

  // SPECENUM_NAME_UPDATER.
  lemma WalkNameUpdater(st: DecodeState, e: Specenum) returns (st': DecodeState)
    requires ReadyFor(st, 8) && !st.obs.nameUpdater
    ensures Walk(st, FlagParts(e.nameUpdater, "NAME_UPDATER")) == Some((st', [])) && LeftAt(st', 8)
    ensures st'.obs == st.obs.(nameUpdater := e.nameUpdater)
  {
    if e.nameUpdater {
      NotValueSymbol("NAME_UPDATER");
      assert NoSpace("NAME_UPDATER") && Classify("NAME_UPDATER") == Some(KNameUpdater);
      StepFlag(st, "NAME_UPDATER");
      st' := Walk(st, FlagParts(e.nameUpdater, "NAME_UPDATER")).value.0;
    } else {
      st' := st;
    }
  }

  // SPECENUM_BITVECTOR.
  lemma WalkBitvector(st: DecodeState, e: Specenum) returns (st': DecodeState)
    requires ReadyFor(st, 9) && st.obs.bitvector.None?
    ensures Walk(st, BitvectorParts(e)) == Some((st', [])) && LeftAt(st', 9)
    ensures st'.obs == st.obs.(bitvector := e.bitvector)
  {
    if e.bitvector.Some? {
      NotValueSymbol("BITVECTOR");
      assert NoSpace("BITVECTOR") && Classify("BITVECTOR") == Some(KBitvector);
      StepDefine(st, "BITVECTOR", e.bitvector.value);
      st' := Walk(st, BitvectorParts(e)).value.0;
    } else {
      st' := st;
    }
  }

  // The closing `#include` ends the enum; the lines after it are left.
  lemma WalkInclude(st: DecodeState, rest: seq<string>)
    requires ReadyFor(st, 10)
    ensures Walk(st, [IncludeLine] + rest) == Some((DecodeState(st.obs, Rank(10, 0), true), rest))
  {
    assert DecodeLine(IncludeLine) == Some(Decoded(KInclude, None));
    assert ([IncludeLine] + rest)[0] == IncludeLine && ([IncludeLine] + rest)[1..] == rest;
  }

  // The first half of an enum's lines: name, bitwise and zero, values.
  lemma WalkFront(e: Specenum) returns (st: DecodeState)
    ensures Walk(Start, [DefineLine("NAME", e.name)] + BitwiseParts(e) + ValueParts(e.values, 0, e.prefix)) == Some((st, []))
    ensures LeftAt(st, 4)
    ensures st.obs == Nothing.(name := Some(e.name), bitwise := e.bitwise, zero := ObservedZero(e),
                               values := PrefixedAll(e.values, e.prefix))
  {
    var a1 := [DefineLine("NAME", e.name)];
    var a2 := BitwiseParts(e);
    var a3 := ValueParts(e.values, 0, e.prefix);
    var s1 := WalkName(Start, e.name);
    var s2 := WalkBitwise(s1, e);
    WalkConcat(Start, a1, a2, s1);
    var s3 := WalkAllValues(s2, e);
    WalkConcat(Start, a1 + a2, a3, s2);
    st := s3;
  }

  // Every enum's lines read back as what they say about it, and the decoder
  // stops right after them: nothing is lost and the order is the fixed one.
  lemma DecodeEnumRoundTrip(e: Specenum, rest: seq<string>)
    ensures DecodeEnum(CodeParts(e) + rest) == Some((Observe(e), rest))
  {
    var front := [DefineLine("NAME", e.name)] + BitwiseParts(e) + ValueParts(e.values, 0, e.prefix);
    var s3 := WalkFront(e);
    var p4 := front + CountParts(e);
    var s4 := WalkCount(s3, e);
    WalkConcat(Start, front, CountParts(e), s3);
    var p5 := p4 + InvalidParts(e);
    var s5 := WalkInvalid(s4, e);
    WalkConcat(Start, p4, InvalidParts(e), s4);
    var p6 := p5 + FlagParts(e.nameOverride, "NAMEOVERRIDE");
    var s6 := WalkNameOverride(s5, e);
    WalkConcat(Start, p5, FlagParts(e.nameOverride, "NAMEOVERRIDE"), s5);
    var p7 := p6 + FlagParts(e.nameUpdater, "NAME_UPDATER");
    var s7 := WalkNameUpdater(s6, e);
    WalkConcat(Start, p6, FlagParts(e.nameUpdater, "NAME_UPDATER"), s6);
    var p8 := p7 + BitvectorParts(e);
    var s8 := WalkBitvector(s7, e);
    WalkConcat(Start, p7, BitvectorParts(e), s7);
    WalkInclude(s8, rest);
    ConcatAssoc(p8, [IncludeLine], rest);
    WalkConcat(Start, p8, [IncludeLine] + rest, s8);
    assert s8.obs == Observe(e);
  }

  // The whole header body reads back as what it says about each enum, in order.
  lemma {:induction false} DecodeHeaderRoundTrip(es: seq<Specenum>)
    ensures DecodeHeader(HeaderParts(es)) == Some(ObserveAll(es))
    decreases |es|
  {
    if es != [] {
      var lines := HeaderParts(es);
      var tail := HeaderParts(es[1..]);
      assert lines == ["\n"] + (CodeParts(es[0]) + tail);
      assert lines[1..] == CodeParts(es[0]) + tail;
      DecodeEnumRoundTrip(es[0], tail);
      DecodeHeaderRoundTrip(es[1..]);
      DecodeHeaderCons(lines, Observe(es[0]), tail, ObserveAll(es[1..]));
      ObserveAllCons(es);
    }
  }

  lemma ObserveAllCons(es: seq<Specenum>)
    requires es != []
    ensures ObserveAll(es) == [Observe(es[0])] + ObserveAll(es[1..])
  {
  }

  // An empty line, an enum's lines, then more of the header.
  lemma DecodeHeaderCons(lines: seq<string>, obs: Observed, rest: seq<string>, more: seq<Observed>)
    requires lines != [] && lines[0] == "\n"
    requires DecodeEnum(lines[1..]) == Some((obs, rest)) && DecodeHeader(rest) == Some(more)
    ensures DecodeHeader(lines) == Some([obs] + more)
  {
  }
}
