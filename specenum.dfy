// One enum definition (`Specenum`): the checks made once all its options are
// known, its value list, and the constructor that reads its body.
module Specenums {
  import opened Wrappers
  import opened Text
  import opened Errors
  import opened EnumValues
  import opened SpecenumOptions

  // A parsed enum: SPECENUM_NAME, its options, and its values in order.
  datatype Specenum = Specenum(
    name: string,
    prefix: string,
    bitwise: bool,
    zero: Option<Special>,
    count: Option<Special>,
    invalid: Option<string>,
    nameOverride: bool,
    nameUpdater: bool,
    bitvector: Option<string>,
    values: seq<EnumValue>)

  // ---------------------------------------------------------------------------
  // The checks after the option loop

  const RuleCount := 5

  // Rule k of the checks, in the order they are made: `zero` needs `bitwise`;
  // `count` and `bitvector` exclude it; a default `zero` or `count` needs a prefix.
  predicate Violated(o: Options, k: nat) {
    if k == 0 then o.zero.Some? && !o.bitwise
    else if k == 1 then o.count.Some? && o.bitwise
    else if k == 2 then Truthy(o.bitvector) && o.bitwise
    else if k == 3 then o.zero == Some(Default) && o.prefix == ""
    else if k == 4 then o.count == Some(Default) && o.prefix == ""
    else false
  }

  // The error rule k reports.
  function RuleError(enumName: string, k: nat): Error {
    if k == 0 then ZeroRequiresBitwise(enumName)
    else if k == 1 then CountConflictsBitwise(enumName)
    else if k == 2 then BitvectorConflictsBitwise(enumName)
    else if k == 3 then ZeroRequiresPrefix(enumName)
    else CountRequiresPrefix(enumName)
  }

  // The options break none of the rules.
  predicate Consistent(o: Options) {
    forall k :: 0 <= k < RuleCount ==> !Violated(o, k)
  }

  // The checks: the first rule broken decides the error.
  function Validate(enumName: string, o: Options): (r: Option<Error>)
    ensures r.None? <==> Consistent(o)
    ensures r.Some? ==>
      (exists k :: 0 <= k < RuleCount && r.value == RuleError(enumName, k) &&
        Violated(o, k) && forall j :: 0 <= j < k ==> !Violated(o, j))
  {
    if o.zero.Some? && !o.bitwise then
      assert Violated(o, 0);
      Some(ZeroRequiresBitwise(enumName))
    else if o.count.Some? && o.bitwise then
      assert Violated(o, 1) && !Violated(o, 0);
      Some(CountConflictsBitwise(enumName))
    else if o.bitvector.Some? && o.bitvector.value != "" && o.bitwise then
      assert Violated(o, 2) && !Violated(o, 0) && !Violated(o, 1);
      Some(BitvectorConflictsBitwise(enumName))
    else if o.zero == Some(Default) && o.prefix == "" then
      assert Violated(o, 3) && !Violated(o, 0) && !Violated(o, 1) && !Violated(o, 2);
      Some(ZeroRequiresPrefix(enumName))
    else if o.count == Some(Default) && o.prefix == "" then
      assert Violated(o, 4) && !Violated(o, 0) && !Violated(o, 1) && !Violated(o, 2) && !Violated(o, 3);
      Some(CountRequiresPrefix(enumName))
    else
      assert forall k :: 0 <= k < RuleCount ==> !Violated(o, k);
      None
  }

  // ---------------------------------------------------------------------------
  // The value list

  // The value lines after `values`, parsed in order; the first bad line stops it.
  function ParseValues(lines: seq<string>): Result<seq<EnumValue>, Error> {
    if lines == [] then Ok([])
    else
      match ParseValues(lines[..|lines| - 1])
      case Err(e) => Err(e)
      case Ok(vs) =>
        match ParseValue(lines[|lines| - 1])
        case Err(e) => Err(e)
        case Ok(v) => Ok(vs + [v])
  }

  // The value lines parse exactly when each does, to their values in order.
  lemma {:induction false} ParseValuesOk(lines: seq<string>)
    ensures ParseValues(lines).Ok? <==> forall i :: 0 <= i < |lines| ==> ParseValue(lines[i]).Ok?
    ensures ParseValues(lines).Ok? ==> var vs := ParseValues(lines).value;
      |vs| == |lines| && forall i :: 0 <= i < |lines| ==> ParseValue(lines[i]) == Ok(vs[i])
  {
    if lines != [] {
      var n := |lines| - 1;
      var front := lines[..n];
      ParseValuesOk(front);
      assert forall i :: 0 <= i < n ==> front[i] == lines[i];
      if ParseValues(front).Ok? && ParseValue(lines[n]).Ok? {
        var vs, v := ParseValues(front).value, ParseValue(lines[n]).value;
        assert ParseValues(lines) == Ok(vs + [v]);
        assert forall i :: 0 <= i < n ==> (vs + [v])[i] == vs[i];
      } else if ParseValues(front).Err? {
        var i :| 0 <= i < n && !ParseValue(front[i]).Ok?;
        assert !ParseValue(lines[i]).Ok?;
      }
    }
  }

  // Otherwise the error names the first line that does not parse.
  lemma {:induction false} ParseValuesFirstErr(lines: seq<string>)
    ensures ParseValues(lines).Err? ==>
      (exists i :: 0 <= i < |lines| && ParseValue(lines[i]).Err? &&
        (forall j :: 0 <= j < i ==> ParseValue(lines[j]).Ok?) &&
        ParseValues(lines).error == InvalidValue(lines[i]))
  {
    if lines != [] {
      var n := |lines| - 1;
      var front := lines[..n];
      assert forall i :: 0 <= i < n ==> front[i] == lines[i];
      if ParseValues(front).Err? {
        ParseValuesFirstErr(front);
        var i :| 0 <= i < n && (forall j :: 0 <= j < i ==> ParseValue(front[j]).Ok?) &&
          ParseValues(front).error == InvalidValue(front[i]);
        assert forall j :: 0 <= j < i ==> ParseValue(lines[j]).Ok?;
      } else {
        ParseValuesOk(front);
      }
    }
  }

  // The `i`-th generic value (counting from 1): the stem and the number, no name.
  function GenericValue(stem: string, i: nat): EnumValue {
    EnumValue(stem + NatToString(i), None)
  }

  // The `amount` generic values, numbered 1 to `amount`.
  function GenericValues(stem: string, amount: nat): (r: seq<EnumValue>)
    ensures |r| == amount
  {
    seq(amount, i requires 0 <= i => GenericValue(stem, i + 1))
  }

  // Different numbers give different generic identifiers, all well-formed
  // values when the stem is a word.
  lemma GenericValuesDistinct(stem: string, amount: nat)
    ensures var r := GenericValues(stem, amount);
      forall i, j :: 0 <= i < j < amount ==> r[i].identifier != r[j].identifier
    ensures stem != [] && AllWordChars(stem) ==>
      forall i :: 0 <= i < amount ==> WellFormedValue(GenericValues(stem, amount)[i])
  {
    var r := GenericValues(stem, amount);
    forall i, j | 0 <= i < j < amount
      ensures r[i].identifier != r[j].identifier
    {
      var a, b := NatToString(i + 1), NatToString(j + 1);
      assert a != b by {
        assert DigitsValue(a) != DigitsValue(b);
      }
      assert a == (stem + a)[|stem|..] && b == (stem + b)[|stem|..];
    }
    if stem != [] && AllWordChars(stem) {
      forall i | 0 <= i < amount
        ensures AllWordChars(r[i].identifier)
      {
        var d := NatToString(i + 1);
        forall k | 0 <= k < |stem + d|
          ensures IsWordChar((stem + d)[k])
        {
          if k < |stem| {
            assert (stem + d)[k] == stem[k];
          } else {
            assert (stem + d)[k] == d[k - |stem|];
          }
        }
      }
    }
  }

  // ---------------------------------------------------------------------------
  // The constructor

  // `values` on a line of its own ends the options.
  predicate IsValuesSep(line: string) {
    Trim(line) == "values"
  }

  // The position of the first `values` line (|body| when there is none).
  function ValuesSepIndex(body: seq<string>): (k: nat)
    ensures k <= |body|
    ensures forall i :: 0 <= i < k ==> !IsValuesSep(body[i])
    ensures k < |body| ==> IsValuesSep(body[k])
    decreases |body|
  {
    if body == [] then 0
    else if IsValuesSep(body[0]) then 0
    else
      var k := ValuesSepIndex(body[1..]);
      assert forall i :: 1 <= i < k + 1 ==> body[i] == body[1..][i - 1];
      k + 1
  }

  // The value lines of a body: what follows the `values` line.
  function ValueLines(body: seq<string>): seq<string> {
    var k := ValuesSepIndex(body);
    if k < |body| then body[k + 1..] else []
  }

  // `Specenum(name, lines)` for the body lines handed to it. `tail` is what
  // reading past the last of them raises: None when an `end` line closed the
  // body (or the input simply ended), the comment stripper's error otherwise.
  // That error surfaces where the constructor first reads past the body: right
  // after the options when there is no `values` line, after the values otherwise.
  function BuildSpecenum(name: string, body: seq<string>, tail: Option<Error>): Result<Specenum, Error> {
    var k := ValuesSepIndex(body);
    match FoldOptions(name, body[..k])
    case Err(e) => Err(e)
    case Ok(o) =>
      if k == |body| && tail.Some? then Err(tail.value)
      else
        match Validate(name, o)
        case Some(e) => Err(e)
        case None =>
          match ParseValues(ValueLines(body))
          case Err(e) => Err(e)
          case Ok(vs) =>
            if tail.Some? then Err(tail.value)
            else
              Ok(Specenum(name, o.prefix, o.bitwise, o.zero, o.count, o.invalid, o.nameOverride,
                          o.nameUpdater, o.bitvector, vs + GenericValues(o.genericStem, o.genericAmount)))
  }

  // The options of an enum a body defines are the options its option lines
  // set, and they satisfy every rule.
  lemma BuildSpecenumOptions(name: string, body: seq<string>, tail: Option<Error>)
    requires BuildSpecenum(name, body, tail).Ok?
    ensures var e := BuildSpecenum(name, body, tail).value;
      var lines := body[..ValuesSepIndex(body)];
      AcceptableOptions(name, lines) &&
      var o := FoldOptions(name, lines).value;
      Collected(name, o, lines) && Consistent(o) && tail.None? && e.name == name &&
      e.prefix == o.prefix && e.bitwise == o.bitwise && e.zero == o.zero && e.count == o.count &&
      e.invalid == o.invalid && e.nameOverride == o.nameOverride && e.nameUpdater == o.nameUpdater &&
      e.bitvector == o.bitvector
  {
    FoldOptionsAcceptable(name, body[..ValuesSepIndex(body)]);
  }

  // The values of an enum a body defines are its value lines in order, then
  // its generic values.
  lemma BuildSpecenumValues(name: string, body: seq<string>, tail: Option<Error>)
    requires BuildSpecenum(name, body, tail).Ok?
    ensures var e := BuildSpecenum(name, body, tail).value;
      var o := FoldOptions(name, body[..ValuesSepIndex(body)]).value;
      var vl := ValueLines(body);
      |e.values| == |vl| + o.genericAmount &&
      (forall i :: 0 <= i < |vl| ==> ParseValue(vl[i]) == Ok(e.values[i])) &&
      (forall i :: |vl| <= i < |e.values| ==> e.values[i] == GenericValue(o.genericStem, i - |vl| + 1))
  {
    var e := BuildSpecenum(name, body, tail).value;
    var o := FoldOptions(name, body[..ValuesSepIndex(body)]).value;
    var vl := ValueLines(body);
    var vs := ParseValues(vl).value;
    assert e.values == vs + GenericValues(o.genericStem, o.genericAmount);
    ParseValuesOk(vl);
    ValuesThenGeneric(vl, vs, GenericValues(o.genericStem, o.genericAmount), o.genericStem);
  }

  lemma ValuesThenGeneric(vl: seq<string>, vs: seq<EnumValue>, gs: seq<EnumValue>, stem: string)
    requires |vs| == |vl| && forall i :: 0 <= i < |vl| ==> ParseValue(vl[i]) == Ok(vs[i])
    requires forall i :: 0 <= i < |gs| ==> gs[i] == GenericValue(stem, i + 1)
    ensures var all := vs + gs;
      |all| == |vl| + |gs| &&
      (forall i :: 0 <= i < |vl| ==> ParseValue(vl[i]) == Ok(all[i])) &&
      (forall i :: |vl| <= i < |all| ==> all[i] == GenericValue(stem, i - |vl| + 1))
  {
  }

  // Which error an enum body raises, in the order the constructor meets
  // them: the option loop's; the stripper's error when the body has no
  // `values` line; the first rule broken. BuildSpecenumValuesErr goes on.
  lemma BuildSpecenumErr(name: string, body: seq<string>, tail: Option<Error>)
    ensures var k := ValuesSepIndex(body); var fo := FoldOptions(name, body[..k]);
      fo.Err? ==> BuildSpecenum(name, body, tail) == Err(fo.error)
    ensures var k := ValuesSepIndex(body); var fo := FoldOptions(name, body[..k]);
      fo.Ok? && k == |body| && tail.Some? ==> BuildSpecenum(name, body, tail) == Err(tail.value)
    ensures var k := ValuesSepIndex(body); var fo := FoldOptions(name, body[..k]);
      fo.Ok? && (k < |body| || tail.None?) && !Consistent(fo.value) ==>
        exists r :: 0 <= r < RuleCount && Violated(fo.value, r) && (forall q :: 0 <= q < r ==> !Violated(fo.value, q)) &&
          BuildSpecenum(name, body, tail) == Err(RuleError(name, r))
  {
  }

  // Then, with acceptable options that break no rule: the first value line
  // that does not parse; the stripper's error after the values.
  lemma BuildSpecenumValuesErr(name: string, body: seq<string>, tail: Option<Error>)
    requires FoldOptions(name, body[..ValuesSepIndex(body)]).Ok?
    requires Consistent(FoldOptions(name, body[..ValuesSepIndex(body)]).value)
    requires ValuesSepIndex(body) < |body| || tail.None?
    ensures var vl := ValueLines(body);
      (exists l :: 0 <= l < |vl| && ParseValue(vl[l]).Err?) ==>
        exists i :: 0 <= i < |vl| && ParseValue(vl[i]).Err? && (forall j :: 0 <= j < i ==> ParseValue(vl[j]).Ok?) &&
          BuildSpecenum(name, body, tail) == Err(InvalidValue(vl[i]))
    ensures var vl := ValueLines(body);
      (forall l :: 0 <= l < |vl| ==> ParseValue(vl[l]).Ok?) && tail.Some? ==>
        BuildSpecenum(name, body, tail) == Err(tail.value)
  {
    var vl := ValueLines(body);
    ParseValuesOk(vl);
    ParseValuesFirstErr(vl);
  }

  // A body defines an enum exactly when its option lines are acceptable and
  // break no rule, every value line parses, and the body was closed without
  // an error of the stripper.
  lemma BuildSpecenumOk(name: string, body: seq<string>, tail: Option<Error>)
    ensures var lines := body[..ValuesSepIndex(body)]; var vl := ValueLines(body);
      BuildSpecenum(name, body, tail).Ok? <==>
        AcceptableOptions(name, lines) && FoldOptions(name, lines).Ok? && Consistent(FoldOptions(name, lines).value) &&
        tail.None? && forall l :: 0 <= l < |vl| ==> ParseValue(vl[l]).Ok?
  {
    FoldOptionsAcceptable(name, body[..ValuesSepIndex(body)]);
    ParseValuesOk(ValueLines(body));
  }

  // `Specenum.__init__`: the option loop up to `values`, the checks, the value
  // lines up to the end of the body, then the generic values.
  method NewSpecenum(name: string, body: seq<string>, tail: Option<Error>) returns (r: Result<Specenum, Error>)
    ensures r == BuildSpecenum(name, body, tail)
  {
    var k, options := ReadOptions(name, body);
    if options.Err? {
      return Err(options.error);
    }
    var o := options.value;
    if k == |body| && tail.Some? {
      return Err(tail.value);
    }
    var check := Validate(name, o);
    if check.Some? {
      return Err(check.value);
    }
    var values := ReadValues(if k < |body| then body[k + 1..] else []);
    if values.Err? {
      return Err(values.error);
    }
    if tail.Some? {
      return Err(tail.value);
    }
    var all := AppendGeneric(values.value, o.genericStem, o.genericAmount);
    r := Ok(Specenum(name, o.prefix, o.bitwise, o.zero, o.count, o.invalid, o.nameOverride,
                     o.nameUpdater, o.bitvector, all));
  }

  // The option loop: the lines before the first `values` line, one option at
  // a time, stopping at the first error.
  method ReadOptions(name: string, body: seq<string>) returns (k: nat, r: Result<Options, Error>)
    ensures r.Ok? ==> k == ValuesSepIndex(body)
    ensures r == FoldOptions(name, body[..ValuesSepIndex(body)])
  {
    var o := NoOptions;
    k := 0;
    while k < |body| && !IsValuesSep(body[k])
      invariant k <= ValuesSepIndex(body)
      invariant FoldOptions(name, body[..k]) == Ok(o)
    {
      SepAfter(body, k);
      var step := ApplyOption(name, o, body[k]);
      if step.Err? {
        FoldOptionsStopsAt(name, body, k, o);
        return k, Err(step.error);
      }
      FoldOptionsSnoc(name, body, k, o);
      o := step.value;
      k := k + 1;
    }
    SepAt(body, k);
    r := Ok(o);
  }

  // A line before the separator that is not the separator.
  lemma SepAfter(body: seq<string>, k: nat)
    requires k <= ValuesSepIndex(body) && k < |body| && !IsValuesSep(body[k])
    ensures k + 1 <= ValuesSepIndex(body)
  {
  }

  // The first separator, or the end.
  lemma SepAt(body: seq<string>, k: nat)
    requires k <= ValuesSepIndex(body) && (k == |body| || IsValuesSep(body[k]))
    ensures k == ValuesSepIndex(body)
  {
  }

  // An option line that fails before the separator decides the whole loop.
  lemma FoldOptionsStopsAt(name: string, body: seq<string>, k: nat, o: Options)
    requires k < ValuesSepIndex(body) && FoldOptions(name, body[..k]) == Ok(o)
    requires ApplyOption(name, o, body[k]).Err?
    ensures FoldOptions(name, body[..ValuesSepIndex(body)]) == ApplyOption(name, o, body[k])
  {
    var sep := ValuesSepIndex(body);
    FoldOptionsSnoc(name, body, k, o);
    assert body[..sep][..k + 1] == body[..k + 1];
    FoldOptionsPrefixErr(name, body[..sep], k + 1);
  }

  // The list of explicit values: each line parsed in order, stopping at the
  // first error.
  method ReadValues(lines: seq<string>) returns (r: Result<seq<EnumValue>, Error>)
    ensures r == ParseValues(lines)
  {
    var values: seq<EnumValue> := [];
    for j := 0 to |lines|
      invariant ParseValues(lines[..j]) == Ok(values)
    {
      var v := ParseValue(lines[j]);
      assert lines[..j + 1][..j] == lines[..j];
      if v.Err? {
        ParseValuesPrefixErr(lines, j + 1);
        return Err(v.error);
      }
      values := values + [v.value];
    }
    assert lines[..|lines|] == lines;
    r := Ok(values);
  }

  // The generic values appended after the explicit ones.
  method AppendGeneric(explicit: seq<EnumValue>, stem: string, amount: nat) returns (values: seq<EnumValue>)
    ensures values == explicit + GenericValues(stem, amount)
  {
    values := explicit;
    for g := 1 to amount + 1
      invariant values == explicit + GenericValues(stem, g - 1)
    {
      assert GenericValues(stem, g) == GenericValues(stem, g - 1) + [GenericValue(stem, g)];
      values := values + [GenericValue(stem, g)];
    }
  }

  // One more option line.
  lemma FoldOptionsSnoc(name: string, lines: seq<string>, n: nat, o: Options)
    requires n < |lines| && FoldOptions(name, lines[..n]) == Ok(o)
    ensures FoldOptions(name, lines[..n + 1]) == ApplyOption(name, o, lines[n])
  {
    assert lines[..n + 1][..n] == lines[..n];
  }

  // An option loop that fails on a prefix fails with the same error.
  lemma {:induction false} FoldOptionsPrefixErr(name: string, lines: seq<string>, n: nat)
    requires n <= |lines| && FoldOptions(name, lines[..n]).Err?
    ensures FoldOptions(name, lines) == FoldOptions(name, lines[..n])
    decreases |lines| - n
  {
    if n < |lines| {
      assert lines[..n + 1][..n] == lines[..n];
      FoldOptionsPrefixErr(name, lines, n + 1);
    } else {
      assert lines[..n] == lines;
    }
  }

  // A value list that fails on a prefix fails with the same error.
  lemma {:induction false} ParseValuesPrefixErr(lines: seq<string>, n: nat)
    requires n <= |lines| && ParseValues(lines[..n]).Err?
    ensures ParseValues(lines) == ParseValues(lines[..n])
    decreases |lines| - n
  {
    if n < |lines| {
      assert lines[..n + 1][..n] == lines[..n];
      ParseValuesPrefixErr(lines, n + 1);
    } else {
      assert lines[..n] == lines;
    }
  }
}
