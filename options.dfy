// The option block of one enum definition (the loop at the top of
// `Specenum.__init__`): every option line up to `values` sets one option, and a
// repeated option, a missing or unexpected argument, a malformed argument or an
// unknown option name stops the enum with an error.
module SpecenumOptions {
  import opened Wrappers
  import opened Text
  import opened Errors
  import opened EnumValues

  // `zero` and `count` without an argument stand for the built-in ZERO/COUNT
  // value, which the later checks tell apart from an explicitly given one
  // (even one that is spelled `ZERO`).
  datatype Special = Default | Given(value: EnumValue)

  // What the option loop has collected: the enum's option fields, and the
  // `generic` amount and stem, which are locals of the constructor.
  datatype Options = Options(
    prefix: string,
    bitwise: bool,
    zero: Option<Special>,
    count: Option<Special>,
    invalid: Option<string>,
    nameOverride: bool,
    nameUpdater: bool,
    bitvector: Option<string>,
    genericAmount: nat,
    genericStem: string)

  // The state before the first option line.
  const NoOptions := Options("", false, None, None, None, false, false, None, 0, "")

  // The option names the loop recognizes.
  const Known: set<string> :=
    {"bitvector", "bitwise", "count", "generic", "invalid", "name-override", "name-updater", "prefix", "zero"}

  // Python truthiness of an optional string.
  predicate Truthy(arg: Option<string>) {
    arg.Some? && arg.value != ""
  }

  // ---------------------------------------------------------------------------
  // The argument of `generic`: `^\s*(\d+)\s+(\w+)\s*$`.

  // The end of the run of digits that starts at i.
  function DigitEnd(s: string, i: nat): (j: nat)
    requires i <= |s|
    ensures i <= j <= |s|
    decreases |s| - i
  {
    if i < |s| && IsDigit(s[i]) then DigitEnd(s, i + 1) else i
  }

  lemma {:induction false} DigitEndFacts(s: string, i: nat)
    requires i <= |s|
    ensures AllDigits(s[i..DigitEnd(s, i)])
    ensures DigitEnd(s, i) < |s| ==> !IsDigit(s[DigitEnd(s, i)])
    decreases |s| - i
  {
    if i < |s| && IsDigit(s[i]) {
      DigitEndFacts(s, i + 1);
      var j := DigitEnd(s, i);
      forall k | 0 <= k < j - i
        ensures IsDigit(s[i..j][k])
      {
        if k > 0 {
          assert s[i..j][k] == s[i + 1..j][k - 1];
        }
      }
    }
  }

  lemma {:induction false} DigitEndOf(s: string, i: nat, j: nat)
    requires i <= j <= |s|
    requires forall k :: i <= k < j ==> IsDigit(s[k])
    requires j < |s| ==> !IsDigit(s[j])
    ensures DigitEnd(s, i) == j
    decreases j - i
  {
    if i < j {
      DigitEndOf(s, i + 1, j);
    }
  }

  // The amount and the identifier stem, or None when the argument does not
  // have that shape. The digits may carry leading zeros.
  function ParseGeneric(arg: string): Option<(nat, string)> {
    var s := LStrip(arg);
    var j := DigitEnd(s, 0);
    var rest := s[j..];
    var t := LStrip(rest);
    var k := HeadEnd(t, 0, false);
    if j == 0 || |t| == |rest| || k == 0 || !AllSpace(t[k..]) then None
    else
      DigitEndFacts(s, 0);
      Some((DigitsValue(s[..j]), t[..k]))
  }

  // The amount part of a spelled `generic` argument: the padding is stripped
  // and the digits run up to the gap.
  lemma GenericAmountSpelled(lead: string, digits: string, rest: string)
    requires AllSpace(lead) && digits != [] && AllDigits(digits)
    requires rest != [] && IsSpace(rest[0])
    ensures var s := lead + digits + rest;
      LStrip(s) == digits + rest && DigitEnd(digits + rest, 0) == |digits|
  {
    var s := digits + rest;
    assert lead + digits + rest == lead + s;
    LStripPadded(lead, s);
    assert s[|digits|] == rest[0];
    DigitEndOf(s, 0, |digits|);
  }

  // The stem part: the gap is stripped and the stem runs up to the trailer.
  lemma GenericStemSpelled(gap: string, stem: string, trail: string)
    requires AllSpace(gap) && AllSpace(trail) && stem != [] && AllWordChars(stem)
    ensures LStrip(gap + stem + trail) == stem + trail
    ensures HeadEnd(stem + trail, 0, false) == |stem|
  {
    var t := stem + trail;
    assert gap + stem + trail == gap + t;
    assert !IsSpace(t[0]) by {
      assert t[0] == stem[0];
    }
    LStripPadded(gap, t);
    forall k | 0 <= k < |stem|
      ensures IsHeadChar(t[k], false)
    {
      assert t[k] == stem[k];
    }
    if trail != [] {
      assert t[|stem|] == trail[0];
    }
    HeadEndOf(t, 0, |stem|, false);
  }

  // Every amount written in digits and every word stem, spelled with any
  // whitespace around and between them, parse back.
  lemma ParseGenericSpelled(lead: string, digits: string, gap: string, stem: string, trail: string)
    requires AllSpace(lead) && AllSpace(gap) && AllSpace(trail) && gap != []
    requires digits != [] && AllDigits(digits)
    requires stem != [] && AllWordChars(stem)
    ensures ParseGeneric(lead + digits + gap + stem + trail) == Some((DigitsValue(digits), stem))
  {
    var rest := gap + stem + trail;
    var t := stem + trail;
    var s := digits + rest;
    assert lead + digits + gap + stem + trail == lead + digits + rest;
    GenericAmountSpelled(lead, digits, rest);
    assert s[..|digits|] == digits && s[|digits|..] == rest;
    GenericStemSpelled(gap, stem, trail);
    assert t[..|stem|] == stem && t[|stem|..] == trail;
  }

  // What `generic` accepts has a non-empty stem of word characters.
  lemma ParseGenericStem(arg: string)
    requires ParseGeneric(arg).Some?
    ensures var stem := ParseGeneric(arg).value.1; stem != [] && AllWordChars(stem)
  {
    var t := LStrip(LStrip(arg)[DigitEnd(LStrip(arg), 0)..]);
    var k := HeadEnd(t, 0, false);
    HeadEndFacts(t, 0, false);
    assert ParseGeneric(arg).value.1 == t[0..k];
  }

  // The amount part of an accepted argument: padding, then the digits, then the rest.
  lemma GenericAmountParts(arg: string) returns (lead: string, digits: string, rest: string)
    ensures var s := LStrip(arg);
      var j := DigitEnd(s, 0);
      lead + (digits + rest) == arg && digits == s[..j] && rest == s[j..] &&
      AllSpace(lead) && AllDigits(digits)
  {
    lead := StripSplit(arg);
    var s := LStrip(arg);
    var j := DigitEnd(s, 0);
    DigitEndFacts(s, 0);
    digits, rest := s[..j], s[j..];
    assert s[0..j] == digits;
    assert s == digits + rest;
  }

  // The stem part of an accepted argument: the gap, then the stem, then the trailer.
  lemma GenericStemParts(rest: string) returns (gap: string, stem: string, trail: string)
    ensures var t := LStrip(rest);
      var k := HeadEnd(t, 0, false);
      gap + (stem + trail) == rest && stem == t[..k] && trail == t[k..] &&
      AllSpace(gap) && |gap| == |rest| - |t| && AllWordChars(stem)
  {
    gap := StripSplit(rest);
    var t := LStrip(rest);
    var k := HeadEnd(t, 0, false);
    HeadEndFacts(t, 0, false);
    stem, trail := t[..k], t[k..];
    assert t[0..k] == stem;
    assert t == stem + trail;
    forall i | 0 <= i < |stem|
      ensures IsWordChar(stem[i])
    {
      assert IsHeadChar(stem[i], false);
    }
  }

  lemma Regroup5(a: string, b: string, c: string, d: string, e: string)
    ensures a + (b + (c + (d + e))) == a + b + c + d + e
  {
  }

  // Everything `generic` accepts is such a spelling, and the amount is the
  // value of its digits; with ParseGenericSpelled, the two descriptions agree.
  lemma ParseGenericSound(arg: string)
    requires ParseGeneric(arg).Some?
    ensures var (n, stem) := ParseGeneric(arg).value;
      exists lead, digits, gap, trail ::
        AllSpace(lead) && AllSpace(gap) && gap != [] && AllSpace(trail) &&
        digits != [] && AllDigits(digits) && stem != [] && AllWordChars(stem) &&
        arg == lead + digits + gap + stem + trail && n == DigitsValue(digits)
  {
    var lead, digits, rest := GenericAmountParts(arg);
    var gap, stem, trail := GenericStemParts(rest);
    assert ParseGeneric(arg).value == (DigitsValue(digits), stem);
    Regroup5(lead, digits, gap, stem, trail);
  }

  // ---------------------------------------------------------------------------
  // One option line

  // The argument of `zero`/`count`: the default without one, else a value line.
  function SpecialArg(arg: Option<string>): Result<Special, Error> {
    match arg
    case None => Ok(Default)
    case Some(a) =>
      match ParseValue(a)
      case Err(e) => Err(e)
      case Ok(v) => Ok(Given(v))
  }

  // What a recognized option line sets, once its argument has been checked.
  datatype Setting =
    | SetBitvector(bitvector: string)
    | SetBitwise
    | SetCount(count: Special)
    | SetGeneric(amount: nat, stem: string)
    | SetInvalid(invalid: string)
    | SetNameOverride
    | SetNameUpdater
    | SetPrefix(prefix: string)
    | SetZero(zero: Special)

  // The argument checks of option `option` (known to be recognized), in the
  // order the source makes them after its duplicate check.
  function CheckArgument(enumName: string, option: string, arg: Option<string>): Result<Setting, Error>
    requires option in Known
  {
    if option == "bitvector" then
      if arg.None? then Err(ArgumentRequired(option, enumName)) else Ok(SetBitvector(arg.value))
    else if option == "bitwise" then
      if arg.Some? then Err(ArgumentNotSupported(option, enumName)) else Ok(SetBitwise)
    else if option == "count" then
      match SpecialArg(arg)
      case Err(e) => Err(e)
      case Ok(c) => Ok(SetCount(c))
    else if option == "generic" then
      if !Truthy(arg) then Err(ArgumentRequired(option, enumName))
      else
        match ParseGeneric(arg.value)
        case None => Err(MalformedArgument(option, enumName))
        case Some((amount, stem)) =>
          if amount == 0 then Err(AmountNotPositive(option, enumName))
          else Ok(SetGeneric(amount, stem))
    else if option == "invalid" then
      if arg.None? then Err(ArgumentRequired(option, enumName)) else Ok(SetInvalid(arg.value))
    else if option == "name-override" then
      if arg.Some? then Err(ArgumentNotSupported(option, enumName)) else Ok(SetNameOverride)
    else if option == "name-updater" then
      if arg.Some? then Err(ArgumentNotSupported(option, enumName)) else Ok(SetNameUpdater)
    else if option == "prefix" then
      if !Truthy(arg) then Err(ArgumentRequired(option, enumName)) else Ok(SetPrefix(arg.value))
    else
      match SpecialArg(arg)
      case Err(e) => Err(e)
      case Ok(z) => Ok(SetZero(z))
  }

  // The name of the option a setting belongs to.
  function SettingName(s: Setting): string {
    match s
    case SetBitvector(_) => "bitvector"
    case SetBitwise => "bitwise"
    case SetCount(_) => "count"
    case SetGeneric(_, _) => "generic"
    case SetInvalid(_) => "invalid"
    case SetNameOverride => "name-override"
    case SetNameUpdater => "name-updater"
    case SetPrefix(_) => "prefix"
    case SetZero(_) => "zero"
  }

  // Stores a setting in its field(s).
  function Store(o: Options, s: Setting): Options {
    match s
    case SetBitvector(b) => o.(bitvector := Some(b))
    case SetBitwise => o.(bitwise := true)
    case SetCount(c) => o.(count := Some(c))
    case SetGeneric(n, stem) => o.(genericAmount := n, genericStem := stem)
    case SetInvalid(v) => o.(invalid := Some(v))
    case SetNameOverride => o.(nameOverride := true)
    case SetNameUpdater => o.(nameUpdater := true)
    case SetPrefix(p) => o.(prefix := p)
    case SetZero(z) => o.(zero := Some(z))
  }

  // One turn of the option loop on `line`, for the enum called `enumName`:
  // the line must match the option pattern; a recognized option already set is
  // a duplicate; otherwise its argument is checked and its value stored.
  function ApplyOption(enumName: string, o: Options, line: string): Result<Options, Error> {
    match ParseHead(line, true)
    case None => Err(MalformedOption(enumName, Trim(line)))
    case Some(Head(option, arg)) =>
      if option !in Known then Err(UnrecognizedOption(option, enumName))
      else if IsSet(o, option) then Err(DuplicateOption(option, enumName))
      else
        match CheckArgument(enumName, option, arg)
        case Err(e) => Err(e)
        case Ok(s) => Ok(Store(o, s))
  }

  // The settings `CheckArgument` accepts belong to the option checked, and
  // those that store a string store a non-empty one.
  lemma CheckArgumentNames(enumName: string, option: string, arg: Option<string>)
    requires option in Known && CheckArgument(enumName, option, arg).Ok?
    ensures SettingName(CheckArgument(enumName, option, arg).value) == option
    ensures var s := CheckArgument(enumName, option, arg).value;
      (s.SetPrefix? ==> s.prefix != "") && (s.SetGeneric? ==> s.amount != 0)
  {
  }

  // The rules of one option line, option by option (for an option not yet
  // set; ApplyOptionContextFree covers the duplicates).

  // A line that is not an option line, and an unknown option name, are errors.
  lemma ApplyOptionRejects(enumName: string, o: Options, line: string)
    ensures ParseHead(line, true).None? ==>
      ApplyOption(enumName, o, line) == Err(MalformedOption(enumName, Trim(line)))
    ensures ParseHead(line, true).Some? && ParseHead(line, true).value.word !in Known ==>
      ApplyOption(enumName, o, line) == Err(UnrecognizedOption(ParseHead(line, true).value.word, enumName))
  {
  }

  // `bitwise`, `name-override` and `name-updater` are flags: they refuse an
  // argument and otherwise switch their field on.
  lemma ApplyOptionFlag(enumName: string, o: Options, line: string, w: string, arg: Option<string>)
    requires ParseHead(line, true) == Some(Head(w, arg)) && w in {"bitwise", "name-override", "name-updater"}
    requires !IsSet(o, w)
    ensures arg.Some? ==> ApplyOption(enumName, o, line) == Err(ArgumentNotSupported(w, enumName))
    ensures arg.None? ==>
      (ApplyOption(enumName, o, line) ==
       Ok(if w == "bitwise" then o.(bitwise := true)
          else if w == "name-override" then o.(nameOverride := true)
          else o.(nameUpdater := true)))
  {
  }

  // `bitvector`, `invalid` and `prefix` require an argument and store it.
  lemma ApplyOptionText(enumName: string, o: Options, line: string, w: string, arg: Option<string>)
    requires ParseHead(line, true) == Some(Head(w, arg)) && w in {"bitvector", "invalid", "prefix"}
    requires !IsSet(o, w)
    ensures arg.None? ==> ApplyOption(enumName, o, line) == Err(ArgumentRequired(w, enumName))
    ensures arg.Some? ==>
      (ApplyOption(enumName, o, line) ==
       Ok(if w == "bitvector" then o.(bitvector := arg)
          else if w == "invalid" then o.(invalid := arg)
          else o.(prefix := arg.value)))
  {
    if arg.Some? {
      ParseHeadSound(line, true);
    }
  }

  // `generic` requires an argument of the generic shape with a positive amount,
  // and stores the amount and the stem.
  lemma ApplyOptionGeneric(enumName: string, o: Options, line: string, arg: Option<string>)
    requires ParseHead(line, true) == Some(Head("generic", arg)) && !IsSet(o, "generic")
    ensures arg.None? ==> ApplyOption(enumName, o, line) == Err(ArgumentRequired("generic", enumName))
    ensures arg.Some? && ParseGeneric(arg.value).None? ==>
      ApplyOption(enumName, o, line) == Err(MalformedArgument("generic", enumName))
    ensures arg.Some? && ParseGeneric(arg.value).Some? && ParseGeneric(arg.value).value.0 == 0 ==>
      ApplyOption(enumName, o, line) == Err(AmountNotPositive("generic", enumName))
    ensures arg.Some? && ParseGeneric(arg.value).Some? && ParseGeneric(arg.value).value.0 != 0 ==>
      var (amount, stem) := ParseGeneric(arg.value).value;
      ApplyOption(enumName, o, line) == Ok(o.(genericAmount := amount, genericStem := stem))
  {
    if arg.Some? {
      ParseHeadSound(line, true);
    }
  }

  // Sets the field of `zero` or `count`.
  function SetSpecial(o: Options, w: string, sp: Special): Options {
    if w == "zero" then o.(zero := Some(sp)) else o.(count := Some(sp))
  }

  // `zero` and `count` take the built-in default without an argument, and
  // otherwise a value line, whose error they raise.
  lemma ApplyOptionSpecial(enumName: string, o: Options, line: string, w: string, arg: Option<string>)
    requires ParseHead(line, true) == Some(Head(w, arg)) && w in {"zero", "count"}
    requires !IsSet(o, w)
    ensures arg.None? ==> ApplyOption(enumName, o, line) == Ok(SetSpecial(o, w, Default))
    ensures arg.Some? && ParseValue(arg.value).Err? ==>
      ApplyOption(enumName, o, line) == Err(InvalidValue(arg.value))
    ensures arg.Some? && ParseValue(arg.value).Ok? ==>
      ApplyOption(enumName, o, line) == Ok(SetSpecial(o, w, Given(ParseValue(arg.value).value)))
  {
  }

  // Storing a setting sets its option and touches no other option.
  lemma StoreFrame(o: Options, s: Setting, w: string)
    requires s.SetPrefix? ==> s.prefix != ""
    requires s.SetGeneric? ==> s.amount != 0
    ensures IsSet(Store(o, s), SettingName(s))
    ensures w != SettingName(s) ==> IsSet(Store(o, s), w) == IsSet(o, w) && SameField(Store(o, s), o, w)
  {
    if w != SettingName(s) {
      assert SameField(Store(o, s), o, w) by {
        match s
        case SetBitvector(b) =>
        case SetBitwise =>
        case SetCount(c) =>
        case SetGeneric(n, stem) =>
        case SetInvalid(v) =>
        case SetNameOverride =>
        case SetNameUpdater =>
        case SetPrefix(p) =>
        case SetZero(z) =>
      }
      SameFieldIsSet(Store(o, s), o, w);
    }
  }

  // Options agreeing on the fields of `w` agree on whether `w` is set.
  lemma SameFieldIsSet(a: Options, b: Options, w: string)
    requires SameField(a, b, w)
    ensures IsSet(a, w) == IsSet(b, w)
  {
  }

  // The field(s) a setting stores do not depend on what was there before.
  lemma StoreOwnField(a: Options, b: Options, s: Setting)
    ensures SameField(Store(a, s), Store(b, s), SettingName(s))
  {
  }

  // The option name of a line ("" for a line that is not an option line).
  function OptionName(line: string): string {
    match ParseHead(line, true)
    case None => ""
    case Some(h) => h.word
  }

  // The option `w` has been set in `o`.
  predicate IsSet(o: Options, w: string) {
    if w == "bitvector" then o.bitvector.Some?
    else if w == "bitwise" then o.bitwise
    else if w == "count" then o.count.Some?
    else if w == "generic" then o.genericAmount != 0
    else if w == "invalid" then o.invalid.Some?
    else if w == "name-override" then o.nameOverride
    else if w == "name-updater" then o.nameUpdater
    else if w == "prefix" then o.prefix != ""
    else if w == "zero" then o.zero.Some?
    else false
  }

  // `a` and `b` agree on the field(s) that option `w` sets.
  predicate SameField(a: Options, b: Options, w: string) {
    if w == "bitvector" then a.bitvector == b.bitvector
    else if w == "bitwise" then a.bitwise == b.bitwise
    else if w == "count" then a.count == b.count
    else if w == "generic" then a.genericAmount == b.genericAmount && a.genericStem == b.genericStem
    else if w == "invalid" then a.invalid == b.invalid
    else if w == "name-override" then a.nameOverride == b.nameOverride
    else if w == "name-updater" then a.nameUpdater == b.nameUpdater
    else if w == "prefix" then a.prefix == b.prefix
    else if w == "zero" then a.zero == b.zero
    else true
  }

  // Options agreeing on every option's fields are equal.
  lemma SameFieldsEqual(a: Options, b: Options)
    requires forall w :: w in Known ==> SameField(a, b, w)
    ensures a == b
  {
    assert SameField(a, b, "bitvector") && SameField(a, b, "bitwise") && SameField(a, b, "count");
    assert SameField(a, b, "generic") && SameField(a, b, "invalid") && SameField(a, b, "name-override");
    assert SameField(a, b, "name-updater") && SameField(a, b, "prefix") && SameField(a, b, "zero");
  }

  // An option line does the same thing whatever came before it, unless its
  // option was set already: then it is a duplicate. A line that succeeds sets
  // its own option and leaves every other option as it was.
  lemma ApplyOptionContextFree(enumName: string, o: Options, line: string)
    ensures var w := OptionName(line);
      var r := ApplyOption(enumName, o, line);
      var alone := ApplyOption(enumName, NoOptions, line);
      (w in Known && IsSet(o, w) ==> r == Err(DuplicateOption(w, enumName))) &&
      (!(w in Known && IsSet(o, w)) ==>
        r.Ok? == alone.Ok? &&
        (r.Err? ==> r == alone) &&
        (r.Ok? ==>
          w in Known && IsSet(r.value, w) && SameField(r.value, alone.value, w) &&
          forall w' :: w' != w ==> IsSet(r.value, w') == IsSet(o, w') && SameField(r.value, o, w')))
  {
    var w := OptionName(line);
    if ParseHead(line, true).Some? && w in Known && !IsSet(o, w) {
      var arg := ParseHead(line, true).value.arg;
      assert !IsSet(NoOptions, w);
      var c := CheckArgument(enumName, w, arg);
      if c.Ok? {
        CheckArgumentNames(enumName, w, arg);
        forall w' | w' != w
          ensures IsSet(Store(o, c.value), w') == IsSet(o, w') && SameField(Store(o, c.value), o, w')
        {
          StoreFrame(o, c.value, w');
        }
        StoreFrame(o, c.value, w);
        StoreOwnField(o, NoOptions, c.value);
      }
    }
  }

  // ---------------------------------------------------------------------------
  // The option loop

  // The loop over the option lines, stopping at the first error.
  function FoldOptions(enumName: string, lines: seq<string>): Result<Options, Error> {
    if lines == [] then Ok(NoOptions)
    else
      match FoldOptions(enumName, lines[..|lines| - 1])
      case Err(e) => Err(e)
      case Ok(o) => ApplyOption(enumName, o, lines[|lines| - 1])
  }

  // Each option line is acceptable on its own.
  predicate AllAcceptable(enumName: string, lines: seq<string>) {
    forall i :: 0 <= i < |lines| ==> ApplyOption(enumName, NoOptions, lines[i]).Ok?
  }

  // No option name repeats.
  predicate DistinctOptions(lines: seq<string>) {
    forall i, j :: 0 <= i < j < |lines| ==> OptionName(lines[i]) != OptionName(lines[j])
  }

  predicate AcceptableOptions(enumName: string, lines: seq<string>) {
    AllAcceptable(enumName, lines) && DistinctOptions(lines)
  }

  // Some line of `lines` names option w.
  predicate Names(lines: seq<string>, w: string) {
    exists i :: 0 <= i < |lines| && OptionName(lines[i]) == w
  }

  // Every line's option holds the value that line sets on its own.
  predicate CollectedFields(enumName: string, o: Options, lines: seq<string>)
    requires AllAcceptable(enumName, lines)
  {
    forall i :: 0 <= i < |lines| ==>
      SameField(o, ApplyOption(enumName, NoOptions, lines[i]).value, OptionName(lines[i]))
  }

  // Exactly the options the lines name are set; the others keep their defaults.
  predicate CollectedNames(o: Options, lines: seq<string>) {
    forall w :: w in Known ==>
      (IsSet(o, w) <==> Names(lines, w)) && (!Names(lines, w) ==> SameField(o, NoOptions, w))
  }

  // The options collected from `lines` are the ones their lines set, each
  // option as its own line sets it, and the defaults for the others.
  predicate Collected(enumName: string, o: Options, lines: seq<string>)
    requires AllAcceptable(enumName, lines)
  {
    CollectedFields(enumName, o, lines) && CollectedNames(o, lines)
  }

  // The option loop succeeds exactly when every line is acceptable on its own
  // and no option is given twice; it then yields what the lines set.
  lemma {:induction false} FoldOptionsAcceptable(enumName: string, lines: seq<string>)
    ensures FoldOptions(enumName, lines).Ok? <==> AcceptableOptions(enumName, lines)
    ensures FoldOptions(enumName, lines).Ok? ==> Collected(enumName, FoldOptions(enumName, lines).value, lines)
  {
    if lines != [] {
      var n := |lines| - 1;
      var front := lines[..n];
      var line := lines[n];
      FoldOptionsAcceptable(enumName, front);
      assert forall i :: 0 <= i < n ==> front[i] == lines[i];
      var w := OptionName(line);
      ApplyOptionContextFree(enumName, NoOptions, line);
      if FoldOptions(enumName, front).Ok? {
        var o := FoldOptions(enumName, front).value;
        ApplyOptionContextFree(enumName, o, line);
        var r := ApplyOption(enumName, o, line);
        if w in Known && IsSet(o, w) {
          var i :| 0 <= i < n && OptionName(front[i]) == w;
          assert !AcceptableOptions(enumName, lines) by {
            assert OptionName(lines[i]) == OptionName(lines[n]);
          }
        } else if r.Ok? {
          assert w in Known;
          assert forall i :: 0 <= i < n ==> OptionName(lines[i]) != w by {
            assert !Names(front, w);
            forall i | 0 <= i < n
              ensures OptionName(lines[i]) != w
            {
              assert front[i] == lines[i];
            }
          }
          AcceptableStep(enumName, lines);
          CollectedFieldsStep(enumName, o, r.value, lines);
          CollectedNamesStep(o, r.value, lines);
        } else {
          assert !ApplyOption(enumName, NoOptions, lines[n]).Ok?;
        }
      } else {
        assert !AcceptableOptions(enumName, lines) by {
          if AcceptableOptions(enumName, lines) {
            assert AcceptableOptions(enumName, front);
          }
        }
      }
    }
  }

  // Appending a line that is acceptable on its own and names a new option.
  lemma AcceptableStep(enumName: string, lines: seq<string>)
    requires lines != []
    requires AcceptableOptions(enumName, lines[..|lines| - 1])
    requires ApplyOption(enumName, NoOptions, lines[|lines| - 1]).Ok?
    requires forall i :: 0 <= i < |lines| - 1 ==> OptionName(lines[i]) != OptionName(lines[|lines| - 1])
    ensures AcceptableOptions(enumName, lines)
  {
    AllAcceptableSnoc(enumName, lines);
    DistinctSnoc(lines);
  }

  lemma AllAcceptableSnoc(enumName: string, lines: seq<string>)
    requires lines != []
    requires AllAcceptable(enumName, lines[..|lines| - 1])
    requires ApplyOption(enumName, NoOptions, lines[|lines| - 1]).Ok?
    ensures AllAcceptable(enumName, lines)
  {
    var n := |lines| - 1;
    forall i | 0 <= i < |lines|
      ensures ApplyOption(enumName, NoOptions, lines[i]).Ok?
    {
      if i < n {
        assert lines[..n][i] == lines[i];
      }
    }
  }

  lemma DistinctSnoc(lines: seq<string>)
    requires lines != []
    requires DistinctOptions(lines[..|lines| - 1])
    requires forall i :: 0 <= i < |lines| - 1 ==> OptionName(lines[i]) != OptionName(lines[|lines| - 1])
    ensures DistinctOptions(lines)
  {
    var n := |lines| - 1;
    forall i, j | 0 <= i < j < |lines|
      ensures OptionName(lines[i]) != OptionName(lines[j])
    {
      if j < n {
        assert lines[..n][i] == lines[i] && lines[..n][j] == lines[j];
      }
    }
  }

  lemma SameFieldTrans(a: Options, b: Options, c: Options, w: string)
    requires SameField(a, b, w) && SameField(b, c, w)
    ensures SameField(a, c, w)
  {
  }

  // The values already collected survive a line that sets another option.
  lemma CollectedFieldsStep(enumName: string, o: Options, o': Options, lines: seq<string>)
    requires lines != []
    requires AllAcceptable(enumName, lines)
    requires CollectedFields(enumName, o, lines[..|lines| - 1])
    requires var w := OptionName(lines[|lines| - 1]);
      (forall i :: 0 <= i < |lines| - 1 ==> OptionName(lines[i]) != w) &&
      SameField(o', ApplyOption(enumName, NoOptions, lines[|lines| - 1]).value, w) &&
      (forall w' :: w' != w ==> SameField(o', o, w'))
    ensures CollectedFields(enumName, o', lines)
  {
    var n := |lines| - 1;
    forall i | 0 <= i < n
      ensures SameField(o', ApplyOption(enumName, NoOptions, lines[i]).value, OptionName(lines[i]))
    {
      assert lines[..n][i] == lines[i];
      SameFieldTrans(o', o, ApplyOption(enumName, NoOptions, lines[i]).value, OptionName(lines[i]));
    }
  }

  lemma NamesSnoc(lines: seq<string>, w: string)
    requires lines != []
    ensures Names(lines, w) <==> Names(lines[..|lines| - 1], w) || OptionName(lines[|lines| - 1]) == w
  {
    var n := |lines| - 1;
    if Names(lines, w) && OptionName(lines[n]) != w {
      var i :| 0 <= i < |lines| && OptionName(lines[i]) == w;
      assert lines[..n][i] == lines[i];
    }
    if Names(lines[..n], w) {
      var i :| 0 <= i < n && OptionName(lines[..n][i]) == w;
      assert lines[..n][i] == lines[i];
    }
  }

  // The set options grow by the option of the new line.
  lemma CollectedNamesStep(o: Options, o': Options, lines: seq<string>)
    requires lines != []
    requires CollectedNames(o, lines[..|lines| - 1])
    requires var w := OptionName(lines[|lines| - 1]);
      w in Known && IsSet(o', w) &&
      (forall w' :: w' != w ==> IsSet(o', w') == IsSet(o, w') && SameField(o', o, w'))
    ensures CollectedNames(o', lines)
  {
    var n := |lines| - 1;
    var w := OptionName(lines[n]);
    forall w' | w' in Known
      ensures (IsSet(o', w') <==> Names(lines, w')) && (!Names(lines, w') ==> SameField(o', NoOptions, w'))
    {
      NamesSnoc(lines, w');
      if w' != w && !Names(lines, w') {
        SameFieldTrans(o', o, NoOptions, w');
      }
    }
  }
}
