/** The decode-time parser: a format string cut into fragments with one specifier each. */
module MicroCode {
  import opened Wrappers
  import opened Formats
  import opened FormatGrammar

  // ---- Types ----

  /** The type behind a length modifier and a specifier, if the decoder knows one. */
  function FormatTypeOf(length: string, specifier: char): Option<FormatType> {
    if specifier in {'d', 'i'} then
      if length == "" then Some(Int)
      else if |length| == 2 && length[0] == 'h' then Some(SignedChar)
      else if |length| == 2 && length[0] == 'l' then Some(LongLong)
      else if length[0] == 'h' then Some(Short)
      else if length[0] == 'l' then Some(Long)
      else if length[0] == 'j' then Some(IntMax)
      else if length[0] == 'z' then Some(SizeT)
      else if length[0] == 't' then Some(PtrDiff)
      else None
    else if specifier in {'u', 'o', 'x', 'X'} then
      if length == "" then Some(UnsignedInt)
      else if |length| == 2 && length[0] == 'h' then Some(UnsignedChar)
      else if |length| == 2 && length[0] == 'l' then Some(UnsignedLongLong)
      else if length[0] == 'h' then Some(UnsignedShort)
      else if length[0] == 'l' then Some(UnsignedLong)
      else if length[0] == 'j' then Some(UintMax)
      else if length[0] == 'z' then Some(SizeT)
      else if length[0] == 't' then Some(PtrDiff)
      else None
    else if specifier == 's' then
      if length == "" then Some(CharPointer)
      else if length[0] == 'l' then Some(WideCharPointer)
      else None
    else if specifier == 'p' then
      if length == "" then Some(VoidPointer) else None
    else if specifier in {'f', 'F', 'e', 'E', 'g', 'G', 'a', 'A'} then
      if |length| == 1 && length[0] == 'L' then Some(LongDouble) else Some(Double)
    else if specifier == 'c' then
      if length == "" then Some(Int)
      else if length[0] == 'l' then Some(WInt)
      else None
    else None
  }

  // ---- The regular expression ----

  predicate IsRegexLength(length: string) {
    length in {"", "hh", "h", "l", "ll", "j", "z", "Z", "t", "L"}
  }

  /** The specifications that the regular expression describes. */
  predicate IsRegexSpec(spec: Spec) {
    && All(IsFlag, spec.flags)
    && IsField(spec.width) && (spec.width.Digits? && spec.width.digits != [] ==> spec.width.digits[0] != '0')
    && (spec.precision.Some? ==> IsField(spec.precision.value) && spec.precision.value != Digits(""))
    && IsRegexLength(spec.length)
    && IsTerminal(spec.terminal) && spec.terminal != '%'
  }

  /** The match of the regular expression at the front of a string. */
  function Match(s: string): Option<Spec> {
    if s == [] || s[0] != '%' then None
    else
      var c := ScanSpec(s[1..]);
      var z := c.length == "" && c.rest != [] && c.rest[0] == 'Z';
      var length, rest := if z then "Z" else c.length, if z then c.rest[1..] else c.rest;
      if c.precision == Some(Digits("")) || !IsRegexLength(length) || rest == [] || !IsTerminal(rest[0]) || rest[0] == '%'
      then None
      else Some(Spec(c.flags, c.width, c.precision, length, rest[0]))
  }

  function SpecSize(spec: Spec): nat { 1 + |AfterPercent(spec)| }

  lemma {:induction false} MatchIs(s: string)
    requires Match(s).Some?
    ensures s != [] && s[0] == '%'
    ensures var c, spec := ScanSpec(s[1..]), Match(s).value;
            && spec == Spec(c.flags, c.width, c.precision, spec.length, spec.terminal)
            && c.precision != Some(Digits("")) && IsRegexLength(spec.length)
            && IsTerminal(spec.terminal) && spec.terminal != '%'
            && |spec.length| + 1 <= |c.length| + |c.rest|
            && c.length + c.rest == spec.length + ([spec.terminal] + (c.length + c.rest)[|spec.length| + 1..])
  {
    hide ScanSpec, IsRegexLength, IsTerminal;
  }

  /** A match is a specification that the string begins with. */
  lemma {:induction false} MatchSound(s: string)
    requires Match(s).Some?
    ensures IsRegexSpec(Match(s).value) && "%" + AfterPercent(Match(s).value) <= s
  {
    hide ScanSpec, IsTerminal, FieldText, PrecisionText, IsField, All, Match, AfterPercent, IsRegexLength;
    MatchIs(s);
    ScanKeepsText(s[1..]);
    var c, spec := ScanSpec(s[1..]), Match(s).value;
    var rest := (c.length + c.rest)[|spec.length| + 1..];
    SpecText(spec, rest);
    assert s == "%" + s[1..] == ("%" + AfterPercent(spec)) + rest;
  }

  /** A string that begins with a specification is matched there, and by nothing else. */
  lemma {:induction false} MatchComplete(spec: Spec, rest: string)
    requires IsRegexSpec(spec)
    ensures Match("%" + AfterPercent(spec) + rest) == Some(spec)
  {
    hide *;
    RegexParts(spec);
    var s := "%" + AfterPercent(spec) + rest;
    assert s[1..] == AfterPercent(spec) + rest;
    if spec.length == "Z" { ScanBeforeZ(spec, rest); } else { ScanOfSpec(spec, rest); }
    MatchOfScan(s, spec, rest);
  }

  lemma {:induction false} RegexParts(spec: Spec)
    requires IsRegexSpec(spec)
    ensures All(IsFlag, spec.flags)
    ensures IsField(spec.width) && (spec.width.Digits? && spec.width.digits != [] ==> spec.width.digits[0] != '0')
    ensures spec.precision.Some? ==> IsField(spec.precision.value)
    ensures spec.precision != Some(Digits("")) && IsRegexLength(spec.length)
    ensures IsTerminal(spec.terminal) && spec.terminal != '%'
    ensures spec.length != "Z" ==> All(IsLength, spec.length)
  {
    hide IsTerminal, IsField;
    if spec.length != "Z" { RegexLengths(spec.length); }
  }

  lemma {:induction false} MatchOfScan(s: string, spec: Spec, rest: string)
    requires s != [] && s[0] == '%'
    requires spec.precision != Some(Digits("")) && IsRegexLength(spec.length)
    requires IsTerminal(spec.terminal) && spec.terminal != '%'
    requires ScanSpec(s[1..])
             == if spec.length == "Z" then
                  Scan(spec.flags, spec.width, spec.precision, "", "Z" + ([spec.terminal] + rest))
                else Scan(spec.flags, spec.width, spec.precision, spec.length, [spec.terminal] + rest)
    ensures Match(s) == Some(spec)
  {
    TerminalIsNotZ(spec.terminal);
    hide ScanSpec, IsTerminal, IsRegexLength;
    if spec.length == "Z" {
      var c := ScanSpec(s[1..]);
      assert c.rest[1..] == [spec.terminal] + rest;
    }
  }

  lemma {:induction false} RegexLengths(length: string)
    requires IsRegexLength(length) && length != "Z"
    ensures All(IsLength, length)
  {
  }

  lemma {:induction false} TerminalIsNotZ(c: char)
    requires IsTerminal(c)
    ensures c != 'Z'
  {
  }

  /** 'Z' is no length modifier for the scan, which stops in front of it. */
  lemma {:induction false} ScanBeforeZ(spec: Spec, rest: string)
    requires IsRegexSpec(spec) && spec.length == "Z"
    ensures ScanSpec(AfterPercent(spec) + rest)
            == Scan(spec.flags, spec.width, spec.precision, "", "Z" + ([spec.terminal] + rest))
  {
    var t3 := "Z" + ([spec.terminal] + rest);
    var t2 := PrecisionText(spec.precision) + t3;
    var t1 := FieldText(spec.width) + t2;
    SpecText(spec, rest);
    assert "" + t3 == t3;
    RunOf(IsLength, "", t3);
    CharacterKinds('Z');
    ZIsPlain();
    ScanPrecisionOf(spec.precision, t3);
    assert t2[0] == if spec.precision.None? then 'Z' else '.';
    ScanFieldOf(spec.width, t2);
    assert t1[0] == match spec.width case Star => '*' case Digits(d) => if d == [] then t2[0] else d[0];
    CharacterKinds(t1[0]);
    RunOf(IsFlag, spec.flags, t1);
    hide AfterPercent, FieldText, PrecisionText, ScanField, AfterField, ScanPrecision, AfterPrecision, Run, IsTerminal;
  }

  lemma {:induction false} ZIsPlain()
    ensures !IsFlag('Z') && !IsDigit('Z') && !IsLength('Z')
  {
  }

  // ---- Splitting ----

  /** The fragments of what is left of a format string and the text after the last of them.
      `percents` counts the '%' just passed, `text` is what the current fragment already has. */
  datatype Split = Split(fragments: seq<Fragment>, tail: string) | Refused

  /** What the loop does at a character: refuse the format, pass over some characters, or end a
      fragment behind a specification. */
  datatype Step = Refuse | Pass(size: nat, percents: nat) | Emit(size: nat, f: FormatType, width: bool, precision: bool)

  function StepAt(s: string, percents: nat): (step: Step)
    requires s != []
    ensures !step.Refuse? ==> 1 <= step.size <= |s|
  {
    if s[0] == '\\' then Pass(if |s| == 1 then 1 else 2, percents)
    else if s[0] != '%' then Pass(1, 0)
    else if (percents + 1) % 2 == 0 || Match(s).None? then Pass(1, percents + 1)
    else
      var spec := Match(s).value;
      MatchSize(s);
      match FormatTypeOf(spec.length, spec.terminal)
      case None => Refuse
      case Some(f) => Emit(SpecSize(spec), f, spec.width.Star?, spec.precision.Some? && spec.precision.value.Star?)
  }

  lemma {:induction false} MatchSize(s: string)
    requires Match(s).Some?
    ensures 1 <= SpecSize(Match(s).value) <= |s| && s[..SpecSize(Match(s).value)] == "%" + AfterPercent(Match(s).value)
  {
    MatchSound(s);
    hide Match, AfterPercent, IsRegexSpec;
  }

  function SplitFormat(s: string, percents: nat, text: string): Split
    decreases |s|
  {
    if s == [] then Split([], text)
    else match StepAt(s, percents)
      case Refuse => Refused
      case Pass(n, after) => SplitFormat(s[n..], after, text + s[..n])
      case Emit(n, f, width, precision) => Prepend(Fragment(f, width, precision, text + s[..n]), SplitFormat(s[n..], 0, ""))
  }

  function Prepend(f: Fragment, split: Split): Split {
    match split
    case Refused => Refused
    case Split(later, tail) => Split([f] + later, tail)
  }

  /** The last fragment takes the rest of the string; a string without specifiers is a fragment. */
  function Finished(split: Split): (r: Option<seq<Fragment>>)
    ensures r.Some? ==> r.value != []
  {
    match split
    case Refused => None
    case Split(fragments, tail) =>
      if fragments == [] then Some([Fragment(NoArgument, false, false, tail)])
      else
        var last := fragments[|fragments| - 1];
        Some(fragments[..|fragments| - 1] + [last.(text := last.text + tail)])
  }

  function FragmentsOf(s: string): Option<seq<Fragment>> {
    Finished(SplitFormat(s, 0, ""))
  }

  /** Nibbles for the arguments that are not strings and for dynamic widths and precisions. */
  function FragmentNibbles(f: Fragment): nat {
    (if f.argType.NoArgument? || IsStringType(f.argType) then 0 else 1) +
    (if f.dynamicWidth then 1 else 0) + (if f.dynamicPrecision then 1 else 0)
  }

  function AllNibblesOf(fragments: seq<Fragment>): nat {
    if fragments == [] then 0 else FragmentNibbles(fragments[0]) + AllNibblesOf(fragments[1..])
  }

  function Concat(fragments: seq<Fragment>): string {
    if fragments == [] then [] else fragments[0].text + Concat(fragments[1..])
  }

  /** Nothing of the text is lost or added. */
  lemma {:induction false} SplitKeepsText(s: string, percents: nat, text: string)
    requires SplitFormat(s, percents, text).Split?
    ensures var r := SplitFormat(s, percents, text); Concat(r.fragments) + r.tail == text + s
    decreases |s|
  {
    hide *;
    SplitStep(s, percents, text);
    if s == [] {
      NoText();
      assert text + s == text;
    } else {
      match StepAt(s, percents)
      case Refuse =>
      case Pass(n, after) =>
        SplitKeepsText(s[n..], after, text + s[..n]);
        assert text + s[..n] + s[n..] == text + s;
      case Emit(n, f, width, precision) =>
        var first, later := Fragment(f, width, precision, text + s[..n]), SplitFormat(s[n..], 0, "");
        PrependParts(first, later);
        SplitKeepsText(s[n..], 0, "");
        JoinsFirst(first, later, text, s, n);
    }
  }

  lemma {:induction false} JoinsFirst(f: Fragment, later: Split, text: string, s: string, n: nat)
    requires n <= |s| && f.text == text + s[..n]
    requires later.Split? && Concat(later.fragments) + later.tail == "" + s[n..]
    ensures var r := Prepend(f, later); r.Split? && Concat(r.fragments) + r.tail == text + s
  {
    hide *;
    ConcatFirst(f, later);
    JoinText(f.text, Concat(later.fragments), later.tail, s[n..]);
    WholeText(text, s, n);
  }

  lemma {:induction false} JoinText(head: string, middle: string, tail: string, rest: string)
    requires middle + tail == "" + rest
    ensures head + middle + tail == head + rest
  {
    assert "" + rest == rest;
  }

  lemma {:induction false} WholeText(text: string, s: string, n: nat)
    requires n <= |s|
    ensures text + s[..n] + s[n..] == text + s
  {
  }

  lemma {:induction false} NoText()
    ensures Concat([]) == ""
  {
  }

  lemma {:induction false} PrependParts(f: Fragment, split: Split)
    ensures Prepend(f, split).Refused? <==> split.Refused?
    ensures split.Split? ==> Prepend(f, split) == Split([f] + split.fragments, split.tail)
  {
  }

  /** One round of the loop. */
  lemma {:induction false} SplitStep(s: string, percents: nat, text: string)
    ensures s == [] ==> SplitFormat(s, percents, text) == Split([], text)
    ensures s != [] ==>
      match StepAt(s, percents)
      case Refuse => SplitFormat(s, percents, text) == Refused
      case Pass(n, after) => SplitFormat(s, percents, text) == SplitFormat(s[n..], after, text + s[..n])
      case Emit(n, f, width, precision) =>
        SplitFormat(s, percents, text)
        == Prepend(Fragment(f, width, precision, text + s[..n]), SplitFormat(s[n..], 0, ""))
  {
    hide StepAt, Prepend;
  }

  lemma {:induction false} ConcatFirst(f: Fragment, split: Split)
    requires split.Split?
    ensures Prepend(f, split).Split? && Prepend(f, split).tail == split.tail
    ensures Concat(Prepend(f, split).fragments) == f.text + Concat(split.fragments)
  {
    assert ([f] + split.fragments)[1..] == split.fragments;
  }

  /** For every format string that is not refused, the fragments put together are the format. */
  lemma {:induction false} FragmentsKeepText(s: string)
    requires FragmentsOf(s).Some?
    ensures Concat(FragmentsOf(s).value) == s
  {
    SplitKeepsText(s, 0, "");
    hide SplitFormat;
    var split := SplitFormat(s, 0, "");
    assert "" + s == s;
    if split.fragments != [] {
      ConcatLast(split.fragments, split.tail);
    } else {
      assert Concat([Fragment(NoArgument, false, false, split.tail)]) == split.tail + Concat([]);
    }
  }

  lemma {:induction false} ConcatLast(fragments: seq<Fragment>, tail: string)
    requires fragments != []
    ensures var last := fragments[|fragments| - 1];
            Concat(fragments[..|fragments| - 1] + [last.(text := last.text + tail)]) == Concat(fragments) + tail
  {
    var last := fragments[|fragments| - 1];
    var r := fragments[..|fragments| - 1] + [last.(text := last.text + tail)];
    if |fragments| == 1 {
      assert r[1..] == [] && fragments[1..] == [];
    } else {
      ConcatLast(fragments[1..], tail);
      assert r[1..] == fragments[1..][..|fragments| - 2] + [last.(text := last.text + tail)];
    }
  }

  // ---- The parser ----

  function Continue(done: seq<Fragment>, split: Split): Split {
    match split
    case Refused => Refused
    case Split(later, tail) => Split(done + later, tail)
  }

  lemma {:induction false} ContinueOne(done: seq<Fragment>, f: Fragment, split: Split)
    ensures Continue(done, Prepend(f, split)) == Continue(done + [f], split)
  {
    if split.Split? { assert done + ([f] + split.fragments) == done + [f] + split.fragments; }
  }

  lemma {:induction false} ContinueParts(done: seq<Fragment>, split: Split)
    ensures Continue(done, split).Refused? <==> split.Refused?
    ensures split.Split? ==> Continue(done, split) == Split(done + split.fragments, split.tail)
    ensures done == [] ==> Continue(done, split) == split
  {
  }

  lemma {:induction false} NibblesAppend(fragments: seq<Fragment>, f: Fragment)
    ensures AllNibblesOf(fragments + [f]) == AllNibblesOf(fragments) + FragmentNibbles(f)
  {
    hide FragmentNibbles;
    if fragments == [] {
      assert [f][1..] == [];
    } else {
      NibblesAppend(fragments[1..], f);
      assert (fragments + [f])[1..] == fragments[1..] + [f];
    }
  }

  /** The loop of createMicroCode. `numNibbles` and `numPrintFragments` are counters of eight bits. */
  method SplitLoop(s: string)
    returns (ok: bool, fragments: seq<Fragment>, numNibbles: nat, numPrintFragments: nat, startOfNextFragment: nat)
    ensures ok <==> SplitFormat(s, 0, "").Split?
    ensures ok ==> startOfNextFragment <= |s| && SplitFormat(s, 0, "") == Split(fragments, s[startOfNextFragment..])
    ensures ok ==> numNibbles == AllNibblesOf(fragments) % 256 && numPrintFragments == |fragments| % 256
  {
    hide *;
    ok, fragments, numNibbles, numPrintFragments, startOfNextFragment := true, [], 0, 0, 0;
    var i, consecutivePercents := 0, 0;
    NoNibbles();
    ContinueParts([], SplitFormat(s, 0, ""));
    assert s[0..] == s && s[0..0] == "";
    while i < |s|
      invariant startOfNextFragment <= i <= |s|
      invariant Continue(fragments, SplitFormat(s[i..], consecutivePercents, s[startOfNextFragment..i]))
                == SplitFormat(s, 0, "")
      invariant numNibbles == AllNibblesOf(fragments) % 256 && numPrintFragments == |fragments| % 256
      decreases |s| - i
    {
      ghost var rest, text := s[i..], s[startOfNextFragment..i];
      SplitStep(rest, consecutivePercents, text);
      StepCases(rest, consecutivePercents);
      var m: Option<Spec> := Match(s[i..]);
      if s[i] == '\\' {
        var n := if i + 2 <= |s| then 2 else 1;
        Advance(s, startOfNextFragment, i, n);
        i := i + n;
      } else if s[i] != '%' {
        Advance(s, startOfNextFragment, i, 1);
        i, consecutivePercents := i + 1, 0;
      } else {
        consecutivePercents := consecutivePercents + 1;
        if consecutivePercents % 2 == 0 || m == None {
          Advance(s, startOfNextFragment, i, 1);
          i := i + 1;
        } else {
          consecutivePercents := 0;
          var size := SpecSize(m.value);
          var specType := FormatTypeOf(m.value.length, m.value.terminal);
          if specType == None {
            ContinueParts(fragments, Refused);
            return false, fragments, numNibbles, numPrintFragments, startOfNextFragment;
          }
          var width := m.value.width.Star?;
          var precision := m.value.precision.Some? && m.value.precision.value.Star?;
          Advance(s, startOfNextFragment, i, size);
          i := i + size;
          var pf := Fragment(specType.value, width, precision, s[startOfNextFragment..i]);
          ContinueOne(fragments, pf, SplitFormat(s[i..], 0, ""));
          NibblesAppend(fragments, pf);
          NibblesOfSpec(m.value, pf);
          numNibbles := CountNibbles(numNibbles, m.value.terminal, width, precision, AllNibblesOf(fragments));
          startOfNextFragment := i;
          fragments, numPrintFragments := fragments + [pf], (numPrintFragments + 1) % 256;
          assert s[i..i] == "";
        }
      }
    }
    SplitStep("", consecutivePercents, s[startOfNextFragment..]);
    assert s[i..] == "" && s[startOfNextFragment..i] == s[startOfNextFragment..];
    ContinueParts(fragments, Split([], s[startOfNextFragment..]));
  }

  lemma {:induction false} Advance(s: string, start: nat, i: nat, n: nat)
    requires start <= i <= i + n <= |s|
    ensures s[i..][n..] == s[i + n..] && s[start..i] + s[i..][..n] == s[start..i + n]
  {
  }

  method CountNibbles(numNibbles: nat, terminal: char, width: bool, precision: bool, ghost total: nat) returns (r: nat)
    requires numNibbles == total % 256
    ensures r == (total + (if terminal != 's' then 1 else 0) + (if width then 1 else 0) + (if precision then 1 else 0)) % 256
  {
    r := numNibbles;
    if terminal != 's' { r := (r + 1) % 256; }
    if width { r := (r + 1) % 256; }
    if precision { r := (r + 1) % 256; }
  }

  lemma {:induction false} NoNibbles()
    ensures AllNibblesOf([]) == 0
  {
  }

  lemma {:induction false} StepCases(s: string, percents: nat)
    requires s != []
    ensures s[0] == '\\' ==> StepAt(s, percents) == Pass(if |s| == 1 then 1 else 2, percents)
    ensures s[0] != '\\' && s[0] != '%' ==> StepAt(s, percents) == Pass(1, 0)
    ensures s[0] == '%' && ((percents + 1) % 2 == 0 || Match(s).None?) ==> StepAt(s, percents) == Pass(1, percents + 1)
    ensures s[0] == '%' && (percents + 1) % 2 != 0 && Match(s).Some? ==>
              var spec := Match(s).value; var f := FormatTypeOf(spec.length, spec.terminal);
              && 1 <= SpecSize(spec) <= |s|
              && (f.None? ==> StepAt(s, percents) == Refuse)
              && (f.Some? ==> StepAt(s, percents) == Emit(SpecSize(spec), f.value, spec.width.Star?,
                                                         spec.precision.Some? && spec.precision.value.Star?))
  {
    if s[0] == '%' && Match(s).Some? { MatchSize(s); }
    hide Match, FormatTypeOf, SpecSize;
  }

  /** Exactly the specifier 's' has a string type. */
  lemma {:induction false} StringTypes(length: string, specifier: char)
    requires FormatTypeOf(length, specifier).Some?
    ensures var f := FormatTypeOf(length, specifier).value;
            !f.NoArgument? && (IsStringType(f) <==> specifier == 's')
  {
  }

  lemma {:induction false} NibblesOfSpec(spec: Spec, f: Fragment)
    requires FormatTypeOf(spec.length, spec.terminal) == Some(f.argType)
    ensures FragmentNibbles(f)
            == (if spec.terminal != 's' then 1 else 0) + (if f.dynamicWidth then 1 else 0) + (if f.dynamicPrecision then 1 else 0)
  {
    StringTypes(spec.length, spec.terminal);
    hide FormatTypeOf;
  }

  // ---- What fragments take ----

  predicate TakeArguments(fragments: seq<Fragment>) {
    forall i :: 0 <= i < |fragments| ==> !fragments[i].argType.NoArgument?
  }

  lemma {:induction false} SplitTakes(s: string, percents: nat, text: string)
    ensures var r := SplitFormat(s, percents, text); r.Split? ==> TakeArguments(r.fragments)
    decreases |s|
  {
    hide *;
    SplitStep(s, percents, text);
    NoneTake();
    if s != [] {
      match StepAt(s, percents)
      case Refuse =>
      case Pass(n, after) => SplitTakes(s[n..], after, text + s[..n]);
      case Emit(n, f, width, precision) =>
        var later := SplitFormat(s[n..], 0, "");
        SplitTakes(s[n..], 0, "");
        PrependParts(Fragment(f, width, precision, text + s[..n]), later);
        EmitTakes(s, percents);
        if later.Split? { AlsoTakes(Fragment(f, width, precision, text + s[..n]), later.fragments); }
    }
  }

  lemma {:induction false} NoneTake()
    ensures TakeArguments([])
  {
  }

  lemma {:induction false} AlsoTakes(f: Fragment, fragments: seq<Fragment>)
    requires !f.argType.NoArgument? && TakeArguments(fragments)
    ensures TakeArguments([f] + fragments)
  {
  }

  lemma {:induction false} EmitTakes(s: string, percents: nat)
    requires s != [] && StepAt(s, percents).Emit?
    ensures !StepAt(s, percents).f.NoArgument?
  {
    StepCases(s, percents);
    if s[0] == '%' && Match(s).Some? && FormatTypeOf(Match(s).value.length, Match(s).value.terminal).Some? {
      StringTypes(Match(s).value.length, Match(s).value.terminal);
    }
    hide Match, FormatTypeOf, StepAt, SpecSize;
  }

  /** The fragments that read an argument: all, or none when there is only text. */
  function Reading(fragments: seq<Fragment>): seq<Fragment> {
    if |fragments| == 1 && fragments[0].argType.NoArgument? then [] else fragments
  }

  lemma {:induction false} FragmentsTake(s: string)
    requires FragmentsOf(s).Some?
    ensures var all := FragmentsOf(s).value;
            && TakeArguments(Reading(all)) && (|all| > 1 ==> Reading(all) == all)
            && (Reading(all) != all ==> !all[0].dynamicWidth && !all[0].dynamicPrecision)
  {
    SplitTakes(s, 0, "");
    hide SplitFormat;
  }

  /** createMicroCode. */
  method CreateMicroCode(s: string)
    returns (ok: bool, fragments: seq<Fragment>, numNibbles: nat, numPrintFragments: nat)
    ensures ok <==> FragmentsOf(s).Some?
    ensures ok ==> fragments == FragmentsOf(s).value
    ensures ok ==> numNibbles == AllNibblesOf(fragments) % 256 && numPrintFragments == |fragments| % 256
  {
    hide SplitFormat, AllNibblesOf;
    var start: nat;
    ok, fragments, numNibbles, numPrintFragments, start := SplitLoop(s);
    if !ok { return; }
    if fragments == [] {
      SplitKeepsText(s, 0, "");
      NoText();
      assert "" + s == s && "" + s[start..] == s[start..];
      fragments, numPrintFragments := [Fragment(NoArgument, false, false, s)], 1;
      NoNibbles();
      NibblesAppend([], fragments[0]);
      assert [] + fragments == fragments;
    } else {
      var pf := fragments[|fragments| - 1];
      ghost var before := fragments[..|fragments| - 1];
      assert fragments == before + [pf];
      NibblesAppend(before, pf);
      NibblesAppend(before, pf.(text := pf.text + s[start..]));
      fragments := fragments[..|fragments| - 1] + [pf.(text := pf.text + s[start..])];
    }
  }
}
