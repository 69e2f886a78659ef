/** The compile-time parser: which parameters a format string takes. */
module FormatParameters {
  import opened Wrappers
  import opened Arguments
  import opened FormatGrammar

  // ---- What it computes ----

  /** Decimal digits as a number. */
  function Decimal(digits: string): nat
    requires All(IsDigit, digits)
  {
    if digits == [] then 0
    else 10 * Decimal(digits[..|digits| - 1]) + (digits[|digits| - 1] as int - '0' as int)
  }

  /** The parameters that a specification takes before its own. */
  function StarParams(width: Field, precision: Option<Field>): seq<ParamType> {
    (if width.Star? then [DynamicWidth] else []) +
    (if precision.Some? && precision.value.Star? then [DynamicPrecision] else [])
  }

  function OwnParam(precision: Option<Field>, terminal: char): ParamType
    requires precision.Some? ==> IsField(precision.value)
  {
    if terminal != 's' then NonString
    else match precision
      case None => StringWithNoPrecision
      case Some(Star) => StringWithDynamicPrecision
      case Some(Digits(digits)) => StringWithPrecision(Decimal(digits))
  }

  /** The parameters up to a specification that is refused, and whether there is none such. */
  datatype Listing = Listing(params: seq<ParamType>, ok: bool)

  predicate EndsWell(rest: string) {
    rest != [] && IsTerminal(rest[0]) && rest[0] != 'n'
  }

  function Params(s: string): Listing
    decreases |s|
  {
    if s == [] then Listing([], true)
    else if s[0] != '%' then Params(s[1..])
    else if |s| > 1 && s[1] == '%' then Params(s[2..])
    else
      var c := ScanSpec(s[1..]);
      ScanKeepsText(s[1..]);
      if !EndsWell(c.rest) then Listing(StarParams(c.width, c.precision), false)
      else
        var later := Params(c.rest[1..]);
        Listing(StarParams(c.width, c.precision) + [OwnParam(c.precision, c.rest[0])] + later.params, later.ok)
  }

  /** What asking for one parameter of a listing gives: the parameter, an exception, or the mark that
      there are no more. */
  datatype Outcome = Found(param: ParamType) | Thrown

  function Lookup(l: Listing, n: nat): Outcome {
    if n < |l.params| then Found(l.params[n])
    else if l.ok then Found(Invalid)
    else Thrown
  }

  // ---- The parser ----

  /** The character at a position, or the terminator of the string. */
  function At(fmt: string, pos: nat): char
    requires pos <= |fmt|
  {
    if pos < |fmt| then fmt[pos] else '\0'
  }

  /** Passes over the characters that satisfy `p`, which the terminator does not. */
  method Skip(p: char -> bool, fmt: string, pos: nat) returns (end: nat)
    requires pos <= |fmt| && !p('\0')
    ensures end <= |fmt| && end == pos + |Run(p, fmt[pos..])|
  {
    end := pos;
    while p(At(fmt, end))
      invariant pos <= end <= |fmt|
      invariant end - pos + |Run(p, fmt[end..])| == |Run(p, fmt[pos..])|
      decreases |fmt| - end
    {
      assert fmt[end..][1..] == fmt[end + 1..] && fmt[end..][0] == fmt[end];
      end := end + 1;
    }
    assert end < |fmt| ==> fmt[end..][0] == fmt[end];
  }

  /** What comes behind `n` characters. */
  lemma {:induction false} AfterRun(fmt: string, pos: nat, end: nat, n: nat)
    requires pos <= |fmt| && end == pos + n <= |fmt|
    ensures fmt[end..] == fmt[pos..][n..]
    ensures At(fmt, end) == if fmt[end..] == [] then '\0' else fmt[end..][0]
  {
  }

  /** Digits, with their value. */
  method SkipDigits(fmt: string, pos: nat) returns (value: nat, end: nat)
    requires pos <= |fmt|
    ensures end <= |fmt| && end == pos + |Run(IsDigit, fmt[pos..])|
    ensures All(IsDigit, Run(IsDigit, fmt[pos..])) && value == Decimal(Run(IsDigit, fmt[pos..]))
  {
    value, end := 0, pos;
    ghost var digits := Run(IsDigit, fmt[pos..]);
    while IsDigit(At(fmt, end))
      invariant pos <= end <= pos + |digits| && end <= |fmt| && value == Decimal(digits[..end - pos])
      decreases |fmt| - end
    {
      assert fmt[end] == fmt[pos..][end - pos];
      assert end - pos < |digits|;
      assert digits[..end + 1 - pos][..end - pos] == digits[..end - pos];
      value := 10 * value + (At(fmt, end) as int - '0' as int);
      end := end + 1;
    }
    forall k | pos <= k < pos + |digits| ensures IsDigit(fmt[k]) { assert digits[k - pos] == fmt[pos..][k - pos]; }
    assert digits[..end - pos] == digits;
  }

  /** A width or what follows the '.' of a precision, with its value if it has one. */
  method SkipField(fmt: string, pos: nat) returns (star: bool, value: nat, end: nat)
    requires pos <= |fmt|
    ensures end <= |fmt| && fmt[end..] == AfterField(fmt[pos..])
    ensures var f := ScanField(fmt[pos..]); star == f.Star? && IsField(f) && (!star ==> value == Decimal(f.digits))
  {
    AfterRun(fmt, pos, pos, 0);
    if At(fmt, pos) == '*' {
      AfterRun(fmt, pos, pos + 1, 1);
      return true, 0, pos + 1;
    }
    star := false;
    value, end := SkipDigits(fmt, pos);
    AfterRun(fmt, pos, end, |Run(IsDigit, fmt[pos..])|);
    hide Run, Decimal, All;
  }

  method SkipPrecision(fmt: string, pos: nat) returns (has: bool, star: bool, value: nat, end: nat)
    requires pos <= |fmt|
    ensures end <= |fmt| && fmt[end..] == AfterPrecision(fmt[pos..])
    ensures var p := ScanPrecision(fmt[pos..]);
            && has == p.Some? && star == (p.Some? && p.value.Star?) && (p.Some? ==> IsField(p.value))
            && (has && !star ==> value == Decimal(p.value.digits))
  {
    hide ScanField, AfterField, Decimal, IsField;
    AfterRun(fmt, pos, pos, 0);
    if At(fmt, pos) != '.' { return false, false, 0, pos; }
    AfterRun(fmt, pos, pos + 1, 1);
    has := true;
    star, value, end := SkipField(fmt, pos + 1);
  }

  lemma {:induction false} ScanIs(s: string)
    ensures ScanSpec(s).precision.Some? ==> IsField(ScanSpec(s).precision.value)
    ensures var c, s1 := ScanSpec(s), s[|Run(IsFlag, s)|..];
            var s2 := AfterField(s1);
            var s3 := AfterPrecision(s2);
            && c.width == ScanField(s1) && c.precision == ScanPrecision(s2)
            && c.rest == s3[|Run(IsLength, s3)|..]
  {
    ScanKeepsText(s);
  }

  /** From behind a '%' over flags, width and precision, unless one of them is the parameter asked
      for. */
  method ParseFields(fmt: string, pos: nat, paramNum: nat)
    returns (done: bool, r: Outcome, left: nat, has: bool, star: bool, value: nat, end: nat)
    requires pos <= |fmt|
    ensures var c := ScanSpec(fmt[pos..]); var stars := StarParams(c.width, c.precision);
            && (done <==> paramNum < |stars|)
            && (done ==> r == Found(stars[paramNum]))
            && (!done ==>
                  && left == paramNum - |stars| && has == c.precision.Some?
                  && star == (c.precision.Some? && c.precision.value.Star?)
                  && (c.precision.Some? ==> IsField(c.precision.value))
                  && (has && !star ==> value == Decimal(c.precision.value.digits))
                  && end <= |fmt| && c.rest == fmt[end..][|Run(IsLength, fmt[end..])|..])
  {
    NotTerminators();
    hide *;
    ScanIs(fmt[pos..]);
    ghost var c := ScanSpec(fmt[pos..]);
    StarsAre(c.width, c.precision);
    done, r, left, has, value := true, Thrown, paramNum, false, 0;
    end := Skip(IsFlag, fmt, pos);
    AfterRun(fmt, pos, end, |Run(IsFlag, fmt[pos..])|);
    star, value, end := SkipField(fmt, end);
    if star {
      if left == 0 { return true, Found(DynamicWidth), left, has, star, value, end; }
      left := left - 1;
    }
    has, star, value, end := SkipPrecision(fmt, end);
    if star {
      if left == 0 { return true, Found(DynamicPrecision), left, has, star, value, end; }
      left := left - 1;
    }
    done := false;
  }

  /** Everything from behind a '%' up to the next parameter asked for, or past the specification. */
  method ParseSpec(fmt: string, pos: nat, paramNum: nat) returns (done: bool, r: Outcome, left: nat, end: nat)
    requires pos <= |fmt|
    ensures var c := ScanSpec(fmt[pos..]); var stars := StarParams(c.width, c.precision);
            && (c.precision.Some? ==> IsField(c.precision.value))
            && (done <==> paramNum <= |stars| || !EndsWell(c.rest))
            && (paramNum < |stars| ==> r == Found(stars[paramNum]))
            && (paramNum >= |stars| && !EndsWell(c.rest) ==> r == Thrown)
            && (paramNum == |stars| && EndsWell(c.rest) ==> r == Found(OwnParam(c.precision, c.rest[0])))
            && (!done ==> left == paramNum - |stars| - 1 && end <= |fmt| && fmt[end..] == c.rest[1..])
  {
    NotTerminators();
    hide *;
    ScanIs(fmt[pos..]);
    ghost var c := ScanSpec(fmt[pos..]);
    EndIs(c.rest);
    var has: bool, star: bool, value: nat;
    done, r, left, has, star, value, end := ParseFields(fmt, pos, paramNum);
    if done { return; }
    var lengthAt := end;
    end := Skip(IsLength, fmt, end);
    AfterRun(fmt, lengthAt, end, |Run(IsLength, fmt[lengthAt..])|);
    done, r := ParseTerminal(At(fmt, end), left, c.precision, has, star, value);
    if !done {
      AfterRun(fmt, end, end + 1, 1);
      left, end := left - 1, end + 1;
    }
  }

  /** The end of a specification: refused, passed over, or the parameter asked for. */
  method ParseTerminal(c: char, left: nat, ghost p: Option<Field>, hasPrecision: bool, hasDynamicPrecision: bool, precision: nat)
    returns (done: bool, r: Outcome)
    requires p.Some? ==> IsField(p.value)
    requires hasPrecision == p.Some? && hasDynamicPrecision == (p.Some? && p.value.Star?)
    requires hasPrecision && !hasDynamicPrecision ==> precision == Decimal(p.value.digits)
    ensures done <==> left == 0 || !EndsWell([c])
    ensures !EndsWell([c]) ==> r == Thrown
    ensures left == 0 && EndsWell([c]) ==> r == Found(OwnParam(p, c))
  {
    done, r := true, Thrown;
    if !IsTerminal(c) || c == 'n' { return; }
    if left != 0 { return false, r; }
    if c != 's' { return true, Found(NonString); }
    if hasDynamicPrecision { return true, Found(StringWithDynamicPrecision); }
    if !hasPrecision { return true, Found(StringWithNoPrecision); }
    r := Found(StringWithPrecision(precision));
  }

  lemma {:induction false} StarsAre(width: Field, precision: Option<Field>)
    ensures var stars := StarParams(width, precision);
            var star, dynamic := width.Star?, precision.Some? && precision.value.Star?;
            && |stars| == (if star then 1 else 0) + (if dynamic then 1 else 0)
            && (star ==> stars[0] == DynamicWidth) && (dynamic ==> stars[|stars| - 1] == DynamicPrecision)
  {
  }

  lemma {:induction false} EndIs(rest: string)
    ensures EndsWell(rest) <==> EndsWell([if rest == [] then '\0' else rest[0]])
    ensures EndsWell(rest) ==> rest != []
  {
  }

  lemma {:induction false} NotTerminators()
    ensures !IsFlag('\0') && !IsLength('\0') && !IsTerminal('\0')
  {
  }

  /** getParamInfo: the type of one parameter. */
  method GetParamInfo(fmt: string, paramNum: nat) returns (r: Outcome)
    ensures r == Lookup(Params(fmt), paramNum)
  {
    hide ScanSpec, StarParams, OwnParam, IsTerminal;
    var left, pos := paramNum, 0;
    assert fmt[0..] == fmt;
    while pos < |fmt|
      invariant pos <= |fmt| && Lookup(Params(fmt[pos..]), left) == Lookup(Params(fmt), paramNum)
      decreases |fmt| - pos
    {
      ghost var s := fmt[pos..];
      if fmt[pos] != '%' {
        pos := pos + 1;
        assert s[1..] == fmt[pos..];
      } else {
        pos := pos + 1;
        assert s[1..] == fmt[pos..];
        if At(fmt, pos) == '%' {
          pos := pos + 1;
          assert s[2..] == fmt[pos..];
        } else {
          ghost var asked := left;
          var done, found, rest, end := ParseSpec(fmt, pos, left);
          LookupStep(s, asked);
          if done { return found; }
          left, pos := rest, end;
        }
      }
    }
    return Found(Invalid);
  }

  lemma {:induction false} LookupStep(s: string, n: nat)
    requires s != [] && s[0] == '%' && !(|s| > 1 && s[1] == '%')
    ensures var c := ScanSpec(s[1..]); var stars := StarParams(c.width, c.precision);
            && (c.precision.Some? ==> IsField(c.precision.value))
            && |c.rest| < |s|
            && (n < |stars| ==> Lookup(Params(s), n) == Found(stars[n]))
            && (n >= |stars| && !EndsWell(c.rest) ==> Lookup(Params(s), n) == Thrown)
            && (n == |stars| && EndsWell(c.rest) ==> Lookup(Params(s), n) == Found(OwnParam(c.precision, c.rest[0])))
            && (n > |stars| && EndsWell(c.rest) ==> Lookup(Params(s), n) == Lookup(Params(c.rest[1..]), n - |stars| - 1))
  {
    ParamsStep(s);
    hide *;
    var c := ScanSpec(s[1..]);
    LookupIs(Params(s), n);
    if EndsWell(c.rest) && n > |StarParams(c.width, c.precision)| {
      LookupIs(Params(c.rest[1..]), n - |StarParams(c.width, c.precision)| - 1);
    }
  }

  lemma {:induction false} LookupIs(l: Listing, n: nat)
    ensures Lookup(l, n) == if n < |l.params| then Found(l.params[n]) else if l.ok then Found(Invalid) else Thrown
  {
  }

  /** What a specification at the front of a string adds to the listing. */
  lemma {:induction false} ParamsStep(s: string)
    requires s != [] && s[0] == '%' && !(|s| > 1 && s[1] == '%')
    ensures var c := ScanSpec(s[1..]); var stars := StarParams(c.width, c.precision);
            && (c.precision.Some? ==> IsField(c.precision.value)) && |c.rest| < |s|
            && (EndsWell(c.rest) ==> c.rest != [])
            && Params(s) == if !EndsWell(c.rest) then Listing(stars, false)
                            else Listing(stars + [OwnParam(c.precision, c.rest[0])] + Params(c.rest[1..]).params,
                                         Params(c.rest[1..]).ok)
  {
    ScanKeepsText(s[1..]);
    EndIs(ScanSpec(s[1..]).rest);
    hide ScanSpec, StarParams, OwnParam, EndsWell, IsField, FieldText, PrecisionText, All;
  }

  // ---- Counting ----

  lemma {:induction false} NeverInvalid(s: string)
    ensures forall i :: 0 <= i < |Params(s).params| ==> Params(s).params[i] != Invalid
    decreases |s|
  {
    hide ScanSpec, EndsWell, OwnParam, StarParams;
    if s == [] {
    } else if s[0] != '%' {
      NeverInvalid(s[1..]);
    } else if |s| > 1 && s[1] == '%' {
      NeverInvalid(s[2..]);
    } else {
      ParamsStep(s);
      hide Params;
      var c := ScanSpec(s[1..]);
      StarsAre(c.width, c.precision);
      if EndsWell(c.rest) {
        OwnIsValid(c.precision, c.rest[0]);
        NeverInvalid(c.rest[1..]);
      }
    }
  }

  lemma {:induction false} OwnIsValid(precision: Option<Field>, terminal: char)
    requires precision.Some? ==> IsField(precision.value)
    ensures OwnParam(precision, terminal) != Invalid
  {
  }

  function NibblesNeeded(params: seq<ParamType>): nat {
    if params == [] then 0
    else
      var t := params[|params| - 1];
      NibblesNeeded(params[..|params| - 1]) + (if t.NonString? || t.DynamicPrecision? || t.DynamicWidth? then 1 else 0)
  }

  /** countFmtParams, with no result where it throws. */
  method CountFmtParams(fmt: string) returns (count: Option<nat>)
    ensures count == if Params(fmt).ok then Some(|Params(fmt).params|) else None
  {
    hide Params;
    NeverInvalid(fmt);
    var n := 0;
    var r := GetParamInfo(fmt, n);
    while r != Found(Invalid)
      invariant n <= |Params(fmt).params| && r == Lookup(Params(fmt), n)
      decreases |Params(fmt).params| - n
    {
      if r == Thrown { return None; }
      n := n + 1;
      r := GetParamInfo(fmt, n);
    }
    return Some(n);
  }

  /** getNumNibblesNeeded, with no result where it throws. */
  method GetNumNibblesNeeded(fmt: string) returns (numNibbles: Option<nat>)
    ensures numNibbles == if Params(fmt).ok then Some(NibblesNeeded(Params(fmt).params)) else None
  {
    hide Params;
    var count := CountFmtParams(fmt);
    if count == None { return None; }
    ghost var params := Params(fmt).params;
    var n := 0;
    for i := 0 to count.value
      invariant n == NibblesNeeded(params[..i])
    {
      var t := GetParamInfo(fmt, i);
      assert params[..i + 1][..i] == params[..i];
      if t.param.NonString? || t.param.DynamicPrecision? || t.param.DynamicWidth? { n := n + 1; }
    }
    assert params[..|params|] == params;
    return Some(n);
  }
}
