/** The background thread's side: two passes over the stored arguments, the first packing what is
    not a string, the second copying the strings. */
module ArgumentCompress {
  import opened Arithmetic
  import opened Bytes
  import opened Packing
  import opened Packer
  import opened Arguments

  /** What is known statically of an argument: its parameter and its type. */
  datatype Parameter = Parameter(kind: ParamType, ctype: CType)

  predicate Describes(params: seq<Parameter>, args: seq<Argument>) {
    && |params| == |args| && AllValid(args)
    && forall i :: 0 <= i < |args| ==> params[i] == Parameter(args[i].kind, args[i].ctype)
  }

  /** The stored arguments lie in `input` at `pos`. */
  predicate LiesAt(input: seq<byte>, pos: nat, data: seq<byte>) {
    pos + |data| <= |input| && input[pos..pos + |data|] == data
  }

  lemma {:induction false} LiesWhere(data: seq<byte>, pos: nat, bytes: seq<byte>)
    requires LiesAt(data, pos, bytes)
    ensures pos + |bytes| <= |data| && data[pos..pos + |bytes|] == bytes
  {
  }

  lemma {:induction false} LiesSplit(input: seq<byte>, pos: nat, first: seq<byte>, second: seq<byte>)
    requires LiesAt(input, pos, first + second)
    ensures LiesAt(input, pos, first) && LiesAt(input, pos + |first|, second)
  {
    var all := input[pos..pos + |first| + |second|];
    assert all[..|first|] == first && all[|first|..] == second;
  }

  /** What a pass emits and which tags it sets. */
  function Emitted(args: seq<Argument>, stringsOnly: bool): seq<byte>
    requires AllValid(args)
  {
    if stringsOnly then Texts(args) else PackedValues(args)
  }

  function Coded(args: seq<Argument>, stringsOnly: bool): seq<nat>
    requires AllValid(args)
  {
    if stringsOnly then [] else Tags(args)
  }

  /** How far beyond its start a pass may touch the output: when packing, three bytes more than the
      uncompressed arguments take; when copying strings, not beyond what it emits. */
  function Reach(args: seq<Argument>, stringsOnly: bool): nat
    requires AllValid(args)
  {
    if stringsOnly then |Texts(args)| else |Stored(args)| + 3
  }

  predicate AreNibbles(tags: seq<nat>) {
    forall i :: 0 <= i < |tags| ==> tags[i] < 16
  }

  function SetNibbles(nibbles: seq<byte>, count: nat, tags: seq<nat>): (r: seq<byte>)
    requires count + |tags| <= 2 * |nibbles| && AreNibbles(tags)
    ensures |r| == |nibbles|
    decreases |tags|
  {
    if tags == [] then nibbles else SetNibbles(SetNibble(nibbles, count, tags[0]), count + 1, tags[1..])
  }

  lemma {:induction false} SetNibblesHolds(nibbles: seq<byte>, count: nat, tags: seq<nat>)
    requires count + |tags| <= 2 * |nibbles| && AreNibbles(tags)
    ensures var r := SetNibbles(nibbles, count, tags);
            && (forall i: nat :: i < count ==> NibbleAt(r, i) == NibbleAt(nibbles, i))
            && (forall i: nat :: i < |tags| ==> NibbleAt(r, count + i) == tags[i])
    decreases |tags|
  {
    if tags != [] {
      var next := SetNibble(nibbles, count, tags[0]);
      SetNibblesHolds(next, count + 1, tags[1..]);
      hide SetNibble;
      var r := SetNibbles(nibbles, count, tags);
      forall i: nat | i < |tags| ensures NibbleAt(r, count + i) == tags[i] {
        if i == 0 { assert NibbleAt(r, count) == NibbleAt(next, count); }
        else { assert NibbleAt(r, count + 1 + (i - 1)) == tags[1..][i - 1]; }
      }
    }
  }

  lemma {:induction false} TagsFit(args: seq<Argument>)
    requires AllValid(args)
    ensures AreNibbles(Tags(args))
  {
    if args != [] {
      TagsFit(args[1..]);
      CodeFits(args[0]);
    }
  }

  /** Reads a variable of the given type back from its bytes. */
  function FromRaw(ctype: CType, data: seq<byte>): Datum
    requires ctype.Valid() && |data| == ctype.Size()
  {
    match ctype
    case Integer(t) => Number(t.Cast(Value(data)))
    case Pointer => Address(Value(data))
    case Floating(_) => Real(data)
    case Text(_) => Address(Value(data))
  }

  /** The variable read back is the argument; of a string passed as a pointer, the pointer. */
  lemma {:induction false} FromRawOfRaw(a: Argument)
    requires a.Valid()
    ensures FromRaw(a.ctype, Raw(a)) == if a.value.Chars? then Address(a.value.at) else a.value
  {
    match a.value
    case Number(n) =>
      var t := a.ctype.t;
      hide Pow256;
      ValueOfLittle(n % Pow256(t.width), t.width);
      CastKeeps(t, n);
      ModIsUnique(n % Pow256(t.width), Pow256(t.width), 0, n % Pow256(t.width));
    case Address(at) => ValueOfLittle(at, 8);
    case Real(_) =>
    case Chars(at, _) => ValueOfLittle(at, 8);
  }

  /** The pack overload that the type selects. */
  method PackDatum(buffer: array<byte>, pos: nat, ctype: CType, v: Datum, ghost a: Argument)
    returns (end: nat, tag: nat)
    requires a.Valid() && ctype == a.ctype && v == (if a.value.Chars? then Address(a.value.at) else a.value)
    requires pos + ctype.Size() + 3 <= buffer.Length
    modifies buffer
    ensures tag == Code(a).tag && end == pos + |Code(a).bytes|
    ensures Appended(old(buffer[..]), buffer[..], pos, Code(a).bytes, ctype.Size() + 3)
  {
    CodeFits(a);
    ghost var before := buffer[..];
    match v {
      case Number(n) =>
        end, tag := PackInto(buffer, pos, ctype.t, n);
        WiderReach(before, buffer[..], pos, Code(a).bytes, CopyWidth(ctype.t), ctype.Size() + 3);
      case Address(at) =>
        end, tag := PackUnsignedInto(buffer, pos, at, 8);
        WiderReach(before, buffer[..], pos, Code(a).bytes, 8, ctype.Size() + 3);
      case Real(bits) =>
        Copy(buffer, pos, bits);
        WiderReach(before, buffer[..], pos, Code(a).bytes, |bits|, ctype.Size() + 3);
        end, tag := pos + |bits|, |bits| % 16;
    }
  }

  // ---- The nibble area ----

  /** Stores a tag in its half of a byte. */
  method StoreNibble(buffer: array<byte>, base: nat, count: nat, tag: nat, ghost area: nat)
    requires count / 2 < area && base + area <= buffer.Length && tag < 16
    modifies buffer
    ensures buffer[..] == Patched(old(buffer[..]), base,
                                      SetNibble(old(buffer[..])[base..base + area], count, tag))
  {
    var b: int := buffer[base + count / 2];
    buffer[base + count / 2] := if count % 2 == 1 then 16 * tag + b % 16 else b / 16 * 16 + tag;
  }

  lemma {:induction false} PackedThenTagged(before: seq<byte>, middle: seq<byte>, after: seq<byte>, base: nat, area: nat,
                         count: nat, tag: nat, pos: nat, data: seq<byte>, reach: nat)
    requires base + area <= pos && count / 2 < area && tag < 16
    requires Appended(before, middle, pos, data, reach)
    requires after == Patched(middle, base, SetNibble(middle[base..base + area], count, tag))
    ensures Grown(before, after, base, SetNibbles(before[base..base + area], count, [tag]), pos, data, reach)
  {
    var present := before[base..base + area];
    assert Patched(before, base, present) == before;
    GrownPatch(before, middle, base, present, pos, data, reach);
    var tagged := SetNibble(present, count, tag);
    assert SetNibbles(present, count, [tag]) == tagged by { assert [tag][1..] == []; }
    hide SetNibble, SetNibbles, Appended;
    AppendedBeside(before, middle, base, tagged, pos, data, reach);
  }

  lemma {:induction false} PassedBeside(before: seq<byte>, after: seq<byte>, base: nat, area: nat, count: nat,
                     pos: nat, data: seq<byte>, reach: nat)
    requires base + area <= pos && count <= 2 * area && Appended(before, after, pos, data, reach)
    ensures Grown(before, after, base, SetNibbles(before[base..base + area], count, []), pos, data, reach)
  {
    assert Patched(before, base, before[base..base + area]) == before;
  }

  /** The effect of a pass over `args`. */
  predicate PassOver(before: seq<byte>, after: seq<byte>, base: nat, area: nat, count: nat,
                     args: seq<Argument>, stringsOnly: bool, pos: nat)
    requires AllValid(args)
  {
    && base + area <= |before| && count + |Coded(args, stringsOnly)| <= 2 * area
    && AreNibbles(Coded(args, stringsOnly))
    && Grown(before, after, base, SetNibbles(before[base..base + area], count, Coded(args, stringsOnly)),
              pos, Emitted(args, stringsOnly), Reach(args, stringsOnly))
  }

  // ---- One argument ----

  /** Compresses or skips one argument, according to the pass. */
  method CompressSingle(buffer: array<byte>, base: nat, nibbleCount: nat, param: Parameter, stringsOnly: bool,
                        input: seq<byte>, inPos: nat, pos: nat, ghost a: Argument, ghost area: nat)
    returns (count: nat, inEnd: nat, end: nat)
    requires a.Valid() && Storable([a]) && param == Parameter(a.kind, a.ctype)
    requires LiesAt(input, inPos, StoredOne(a))
    requires base + area <= pos && pos + Reach([a], stringsOnly) <= buffer.Length
    requires nibbleCount + |Coded([a], stringsOnly)| <= 2 * area
    modifies buffer
    ensures count == nibbleCount + |Coded([a], stringsOnly)| && inEnd == inPos + |StoredOne(a)|
    ensures end == pos + |Emitted([a], stringsOnly)|
    ensures PassOver(old(buffer[..]), buffer[..], base, area, nibbleCount, [a], stringsOnly, pos)
  {
    hide *;
    ghost var before := buffer[..];
    SingleCases(a, param, stringsOnly);
    if IsString(param.kind) {
      inEnd, end := CompressString(buffer, param, stringsOnly, input, inPos, pos, a);
      count := nibbleCount;
      SinglePassed(before, buffer[..], base, area, nibbleCount, pos, a, stringsOnly);
    } else if stringsOnly {
      count, inEnd, end := nibbleCount, inPos + param.ctype.Size(), pos;
      AppendNothing(before, pos, Reach([a], stringsOnly));
      SinglePassed(before, buffer[..], base, area, nibbleCount, pos, a, stringsOnly);
    } else {
      count, inEnd, end := CompressBasic(buffer, base, nibbleCount, param, input, inPos, pos, a, area);
    }
  }

  /** Packs an argument that is not a string and records its tag. */
  method CompressBasic(buffer: array<byte>, base: nat, nibbleCount: nat, param: Parameter,
                       input: seq<byte>, inPos: nat, pos: nat, ghost a: Argument, ghost area: nat)
    returns (count: nat, inEnd: nat, end: nat)
    requires a.Valid() && !IsString(a.kind) && param == Parameter(a.kind, a.ctype)
    requires LiesAt(input, inPos, StoredOne(a))
    requires base + area <= pos && pos + Reach([a], false) <= buffer.Length
    requires nibbleCount + |Coded([a], false)| <= 2 * area
    modifies buffer
    ensures count == nibbleCount + |Coded([a], false)| && inEnd == inPos + |StoredOne(a)|
    ensures end == pos + |Emitted([a], false)|
    ensures PassOver(old(buffer[..]), buffer[..], base, area, nibbleCount, [a], false, pos)
  {
    hide *;
    BasicParts(a, param, input, inPos, pos, base, area, nibbleCount);
    ghost var before := buffer[..];
    var v := FromRaw(param.ctype, input[inPos..inPos + param.ctype.Size()]);
    var tag: nat;
    end, tag := PackDatum(buffer, pos, param.ctype, v, a);
    ghost var middle := buffer[..];
    StoreNibble(buffer, base, nibbleCount, tag, area);
    count, inEnd := nibbleCount + 1, inPos + param.ctype.Size();
    PackedThenTagged(before, middle, buffer[..], base, area, nibbleCount, tag, pos, Code(a).bytes, Reach([a], false));
    PassedIsPass(before, buffer[..], base, area, nibbleCount, pos, a);
  }

  lemma {:induction false} BasicParts(a: Argument, param: Parameter, input: seq<byte>, inPos: nat, pos: nat, base: nat,
                                      area: nat, count: nat)
    requires a.Valid() && !IsString(a.kind) && param == Parameter(a.kind, a.ctype)
    requires LiesAt(input, inPos, StoredOne(a))
    requires base + area <= pos && count + |Coded([a], false)| <= 2 * area
    ensures AllValid([a]) && param.ctype.Valid() && Code(a).tag < 16 && count / 2 < area
    ensures |StoredOne(a)| == param.ctype.Size() && Reach([a], false) == param.ctype.Size() + 3
    ensures inPos + param.ctype.Size() <= |input|
    ensures FromRaw(param.ctype, input[inPos..inPos + param.ctype.Size()])
            == if a.value.Chars? then Address(a.value.at) else a.value
    ensures Coded([a], false) == [Code(a).tag] && Emitted([a], false) == Code(a).bytes
  {
    OneArgument(a);
    CodeFits(a);
    FromRawOfRaw(a);
    PassSizes([a]);
    hide Code, FromRaw, Tags, PackedValues, Coded, Emitted, Reach, Raw;
    assert StoredOne(a) == Raw(a);
  }

  lemma {:induction false} PassedIsPass(before: seq<byte>, after: seq<byte>, base: nat, area: nat, count: nat, pos: nat,
                                        a: Argument)
    requires a.Valid() && AllValid([a]) && base + area <= |before| && count + 1 <= 2 * area
    requires Code(a).tag < 16
    requires Coded([a], false) == [Code(a).tag] && Emitted([a], false) == Code(a).bytes
    requires Grown(before, after, base, SetNibbles(before[base..base + area], count, [Code(a).tag]),
                    pos, Code(a).bytes, Reach([a], false))
    ensures PassOver(before, after, base, area, count, [a], false, pos)
  {
    hide Coded, Emitted, Reach, SetNibbles, Grown, Code;
  }

  lemma {:induction false} SingleCases(a: Argument, param: Parameter, stringsOnly: bool)
    requires a.Valid() && param == Parameter(a.kind, a.ctype)
    ensures IsString(param.kind) == IsString(a.kind) && AllValid([a])
    ensures !IsString(a.kind) ==> |StoredOne(a)| == param.ctype.Size()
    ensures IsString(a.kind) || stringsOnly ==> Coded([a], stringsOnly) == []
    ensures !IsString(a.kind) && stringsOnly ==> Emitted([a], stringsOnly) == []
  {
    OneArgument(a);
  }

  /** A pass that sets no nibble. */
  lemma {:induction false} SinglePassed(before: seq<byte>, after: seq<byte>, base: nat, area: nat, count: nat, pos: nat,
                                        a: Argument, stringsOnly: bool)
    requires a.Valid() && AllValid([a]) && base + area <= pos && Coded([a], stringsOnly) == [] && count <= 2 * area
    requires Appended(before, after, pos, Emitted([a], stringsOnly), Reach([a], stringsOnly))
    ensures PassOver(before, after, base, area, count, [a], stringsOnly, pos)
  {
    hide Coded, Emitted, Reach, SetNibbles, Patched;
    PassedBeside(before, after, base, area, count, pos, Emitted([a], stringsOnly), Reach([a], stringsOnly));
  }

  lemma {:induction false} OneArgument(a: Argument)
    requires a.Valid()
    ensures Tags([a]) == if IsString(a.kind) then [] else [Code(a).tag]
    ensures PackedValues([a]) == if IsString(a.kind) then [] else Code(a).bytes
    ensures Stored([a]) == StoredOne(a)
    ensures Texts([a]) == if IsString(a.kind) then StringBytes(a) + Little(0, a.ctype.charWidth) else []
  {
    assert [a][1..] == [];
  }

  /** Skips a string, or copies it with a terminator in place of its length. */
  method CompressString(buffer: array<byte>, param: Parameter, stringsOnly: bool,
                        input: seq<byte>, inPos: nat, pos: nat, ghost a: Argument)
    returns (inEnd: nat, end: nat)
    requires a.Valid() && Storable([a]) && IsString(a.kind) && param == Parameter(a.kind, a.ctype)
    requires LiesAt(input, inPos, StoredOne(a)) && pos + Reach([a], stringsOnly) <= buffer.Length
    modifies buffer
    ensures inEnd == inPos + |StoredOne(a)| && end == pos + |Emitted([a], stringsOnly)|
    ensures Appended(old(buffer[..]), buffer[..], pos, Emitted([a], stringsOnly), Reach([a], stringsOnly))
  {
    hide *;
    ghost var before := buffer[..];
    ghost var content := StringParts(a, param, input, inPos, stringsOnly);
    var stringBytes := Value(input[inPos..inPos + 4]);
    var start := inPos + 4;
    inEnd, end := start + stringBytes, pos;
    if !stringsOnly {
      AppendNothing(before, pos, Reach([a], stringsOnly));
    } else {
      var charWidth := param.ctype.charWidth;
      Copy(buffer, pos, input[start..start + stringBytes]);
      ghost var middle := buffer[..];
      Copy(buffer, pos + stringBytes, Little(0, charWidth));
      end := pos + stringBytes + charWidth;
      AppendTwice(before, middle, buffer[..], pos, content, |content|, Little(0, charWidth), charWidth,
                  Reach([a], stringsOnly));
    }
  }

  /** Where the length and the characters of a stored string are. */
  lemma {:induction false} StringParts(a: Argument, param: Parameter, input: seq<byte>, inPos: nat, stringsOnly: bool)
    returns (content: seq<byte>)
    requires a.Valid() && Storable([a]) && IsString(a.kind) && param == Parameter(a.kind, a.ctype)
    requires LiesAt(input, inPos, StoredOne(a))
    ensures AllValid([a]) && param.ctype.Text? && |StoredOne(a)| == 4 + |content|
    ensures inPos + 4 + |content| <= |input|
    ensures Value(input[inPos..inPos + 4]) == |content| && input[inPos + 4..inPos + 4 + |content|] == content
    ensures !stringsOnly ==> Emitted([a], stringsOnly) == []
    ensures stringsOnly ==> Emitted([a], stringsOnly) == content + Little(0, param.ctype.charWidth)
    ensures stringsOnly ==> Reach([a], stringsOnly) == |content| + param.ctype.charWidth
  {
    OneArgument(a);
    content := StringBytes(a);
    assert |content| < Pow256(4) by { assert IsString([a][0].kind); }
    hide Little, TextBytes, Texts, PackedValues, Storable, Pow256, Value;
    LiesSplit(input, inPos, Little(|content|, 4), content);
    ValueOfLittle(|content|, 4);
  }

  // ---- All arguments ----

  lemma {:induction false} SetNibblesAppend(nibbles: seq<byte>, count: nat, first: seq<nat>, rest: seq<nat>)
    requires |first| <= 1 && count + |first + rest| <= 2 * |nibbles|
    requires AreNibbles(first + rest) && AreNibbles(first) && AreNibbles(rest)
    ensures SetNibbles(SetNibbles(nibbles, count, first), count + |first|, rest)
            == SetNibbles(nibbles, count, first + rest)
  {
    hide SetNibble;
    if first == [] {
      assert first + rest == rest;
    } else {
      assert (first + rest)[1..] == rest && first[1..] == [];
    }
  }

  lemma {:induction false} Peel(args: seq<Argument>, stringsOnly: bool)
    requires AllValid(args) && args != [] && Storable(args)
    ensures var a, rest := args[0], args[1..];
            && a.Valid() && AllValid(rest) && Storable([a]) && Storable(rest)
            && Stored(args) == StoredOne(a) + Stored(rest)
            && Coded(args, stringsOnly) == Coded([a], stringsOnly) + Coded(rest, stringsOnly)
            && |Coded([a], stringsOnly)| <= 1
            && Emitted(args, stringsOnly) == Emitted([a], stringsOnly) + Emitted(rest, stringsOnly)
            && Reach([a], stringsOnly) <= Reach(args, stringsOnly)
            && |Emitted([a], stringsOnly)| + Reach(rest, stringsOnly) <= Reach(args, stringsOnly)
  {
    OneArgument(args[0]);
    CompressedFits([args[0]]);
    forall i | 0 <= i < |args[1..]| && IsString(args[1..][i].kind)
      ensures |StringBytes(args[1..][i])| < Pow256(4)
    {
      assert IsString(args[i + 1].kind);
    }
    assert IsString(args[0].kind) ==> |StringBytes(args[0])| < Pow256(4);
  }

  lemma {:induction false} PeelParameter(params: seq<Parameter>, argNum: nat, args: seq<Argument>, input: seq<byte>, inPos: nat)
    requires argNum < |params| && Describes(params[argNum..], args) && LiesAt(input, inPos, Stored(args))
    ensures args != [] && args[0].Valid() && AllValid(args) && AllValid([args[0]]) && AllValid(args[1..])
    ensures params[argNum] == Parameter(args[0].kind, args[0].ctype) && Describes(params[argNum + 1..], args[1..])
    ensures LiesAt(input, inPos, StoredOne(args[0])) && LiesAt(input, inPos + |StoredOne(args[0])|, Stored(args[1..]))
  {
    hide StoredOne, LiesAt;
    assert params[argNum..][1..] == params[argNum + 1..] && params[argNum] == params[argNum..][0];
    LiesSplit(input, inPos, StoredOne(args[0]), Stored(args[1..]));
  }

  lemma {:induction false} CodedFits(args: seq<Argument>, stringsOnly: bool)
    requires AllValid(args)
    ensures AreNibbles(Coded(args, stringsOnly))
  {
    TagsFit(args);
  }

  lemma {:induction false} NothingLeft(before: seq<byte>, base: nat, area: nat, count: nat, params: seq<Parameter>,
                                       args: seq<Argument>, stringsOnly: bool, pos: nat)
    requires params == [] && Describes(params, args) && count <= 2 * area
    requires base + area <= pos && pos + Reach(args, stringsOnly) <= |before|
    ensures args == [] && |Stored(args)| == 0 && |Emitted(args, stringsOnly)| == 0
    ensures PassOver(before, before, base, area, count, args, stringsOnly, pos)
  {
    AppendNothing(before, pos, Reach(args, stringsOnly));
    PassedBeside(before, before, base, area, count, pos, [], Reach(args, stringsOnly));
  }

  lemma {:induction false} PassOverBoth(before: seq<byte>, between: seq<byte>, after: seq<byte>, base: nat, area: nat,
                                        count: nat, args: seq<Argument>, stringsOnly: bool, pos: nat)
    requires AllValid(args) && args != [] && Storable(args) && count + |Coded(args, stringsOnly)| <= 2 * area
    requires pos + Reach(args, stringsOnly) <= |before|
    requires AllValid([args[0]]) && AllValid(args[1..])
    requires PassOver(before, between, base, area, count, [args[0]], stringsOnly, pos)
    requires PassOver(between, after, base, area, count + |Coded([args[0]], stringsOnly)|, args[1..], stringsOnly,
                      pos + |Emitted([args[0]], stringsOnly)|)
    ensures PassOver(before, after, base, area, count, args, stringsOnly, pos)
  {
    hide Coded, Emitted, Reach, Grown, Storable, SetNibbles, AreNibbles, Tags, PackedValues, Texts, Stored,
         StoredOne, Code, Patched;
    var a, rest := args[0], args[1..];
    Peel(args, stringsOnly);
    CodedFits(args, stringsOnly);
    var nibbles, first, second := before[base..base + area], Coded([a], stringsOnly), Coded(rest, stringsOnly);
    SetNibblesAppend(nibbles, count, first, second);
    GrownPatch(before, between, base, SetNibbles(nibbles, count, first), pos, Emitted([a], stringsOnly),
                  Reach([a], stringsOnly));
    GrowTwice(before, between, after, base, SetNibbles(nibbles, count, first), SetNibbles(nibbles, count, first + second),
              pos, Emitted([a], stringsOnly), Reach([a], stringsOnly), Emitted(rest, stringsOnly),
              Reach(rest, stringsOnly), Reach(args, stringsOnly));
  }

  /** One pass over the arguments from number `argNum` on. */
  method CompressInternal(buffer: array<byte>, base: nat, nibbleCount: nat, params: seq<Parameter>, stringsOnly: bool,
                          argNum: nat, input: seq<byte>, inPos: nat, pos: nat, ghost args: seq<Argument>, ghost area: nat)
    returns (inEnd: nat, end: nat)
    requires argNum <= |params| && Describes(params[argNum..], args) && Storable(args)
    requires LiesAt(input, inPos, Stored(args))
    requires base + area <= pos && pos + Reach(args, stringsOnly) <= buffer.Length
    requires nibbleCount + |Coded(args, stringsOnly)| <= 2 * area
    modifies buffer
    ensures inEnd == inPos + |Stored(args)| && end == pos + |Emitted(args, stringsOnly)|
    ensures PassOver(old(buffer[..]), buffer[..], base, area, nibbleCount, args, stringsOnly, pos)
    decreases |params| - argNum
  {
    hide *;
    ghost var before := buffer[..];
    if argNum == |params| {
      NothingLeft(before, base, area, nibbleCount, params[argNum..], args, stringsOnly, pos);
      return inPos, pos;
    }
    PeelParameter(params, argNum, args, input, inPos);
    Peel(args, stringsOnly);
    ghost var a, rest := args[0], args[1..];
    var count: nat, inMiddle: nat, middle: nat;
    count, inMiddle, middle := CompressSingle(buffer, base, nibbleCount, params[argNum], stringsOnly,
                                              input, inPos, pos, a, area);
    ghost var between := buffer[..];
    inEnd, end := CompressInternal(buffer, base, count, params, stringsOnly, argNum + 1,
                                   input, inMiddle, middle, rest, area);
    PassOverBoth(before, between, buffer[..], base, area, nibbleCount, args, stringsOnly, pos);
  }

  lemma {:induction false} FirstPass(before: seq<byte>, between: seq<byte>, base: nat, args: seq<Argument>)
    returns (nibbles: seq<byte>)
    requires AllValid(args)
    requires var area := NibbleBytes(|Tags(args)|); PassOver(before, between, base, area, 0, args, false, base + area)
    ensures NibblesOf(args, nibbles) && between[base..base + |nibbles|] == nibbles
    ensures Grown(before, between, base, nibbles, base + |nibbles|, PackedValues(args), Reach(args, false))
  {
    hide *;
    PassSizes(args);
    var area := NibbleBytes(|Tags(args)|);
    PassParts(before, between, base, area, 0, args, false, base + area);
    var start := before[base..base + area];
    nibbles := SetNibbles(start, 0, Tags(args));
    SetNibblesHolds(start, 0, Tags(args));
    NibblesSet(args, nibbles);
    GrownPatch(before, between, base, nibbles, base + area, PackedValues(args), Reach(args, false));
  }

  lemma {:induction false} PassParts(before: seq<byte>, after: seq<byte>, base: nat, area: nat, count: nat,
                                     args: seq<Argument>, stringsOnly: bool, pos: nat)
    requires AllValid(args) && PassOver(before, after, base, area, count, args, stringsOnly, pos)
    ensures base + area <= |before| && count + |Coded(args, stringsOnly)| <= 2 * area
    ensures AreNibbles(Coded(args, stringsOnly))
    ensures Grown(before, after, base, SetNibbles(before[base..base + area], count, Coded(args, stringsOnly)),
                  pos, Emitted(args, stringsOnly), Reach(args, stringsOnly))
  {
    hide AllValid, Coded, Emitted, Reach, Grown, SetNibbles, AreNibbles;
  }

  lemma {:induction false} NibblesSet(args: seq<Argument>, nibbles: seq<byte>)
    requires AllValid(args) && |nibbles| == NibbleBytes(|Tags(args)|) && |Tags(args)| <= 2 * |nibbles|
    requires forall i: nat :: i < |Tags(args)| ==> NibbleAt(nibbles, 0 + i) == Tags(args)[i]
    ensures NibblesOf(args, nibbles)
  {
    hide Tags, NibbleAt;
    forall i: nat | i < |Tags(args)| ensures NibbleAt(nibbles, i) == Tags(args)[i] {
      assert NibbleAt(nibbles, 0 + i) == Tags(args)[i];
    }
  }

  lemma {:induction false} SecondPass(between: seq<byte>, after: seq<byte>, base: nat, nibbles: seq<byte>,
                                      args: seq<Argument>, pos: nat)
    requires AllValid(args) && base + |nibbles| <= |between| && between[base..base + |nibbles|] == nibbles
    requires PassOver(between, after, base, |nibbles|, 0, args, true, pos)
    ensures Grown(between, after, base, nibbles, pos, Texts(args), Reach(args, true))
  {
    PassSizes(args);
    hide Tags, Texts, Coded, Emitted, Reach, Grown;
    assert SetNibbles(nibbles, 0, []) == nibbles;
  }

  lemma {:induction false} CompressedParts(args: seq<Argument>, nibbles: seq<byte>)
    requires AllValid(args)
    ensures NibblesOf(args, nibbles) <==> |nibbles| == NibbleBytes(|Tags(args)|) && HoldsTags(nibbles, Tags(args))
    ensures Compressed(args, nibbles) == nibbles + (PackedValues(args) + Texts(args))
  {
  }

  lemma {:induction false} BothPasses(before: seq<byte>, between: seq<byte>, after: seq<byte>, base: nat,
                                      nibbles: seq<byte>, args: seq<Argument>)
    requires AllValid(args) && base + |nibbles| + Reach(args, false) <= |before|
    requires Grown(before, between, base, nibbles, base + |nibbles|, PackedValues(args), Reach(args, false))
    requires Grown(between, after, base, nibbles, base + |nibbles| + |PackedValues(args)|, Texts(args), Reach(args, true))
    ensures Appended(before, after, base, Compressed(args, nibbles), |nibbles| + |Stored(args)| + 3)
  {
    hide *;
    CompressedParts(args, nibbles);
    CompressedFits(args);
    PassSizes(args);
    GrowTwice(before, between, after, base, nibbles, nibbles, base + |nibbles|, PackedValues(args), Reach(args, false),
              Texts(args), Reach(args, true), Reach(args, false));
    AppendedAfterPatch(before, after, base, nibbles, PackedValues(args) + Texts(args), Reach(args, false));
  }

  lemma {:induction false} PassSizes(args: seq<Argument>)
    requires AllValid(args)
    ensures Emitted(args, false) == PackedValues(args) && Emitted(args, true) == Texts(args)
    ensures Coded(args, false) == Tags(args) && Coded(args, true) == []
    ensures Reach(args, false) == |Stored(args)| + 3 && Reach(args, true) == |Texts(args)|
  {
  }

  lemma {:induction false} AreaSizes(args: seq<Argument>, params: seq<Parameter>, nibbles: seq<byte>)
    requires Describes(params, args)
    ensures AllValid(args) && params[0..] == params && |Tags(args)| <= 2 * NibbleBytes(|Tags(args)|)
    ensures |PackedValues(args)| + |Texts(args)| <= |Stored(args)|
    ensures NibblesOf(args, nibbles) ==> |nibbles| == NibbleBytes(|Tags(args)|)
    ensures |Compressed(args, nibbles)| == |nibbles| + |PackedValues(args)| + |Texts(args)|
  {
    CompressedFits(args);
  }

  /** The nibbles first, then the packed values, then the strings. The output may be scribbled on
      up to three bytes beyond what the uncompressed arguments would take. */
  method Compress(buffer: array<byte>, numNibbles: nat, params: seq<Parameter>, input: seq<byte>, inPos: nat, pos: nat,
                  ghost args: seq<Argument>)
    returns (inEnd: nat, end: nat, ghost nibbles: seq<byte>)
    requires Describes(params, args) && Storable(args) && numNibbles == |Tags(args)|
    requires LiesAt(input, inPos, Stored(args))
    requires pos + NibbleBytes(numNibbles) + |Stored(args)| + 3 <= buffer.Length
    modifies buffer
    ensures inEnd == inPos + |Stored(args)| && end == pos + |Compressed(args, nibbles)|
    ensures NibblesOf(args, nibbles)
    ensures Appended(old(buffer[..]), buffer[..], pos, Compressed(args, nibbles),
                     NibbleBytes(numNibbles) + |Stored(args)| + 3)
  {
    hide *;
    ghost var before := buffer[..];
    AreaSizes(args, params, []);
    PassSizes(args);
    var area := NibbleBytes(numNibbles);
    var inMiddle, middle := CompressInternal(buffer, pos, 0, params, false, 0, input, inPos, pos + area, args, area);
    ghost var between := buffer[..];
    nibbles := FirstPass(before, between, pos, args);
    AreaSizes(args, params, nibbles);
    inEnd, end := CompressInternal(buffer, pos, 0, params, true, 0, input, inPos, middle, args, area);
    SecondPass(between, buffer[..], pos, nibbles, args, middle);
    BothPasses(before, between, buffer[..], pos, nibbles, args);
  }
}
