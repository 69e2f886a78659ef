/** The decoder's side: a cursor over the nibbles and packed values, another over the strings. */
module ArgumentDecode {
  import opened Bytes
  import opened Packing
  import opened Packer
  import opened Arguments
  import opened ArgumentCompress
  import opened Formats

  /** A value as it is read back from a message. */
  datatype Decoded = IntegerRead(n: int) | PointerRead(at: nat) | FloatRead(bits: seq<byte>) | StringRead(chars: seq<nat>)

  /** The C++ type of the argument is one that the format type prints: integers at most as wide as what
      was packed or not too far below zero, anything else of the same sort. */
  predicate Prints(f: FormatType, a: Argument)
    requires a.Valid()
  {
    if IsInteger(f) then
      && a.ctype.Integer?
      && (IntTypeOf(f).width <= CopyWidth(a.ctype.t) || a.value.n > -Pow256(CopyWidth(a.ctype.t) - 1))
    else if IsFloating(f) then
      a.ctype.Floating? && (a.ctype.size == 4 || a.ctype.size == if f.Double? then 8 else 16)
    else if f.VoidPointer? then
      a.ctype.Pointer? || a.ctype.Text?
    else
      IsStringType(f) && a.ctype.Text? && a.ctype.charWidth == if f.CharPointer? then 1 else 4
  }

  /** The argument can be read back as the format type: both sides have it among the strings or not. */
  predicate Matches(f: FormatType, a: Argument)
    requires a.Valid()
  {
    Prints(f, a) && (IsString(a.kind) <==> IsStringType(f))
  }

  /** What is read back: the argument, converted to the type that the format names. */
  function Expected(f: FormatType, a: Argument): Decoded
    requires a.Valid() && Matches(f, a)
  {
    match a.value
    case Number(n) => IntegerRead(IntTypeOf(f).Cast(n))
    case Address(at) => PointerRead(at)
    case Real(bits) => FloatRead(bits)
    case Chars(at, chars) => if IsString(a.kind) then StringRead(chars) else PointerRead(at)
  }

  predicate AllMatch(needs: seq<FormatType>, args: seq<Argument>)
    requires AllValid(args)
  {
    |needs| == |args| && forall i :: 0 <= i < |args| ==> Matches(needs[i], args[i])
  }

  function AllExpected(needs: seq<FormatType>, args: seq<Argument>): (r: seq<Decoded>)
    requires AllValid(args) && AllMatch(needs, args)
    ensures |r| == |args|
  {
    seq(|args|, i requires 0 <= i < |args| => Expected(needs[i], args[i]))
  }

  // ---- One packed value ----

  /** The number of bytes that unpack takes for a tag. */
  function BytesRead(f: FormatType, tag: nat): nat {
    if IsFloating(f) then (if tag == 0 then 16 else tag)
    else if tag <= 8 then tag else tag - 8
  }

  function UnpackAs(f: FormatType, tag: nat, bytes: seq<byte>): Decoded {
    if IsFloating(f) then FloatRead(bytes)
    else if f.VoidPointer? then PointerRead(UINT64.Cast(Unpacked(tag, bytes)))
    else if IsInteger(f) then IntegerRead(IntTypeOf(f).Cast(Unpacked(tag, bytes)))
    else StringRead([])
  }

  lemma {:induction false} UnpackMatching(f: FormatType, a: Argument)
    requires a.Valid() && Matches(f, a) && !IsString(a.kind)
    ensures var p := Code(a);
            p.tag < 16 && BytesRead(f, p.tag) == |p.bytes| == SizeOfTag(p.tag) && UnpackAs(f, p.tag, p.bytes) == Expected(f, a)
  {
    CodeFits(a);
    match a.value
    case Number(n) => UnpackNumber(f, a);
    case Address(at) =>
      UnpackAddress(at);
      hide Pow256, Little, Unpacked, BytesNeeded;
    case Real(bits) =>
      hide Pow256, Little, Unpacked, BytesNeeded;
    case Chars(at, _) =>
      UnpackAddress(at);
      hide Pow256, Little, Unpacked, BytesNeeded;
  }

  lemma {:induction false} UnpackNumber(f: FormatType, a: Argument)
    requires a.Valid() && Matches(f, a) && !IsString(a.kind) && a.value.Number?
    ensures var p := Code(a);
            p.tag < 16 && BytesRead(f, p.tag) == |p.bytes| == SizeOfTag(p.tag) && UnpackAs(f, p.tag, p.bytes) == Expected(f, a)
  {
    hide *;
    NumberParts(f, a);
    TagOfInteger(a.ctype.t, a.value.n);
    UnpackOfPack(a.ctype.t, a.value.n, IntTypeOf(f));
  }

  lemma {:induction false} NumberParts(f: FormatType, a: Argument)
    requires a.Valid() && Matches(f, a) && !IsString(a.kind) && a.value.Number?
    ensures IsInteger(f) && a.ctype.Integer? && a.ctype.t.Valid() && a.ctype.t.Holds(a.value.n)
    ensures IntTypeOf(f).width <= CopyWidth(a.ctype.t) || a.value.n > -Pow256(CopyWidth(a.ctype.t) - 1)
    ensures Expected(f, a) == IntegerRead(IntTypeOf(f).Cast(a.value.n)) && Code(a) == PackInteger(a.ctype.t, a.value.n)
    ensures forall tag: nat {:trigger BytesRead(f, tag)} :: tag >= 1 ==> BytesRead(f, tag) == SizeOfTag(tag)
    ensures forall tag, bytes {:trigger UnpackAs(f, tag, bytes)} ::
              UnpackAs(f, tag, bytes) == IntegerRead(IntTypeOf(f).Cast(Unpacked(tag, bytes)))
  {
    hide Pow256, IntTypeOf, CopyWidth, Unpacked, PackInteger;
  }

  lemma {:induction false} UnpackAddress(at: nat)
    requires at < Pow256(8)
    ensures var p := PackUnsigned(at); UINT64.Cast(Unpacked(p.tag, p.bytes)) == at
  {
    UnpackUnsigned(at, UINT64);
    CastKeeps(UINT64, at);
  }

  /** Walks over the nibbles and, in step, over the packed values. */
  class Nibbler {
    const data: seq<byte>
    const numNibbles: nat
    var nibblePosition: nat
    var onFirstNibble: bool
    var currPackedValue: nat
    const endOfValues: nat
    ghost const start: nat
    ghost const tags: seq<nat>
    ghost var taken: nat

    ghost predicate Valid()
      reads this
    {
      && |tags| == numNibbles && taken <= numNibbles
      && start + NibbleBytes(numNibbles) <= |data|
      && HoldsTags(data[start..start + NibbleBytes(numNibbles)], tags)
      && nibblePosition == start + taken / 2 && onFirstNibble == (taken % 2 == 0)
      && currPackedValue == start + NibbleBytes(numNibbles) + TotalSize(tags[..taken])
      && endOfValues == start + NibbleBytes(numNibbles) + TotalSize(tags)
    }

    constructor (data: seq<byte>, nibbleStart: nat, numNibbles: nat, ghost tags: seq<nat>)
      requires |tags| == numNibbles && nibbleStart + NibbleBytes(numNibbles) <= |data|
      requires HoldsTags(data[nibbleStart..nibbleStart + NibbleBytes(numNibbles)], tags)
      ensures Valid() && taken == 0 && this.data == data && this.tags == tags && start == nibbleStart
    {
      this.data, this.numNibbles, this.start, this.tags := data, numNibbles, nibbleStart, tags;
      nibblePosition, onFirstNibble, taken := nibbleStart, true, 0;
      var values := nibbleStart + NibbleBytes(numNibbles);
      currPackedValue := values;
      var size := GetSizeOfPackedValues(data[nibbleStart..values], numNibbles, tags);
      endOfValues := values + size;
    }

    /** The next value, read as the given type. While nibbles are left, the cursor is before the end
        of the values. */
    method GetNext(f: FormatType) returns (r: Decoded)
      requires Valid() && taken < numNibbles && !IsStringType(f) && !f.NoArgument?
      requires BytesRead(f, tags[taken]) == SizeOfTag(tags[taken])
      requires currPackedValue + SizeOfTag(tags[taken]) <= |data|
      modifies this
      ensures Valid() && taken == old(taken) + 1
      ensures currPackedValue == old(currPackedValue) + SizeOfTag(tags[old(taken)])
      ensures r == UnpackAs(f, tags[old(taken)], data[old(currPackedValue)..currPackedValue])
    {
      hide *;
      NibblerParts(this);
      NextNibble(data, tags, start, taken);
      assert currPackedValue < endOfValues;
      var nibble := if onFirstNibble then data[nibblePosition] % 16 else data[nibblePosition] / 16;
      var bytes := BytesRead(f, nibble);
      r := UnpackAs(f, nibble, data[currPackedValue..currPackedValue + bytes]);
      currPackedValue := currPackedValue + bytes;
      if !onFirstNibble { nibblePosition := nibblePosition + 1; }
      onFirstNibble := !onFirstNibble;
      taken := taken + 1;
      NibblerParts(this);
    }
  }

  lemma {:induction false} NibblerParts(nb: Nibbler)
    ensures nb.Valid() <==>
      && |nb.tags| == nb.numNibbles && nb.taken <= nb.numNibbles
      && nb.start + NibbleBytes(nb.numNibbles) <= |nb.data|
      && HoldsTags(nb.data[nb.start..nb.start + NibbleBytes(nb.numNibbles)], nb.tags)
      && nb.nibblePosition == nb.start + nb.taken / 2 && nb.onFirstNibble == (nb.taken % 2 == 0)
      && nb.currPackedValue == nb.start + NibbleBytes(nb.numNibbles) + TotalSize(nb.tags[..nb.taken])
      && nb.endOfValues == nb.start + NibbleBytes(nb.numNibbles) + TotalSize(nb.tags)
  {
    hide HoldsTags, TotalSize, NibbleBytes;
  }

  lemma {:induction false} NextNibble(data: seq<byte>, tags: seq<nat>, start: nat, taken: nat)
    requires taken < |tags| && start + NibbleBytes(|tags|) <= |data|
    requires HoldsTags(data[start..start + NibbleBytes(|tags|)], tags)
    ensures start + taken / 2 < |data|
    ensures (if taken % 2 == 0 then data[start + taken / 2] % 16 else data[start + taken / 2] / 16) == tags[taken]
    ensures TotalSize(tags[..taken + 1]) == TotalSize(tags[..taken]) + SizeOfTag(tags[taken])
    ensures TotalSize(tags[..taken]) < TotalSize(tags)
  {
    TotalSizeGrows(tags, taken);
    hide TotalSize, SizeOfTag;
    var nibbles := data[start..start + NibbleBytes(|tags|)];
    assert NibbleAt(nibbles, taken) == tags[taken] && nibbles[taken / 2] == data[start + taken / 2];
    assert SizeOfTag(tags[taken]) >= 1 by { PositiveSize(tags[taken]); }
  }

  lemma {:induction false} PositiveSize(tag: nat)
    ensures SizeOfTag(tag) >= 1
  {
  }

  // ---- One string ----

  function Terminated(text: seq<nat>, charWidth: nat): seq<byte> {
    if text == [] then Little(0, charWidth) else Little(text[0], charWidth) + Terminated(text[1..], charWidth)
  }

  lemma {:induction false} TerminatedText(text: seq<nat>, charWidth: nat)
    ensures Terminated(text, charWidth) == TextBytes(text, charWidth) + Little(0, charWidth)
  {
    if text != [] { TerminatedText(text[1..], charWidth); }
  }

  predicate StringAt(data: seq<byte>, pos: nat, text: seq<nat>, charWidth: nat) {
    IsText(text, charWidth) && LiesAt(data, pos, Terminated(text, charWidth))
  }

  /** What one character says: zero at the terminator, and another string behind any other. */
  lemma {:induction false} StringStep(data: seq<byte>, pos: nat, text: seq<nat>, charWidth: nat)
    requires charWidth >= 1 && StringAt(data, pos, text, charWidth)
    ensures pos + charWidth <= |data|
    ensures Value(data[pos..pos + charWidth]) == if text == [] then 0 else text[0]
    ensures text == [] ==> |Terminated(text, charWidth)| == charWidth
    ensures text != [] ==> && text[0] != 0 && StringAt(data, pos + charWidth, text[1..], charWidth)
                           && |Terminated(text, charWidth)| == charWidth + |Terminated(text[1..], charWidth)|
  {
    hide Little, Value, Pow256;
    var c := if text == [] then 0 else text[0];
    assert c < Pow256(charWidth);
    ValueOfLittle(c, charWidth);
    if text != [] {
      LiesSplit(data, pos, Little(c, charWidth), Terminated(text[1..], charWidth));
    }
  }

  /** strlen or wcslen, with the characters passed over. */
  method ReadString(data: seq<byte>, pos: nat, charWidth: nat, ghost text: seq<nat>)
    returns (chars: seq<nat>, end: nat)
    requires charWidth >= 1 && StringAt(data, pos, text, charWidth)
    ensures chars == text && end == pos + |Terminated(text, charWidth)|
  {
    hide *;
    chars, end := [], pos;
    ghost var left := text;
    StringStep(data, end, left, charWidth);
    while Value(data[end..end + charWidth]) != 0
      invariant chars + left == text && StringAt(data, end, left, charWidth)
      invariant end + |Terminated(left, charWidth)| == pos + |Terminated(text, charWidth)|
      invariant end + charWidth <= |data|
      invariant Value(data[end..end + charWidth]) == if left == [] then 0 else left[0]
      decreases |left|
    {
      StringStep(data, end, left, charWidth);
      chars := chars + [Value(data[end..end + charWidth])];
      end := end + charWidth;
      left := left[1..];
      StringStep(data, end, left, charWidth);
    }
    StringStep(data, end, left, charWidth);
    end := end + charWidth;
  }

  // ---- All arguments ----

  /** What is still to be read is exactly what the compressor emitted for `args`. */
  predicate Ahead(data: seq<byte>, tags: seq<nat>, values: nat, strings: nat, args: seq<Argument>)
    requires AllValid(args)
  {
    tags == Tags(args) && LiesAt(data, values, PackedValues(args)) && LiesAt(data, strings, Texts(args))
  }

  lemma {:induction false} PeelCompressed(args: seq<Argument>)
    requires AllValid(args) && args != []
    ensures args[0].Valid() && AllValid(args[1..])
    ensures IsString(args[0].kind) ==>
      && Tags(args) == Tags(args[1..]) && PackedValues(args) == PackedValues(args[1..])
      && Texts(args) == Terminated(args[0].value.chars, args[0].ctype.charWidth) + Texts(args[1..])
    ensures !IsString(args[0].kind) ==>
      && Tags(args) == [Code(args[0]).tag] + Tags(args[1..])
      && PackedValues(args) == Code(args[0]).bytes + PackedValues(args[1..])
      && Texts(args) == Texts(args[1..])
  {
    if IsString(args[0].kind) { TerminatedText(args[0].value.chars, args[0].ctype.charWidth); }
    hide Little, Code, TextBytes, Terminated;
  }

  lemma {:induction false} AheadParts(data: seq<byte>, tags: seq<nat>, values: nat, strings: nat, args: seq<Argument>)
    requires AllValid(args)
    ensures Ahead(data, tags, values, strings, args) <==>
            tags == Tags(args) && LiesAt(data, values, PackedValues(args)) && LiesAt(data, strings, Texts(args))
  {
  }

  lemma {:induction false} AheadOfPacked(data: seq<byte>, tags: seq<nat>, values: nat, strings: nat, f: FormatType,
                                         args: seq<Argument>)
    requires AllValid(args) && args != [] && Matches(f, args[0]) && !IsStringType(f)
    requires Ahead(data, tags, values, strings, args)
    ensures AllValid(args[1..]) && tags != [] && !f.NoArgument?
    ensures BytesRead(f, tags[0]) == SizeOfTag(tags[0]) && values + SizeOfTag(tags[0]) <= |data|
    ensures UnpackAs(f, tags[0], data[values..values + SizeOfTag(tags[0])]) == Expected(f, args[0])
    ensures Ahead(data, tags[1..], values + SizeOfTag(tags[0]), strings, args[1..]) && |Texts(args)| == |Texts(args[1..])|
  {
    hide *;
    PeelCompressed(args);
    KindOfMatch(f, args);
    UnpackMatching(f, args[0]);
    AheadParts(data, tags, values, strings, args);
    var p := Code(args[0]);
    LiesSplit(data, values, p.bytes, PackedValues(args[1..]));
    LiesWhere(data, values, p.bytes);
    AheadParts(data, tags[1..], values + |p.bytes|, strings, args[1..]);
  }

  lemma {:induction false} AheadOfString(data: seq<byte>, tags: seq<nat>, values: nat, strings: nat, f: FormatType,
                                         args: seq<Argument>)
    requires AllValid(args) && args != [] && Matches(f, args[0]) && IsStringType(f)
    requires Ahead(data, tags, values, strings, args)
    ensures AllValid(args[1..]) && args[0].value.Chars?
    ensures Expected(f, args[0]) == StringRead(args[0].value.chars)
    ensures var w := if f.CharPointer? then 1 else 4;
            var end := strings + |Terminated(args[0].value.chars, w)|;
            && StringAt(data, strings, args[0].value.chars, w)
            && Ahead(data, tags, values, end, args[1..]) && end + |Texts(args[1..])| == strings + |Texts(args)|
  {
    hide *;
    PeelCompressed(args);
    KindOfMatch(f, args);
    AheadParts(data, tags, values, strings, args);
    var w := if f.CharPointer? then 1 else 4;
    StringOfMatch(f, args[0]);
    var bytes := Terminated(args[0].value.chars, w);
    LiesSplit(data, strings, bytes, Texts(args[1..]));
    AheadParts(data, tags, values, strings + |bytes|, args[1..]);
    StringAtHere(data, strings, args[0].value.chars, w);
  }

  lemma {:induction false} StringAtHere(data: seq<byte>, pos: nat, text: seq<nat>, charWidth: nat)
    requires IsText(text, charWidth) && LiesAt(data, pos, Terminated(text, charWidth))
    ensures StringAt(data, pos, text, charWidth)
  {
  }

  lemma {:induction false} KindOfMatch(f: FormatType, args: seq<Argument>)
    requires AllValid(args) && args != [] && Matches(f, args[0])
    ensures IsStringType(f) <==> IsString(args[0].kind)
    ensures !f.NoArgument?
  {
  }

  lemma {:induction false} StringOfMatch(f: FormatType, a: Argument)
    requires a.Valid() && Matches(f, a) && IsStringType(f)
    ensures a.value.Chars? && a.ctype.Text? && a.ctype.charWidth == (if f.CharPointer? then 1 else 4)
    ensures IsText(a.value.chars, a.ctype.charWidth) && Expected(f, a) == StringRead(a.value.chars)
  {
  }

  /** One value: the next nibble's, or the next string. */
  method FetchOne(nb: Nibbler, strings: nat, f: FormatType, ghost args: seq<Argument>)
    returns (r: Decoded, nextString: nat)
    requires nb.Valid() && AllValid(args) && args != [] && Matches(f, args[0])
    requires Ahead(nb.data, nb.tags[nb.taken..], nb.currPackedValue, strings, args)
    modifies nb
    ensures nb.Valid() && AllValid(args[1..]) && r == Expected(f, args[0])
    ensures Ahead(nb.data, nb.tags[nb.taken..], nb.currPackedValue, nextString, args[1..])
    ensures nextString + |Texts(args[1..])| == strings + |Texts(args)|
  {
    hide *;
    LeftToTake(nb);
    if IsStringType(f) {
      AheadOfString(nb.data, nb.tags[nb.taken..], nb.currPackedValue, strings, f, args);
      var chars: seq<nat>;
      chars, nextString := ReadString(nb.data, strings, if f.CharPointer? then 1 else 4, args[0].value.chars);
      r := StringRead(chars);
    } else {
      AheadOfPacked(nb.data, nb.tags[nb.taken..], nb.currPackedValue, strings, f, args);
      assert nb.tags[nb.taken..][1..] == nb.tags[nb.taken + 1..];
      r := nb.GetNext(f);
      nextString := strings;
    }
  }

  lemma {:induction false} LeftToTake(nb: Nibbler)
    requires nb.Valid()
    ensures nb.taken <= |nb.tags| == nb.numNibbles
  {
  }

  predicate MatchFrom(needs: seq<FormatType>, args: seq<Argument>) {
    AllValid(args) && AllMatch(needs, args)
  }

  lemma {:induction false} MatchPeel(needs: seq<FormatType>, args: seq<Argument>)
    requires MatchFrom(needs, args) && needs != []
    ensures args != [] && args[0].Valid() && AllValid(args) && Matches(needs[0], args[0]) && MatchFrom(needs[1..], args[1..])
    ensures AllExpected(needs, args) == [Expected(needs[0], args[0])] + AllExpected(needs[1..], args[1..])
  {
    hide Matches, Expected;
  }

  /** The values of one fragment: a width, a precision, the argument. */
  method DecodeFragment(nb: Nibbler, strings: nat, fragment: Fragment, ghost later: seq<FormatType>, ghost args: seq<Argument>)
    returns (values: seq<Decoded>, nextString: nat, ghost rest: seq<Argument>)
    requires nb.Valid() && MatchFrom(Needs(fragment) + later, args)
    requires Ahead(nb.data, nb.tags[nb.taken..], nb.currPackedValue, strings, args)
    modifies nb
    ensures nb.Valid() && MatchFrom(later, rest)
    ensures Ahead(nb.data, nb.tags[nb.taken..], nb.currPackedValue, nextString, rest)
    ensures AllExpected(Needs(fragment) + later, args) == values + AllExpected(later, rest)
    ensures nextString + |Texts(rest)| == strings + |Texts(args)|
    ensures |values| == |Needs(fragment)| <= |args| && rest == args[|values|..]
  {
    hide MatchFrom, Ahead, AllExpected, Texts, Matches, Expected, AllMatch, AllValid;
    values, nextString, rest := [], strings, args;
    ghost var needs := Needs(fragment) + later;
    if fragment.dynamicWidth {
      MatchPeel(needs, rest);
      var width: Decoded;
      width, nextString := FetchOne(nb, nextString, Int, rest);
      values, rest, needs := values + [width], rest[1..], needs[1..];
    }
    if fragment.dynamicPrecision {
      MatchPeel(needs, rest);
      var precision: Decoded;
      precision, nextString := FetchOne(nb, nextString, Int, rest);
      values, rest, needs := values + [precision], rest[1..], needs[1..];
    }
    if !fragment.argType.NoArgument? {
      MatchPeel(needs, rest);
      var argument: Decoded;
      argument, nextString := FetchOne(nb, nextString, fragment.argType, rest);
      values, rest, needs := values + [argument], rest[1..], needs[1..];
    }
    assert needs == later;
  }

  lemma {:induction false} AheadOfAll(data: seq<byte>, pos: nat, args: seq<Argument>, nibbles: seq<byte>)
    requires AllValid(args) && NibblesOf(args, nibbles) && LiesAt(data, pos, Compressed(args, nibbles))
    ensures pos + |nibbles| <= |data| && data[pos..pos + |nibbles|] == nibbles && |nibbles| == NibbleBytes(|Tags(args)|)
    ensures HoldsTags(nibbles, Tags(args))
    ensures var values := pos + |nibbles|; Ahead(data, Tags(args), values, values + TotalSize(Tags(args)), args)
    ensures |Compressed(args, nibbles)| == |nibbles| + TotalSize(Tags(args)) + |Texts(args)|
  {
    hide *;
    CompressedParts(args, nibbles);
    TagsGiveSize(args);
    LiesSplit(data, pos, nibbles, PackedValues(args) + Texts(args));
    LiesSplit(data, pos + |nibbles|, PackedValues(args), Texts(args));
    LiesWhere(data, pos, nibbles);
    AheadParts(data, Tags(args), pos + |nibbles|, pos + |nibbles| + TotalSize(Tags(args)), args);
  }

  /** Ghost facts at the two ends of the loop over the fragments. */
  lemma {:induction false} NoneLeft(args: seq<Argument>)
    requires MatchFrom([], args)
    ensures AllExpected([], args) == [] && Texts(args) == []
  {
  }

  /** The argument part of decompressNextLogStatement: one fragment after the other; the end is
      behind the last string read.  The message may have arguments of which no fragment is left to
      read them; `later` is what they were stored for. */
  method DecodeArguments(data: seq<byte>, pos: nat, numNibbles: nat, fragments: seq<Fragment>,
                         ghost later: seq<FormatType>, ghost args: seq<Argument>, ghost nibbles: seq<byte>)
    returns (values: seq<Decoded>, end: nat)
    requires MatchFrom(AllNeeds(fragments) + later, args) && numNibbles == |Tags(args)| && NibblesOf(args, nibbles)
    requires LiesAt(data, pos, Compressed(args, nibbles))
    ensures |values| == |AllNeeds(fragments)| <= |args| && values <= AllExpected(AllNeeds(fragments) + later, args)
    ensures AllValid(args[|values|..]) && end + |Texts(args[|values|..])| == pos + |Compressed(args, nibbles)|
    ensures later == [] ==> AllNeeds(fragments) + later == AllNeeds(fragments)
                            && values == AllExpected(AllNeeds(fragments), args) && end == pos + |Compressed(args, nibbles)|
  {
    hide Ahead, AllExpected, Texts, Matches, Expected, AllMatch, AllValid, HoldsTags, Tags, PackedValues,
         LiesAt, NibblesOf, Compressed, TotalSize, Needs;
    ghost var all := AllNeeds(fragments) + later;
    MatchIsValid(all, args);
    AheadOfAll(data, pos, args, nibbles);
    var nb := new Nibbler(data, pos, numNibbles, Tags(args));
    assert nb.tags[0..] == Tags(args);
    NibblerStart(nb);
    end := nb.endOfValues;
    values := [];
    var i := 0;
    ghost var rest := args;
    assert fragments[0..] == fragments;
    while i < |fragments|
      invariant 0 <= i <= |fragments| && nb.Valid() && nb.data == data
      invariant MatchFrom(AllNeeds(fragments[i..]) + later, rest)
      invariant |values| + |AllNeeds(fragments[i..])| == |AllNeeds(fragments)| && |values| <= |args| && rest == args[|values|..]
      invariant Ahead(nb.data, nb.tags[nb.taken..], nb.currPackedValue, end, rest)
      invariant values + AllExpected(AllNeeds(fragments[i..]) + later, rest) == AllExpected(all, args)
      invariant end + |Texts(rest)| == pos + |Compressed(args, nibbles)|
    {
      assert fragments[i..][1..] == fragments[i + 1..];
      ghost var next := AllNeeds(fragments[i + 1..]) + later;
      assert AllNeeds(fragments[i..]) + later == Needs(fragments[i]) + next;
      ghost var left: seq<Argument>;
      var more: seq<Decoded>;
      more, end, left := DecodeFragment(nb, end, fragments[i], next, rest);
      values, rest, i := values + more, left, i + 1;
    }
    assert AllNeeds(fragments[i..]) + later == later;
    MatchIsValid(later, rest);
    if later == [] {
      assert all == AllNeeds(fragments);
      NoneLeft(rest);
    }
  }

  lemma {:induction false} MatchIsValid(needs: seq<FormatType>, args: seq<Argument>)
    requires MatchFrom(needs, args)
    ensures AllValid(args) && AllMatch(needs, args)
  {
  }

  lemma {:induction false} NibblerStart(nb: Nibbler)
    requires nb.Valid() && nb.taken == 0
    ensures nb.currPackedValue == nb.start + NibbleBytes(nb.numNibbles)
    ensures nb.endOfValues == nb.currPackedValue + TotalSize(nb.tags)
  {
  }
}
