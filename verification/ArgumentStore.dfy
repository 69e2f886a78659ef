/** The logging thread's side: sizing the arguments and writing them uncompressed. */
module ArgumentStore {
  import opened Bytes
  import opened Packing
  import opened Packer
  import opened Arguments

  /** The size of one argument; for a string also its byte length after truncation, and for a
      dynamic precision the precision to use from here on. */
  method GetArgSize(a: Argument, previousPrecision: nat, stringSize: nat)
    returns (size: nat, precision: nat, stringBytes: nat)
    requires a.Valid()
    ensures size == |StoredOne(Cut(a, previousPrecision))|
    ensures precision == NextPrecision(a, previousPrecision)
    ensures stringBytes == if IsString(a.kind) then |StringBytes(Cut(a, previousPrecision))| else stringSize
  {
    stringBytes, precision := stringSize, previousPrecision;
    if !IsString(a.kind) {
      if a.kind.DynamicPrecision? { precision := a.value.n % Pow256(8); }
      size := a.ctype.Size();
    } else {
      stringBytes := |a.value.chars|;
      if a.kind.StringWithPrecision? && stringBytes > a.kind.precision {
        stringBytes := a.kind.precision;
      } else if a.kind.StringWithDynamicPrecision? && stringBytes > previousPrecision {
        stringBytes := previousPrecision;
      }
      stringBytes := a.ctype.charWidth * stringBytes;
      size := stringBytes + 4;
    }
  }

  /** The recorded lengths are those of the strings after truncation. */
  predicate SizesMatch(cut: seq<Argument>, sizes: seq<nat>)
    requires AllValid(cut)
  {
    && |cut| == |sizes|
    && forall i :: 0 <= i < |cut| && IsString(cut[i].kind) ==> sizes[i] == |StringBytes(cut[i])|
  }

  /** Peeling off one argument. */
  lemma {:induction false} Peel(args: seq<Argument>, argNum: nat, previous: nat)
    requires AllValid(args) && argNum < |args|
    ensures args[argNum].Valid()
    ensures var cut, head := Truncated(args[argNum..], previous), Cut(args[argNum], previous);
            var rest := Truncated(args[argNum + 1..], NextPrecision(args[argNum], previous));
            && cut == [head] + rest && Stored(cut) == StoredOne(head) + Stored(rest)
            && (Storable(cut) <==> Storable([head]) && Storable(rest))
  {
    assert args[argNum..][1..] == args[argNum + 1..];
    hide StoredOne, StringBytes;
    var head := Cut(args[argNum], previous);
    var rest := Truncated(args[argNum + 1..], NextPrecision(args[argNum], previous));
    var cut := [head] + rest;
    assert cut[1..] == rest;
    if Storable(cut) { assert Storable(cut[1..]) && Storable([cut[0]]); }
  }

  /** The size of the arguments from number `argNum` on; their string lengths are left in
      `stringSizes` for the store to use. */
  method GetArgSizes(args: seq<Argument>, argNum: nat, previousPrecision: nat, stringSizes: array<nat>)
    returns (size: nat)
    requires AllValid(args) && argNum <= |args| == stringSizes.Length
    modifies stringSizes
    ensures size == |Stored(Truncated(args[argNum..], previousPrecision))|
    ensures SizesMatch(Truncated(args[argNum..], previousPrecision), stringSizes[argNum..])
    ensures stringSizes[..argNum] == old(stringSizes[..argNum])
    decreases |args| - argNum
  {
    if argNum == |args| { return 0; }
    Peel(args, argNum, previousPrecision);
    var headSize, precision, stringBytes := GetArgSize(args[argNum], previousPrecision, stringSizes[argNum]);
    stringSizes[argNum] := stringBytes;
    hide Stored, StoredOne, Truncated, StringBytes, NextPrecision, Cut;
    var restSize := GetArgSizes(args, argNum + 1, precision, stringSizes);
    size := headSize + restSize;
    assert stringSizes[..argNum] == stringSizes[..argNum + 1][..argNum];
    assert stringSizes[argNum] == stringSizes[..argNum + 1][argNum];
    assert stringSizes[argNum..] == [stringSizes[argNum]] + stringSizes[argNum + 1..];
  }

  /** Writes one argument: a string as its length and its first `stringSize` bytes, anything else at
      full width. A string of 2^32 bytes or more is refused. */
  method StoreArgument(a: Argument, ghost previous: nat, ghost cut: Argument, stringSize: nat,
                       storage: array<byte>, pos: nat)
    returns (ok: bool, end: nat)
    requires a.Valid() && cut == Cut(a, previous)
    requires IsString(a.kind) ==> stringSize == |StringBytes(cut)|
    requires pos + |StoredOne(cut)| <= storage.Length
    modifies storage
    ensures ok <==> Storable([cut])
    ensures ok ==> end == pos + |StoredOne(cut)|
    ensures ok ==> Appended(old(storage[..]), storage[..], pos, StoredOne(cut), |StoredOne(cut)|)
  {
    if !IsString(a.kind) {
      var raw := Raw(a);
      Copy(storage, pos, raw);
      return true, pos + |raw|;
    }
    if stringSize >= Pow256(4) {
      assert IsString([cut][0].kind);
      return false, pos;
    }
    CutIsPrefix(a, previous, cut);
    hide Little, TextBytes, Appended;
    Copy(storage, pos, Little(stringSize, 4));
    ghost var middle := storage[..];
    Copy(storage, pos + 4, TextBytes(a.value.chars, a.ctype.charWidth)[..stringSize]);
    ok, end := true, pos + 4 + stringSize;
    AppendTwice(old(storage[..]), middle, storage[..], pos, Little(stringSize, 4), 4, StringBytes(cut), stringSize,
                4 + stringSize);
  }

  /** What is copied of the original string is the truncated string. */
  lemma {:induction false} CutIsPrefix(a: Argument, previous: nat, cut: Argument)
    requires a.Valid() && IsString(a.kind) && cut == Cut(a, previous)
    ensures |StringBytes(cut)| <= |StringBytes(a)| && StringBytes(a)[..|StringBytes(cut)|] == StringBytes(cut)
  {
    var n := |cut.value.chars|;
    assert cut.value.chars == a.value.chars[..n];
    TextPrefix(a.value.chars, a.ctype.charWidth, n);
  }

  /** Writes the arguments from number `argNum` on, one after the other; fails on the first string
      that is too long. */
  method StoreArguments(args: seq<Argument>, argNum: nat, ghost previous: nat, stringSizes: seq<nat>,
                        storage: array<byte>, pos: nat)
    returns (ok: bool, end: nat)
    requires AllValid(args) && argNum <= |args| == |stringSizes|
    requires SizesMatch(Truncated(args[argNum..], previous), stringSizes[argNum..])
    requires pos + |Stored(Truncated(args[argNum..], previous))| <= storage.Length
    modifies storage
    ensures var cut := Truncated(args[argNum..], previous);
            && (ok <==> Storable(cut))
            && (ok ==> end == pos + |Stored(cut)|)
            && (ok ==> Appended(old(storage[..]), storage[..], pos, Stored(cut), |Stored(cut)|))
    decreases |args| - argNum
  {
    hide *;
    ValidTail(args, argNum);
    ghost var before, cut := storage[..], Truncated(args[argNum..], previous);
    if argNum == |args| {
      NothingLeft(args, previous, before, pos);
      return true, pos;
    }
    Peel(args, argNum, previous);
    PeelSize(args, argNum, previous, stringSizes);
    ghost var head := Cut(args[argNum], previous);
    ghost var next := NextPrecision(args[argNum], previous);
    ghost var rest := Truncated(args[argNum + 1..], next);
    var middle: nat;
    ok, middle := StoreArgument(args[argNum], previous, head, stringSizes[argNum], storage, pos);
    end := middle;
    ghost var first := storage[..];
    if ok {
      ok, end := StoreArguments(args, argNum + 1, next, stringSizes, storage, middle);
    }
    if ok {
      AppendTwice(before, first, storage[..], pos, StoredOne(head), |StoredOne(head)|,
                  Stored(rest), |Stored(rest)|, |Stored(cut)|);
    }
  }

  lemma {:induction false} ValidTail(args: seq<Argument>, argNum: nat)
    requires AllValid(args) && argNum <= |args|
    ensures AllValid(args[argNum..]) && (argNum < |args| ==> AllValid(args[argNum + 1..]))
  {
  }

  lemma {:induction false} NothingLeft(args: seq<Argument>, previous: nat, storage: seq<byte>, pos: nat)
    requires AllValid(args) && pos <= |storage|
    ensures var cut := Truncated(args[|args|..], previous);
            Storable(cut) && Stored(cut) == [] && Appended(storage, storage, pos, Stored(cut), 0)
  {
  }

  lemma {:induction false} PeelSize(args: seq<Argument>, argNum: nat, previous: nat, sizes: seq<nat>)
    requires AllValid(args) && argNum < |args| == |sizes|
    requires SizesMatch(Truncated(args[argNum..], previous), sizes[argNum..])
    ensures AllValid([Cut(args[argNum], previous)])
    ensures IsString(args[argNum].kind) ==> sizes[argNum] == |StringBytes(Cut(args[argNum], previous))|
    ensures SizesMatch(Truncated(args[argNum + 1..], NextPrecision(args[argNum], previous)), sizes[argNum + 1..])
  {
    Peel(args, argNum, previous);
    hide StringBytes, Cut, NextPrecision;
    var cut := Truncated(args[argNum..], previous);
    assert sizes[argNum..][0] == sizes[argNum] && cut[0] == Cut(args[argNum], previous);
    assert sizes[argNum..][1..] == sizes[argNum + 1..];
    forall i | 0 <= i < |cut[1..]| && IsString(cut[1..][i].kind)
      ensures sizes[argNum + 1..][i] == |StringBytes(cut[1..][i])|
    {
      assert IsString(cut[i + 1].kind);
    }
  }
}
