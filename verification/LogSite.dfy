/** The log statement itself: size, truncate and store the arguments behind an entry header. */
module LogSite {
  import opened Bytes
  import opened Packing
  import opened Packer
  import opened Arguments
  import opened ArgumentStore
  import opened Entries

  /** The entry that a log statement makes of its arguments. */
  function EntryOf(fmtId: nat, timestamp: nat, args: seq<Argument>): Entry
    requires AllValid(args)
  {
    Entry(fmtId, timestamp, Truncated(args, NO_PRECISION))
  }

  /** Writes an entry into reserved memory at `pos`. It fails only when a string is too long for its
      length field; otherwise the memory asked for is exactly what the entry takes. */
  method Log(memory: array<byte>, pos: nat, fmtId: nat, timestamp: nat, args: seq<Argument>)
    returns (ok: bool, allocSize: nat)
    requires AllValid(args) && fmtId < Pow256(4) && timestamp < Pow256(8)
    requires pos + ENTRY_HEADER + |Stored(EntryOf(fmtId, timestamp, args).args)| <= memory.Length < Pow256(4)
    modifies memory
    ensures ok <==> EntryOf(fmtId, timestamp, args).Valid()
    ensures ok ==>
      var e := EntryOf(fmtId, timestamp, args);
      allocSize == e.Size() && Appended(old(memory[..]), memory[..], pos, EntryBytes(e), allocSize)
  {
    hide *;
    EntryParts(fmtId, timestamp, args);
    ghost var e := EntryOf(fmtId, timestamp, args);
    ghost var before := memory[..];
    var stringSizes := new nat[|args|](_ => 0);
    var argSizes := GetArgSizes(args, 0, NO_PRECISION, stringSizes);
    allocSize := argSizes + ENTRY_HEADER;
    assert stringSizes[..][0..] == stringSizes[0..];
    var end: nat;
    ok, end := StoreArguments(args, 0, NO_PRECISION, stringSizes[..], memory, pos + ENTRY_HEADER);
    if !ok { return; }
    ghost var middle := memory[..];
    var header := EntryHeader(fmtId, allocSize, timestamp);
    Copy(memory, pos, header);
    HeaderBefore(before, middle, memory[..], pos, header, Stored(e.args));
  }

  lemma {:induction false} EntryParts(fmtId: nat, timestamp: nat, args: seq<Argument>)
    requires AllValid(args)
    ensures args[0..] == args && AllValid(EntryOf(fmtId, timestamp, args).args)
    ensures EntryOf(fmtId, timestamp, args).args == Truncated(args, NO_PRECISION)
    ensures var e := EntryOf(fmtId, timestamp, args);
            fmtId < Pow256(4) && timestamp < Pow256(8) && ENTRY_HEADER + |Stored(e.args)| < Pow256(4) ==>
              (e.Valid() <==> Storable(e.args)) &&
              (e.Valid() ==>
                && e.Size() == ENTRY_HEADER + |Stored(e.args)|
                && EntryBytes(e) == EntryHeader(fmtId, e.Size(), timestamp) + Stored(e.args))
  {
    hide Stored, Storable, Truncated, EntryHeader, Pow256;
  }

  lemma {:induction false} HeaderBefore(before: seq<byte>, middle: seq<byte>, after: seq<byte>, pos: nat, header: seq<byte>,
                                        data: seq<byte>)
    requires Appended(before, middle, pos + |header|, data, |data|)
    requires Appended(middle, after, pos, header, |header|)
    ensures Appended(before, after, pos, header + data, |header + data|)
  {
    var n := pos + |header|;
    assert after[n..] == middle[n..];
    assert after[..n + |data|] == after[..n] + after[n..][..|data|];
    assert middle[n..][..|data|] == middle[..n + |data|][n..] == data;
    assert middle[..pos] == middle[..n + |data|][..pos] == before[..pos];
    assert after[n + |data|..] == after[n..][|data|..];
    assert middle[n + |data|..] == middle[n..][|data|..];
  }
}
