/** Dictionary fragments: the static information of new log statements, written to the log before
    the first message that needs it. */
module Dictionaries {
  import opened Bytes
  import opened Packing
  import opened Packer
  import opened ArgumentCompress
  import opened LogHeader

  /** The static information of one log statement, as far as the log file keeps it. */
  datatype LogInfo = LogInfo(severity: byte, linenum: nat, filename: string, formatString: string) {
    predicate Valid() {
      && linenum < Pow256(4)
      && IsCString(filename) && |filename| + 1 < Pow256(2)
      && IsCString(formatString) && |formatString| + 1 < Pow256(2)
    }
  }

  predicate IsCString(s: string) {
    forall i :: 0 <= i < |s| ==> 0 < s[i] as int < 256
  }

  predicate AllInfos(infos: seq<LogInfo>) {
    forall i :: 0 <= i < |infos| ==> infos[i].Valid()
  }

  /** A string with its terminator. */
  function CString(s: string): (r: seq<byte>)
    requires IsCString(s)
    ensures |r| == |s| + 1
  {
    seq(|s|, i requires 0 <= i < |s| => s[i] as int as byte) + [0]
  }

  // sizeof(CompressedLogInfo) and sizeof(DictionaryFragment)
  const INFO_HEADER: nat := 9
  const FRAGMENT_HEADER: nat := 8

  function InfoHeader(info: LogInfo): (s: seq<byte>)
    requires info.Valid()
    ensures |s| == INFO_HEADER
  {
    [info.severity] + Little(info.linenum, 4) + Little(|info.filename| + 1, 2) + Little(|info.formatString| + 1, 2)
  }

  function InfoBytes(info: LogInfo): (s: seq<byte>)
    requires info.Valid()
    ensures |s| == INFO_HEADER + |info.filename| + 1 + |info.formatString| + 1
  {
    InfoHeader(info) + (CString(info.filename) + CString(info.formatString))
  }

  function AllInfoBytes(infos: seq<LogInfo>): seq<byte>
    requires AllInfos(infos)
  {
    if infos == [] then [] else InfoBytes(infos[0]) + AllInfoBytes(infos[1..])
  }

  /** Two bits of entry type and thirty of size in the first word, the number of statements so far in
      the second. */
  function FragmentHeader(size: nat, total: nat): (s: seq<byte>)
    ensures |s| == FRAGMENT_HEADER
  {
    Little(LOG_MSGS_OR_DIC + 4 * size, 4) + Little(total, 4)
  }

  function FragmentBytes(infos: seq<LogInfo>, total: nat): (s: seq<byte>)
    requires AllInfos(infos)
    ensures |s| == FRAGMENT_HEADER + |AllInfoBytes(infos)|
  {
    FragmentHeader(FRAGMENT_HEADER + |AllInfoBytes(infos)|, total) + AllInfoBytes(infos)
  }

  // ---- Encoding ----

  lemma {:induction false} InfosAppend(infos: seq<LogInfo>, info: LogInfo)
    requires AllInfos(infos) && info.Valid()
    ensures AllInfos(infos + [info]) && AllInfoBytes(infos + [info]) == AllInfoBytes(infos) + InfoBytes(info)
  {
    hide InfoBytes;
    var more := infos + [info];
    if infos == [] {
      assert more[0] == info && more[1..] == [];
    } else {
      assert more[0] == infos[0] && more[1..] == infos[1..] + [info];
      InfosAppend(infos[1..], info);
    }
  }

  lemma {:induction false} InfosTo(infos: seq<LogInfo>, from: nat, to: nat)
    requires AllInfos(infos) && from <= to < |infos|
    ensures AllInfos(infos[from..to]) && AllInfos(infos[from..to + 1]) && infos[to].Valid()
    ensures AllInfoBytes(infos[from..to + 1]) == AllInfoBytes(infos[from..to]) + InfoBytes(infos[to])
  {
    hide InfoBytes, AllInfoBytes;
    assert infos[from..to + 1] == infos[from..to] + [infos[to]];
    InfosAppend(infos[from..to], infos[to]);
  }

  /** Writes one statement's information: header, file name, format string. */
  method WriteInfo(buffer: array<byte>, pos: nat, info: LogInfo) returns (end: nat)
    requires info.Valid() && pos + |InfoBytes(info)| <= buffer.Length
    modifies buffer
    ensures end == pos + |InfoBytes(info)|
    ensures Appended(old(buffer[..]), buffer[..], pos, InfoBytes(info), |InfoBytes(info)|)
  {
    var header, name, format := InfoHeader(info), CString(info.filename), CString(info.formatString);
    hide Appended, InfoHeader, CString;
    ghost var before := buffer[..];
    Copy(buffer, pos, header);
    ghost var s1 := buffer[..];
    Copy(buffer, pos + |header|, name);
    ghost var s2 := buffer[..];
    Copy(buffer, pos + |header| + |name|, format);
    AppendTwice(s1, s2, buffer[..], pos + |header|, name, |name|, format, |format|, |name| + |format|);
    AppendTwice(before, s1, buffer[..], pos, header, |header|, name + format, |name + format|, |InfoBytes(info)|);
    end := pos + |header| + |name| + |format|;
  }

  /** The statements before `to` fit, each with room to spare, and the one at `to`, if there is one,
      does not. */
  predicate FitsUpTo(infos: seq<LogInfo>, from: nat, to: nat, room: nat) {
    && AllInfos(infos) && from <= to <= |infos|
    && (forall j :: from <= j < to ==> |InfoBytes(infos[j])| < room - |AllInfoBytes(infos[from..j])|)
    && (to < |infos| ==> |InfoBytes(infos[to])| >= room - |AllInfoBytes(infos[from..to])|)
  }

  /** Encodes as many statements from `currentPosition` on as fit; a fragment may well be empty.
      Nothing at all is written when not even a header fits. */
  method EncodeNewDictionaryEntries(buffer: array<byte>, pos: nat, currentPosition: nat, infos: seq<LogInfo>)
    returns (bytes: nat, end: nat, position: nat)
    requires AllInfos(infos) && currentPosition <= |infos| < Pow256(4) && pos <= buffer.Length < 0x4000_0000
    modifies buffer
    ensures FRAGMENT_HEADER >= buffer.Length - pos ==>
              bytes == 0 && end == pos && position == currentPosition && buffer[..] == old(buffer[..])
    ensures FRAGMENT_HEADER < buffer.Length - pos ==>
              && FitsUpTo(infos, currentPosition, position, buffer.Length - pos - FRAGMENT_HEADER)
              && bytes == |FragmentBytes(infos[currentPosition..position], position)|
              && end == pos + bytes <= buffer.Length
              && buffer[..end] == old(buffer[..pos]) + FragmentBytes(infos[currentPosition..position], position)
              && pos + FRAGMENT_HEADER <= end && Value(buffer[pos + 4..pos + 8]) == position
  {
    hide InfoBytes, AllInfoBytes, FragmentBytes, FragmentHeader, FitsUpTo, Appended, Pow256, Little, Value, AllInfos;
    bytes, end, position := 0, pos, currentPosition;
    if FRAGMENT_HEADER >= buffer.Length - pos { return; }
    ghost var before := buffer[..];
    end := pos + FRAGMENT_HEADER;
    end, position := EncodeInfos(buffer, end, currentPosition, infos);
    ghost var middle := buffer[..];
    hide *;
    FitsInRange(infos, currentPosition, position, buffer.Length - pos - FRAGMENT_HEADER);
    InfosBetween(infos, currentPosition, position);
    bytes := (end - pos) % 0x4000_0000;
    var header := FragmentHeader(bytes, position);
    Copy(buffer, pos, header);
    WrittenBehind(before, middle, buffer[..], pos, header, AllInfoBytes(infos[currentPosition..position]));
    FragmentIs(infos[currentPosition..position], position);
    BytesAre(end - pos);
    TotalIs(buffer[..], pos, before[..pos], bytes, position, AllInfoBytes(infos[currentPosition..position]));
  }

  lemma {:induction false} FitsInRange(infos: seq<LogInfo>, from: nat, to: nat, room: nat)
    requires FitsUpTo(infos, from, to, room)
    ensures from <= to <= |infos|
  {
    hide InfoBytes, AllInfoBytes;
  }

  lemma {:induction false} BytesAre(n: nat)
    requires n < 0x4000_0000
    ensures n % 0x4000_0000 == n
  {
  }

  /** The second word of a fragment is the number of statements up to its end. */
  lemma {:induction false} TotalIs(buffer: seq<byte>, pos: nat, before: seq<byte>, size: nat, total: nat, data: seq<byte>)
    requires |before| == pos && total < Pow256(4) && pos + FRAGMENT_HEADER + |data| <= |buffer|
    requires buffer[..pos + |FragmentHeader(size, total) + data|] == before + (FragmentHeader(size, total) + data)
    ensures FRAGMENT_HEADER == 8 && Value(buffer[pos + 4..pos + 8]) == total
  {
    ValueOfLittle(total, 4);
    var header := FragmentHeader(size, total);
    var all := before + (header + data);
    assert buffer[pos + 4..pos + 8] == buffer[..pos + |header + data|][pos + 4..pos + 8] == all[pos + 4..pos + 8];
    assert all[pos + 4..pos + 8] == header[4..8] == Little(total, 4);
  }

  lemma {:induction false} FragmentIs(infos: seq<LogInfo>, total: nat)
    requires AllInfos(infos)
    ensures FRAGMENT_HEADER == 8
    ensures FragmentBytes(infos, total)
            == FragmentHeader(FRAGMENT_HEADER + |AllInfoBytes(infos)|, total) + AllInfoBytes(infos)
  {
  }

  lemma {:induction false} InfosBetween(infos: seq<LogInfo>, from: nat, to: nat)
    requires AllInfos(infos) && from <= to <= |infos|
    ensures AllInfos(infos[from..to])
    ensures from == to ==> AllInfoBytes(infos[from..to]) == []
  {
  }

  lemma {:induction false} WrittenBehind(before: seq<byte>, middle: seq<byte>, after: seq<byte>, pos: nat, header: seq<byte>,
                                         data: seq<byte>)
    requires |before| == |middle| && pos + |header| + |data| <= |before|
    requires middle[..pos + |header| + |data|] == before[..pos + |header|] + data
    requires Appended(middle, after, pos, header, |header|)
    ensures after[..pos + |header + data|] == before[..pos] + (header + data)
  {
    var n := pos + |header|;
    assert after[..n + |data|] == after[..n] + after[n..][..|data|];
    assert middle[n..][..|data|] == middle[..n + |data|][n..] == data;
    assert middle[..pos] == middle[..n + |data|][..pos] == before[..pos];
  }

  /** The loop over the statements. */
  method EncodeInfos(buffer: array<byte>, pos: nat, currentPosition: nat, infos: seq<LogInfo>)
    returns (end: nat, position: nat)
    requires AllInfos(infos) && currentPosition <= |infos| && pos <= buffer.Length
    modifies buffer
    ensures FitsUpTo(infos, currentPosition, position, buffer.Length - pos)
    ensures AllInfos(infos[currentPosition..position])
    ensures end == pos + |AllInfoBytes(infos[currentPosition..position])| <= buffer.Length
    ensures buffer[..end] == old(buffer[..pos]) + AllInfoBytes(infos[currentPosition..position])
  {
    hide InfoBytes, AllInfoBytes, AllInfos;
    end, position := pos, currentPosition;
    InfosBetween(infos, currentPosition, currentPosition);
    ghost var room := buffer.Length - pos;
    while position < |infos|
      invariant currentPosition <= position <= |infos| && AllInfos(infos[currentPosition..position])
      invariant end == pos + |AllInfoBytes(infos[currentPosition..position])| <= buffer.Length
      invariant buffer[..end] == old(buffer[..pos]) + AllInfoBytes(infos[currentPosition..position])
      invariant forall j :: currentPosition <= j < position ==>
                  && infos[j].Valid() && AllInfos(infos[currentPosition..j])
                  && |InfoBytes(infos[j])| < room - |AllInfoBytes(infos[currentPosition..j])|
    {
      InfosTo(infos, currentPosition, position);
      var info := infos[position];
      InfoSize(info);
      var nextDictSize := INFO_HEADER + (|info.filename| + 1) + (|info.formatString| + 1);
      if nextDictSize >= buffer.Length - end { break; }
      ghost var now, at := buffer[..], end;
      end := WriteInfo(buffer, end, info);
      assert buffer[..end] == now[..at] + InfoBytes(info);
      position := position + 1;
    }
  }

  lemma {:induction false} InfoSize(info: LogInfo)
    requires info.Valid()
    ensures |InfoBytes(info)| == INFO_HEADER + (|info.filename| + 1) + (|info.formatString| + 1)
  {
  }

  // ---- Decoding ----

  /** The string that starts at the first byte and ends before the first zero. */
  function TextOf(bytes: seq<byte>): string {
    if bytes == [] || bytes[0] == 0 then [] else [bytes[0] as char] + TextOf(bytes[1..])
  }

  lemma {:induction false} TextOfCString(s: string)
    requires IsCString(s)
    ensures TextOf(CString(s)) == s
  {
    if s == [] {
      assert CString(s) == [0];
    } else {
      TextOfCString(s[1..]);
      assert CString(s)[1..] == CString(s[1..]);
      assert CString(s)[0] == s[0] as int;
      assert [s[0]] + s[1..] == s;
    }
  }

  /** Where the parts of one statement's information lie, and what they say. */
  lemma {:induction false} InfoThere(file: seq<byte>, pos: nat, info: LogInfo)
    requires info.Valid() && LiesAt(file, pos, InfoBytes(info))
    ensures var n, m := |info.filename| + 1, |info.formatString| + 1; var body := pos + INFO_HEADER;
            && INFO_HEADER == 9 && pos + |InfoBytes(info)| == body + n + m <= |file|
            && file[pos] == info.severity && Value(file[pos + 1..pos + 5]) == info.linenum
            && Value(file[pos + 5..pos + 7]) == n < Pow256(2) && Value(file[pos + 7..pos + 9]) == m < Pow256(2)
            && TextOf(file[body..body + n]) == info.filename && TextOf(file[body + n..body + n + m]) == info.formatString
  {
    hide *;
    var n, m := |info.filename| + 1, |info.formatString| + 1;
    InfoNumbers(info);
    InfoLayout(info);
    TextOfCString(info.filename);
    TextOfCString(info.formatString);
    var l, a, b, f, g := Little(info.linenum, 4), Little(n, 2), Little(m, 2), CString(info.filename), CString(info.formatString);
    InfoFixed(file, pos, info);
    LiesSplit(file, pos + 9, f, g);
    LiesWhere(file, pos + 9, f);
    LiesWhere(file, pos + 9 + n, g);
  }

  /** The part of fixed size. */
  lemma {:induction false} InfoFixed(file: seq<byte>, pos: nat, info: LogInfo)
    requires info.Valid() && LiesAt(file, pos, InfoBytes(info))
    ensures IsCString(info.filename) && IsCString(info.formatString) && pos + 9 <= |file|
    ensures file[pos] == info.severity && file[pos + 1..pos + 5] == Little(info.linenum, 4)
    ensures file[pos + 5..pos + 7] == Little(|info.filename| + 1, 2)
    ensures file[pos + 7..pos + 9] == Little(|info.formatString| + 1, 2)
    ensures LiesAt(file, pos + 9, CString(info.filename) + CString(info.formatString))
  {
    hide *;
    InfoNumbers(info);
    InfoLayout(info);
    var l, a, b := Little(info.linenum, 4), Little(|info.filename| + 1, 2), Little(|info.formatString| + 1, 2);
    var t := CString(info.filename) + CString(info.formatString);
    LiesSplit(file, pos, [info.severity], l + (a + (b + t)));
    LiesSplit(file, pos + 1, l, a + (b + t));
    LiesSplit(file, pos + 5, a, b + t);
    LiesSplit(file, pos + 7, b, t);
    LiesWhere(file, pos, [info.severity]);
    LiesWhere(file, pos + 1, l);
    LiesWhere(file, pos + 5, a);
    LiesWhere(file, pos + 7, b);
    assert file[pos] == file[pos..pos + 1][0];
  }

  lemma {:induction false} InfoNumbers(info: LogInfo)
    requires info.Valid()
    ensures IsCString(info.filename) && IsCString(info.formatString)
    ensures Value(Little(info.linenum, 4)) == info.linenum && INFO_HEADER == 9
    ensures Value(Little(|info.filename| + 1, 2)) == |info.filename| + 1 < Pow256(2)
    ensures Value(Little(|info.formatString| + 1, 2)) == |info.formatString| + 1 < Pow256(2)
    ensures |InfoBytes(info)| == INFO_HEADER + |info.filename| + 1 + |info.formatString| + 1
  {
    ValueOfLittle(info.linenum, 4);
    ValueOfLittle(|info.filename| + 1, 2);
    ValueOfLittle(|info.formatString| + 1, 2);
  }

  lemma {:induction false} InfoLayout(info: LogInfo)
    requires info.Valid()
    ensures InfoBytes(info)
            == [info.severity] + (Little(info.linenum, 4) +
               (Little(|info.filename| + 1, 2) + (Little(|info.formatString| + 1, 2) +
               (CString(info.filename) + CString(info.formatString)))))
  {
    hide Little, CString;
  }

  /** Reads one statement's information. The buffers that hold the strings grow when one of them
      would not fit. */
  method ReadInfo(file: seq<byte>, pos: nat, bufferSize: nat, ghost info: LogInfo)
    returns (read: LogInfo, end: nat, newSize: nat)
    requires info.Valid() && LiesAt(file, pos, InfoBytes(info))
    ensures read == info && end == pos + |InfoBytes(info)|
    ensures newSize >= |info.filename| + 1 && newSize >= |info.formatString| + 1
    ensures newSize == bufferSize || newSize == 2 * (|info.filename| + 1) || newSize == 2 * (|info.formatString| + 1)
  {
    hide *;
    InfoThere(file, pos, info);
    var filenameLength, formatLength := Value(file[pos + 5..pos + 7]), Value(file[pos + 7..pos + 9]);
    newSize := bufferSize;
    if bufferSize < filenameLength || bufferSize < formatLength {
      newSize := 2 * (if filenameLength > formatLength then filenameLength else formatLength);
    }
    var body := pos + INFO_HEADER;
    end := body + filenameLength + formatLength;
    read := LogInfo(file[pos], Value(file[pos + 1..pos + 5]), TextOf(file[body..body + filenameLength]),
                    TextOf(file[body + filenameLength..end]));
  }

  /** Reads a fragment back: the very statements that were encoded, and no byte more. */
  method ReadDictionaryFragment(file: seq<byte>, pos: nat, ghost infos: seq<LogInfo>, ghost total: nat)
    returns (read: seq<LogInfo>, end: nat)
    requires AllInfos(infos) && |FragmentBytes(infos, total)| < 0x4000_0000 && LiesAt(file, pos, FragmentBytes(infos, total))
    ensures read == infos && end == pos + |FragmentBytes(infos, total)|
  {
    hide *;
    FragmentThere(file, pos, infos, total);
    var newMetadataBytes := Value(file[pos..pos + 4]) / 4;
    var bytesRead := FRAGMENT_HEADER;
    var bufferSize := 10 * 1024;
    read, end := [], pos + FRAGMENT_HEADER;
    ghost var rest := infos;
    while bytesRead < newMetadataBytes
      invariant AllInfos(rest) && read + rest == infos
      invariant bytesRead == end - pos && bytesRead + |AllInfoBytes(rest)| == newMetadataBytes
      invariant LiesAt(file, end, AllInfoBytes(rest))
      decreases |rest|
    {
      NextInfo(file, end, rest);
      var info: LogInfo, next: nat;
      info, next, bufferSize := ReadInfo(file, end, bufferSize, rest[0]);
      read, bytesRead, end := read + [info], bytesRead + (next - end), next;
      rest := rest[1..];
    }
    NoInfo(rest);
  }

  lemma {:induction false} FragmentThere(file: seq<byte>, pos: nat, infos: seq<LogInfo>, total: nat)
    requires AllInfos(infos) && |FragmentBytes(infos, total)| < 0x4000_0000 && LiesAt(file, pos, FragmentBytes(infos, total))
    ensures pos + 8 <= |file| && FRAGMENT_HEADER == 8 && Value(file[pos..pos + 4]) / 4 == |FragmentBytes(infos, total)|
    ensures |FragmentBytes(infos, total)| == FRAGMENT_HEADER + |AllInfoBytes(infos)|
    ensures LiesAt(file, pos + FRAGMENT_HEADER, AllInfoBytes(infos))
  {
    var size := FRAGMENT_HEADER + |AllInfoBytes(infos)|;
    Pow256Values();
    ValueOfLittle(LOG_MSGS_OR_DIC + 4 * size, 4);
    hide Little, Value, AllInfoBytes, AllInfos, LiesAt, Pow256;
    var word, rest := Little(LOG_MSGS_OR_DIC + 4 * size, 4), Little(total, 4);
    assert FragmentBytes(infos, total) == word + (rest + AllInfoBytes(infos));
    LiesSplit(file, pos, word, rest + AllInfoBytes(infos));
    LiesSplit(file, pos + 4, rest, AllInfoBytes(infos));
    LiesWhere(file, pos, word);
    LiesWhere(file, pos + 8, AllInfoBytes(infos));
  }

  lemma {:induction false} NextInfo(file: seq<byte>, pos: nat, infos: seq<LogInfo>)
    requires AllInfos(infos) && |AllInfoBytes(infos)| > 0 && LiesAt(file, pos, AllInfoBytes(infos))
    ensures infos != [] && infos[0].Valid() && AllInfos(infos[1..]) && LiesAt(file, pos, InfoBytes(infos[0]))
    ensures LiesAt(file, pos + |InfoBytes(infos[0])|, AllInfoBytes(infos[1..]))
    ensures |AllInfoBytes(infos)| == |InfoBytes(infos[0])| + |AllInfoBytes(infos[1..])| && |InfoBytes(infos[0])| > 0
  {
    hide InfoBytes, LiesAt;
    LiesSplit(file, pos, InfoBytes(infos[0]), AllInfoBytes(infos[1..]));
  }

  lemma {:induction false} NoInfo(infos: seq<LogInfo>)
    requires AllInfos(infos) && |AllInfoBytes(infos)| == 0
    ensures infos == []
  {
  }
}
