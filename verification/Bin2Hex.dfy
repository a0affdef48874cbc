/** The Intel HEX writer of ExtLibs/Bin2Hex/bin2hex.c. */
module Bin2Hex {
  import opened Machine
  import opened Options
  import opened IntelHex

  const SEGMENT := 0x10000
  const CHUNK := 16

  /** bin2hex.c:86: the byte of erased memory. */
  const IGNORED: Byte := 0xFF

  // ----- records and their text

  function Digits(b: seq<Byte>): string {
    if b == [] then "" else [HexDigit(b[0] / 16), HexDigit(b[0] % 16)] + Digits(b[1..])
  }

  function Line(b: seq<Byte>): string {
    ":" + Digits(b) + "\r\n"
  }

  function Lines(records: seq<seq<Byte>>): string {
    if records == [] then "" else Line(records[0]) + Lines(records[1..])
  }

  lemma {:induction false} DigitsLength(b: seq<Byte>)
    ensures |Digits(b)| == 2 * |b|
  {
    if b != [] {
      DigitsLength(b[1..]);
    }
  }

  /** bin2hex.c:49, and the 24 bytes of hex_str: they hold the text of at most ten bytes, so of five data bytes. */
  lemma LineLength(b: seq<Byte>)
    ensures |Line(b)| == 1 + 2 * |b| + 2
    ensures |Line(b)| <= 24 <==> |b| <= 10
  {
    DigitsLength(b);
  }

  lemma {:induction false} LinesSnoc(records: seq<seq<Byte>>, r: seq<Byte>)
    ensures Lines(records + [r]) == Lines(records) + Line(r)
  {
    if records != [] {
      assert (records + [r])[1..] == records[1..] + [r];
      LinesSnoc(records[1..], r);
    } else {
      assert ([] + [r])[1..] == [];
    }
  }

  lemma {:induction false} ParseDigits(b: seq<Byte>, rest: string)
    ensures ParseBytes(Digits(b) + "\r\n" + rest) == Some((b, rest))
  {
    var t := Digits(b) + "\r\n" + rest;
    if b == [] {
      assert t[2..] == rest;
    } else {
      assert t[2..] == Digits(b[1..]) + "\r\n" + rest;
      ParseDigits(b[1..], rest);
      DigitPair(b[0]);
      assert t[0] == HexDigit(b[0] / 16) && t[1] == HexDigit(b[0] % 16);
      assert [b[0]] + b[1..] == b;
    }
  }

  lemma DigitPair(b: Byte)
    ensures var (hi, lo) := (HexDigit(b / 16), HexDigit(b % 16));
      hi != '\r' && HexValue(hi).Some? && HexValue(lo).Some? && ByteOf(HexValue(hi).value, HexValue(lo).value) == b
  {
  }

  /** Reading the text back gives the records that were written. */
  lemma {:induction false} ParseLinesBack(records: seq<seq<Byte>>)
    ensures ParseLines(Lines(records)) == Some(records)
  {
    if records != [] {
      var (t, r, rest) := (Lines(records), records[0], Lines(records[1..]));
      assert t[1..] == Digits(r) + "\r\n" + rest;
      ParseDigits(r, rest);
      ParseLinesBack(records[1..]);
      assert [r] + records[1..] == records;
    }
  }

  // ----- checksums

  /** bin2hex.c:18-30. */
  method CheckSum(p: seq<Byte>) returns (sum: Byte)
    ensures (Sum(p) + sum) % 256 == 0
  {
    sum := 0;
    var i := |p|;
    ghost var total: int := 0;
    while i > 0
      invariant 0 <= i <= |p| && total == Sum(p[..|p| - i]) && sum == total % 256
    {
      var c := p[|p| - i];
      SumAppend(p[..|p| - i], [c]);
      assert p[..|p| - i] + [c] == p[..|p| - i + 1];
      SumWraps(total, c);
      total := total + c;
      sum := (sum + c) % 256;
      i := i - 1;
    }
    assert p[..|p|] == p;
    Complement(total);
    sum := 255 - sum;
    sum := (sum + 1) % 256;
  }

  lemma SumWraps(total: nat, c: nat)
    ensures (total % 256 + c) % 256 == (total + c) % 256
  {
  }

  /** The two's complement of a byte is its negation. */
  lemma Complement(total: nat)
    ensures (total + (255 - total % 256 + 1) % 256) % 256 == 0
  {
  }

  /** bin2hex.c:32-50. */
  method Encode(p: seq<Byte>) returns (t: string)
    ensures t == Line(p)
  {
    t := ":";
    var i := |p|;
    assert p[0..] == p;
    while i > 0
      invariant 0 <= i <= |p| && t + Digits(p[|p| - i..]) == ":" + Digits(p)
    {
      var c := p[|p| - i];
      assert p[|p| - i..][1..] == p[|p| - i + 1..];
      t := t + [HexDigit(c / 16), HexDigit(c % 16)];
      i := i - 1;
    }
    t := t + "\r\n";
  }

  predicate AllBlank(p: seq<Byte>) {
    forall i :: 0 <= i < |p| ==> p[i] == BLANK
  }

  /** head is a record up to its checksum, r the record with it. */
  ghost predicate Sealed(r: seq<Byte>, head: seq<Byte>) {
    |r| == |head| + 1 && r[..|head|] == head && Sum(r) % 256 == 0
  }

  ghost function DataHead(offset: nat, p: seq<Byte>): seq<Byte>
    requires offset < SEGMENT && |p| < 256
  {
    [|p|, offset / 256, offset % 256, 0] + p
  }

  /** The text of a data record fits hex_str if and only if it has at most five data bytes; chunks have up to sixteen. */
  lemma DataLineLength(r: seq<Byte>, offset: nat, p: seq<Byte>)
    requires offset < SEGMENT && |p| < 256 && Sealed(r, DataHead(offset, p))
    ensures |Line(r)| == 2 * |p| + 13
    ensures |Line(r)| <= 24 <==> |p| <= 5
  {
    LineLength(r);
  }

  ghost function AddressHead(begin: nat): seq<Byte>
    requires begin < SPACE
  {
    [2, 0, 0, 4, begin / 0x100_0000, begin / 0x10000 % 256]
  }

  // ----- what a record does to the loader

  /** The loader is at segment begin and has the image of data. */
  ghost predicate Shows(records: seq<seq<Byte>>, begin: nat, base: nat, data: seq<Byte>)
    requires base < SPACE
  {
    var s := Run(records);
    s.Loading? && s.lba == begin && Image(s.mem, base, data)
  }

  lemma DataExec(records: seq<seq<Byte>>, r: seq<Byte>, begin: nat, offset: nat, base: nat, data: seq<Byte>, p: seq<Byte>)
    requires base < SPACE && Shows(records, begin, base, data) && offset + |p| <= SEGMENT && offset < SEGMENT && |p| < 256
    requires |data| + |p| <= SPACE && begin + offset == Address(base, |data|) && begin + offset + |p| <= SPACE
    requires Sealed(r, DataHead(offset, p))
    ensures Shows(records + [r], begin, base, data + p)
  {
    RunSnoc(records, r);
    var head := DataHead(offset, p);
    assert forall i :: 0 <= i < |head| ==> r[i] == r[..|head|][i];
    assert r[4..|r| - 1] == p;
    ImageExtends(Run(records).mem, base, data, p, begin + offset);
  }

  lemma AddressExec(records: seq<seq<Byte>>, r: seq<Byte>, begin: nat, base: nat, data: seq<Byte>)
    requires base < SPACE && begin < SPACE && begin % SEGMENT == 0
    requires Run(records).Loading? && Image(Run(records).mem, base, data) && Sealed(r, AddressHead(begin))
    ensures Shows(records + [r], begin, base, data)
  {
    RunSnoc(records, r);
    AddressBytes(begin);
    AddressRecord(r, begin, Run(records));
  }

  lemma AddressBytes(begin: nat)
    requires begin < SPACE && begin % SEGMENT == 0
    ensures begin / 0x100_0000 < 256 && (begin / 0x100_0000 * 256 + begin / 0x10000 % 256) * 0x10000 == begin
  {
  }

  lemma AddressRecord(r: seq<Byte>, begin: nat, s: Loader)
    requires begin < SPACE && Sealed(r, AddressHead(begin)) && s.Loading?
    ensures Exec(s, r) == Loading((begin / 0x100_0000 * 256 + begin / 0x10000 % 256) * 0x10000, s.mem)
  {
    var head := AddressHead(begin);
    assert forall i :: 0 <= i < |head| ==> r[i] == r[..|head|][i];
    assert r[4..|r| - 1] == [begin / 0x100_0000, begin / 0x10000 % 256];
  }

  lemma EndExec(records: seq<seq<Byte>>, r: seq<Byte>)
    requires Run(records).Loading? && Sealed(r, [0, 0, 0, 1])
    ensures Run(records + [r]) == Done(Run(records).mem)
  {
    RunSnoc(records, r);
    var head: seq<Byte> := [0, 0, 0, 1];
    assert forall i :: 0 <= i < |head| ==> r[i] == r[..|head|][i];
  }

  /** The unsigned sum begin + 0x10000, where the data ends at the end of segment begin. */
  lemma NextBegin(begin: nat, base: nat, n: nat, next: nat)
    requires base < SPACE && n < SPACE && begin < SPACE && begin % SEGMENT == 0 && next == (begin + SEGMENT) % SPACE
    requires begin + SEGMENT == base + n || begin + SEGMENT == base + n - SPACE
    ensures next < SPACE && next % SEGMENT == 0 && next == Address(base, n)
  {
  }

  lemma BlankShows(records: seq<seq<Byte>>, begin: nat, base: nat, data: seq<Byte>, p: seq<Byte>)
    requires base < SPACE && Shows(records, begin, base, data) && |data| + |p| <= SPACE && AllBlank(p)
    ensures Shows(records, begin, base, data + p)
  {
    ImageBlank(Run(records).mem, base, data, p);
  }

  lemma AddressAdvances(base: nat, n: nat, begin: nat, offset: nat, k: nat)
    requires base < SPACE && n + k < SPACE && begin < SPACE && begin % SEGMENT == 0
    requires begin + offset == Address(base, n) && offset + k < SEGMENT
    ensures begin + (offset + k) == Address(base, n + k)
  {
    SegmentEnds(begin);
  }

  lemma SegmentEnds(begin: nat)
    requires begin < SPACE && begin % SEGMENT == 0
    ensures begin + SEGMENT <= SPACE
  {
  }

  /** bin2hex.c:91-98. */
  method IsBlank(p: seq<Byte>) returns (blank: bool)
    ensures blank <==> AllBlank(p)
  {
    var count := 0;
    while count < |p|
      invariant count <= |p| && AllBlank(p[..count])
    {
      if p[count] != IGNORED { return false; }
      count := count + 1;
    }
    assert p[..count] == p;
    return true;
  }

  /** The globals of bin2hex.c:12-16. */
  class Writer {
    var begin: nat
    var offset: nat
    var out: string
    ghost const base: nat
    ghost var records: seq<seq<Byte>>
    ghost var data: seq<Byte>

    /** What has been written so far parses to the records, and the position is where the data ends. */
    ghost predicate Valid()
      reads this
    {
      && base < SPACE && out == Lines(records) && |data| < SPACE
      && begin < SPACE && begin % SEGMENT == 0 && offset < SEGMENT && begin + offset == Address(base, |data|)
    }

    /** Valid, and a loader that reads what has been written holds the data. */
    ghost predicate InStep()
      reads this
    {
      Valid() && Shows(records, begin, base, data)
    }

    /** bin2hex.c:236-237. */
    constructor (address: nat)
      requires address < SPACE
      ensures Valid() && base == address && records == [] && data == []
    {
      begin := address - address % SEGMENT;
      offset := address % SEGMENT;
      out := "";
      base := address;
      records := [];
      data := [];
    }

    /** Appends a record to the file. */
    method Emit(head: seq<Byte>) returns (ghost r: seq<Byte>)
      requires out == Lines(records)
      modifies this`out, this`records
      ensures Sealed(r, head) && records == old(records) + [r] && out == Lines(records)
    {
      var sum := CheckSum(head);
      SumAppend(head, [sum]);
      r := head + [sum];
      assert Sum([sum]) == sum by { assert [sum][1..] == []; }
      var text := Encode(head + [sum]);
      LinesSnoc(records, r);
      records := records + [r];
      out := out + text;
    }

    /** bin2hex.c:52-67. */
    method WriteExtendedLinearAddress()
      requires out == Lines(records) && base < SPACE && begin < SPACE && begin % SEGMENT == 0
      requires Run(records).Loading? && Image(Run(records).mem, base, data)
      modifies this`out, this`records
      ensures out == Lines(records) && Shows(records, begin, base, data)
    {
      ghost var before := records;
      var r := Emit([2, 0, 0, 4, begin / 0x100_0000, begin / 0x10000 % 256]);
      AddressExec(before, r, begin, base, data);
    }

    /** bin2hex.c:69-82. */
    method WriteEndOfFile()
      requires InStep()
      modifies this`out, this`records
      ensures out == Lines(records) && Run(records).Done? && Image(Run(records).mem, base, data)
    {
      ghost var before := records;
      var r := Emit([0, 0, 0, 1]);
      EndExec(before, r);
    }

    /** bin2hex.c:84-114: a record of nothing but 0xFF is left out. */
    method WriteDataRecord(p: seq<Byte>)
      requires InStep() && 0 < |p| <= CHUNK && offset + |p| <= SEGMENT && |data| + |p| < SPACE
      modifies this`out, this`records, this`data
      ensures data == old(data) + p && out == Lines(records) && Shows(records, begin, base, data)
    {
      var blank := IsBlank(p);
      if blank {
        BlankShows(records, begin, base, data, p);
      } else {
        SegmentEnds(begin);
        WriteNonBlank(p);
      }
      data := data + p;
    }

    /** bin2hex.c:103-113. */
    method WriteNonBlank(p: seq<Byte>)
      requires InStep() && |p| <= CHUNK && offset + |p| <= SEGMENT && |data| + |p| < SPACE && begin + SEGMENT <= SPACE
      modifies this`out, this`records
      ensures out == Lines(records) && Shows(records, begin, base, data + p)
    {
      ghost var before := records;
      var r := Emit([|p|, offset / 256, offset % 256, 0] + p);
      DataExec(before, r, begin, offset, base, data, p);
    }

    /** bin2hex.c:129-131 and 137-139. */
    method NextSegment()
      requires out == Lines(records) && base < SPACE && begin < SPACE && begin % SEGMENT == 0 && |data| < SPACE
      requires Shows(records, begin, base, data) && (begin + SEGMENT == base + |data| || begin + SEGMENT == base + |data| - SPACE)
      modifies this`begin, this`offset, this`out, this`records
      ensures InStep() && offset == 0
    {
      var next := (begin + SEGMENT) % SPACE;
      NextBegin(begin, base, |data|, next);
      begin := next;
      WriteExtendedLinearAddress();
      offset := 0;
    }

    /** bin2hex.c:123-124 and 140-141. */
    method WriteWithin(p: seq<Byte>)
      requires InStep() && 0 < |p| <= CHUNK && |data| + |p| < SPACE && offset + |p| < SEGMENT
      modifies this
      ensures InStep() && data == old(data) + p
    {
      AddressAdvances(base, |data|, begin, offset, |p|);
      WriteDataRecord(p);
      offset := offset + |p|;
    }

    /** bin2hex.c:128-131 and 136-139. */
    method WriteToEnd(p: seq<Byte>)
      requires InStep() && 0 < |p| <= CHUNK && |data| + |p| < SPACE && offset + |p| == SEGMENT
      modifies this
      ensures InStep() && offset == 0 && data == old(data) + p
    {
      WriteDataRecord(p);
      NextSegment();
    }

    /** bin2hex.c:116-144. */
    method WriteData(p: seq<Byte>)
      requires InStep() && |p| <= CHUNK && |data| + |p| < SPACE
      modifies this
      ensures InStep() && data == old(data) + p
    {
      if |p| > 0 {
        if offset + |p| < SEGMENT {
          WriteWithin(p);
        } else if offset + |p| == SEGMENT {
          WriteToEnd(p);
        } else {
          var len := SEGMENT - offset;
          assert p == p[..len] + p[len..];
          WriteToEnd(p[..len]);
          WriteWithin(p[len..]);
        }
      }
    }
  }

  /** The bytes of the file that are to be converted. */
  ghost function Selected(file: seq<Byte>, start: nat, length: nat): seq<Byte> {
    var d := file[if start < |file| then start else |file|..];
    if |d| <= length then d else d[..length]
  }

  lemma Adjacent(file: seq<Byte>, first: nat, pos: nat, n: nat, m: nat)
    requires first <= pos && m <= n && pos + n <= |file|
    ensures file[first..pos] + file[pos..pos + n][..m] == file[first..pos + m] == file[first..][..pos + m - first]
    ensures m == n ==> file[pos..pos + n][..m] == file[pos..pos + n]
  {
    assert file[pos..pos + n][..m] == file[pos..pos + m];
    assert file[first..pos] + file[pos..pos + m] == file[first..pos + m];
    assert file[first..][..pos + m - first] == file[first..pos + m];
  }

  /** bin2hex.c:153-169, reading a file that gives no read errors. */
  method CopyFile(w: Writer, file: seq<Byte>, start: nat, length: nat)
    requires w.InStep() && w.data == [] && length < SPACE
    modifies w
    ensures w.InStep() && w.data == Selected(file, start, length)
  {
    var pos: nat, count: nat, eof := if start < |file| then start else |file|, 0, false;
    ghost var first := pos;
    while !eof
      invariant first <= pos <= |file| && w.InStep()
      invariant w.data == file[first..pos] && count == pos - first && (count < length || count == 0 == length)
      invariant eof ==> pos == |file| && count < length
      decreases !eof, |file| - pos
    {
      var n := if |file| - pos < CHUNK then |file| - pos else CHUNK;
      var chunk := file[pos..pos + n];
      if count + n >= length {
        var m := length - count;
        Adjacent(file, first, pos, n, m);
        w.WriteData(chunk[..m]);
        return;
      }
      Adjacent(file, first, pos, n, n);
      w.WriteData(chunk);
      pos, count, eof := pos + n, count + n, n < CHUNK;
    }
  }

  lemma {:induction false} AllWellFormed(records: seq<seq<Byte>>, i: nat)
    requires !Run(records).Failed? && i < |records|
    ensures WellFormed(records[i])
  {
    if i < |records| - 1 {
      AllWellFormed(records[..|records| - 1], i);
    }
  }

  /** bin2hex.c:146-171. */
  method Convert(file: seq<Byte>, start: nat, length: nat, address: nat) returns (text: string)
    requires length < SPACE && start < SPACE && address < SPACE
    ensures Load(text).Some? && Image(Load(text).value, address, Selected(file, start, length))
    ensures ParseLines(text).Some? && forall i :: 0 <= i < |ParseLines(text).value| ==> WellFormed(ParseLines(text).value[i])
  {
    var w := new Writer(address);
    w.WriteExtendedLinearAddress();
    CopyFile(w, file, start, length);
    w.WriteEndOfFile();
    text := w.out;
    ParseLinesBack(w.records);
    forall i | 0 <= i < |w.records|
      ensures WellFormed(w.records[i])
    {
      AllWellFormed(w.records, i);
    }
  }
}
