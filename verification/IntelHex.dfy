/**
 Intel HEX as a loader understands it (Intel Hexadecimal Object File Format Specification, data, end of file
 and extended linear address records). It knows nothing of the writer in ExtLibs/Bin2Hex/bin2hex.c.
 */
module IntelHex {
  import opened Machine
  import opened Options

  const SPACE := 0x1_0000_0000
  const BLANK: Byte := 0xFF

  // ----- text

  function HexDigit(n: nat): char
    requires n < 16
  {
    if n < 10 then (n + '0' as int) as char else (n - 10 + 'A' as int) as char
  }

  function HexValue(c: char): Option<nat> {
    if '0' <= c <= '9' then Some(c as int - '0' as int)
    else if 'A' <= c <= 'F' then Some(c as int - 'A' as int + 10)
    else None
  }

  /** One line: the bytes up to the end of the line, and the text after it. */
  function ParseBytes(t: string): (r: Option<(seq<Byte>, string)>)
    ensures r.Some? ==> |r.value.1| < |t|
  {
    if |t| < 2 then None
    else if t[0] == '\r' && t[1] == '\n' then Some(([], t[2..]))
    else if HexValue(t[0]).None? || HexValue(t[1]).None? then None
    else
      var rest := ParseBytes(t[2..]);
      if rest.None? then None
      else Some(([ByteOf(HexValue(t[0]).value, HexValue(t[1]).value)] + rest.value.0, rest.value.1))
  }

  function ByteOf(hi: nat, lo: nat): Byte {
    (hi % 16) * 16 + lo % 16
  }

  /** All lines, each started by a colon. */
  function ParseLines(t: string): Option<seq<seq<Byte>>>
    decreases |t|
  {
    if t == "" then Some([])
    else if t[0] != ':' then None
    else
      var line := ParseBytes(t[1..]);
      if line.None? then None
      else
        var rest := ParseLines(line.value.1);
        if rest.None? then None else Some([line.value.0] + rest.value)
  }

  // ----- records

  function Sum(b: seq<Byte>): nat {
    if b == [] then 0 else b[0] + Sum(b[1..])
  }

  lemma {:induction false} SumAppend(a: seq<Byte>, b: seq<Byte>)
    ensures Sum(a + b) == Sum(a) + Sum(b)
  {
    if a == [] {
      assert a + b == b;
    } else {
      assert (a + b)[1..] == a[1..] + b;
      SumAppend(a[1..], b);
    }
  }

  /** Length, address, type, data and checksum; all bytes together sum to zero modulo 256. */
  predicate WellFormed(r: seq<Byte>) {
    |r| >= 5 && r[0] == |r| - 5 && Sum(r) % 256 == 0
  }

  datatype Loader = Loading(lba: nat, mem: map<int, Byte>) | Done(mem: map<int, Byte>) | Failed

  function Store(mem: map<int, Byte>, addr: nat, data: seq<Byte>): map<int, Byte>
    decreases |data|
  {
    if data == [] then mem else Store(mem[addr % SPACE := data[0]], addr + 1, data[1..])
  }

  function Exec(s: Loader, r: seq<Byte>): Loader {
    if !s.Loading? || !WellFormed(r) then Failed
    else
      var data := r[4..|r| - 1];
      if r[3] == 0 then Loading(s.lba, Store(s.mem, s.lba + (r[1] as int) * 256 + r[2] as int, data))
      else if r[3] == 1 && data == [] then Done(s.mem)
      else if r[3] == 4 && |data| == 2 then Loading(((data[0] as int) * 256 + data[1] as int) * 0x10000, s.mem)
      else Failed
  }

  function Run(records: seq<seq<Byte>>): Loader {
    if records == [] then Loading(0, map[]) else Exec(Run(records[..|records| - 1]), records[|records| - 1])
  }

  /** The memory that a complete file describes. */
  function Load(text: string): Option<map<int, Byte>> {
    var lines := ParseLines(text);
    if lines.None? then None
    else
      var s := Run(lines.value);
      if s.Done? then Some(s.mem) else None
  }

  function Read(mem: map<int, Byte>, a: int): Byte {
    if a in mem then mem[a] else BLANK
  }

  lemma {:induction false} StoreReads(mem: map<int, Byte>, addr: nat, data: seq<Byte>, a: int)
    requires addr + |data| <= SPACE
    ensures Read(Store(mem, addr, data), a) == if addr <= a < addr + |data| then data[a - addr] else Read(mem, a)
    decreases |data|
  {
    if data != [] {
      StoreReads(mem[addr % SPACE := data[0]], addr + 1, data[1..], a);
      assert addr % SPACE == addr;
    }
  }

  lemma RunSnoc(records: seq<seq<Byte>>, r: seq<Byte>)
    ensures Run(records + [r]) == Exec(Run(records), r)
  {
    assert (records + [r])[..|records|] == records;
  }

  // ----- the image of a file

  /** Distance from base to a, going up and around the address space. */
  function Ahead(base: nat, a: nat): int
    requires base < SPACE && a < SPACE
  {
    if a >= base then a - base else a - base + SPACE
  }

  function Address(base: nat, n: nat): nat
    requires base < SPACE && n <= SPACE
  {
    if base + n < SPACE then base + n else base + n - SPACE
  }

  ghost predicate ImageAt(mem: map<int, Byte>, base: nat, data: seq<Byte>, a: nat)
    requires base < SPACE && a < SPACE
  {
    Read(mem, a) == if Ahead(base, a) < |data| then data[Ahead(base, a)] else BLANK
  }

  /** The memory holds the data from address base on, and is blank elsewhere. */
  ghost predicate Image(mem: map<int, Byte>, base: nat, data: seq<Byte>)
    requires base < SPACE
  {
    forall a {:trigger ImageAt(mem, base, data, a)} :: 0 <= a < SPACE ==> ImageAt(mem, base, data, a)
  }

  lemma ImageExtends(mem: map<int, Byte>, base: nat, data: seq<Byte>, more: seq<Byte>, addr: nat)
    requires base < SPACE && |data| + |more| <= SPACE && Image(mem, base, data)
    requires addr == Address(base, |data|) && addr + |more| <= SPACE
    ensures Image(Store(mem, addr, more), base, data + more)
  {
    forall a | 0 <= a < SPACE
      ensures ImageAt(Store(mem, addr, more), base, data + more, a)
    {
      assert ImageAt(mem, base, data, a);
      StoreReads(mem, addr, more, a);
    }
  }

  /** Blank data need not be stored. */
  lemma ImageBlank(mem: map<int, Byte>, base: nat, data: seq<Byte>, more: seq<Byte>)
    requires base < SPACE && |data| + |more| <= SPACE && Image(mem, base, data)
    requires forall i :: 0 <= i < |more| ==> more[i] == BLANK
    ensures Image(mem, base, data + more)
  {
    forall a | 0 <= a < SPACE
      ensures ImageAt(mem, base, data + more, a)
    {
      assert ImageAt(mem, base, data, a);
    }
  }
}
