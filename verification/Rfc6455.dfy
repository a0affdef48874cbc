/** The base framing of section 5.2 of RFC 6455 in full, against the frames of App/WebServer/webserver.c:131-222. */
module Rfc6455 {
  import opened Options
  import opened WebSocket

  datatype RfcFrame = RfcFrame(fin: bool, rsv: nat, opcode: nat, mask: bool, key: Bytes, payload: Bytes)

  /** How many bytes of extended length follow. */
  function LengthBytes(short: nat): nat {
    if short == 126 then 2 else if short == 127 then 8 else 0
  }

  /** A frame from the numbers of its first two bytes and the bytes that follow, with the minimal form of the length. */
  function Fields(first: nat, second: nat, tail: Bytes): Option<RfcFrame> {
    var ext := LengthBytes(second % 128);
    var at := ext + if second >= 128 then 4 else 0;
    if |tail| < at then None
    else
      var length := if ext == 0 then second % 128 else BigEndian(tail[..ext]);
      var (key, rest) := (tail[ext..at], tail[at..]);
      if |rest| != length || (ext == 2 && length < 126) || (ext == 8 && length < 65536) then None
      else
        Some(RfcFrame(first / 128 == 1, first / 16 % 8, first % 16, second >= 128, key,
                      if second >= 128 then Masked(rest, key) else rest))
  }

  /** The whole frame m. */
  function RfcRead(m: Bytes): Option<RfcFrame> {
    if |m| < 2 then None else Fields(m[0] as nat, m[1] as nat, m[2..])
  }

  /** Figure and list of section 5.2: continuation, text, binary, close, ping and pong. */
  function OpcodeNumber(kind: Kind): nat {
    match kind
    case MinData => 0
    case TxtData => 1
    case BinData => 2
    case Disconn => 8
    case Ping => 9
    case Pong => 10
    case Other => 15
  }

  lemma FirstByteFields(kind: Kind)
    requires kind != Other
    ensures var n := FirstByte(kind) as nat;
      (n / 128 == 1 <==> kind != MinData) && n / 16 % 8 == 0 && n % 16 == OpcodeNumber(kind)
  {
  }

  lemma MaskBit(b: bv8)
    requires b <= 127
    ensures (0x80 | b) as nat == 128 + b as nat
  {
    assert 0x80 | b == 0x80 + b;
    TopBitAdded(b, b as nat);
  }

  lemma {:induction false} TopBitAdded(b: bv8, n: nat)
    requires b <= 127 && n == b as nat
    ensures (0x80 + b) as nat == 128 + n
    decreases n
  {
    if n > 0 {
      ByteDec(b);
      assert b - 1 <= 127;
      TopBitAdded(b - 1, n - 1);
      assert 0x80 + b == (0x80 + (b - 1)) + 1;
      assert 0x80 + (b - 1) < 255;
      Increment(0x80 + (b - 1));
    } else {
      ByteZero(b);
    }
  }

  lemma Increment(b: bv8)
    requires b < 255
    ensures (b + 1) as nat == b as nat + 1
  {
  }

  lemma SameByte(a: bv8, b: bv8)
    requires a as nat == b as nat
    ensures a == b
  {
    ByteOfValue(a, b as nat);
    ByteOfValue(b, b as nat);
  }

  lemma ShortNumber(n: nat)
    ensures ShortLength(n) as nat == if n < 126 then n else if n < 65536 then 126 else 127
    ensures |Extended(n)| == LengthBytes(ShortLength(n) as nat)
  {
    ShortIs(n);
    SmallLiterals();
  }

  lemma SmallLiterals()
    ensures (126 as bv8) as nat == 126 && (127 as bv8) as nat == 127
  {
  }

  // ----- the extended length

  lemma {:induction false} ZerosBefore(z: Bytes, b: Bytes)
    requires forall i :: 0 <= i < |z| ==> z[i] == 0
    ensures BigEndian(z + b) == BigEndian(b)
    decreases |z| + |b|
  {
    if b != [] {
      var front := b[..|b| - 1];
      assert (z + b)[..|z + b| - 1] == z + front;
      ZerosBefore(z, front);
    } else if z != [] {
      var front := z[..|z| - 1];
      assert (z + b)[..|z + b| - 1] == front + b;
      ZerosBefore(front, b);
    }
  }

  /** All bytes of the extended length make up the length. */
  lemma ExtendedNumber(n: nat)
    requires 126 <= n < 0x1_0000_0000
    ensures BigEndian(Extended(n)) == n
  {
    if n < 65536 {
      TwoBytes(n);
    } else {
      var low := [Low8(n / 0x100_0000), Low8(n / 0x1_0000), Low8(n / 0x100), Low8(n)];
      FourBytes(n);
      ZerosBefore([0, 0, 0, 0], low);
      assert Extended(n) == [0, 0, 0, 0] + low;
    }
  }

  // ----- frames

  /** The frame from its parts. */
  lemma FieldsFrom(kind: Kind, first: nat, second: nat, short: nat, masked: bool, tail: Bytes, ext: Bytes, key: Bytes, rest: Bytes)
    requires (first / 128 == 1 <==> kind != MinData) && first / 16 % 8 == 0 && first % 16 == OpcodeNumber(kind)
    requires short < 128 && second == short + if masked then 128 else 0
    requires |ext| == LengthBytes(short) && |key| == (if masked then 4 else 0) && tail == ext + (key + rest)
    requires |rest| == if ext == [] then short else BigEndian(ext)
    requires (short == 126 ==> |rest| >= 126) && (short == 127 ==> |rest| >= 65536)
    ensures Fields(first, second, tail) == Some(RfcFrame(kind != MinData, 0, OpcodeNumber(kind), masked, key,
                                                         if masked then Masked(rest, key) else rest))
  {
    TopBit(second, short, masked);
    SplitAfter(tail, ext, key, rest);
  }

  lemma TopBit(second: nat, short: nat, masked: bool)
    requires short < 128 && second == short + if masked then 128 else 0
    ensures second % 128 == short && (second >= 128 <==> masked)
  {
  }

  lemma SplitAfter(t: Bytes, ext: Bytes, key: Bytes, rest: Bytes)
    requires t == ext + (key + rest)
    ensures |t| == |ext| + |key| + |rest| && t[..|ext|] == ext && t[|ext|..|ext| + |key|] == key && t[|ext| + |key|..] == rest
  {
  }

  /** The numbers of the first two bytes, and what follows them. */
  lemma FrameNumbers(data: Bytes, kind: Kind, masked: bool, key: Bytes, stale: bv8) returns (m: Bytes, first: nat, tail: Bytes)
    requires |key| == 4 && kind != Other
    ensures m == Frame(data, kind, masked, key, stale) && |m| >= 2 && first == m[0] as nat && tail == m[2..]
    ensures (first / 128 == 1 <==> kind != MinData) && first / 16 % 8 == 0 && first % 16 == OpcodeNumber(kind)
    ensures tail == Extended(|data|) + Body(data, masked, key)
    ensures m[1] == SecondByte(|data|, masked, stale)
  {
    m := Frame(data, kind, masked, key, stale);
    first, tail := m[0] as nat, m[2..];
    FirstByteFields(kind);
  }

  lemma ReadIs(m: Bytes, first: nat, second: nat, tail: Bytes)
    requires |m| >= 2 && first == m[0] as nat && second == m[1] as nat && tail == m[2..]
    ensures RfcRead(m) == Fields(first, second, tail)
  {
  }

  lemma ShortFits(n: nat, short: nat, ext: Bytes)
    requires n < 0x8000_0000 && short == ShortLength(n) as nat && ext == Extended(n)
    ensures short < 128 && |ext| == LengthBytes(short) && n == (if ext == [] then short else BigEndian(ext))
    ensures short == if n < 126 then n else if n < 65536 then 126 else 127
  {
    ShortNumber(n);
    if n >= 126 {
      ExtendedNumber(n);
    }
  }

  lemma SecondMasked(n: nat, stale: bv8, short: nat)
    requires short == ShortLength(n) as nat
    ensures SecondByte(n, true, stale) as nat == short + 128
  {
    ShortIs(n);
    MaskBit(ShortLength(n));
  }

  /** A masked frame reads in every bit as section 5.2 has it, and its payload comes out unmasked. */
  lemma MaskedFrameRead(data: Bytes, kind: Kind, key: Bytes, stale: bv8)
    requires |data| < 0x8000_0000 && |key| == 4 && kind != Other
    ensures RfcRead(Frame(data, kind, true, key, stale)) ==
            Some(RfcFrame(kind != MinData, 0, OpcodeNumber(kind), true, key, data))
  {
    var m, first, tail := FrameNumbers(data, kind, true, key, stale);
    var (short, ext, rest) := (ShortLength(|data|) as nat, Extended(|data|), Masked(data, key));
    ShortFits(|data|, short, ext);
    SecondMasked(|data|, stale, short);
    FieldsFrom(kind, first, short + 128, short, true, tail, ext, key, rest);
    ReadIs(m, first, short + 128, tail);
    UnmaskMasked(data, key);
  }

  /** An unmasked frame reads as the payload if and only if its second byte is the length alone. */
  lemma UnmaskedByNumber(m: Bytes, first: nat, tail: Bytes, data: Bytes, kind: Kind, b: bv8)
    requires |data| < 0x8000_0000 && kind != Other && b == ShortLength(|data|)
    requires |m| >= 2 && first == m[0] as nat && tail == m[2..] && tail == Extended(|data|) + data
    requires (first / 128 == 1 <==> kind != MinData) && first / 16 % 8 == 0 && first % 16 == OpcodeNumber(kind)
    ensures RfcRead(m) == Some(RfcFrame(kind != MinData, 0, OpcodeNumber(kind), false, [], data)) <==> m[1] as nat == b as nat
  {
    var (short, ext, second) := (b as nat, Extended(|data|), m[1] as nat);
    ShortFits(|data|, short, ext);
    ReadIs(m, first, second, tail);
    UnmaskedFields(kind, first, second, short, tail, ext, data);
  }

  /** An unmasked frame reads as the payload if and only if the buffer's second byte held no bit that the length lacks. */
  lemma UnmaskedFrameReadIff(data: Bytes, kind: Kind, key: Bytes, stale: bv8)
    requires |data| < 0x8000_0000 && |key| == 4 && kind != Other
    ensures RfcRead(Frame(data, kind, false, key, stale)) == Some(RfcFrame(kind != MinData, 0, OpcodeNumber(kind), false, [], data))
            <==> stale | ShortLength(|data|) == ShortLength(|data|)
  {
    var m, first, tail := FrameNumbers(data, kind, false, key, stale);
    UnmaskedByNumber(m, first, tail, data, kind, ShortLength(|data|));
    SameNumber(m[1], ShortLength(|data|));
  }

  lemma SameNumber(a: bv8, b: bv8)
    ensures a as nat == b as nat <==> a == b
  {
    if a as nat == b as nat {
      SameByte(a, b);
    }
  }

  lemma UnmaskedFields(kind: Kind, first: nat, second: nat, short: nat, tail: Bytes, ext: Bytes, data: Bytes)
    requires (first / 128 == 1 <==> kind != MinData) && first / 16 % 8 == 0 && first % 16 == OpcodeNumber(kind) && kind != Other
    requires tail == ext + data && short == (if |data| < 126 then |data| else if |data| < 65536 then 126 else 127)
    requires |ext| == LengthBytes(short) && |data| == if ext == [] then short else BigEndian(ext)
    ensures Fields(first, second, tail) == Some(RfcFrame(kind != MinData, 0, OpcodeNumber(kind), false, [], data)) <==> second == short
  {
    if second == short {
      assert tail == ext + ([] + data);
      FieldsFrom(kind, first, short, short, false, tail, ext, [], data);
    } else {
      WrongShort(first, second, tail, |data|, ext, data, short);
    }
  }

  lemma WrongShort(first: nat, second: nat, tail: Bytes, n: nat, ext: Bytes, data: Bytes, short: nat)
    requires |tail| == |ext| + n && |data| == n && second != short && |ext| == LengthBytes(short)
    requires short == if n < 126 then n else if n < 65536 then 126 else 127
    ensures Fields(first, second, tail).Some? ==> Fields(first, second, tail).value.mask || Fields(first, second, tail).value.payload != data
  {
  }

  // ----- the parser

  lemma BitsOf(b: bv8)
    ensures (b & 0x0F) as nat == b as nat % 16 && (b & 0x7F) as nat == b as nat % 128
    ensures (b & 0x80 == 0x80 <==> b as nat / 128 == 1) && (b & 0x80 == 0x80 <==> b as nat >= 128)
  {
  }

  lemma HeadSizeOf(b: bv8)
    ensures HeadSize(b) == 2 + LengthBytes(b as nat % 128)
  {
    BitsOf(b);
    SmallLiterals();
    SameNumber(b & 0x7F, 126);
    SameNumber(b & 0x7F, 127);
  }

  /** Four more bytes in front count 2^32 each. */
  lemma {:induction false} LowFour(z: Bytes, b: Bytes)
    requires |b| <= 4
    ensures BigEndian(b) < Power256(|b|) && BigEndian(z + b) == BigEndian(z) * Power256(|b|) + BigEndian(b)
    decreases |b|
  {
    if b == [] {
      assert z + b == z;
    } else {
      var (front, c) := (b[..|b| - 1], b[|b| - 1]);
      LowFour(z, front);
      assert (z + b)[..|z + b| - 1] == z + front;
      NextByte(BigEndian(z), Power256(|front|), BigEndian(front), c as nat);
    }
  }

  lemma NextByte(z: nat, p: nat, x: nat, c: nat)
    requires x < p && c < 256
    ensures (z * p + x) * 256 + c == z * (256 * p) + (x * 256 + c) && x * 256 + c < 256 * p
  {
    assert (z * p) * 256 == z * (256 * p);
  }

  function Power256(n: nat): nat {
    if n == 0 then 1 else 256 * Power256(n - 1)
  }

  lemma Power256Four()
    ensures Power256(4) == 0x1_0000_0000
  {
    assert Power256(2) == 0x1_0000;
  }

  /** The low 32 bits of an eight-byte length. */
  lemma LowLength(t: Bytes, low: Bytes)
    requires |t| == 8 && low == t[4..]
    ensures BigEndian(low) == BigEndian(t) % 0x1_0000_0000
  {
    LowFour(t[..4], low);
    Power256Four();
    assert t[..4] + low == t;
    LowPart(BigEndian(t[..4]), BigEndian(low), BigEndian(t));
  }

  lemma LowPart(h: nat, l: nat, n: nat)
    requires n == h * 0x1_0000_0000 + l && l < 0x1_0000_0000
    ensures l == n % 0x1_0000_0000
  {
  }

  lemma LengthAgrees(m: Bytes, ext: nat, n: nat)
    requires |m| >= 2 + ext && ext == LengthBytes(m[1] as nat % 128) && HeadSize(m[1]) == 2 + ext
    requires n == if ext == 0 then m[1] as nat % 128 else BigEndian(m[2..2 + ext])
    ensures LengthOf(m) == if ext == 8 then n % 0x1_0000_0000 else n
  {
    BitsOf(m[1]);
    HeadSizeIs(m[1]);
    if ext == 8 {
      LowLength(m[2..10], m[6..10]);
    }
  }

  lemma FlagsAgree(m: Bytes, f: RfcFrame)
    requires RfcRead(m) == Some(f) && |m| >= HeadSize(m[1]) + 4
    ensures HeadOf(m).fin == f.fin && HeadOf(m).opcode as nat == f.opcode && HeadOf(m).mask == f.mask
  {
    BitsOf(m[0]);
    BitsOf(m[1]);
  }

  lemma LengthAgreesWith(m: Bytes, f: RfcFrame, ext: nat)
    requires RfcRead(m) == Some(f) && |m| >= HeadSize(m[1]) + 4 && ext == LengthBytes(m[1] as nat % 128)
    ensures HeadOf(m).length == if ext == 8 then |f.payload| % 0x1_0000_0000 else |f.payload|
  {
    var (second, tail) := (m[1] as nat, m[2..]);
    HeadSizeOf(m[1]);
    PartsOf(m, tail, ext);
    LengthAgrees(m, ext, if ext == 0 then second % 128 else BigEndian(tail[..ext]));
  }

  lemma KeyAgrees(m: Bytes, f: RfcFrame, ext: nat)
    requires RfcRead(m) == Some(f) && |m| >= HeadSize(m[1]) + 4 && ext == LengthBytes(m[1] as nat % 128) && f.mask
    ensures HeadOf(m).key == f.key && HeadOf(m).headLen <= |m| && Masked(m[HeadOf(m).headLen..], f.key) == f.payload
  {
    HeadSizeOf(m[1]);
    PartsOf(m, m[2..], ext);
  }

  /**
   On every frame of section 5.2 the parser finds the same flag, opcode, mask bit, key and payload; of the length it
   keeps the low 32 bits.
   */
  lemma ParserAgrees(m: Bytes, f: RfcFrame)
    requires RfcRead(m) == Some(f) && |m| >= HeadSize(m[1]) + 4
    ensures HeadOf(m).fin == f.fin && HeadOf(m).opcode as nat == f.opcode && HeadOf(m).mask == f.mask
    ensures HeadOf(m).length == if m[1] as nat % 128 == 127 then |f.payload| % 0x1_0000_0000 else |f.payload|
    ensures f.mask ==> HeadOf(m).key == f.key && HeadOf(m).headLen <= |m| && Masked(m[HeadOf(m).headLen..], f.key) == f.payload
  {
    var ext := LengthBytes(m[1] as nat % 128);
    FlagsAgree(m, f);
    LengthAgreesWith(m, f, ext);
    if f.mask {
      KeyAgrees(m, f, ext);
    }
  }

  lemma PartsOf(m: Bytes, tail: Bytes, ext: nat)
    requires |m| >= 6 + ext && tail == m[2..]
    ensures tail[..ext] == m[2..2 + ext] && tail[ext..ext + 4] == m[2 + ext..6 + ext] && tail[ext + 4..] == m[6 + ext..]
  {
  }
}
