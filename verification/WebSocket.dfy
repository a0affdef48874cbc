/**
 WebSocket frames in App/WebServer/webserver.c: the writer, the header parser and the unmasking loop. Frame
 layout and masking follow sections 5.2 and 5.3 of RFC 6455.
 */
module WebSocket {
  import opened Machine
  import opened Sequences

  type Bytes = seq<bv8>

  /** Include/webs.h:8-19; Other stands for every value that is not a frame type. */
  datatype Kind = MinData | TxtData | BinData | Disconn | Ping | Pong | Other

  /** webserver.c:22-29. */
  datatype Head = Head(fin: bool, opcode: bv8, mask: bool, headLen: nat, length: nat, key: Bytes)

  // ----- frames as values

  /** The byte of value m. */
  function ByteOf(m: nat): (b: bv8)
    requires m < 256
    ensures b as nat == m
  {
    if m == 0 then 0
    else
      ByteInc(ByteOf(m - 1));
      ByteOf(m - 1) + 1
  }

  lemma ByteInc(b: bv8)
    requires b as nat < 255
    ensures (b + 1) as nat == b as nat + 1
  {
  }

  /** The low eight bits. */
  function Low8(n: nat): (b: bv8)
    ensures b as nat == n % 256
  {
    ByteOf(n % 256)
  }

  function FirstByte(kind: Kind): bv8 {
    match kind
    case MinData => 0x00
    case TxtData => 0x81
    case BinData => 0x82
    case Disconn => 0x88
    case Ping => 0x89
    case Pong => 0x8A
    case Other => 0
  }

  /** The seven length bits: the length itself, or 126 or 127 for the two longer forms. */
  function ShortLength(n: nat): bv8 {
    if n < 126 then Low8(n) else if n < 65536 then 126 else 127
  }

  function Extended(n: nat): Bytes {
    if n < 126 then []
    else if n < 65536 then [Low8(n / 0x100), Low8(n)]
    else [0, 0, 0, 0, Low8(n / 0x100_0000), Low8(n / 0x1_0000), Low8(n / 0x100), Low8(n)]
  }

  function Xor(a: bv8, b: bv8): bv8 {
    a ^ b
  }

  /** Masking and unmasking. */
  function Masked(data: Bytes, key: Bytes): (r: Bytes)
    requires |key| == 4
    ensures |r| == |data| && forall i :: 0 <= i < |data| ==> r[i] == Xor(data[i], key[i % 4])
  {
    seq(|data|, i requires 0 <= i < |data| => Xor(data[i], key[i % 4]))
  }

  /** The second byte; `stale` is what an unmasked frame finds there. */
  function SecondByte(n: nat, isMask: bool, stale: bv8): bv8 {
    (if isMask then 0x80 else stale) | ShortLength(n)
  }

  function HeadBytes(n: nat, kind: Kind, isMask: bool, stale: bv8): Bytes {
    [FirstByte(kind), SecondByte(n, isMask, stale)] + Extended(n)
  }

  function Body(data: Bytes, isMask: bool, key: Bytes): Bytes
    requires |key| == 4
  {
    if isMask then key + Masked(data, key) else data
  }

  function Frame(data: Bytes, kind: Kind, isMask: bool, key: Bytes, stale: bv8): Bytes
    requires |key| == 4
  {
    HeadBytes(|data|, kind, isMask, stale) + Body(data, isMask, key)
  }

  /** How long the header of the frame is before the key. */
  function HeadSize(second: bv8): nat {
    if second & 0x7F == 126 then 4 else if second & 0x7F == 127 then 10 else 2
  }

  /** A length in network byte order, of which only the low 32 bits are kept. */
  function BigEndian(b: Bytes): nat {
    if b == [] then 0 else BigEndian(b[..|b| - 1]) * 256 + b[|b| - 1] as nat
  }

  function LengthOf(m: Bytes): nat
    requires |m| >= 2 && |m| >= HeadSize(m[1])
  {
    var short := m[1] & 0x7F;
    if short == 126 then BigEndian(m[2..4])
    else if short == 127 then BigEndian(m[6..10])
    else short as nat
  }

  /** What the header of m says; the parser takes four bytes of key whether or not the mask bit is set. */
  function HeadOf(m: Bytes): Head
    requires |m| >= 2 && |m| >= HeadSize(m[1]) + 4
  {
    var k := HeadSize(m[1]);
    Head(m[0] & 0x80 == 0x80, m[0] & 0x0F, m[1] & 0x80 == 0x80, k + 4, LengthOf(m), m[k..k + 4])
  }

  // ----- round trip

  lemma XorTwice(a: bv8, b: bv8)
    ensures Xor(Xor(a, b), b) == a
  {
  }

  lemma UnmaskMasked(data: Bytes, key: Bytes)
    requires |key| == 4
    ensures Masked(Masked(data, key), key) == data
  {
    var r := Masked(Masked(data, key), key);
    forall i | 0 <= i < |data|
      ensures r[i] == data[i]
    {
      XorTwice(data[i], key[i % 4]);
    }
  }

  lemma LowBits(b: bv8)
    requires b <= 127
    ensures (0x80 | b) & 0x7F == b && (0x80 | b) & 0x80 == 0x80
  {
  }

  lemma ShortIs(n: nat)
    ensures ShortLength(n) <= 127
    ensures n < 126 ==> ShortLength(n) as nat == n && ShortLength(n) != 126 && ShortLength(n) != 127
  {
    if n < 126 {
      SmallByte(ShortLength(n), n);
    }
  }

  lemma SmallByte(b: bv8, n: nat)
    requires b as nat == n && n < 126
    ensures b < 126
  {
  }

  lemma {:induction false} BigEndianSnoc(b: Bytes, x: bv8)
    ensures BigEndian(b + [x]) == BigEndian(b) * 256 + x as nat
  {
    assert (b + [x])[..|b|] == b;
  }

  lemma BigEndianPair(a: bv8, b: bv8)
    ensures BigEndian([a, b]) == a as nat * 256 + b as nat
  {
    BigEndianSnoc([], a);
    BigEndianSnoc([a], b);
    assert [] + [a] == [a] && [a] + [b] == [a, b];
  }

  lemma BigEndianQuad(a: bv8, b: bv8, c: bv8, d: bv8)
    ensures BigEndian([a, b, c, d]) == (BigEndian([a, b]) * 256 + c as nat) * 256 + d as nat
  {
    BigEndianSnoc([a, b], c);
    BigEndianSnoc([a, b, c], d);
    assert [a, b] + [c] == [a, b, c] && [a, b, c] + [d] == [a, b, c, d];
  }

  lemma TwoBytes(n: nat)
    requires n < 65536
    ensures BigEndian([Low8(n / 0x100), Low8(n)]) == n
  {
    TwoBytesOf(n, Low8(n / 0x100), Low8(n));
  }

  lemma TwoBytesOf(n: nat, a: bv8, b: bv8)
    requires n < 65536 && a as nat == n / 0x100 % 256 && b as nat == n % 256
    ensures BigEndian([a, b]) == n
  {
    BigEndianPair(a, b);
    Recombine(n, a as nat, b as nat);
  }

  lemma Recombine(n: nat, x: nat, y: nat)
    requires n < 65536 && x == n / 0x100 % 256 && y == n % 256
    ensures x * 256 + y == n
  {
  }

  lemma FourBytes(n: nat)
    requires n < 0x1_0000_0000
    ensures BigEndian([Low8(n / 0x100_0000), Low8(n / 0x1_0000), Low8(n / 0x100), Low8(n)]) == n
  {
    TwoBytes(n / 0x1_0000);
    Halves(n);
    BigEndianQuad(Low8(n / 0x100_0000), Low8(n / 0x1_0000), Low8(n / 0x100), Low8(n));
  }

  lemma Halves(n: nat)
    ensures n / 0x1_0000 / 0x100 == n / 0x100_0000
    ensures (n / 0x1_0000 * 256 + n / 0x100 % 256) * 256 + n % 256 == n
  {
    Quotients(n, n / 0x1_0000, n % 0x1_0000);
    LowPart(n, n / 0x1_0000, n % 0x1_0000);
  }

  lemma Quotients(n: nat, h: nat, l: nat)
    requires n == h * 0x1_0000 + l && l < 0x1_0000
    ensures h / 0x100 == n / 0x100_0000
  {
    var (q, r) := (h / 0x100, h % 0x100);
    assert n == q * 0x100_0000 + (r * 0x1_0000 + l);
  }

  lemma LowPart(n: nat, h: nat, l: nat)
    requires n == h * 0x1_0000 + l && l < 0x1_0000
    ensures (h * 256 + n / 0x100 % 256) * 256 + n % 256 == n
  {
    var (a, b) := (l / 256, l % 256);
    assert n == (h * 256 + a) * 256 + b;
    assert n / 256 == h * 256 + a && n % 256 == b;
  }

  lemma LengthRecovered(m: Bytes, n: nat)
    requires n < 0x8000_0000 && |m| >= 2 && m[1] & 0x7F == ShortLength(n)
    requires |m| >= 2 + |Extended(n)| && m[2..2 + |Extended(n)|] == Extended(n)
    ensures HeadSize(m[1]) == 2 + |Extended(n)| && LengthOf(m) == n
  {
    ShortIs(n);
    if n >= 65536 {
      assert m[6..10] == m[2..10][4..];
      assert m[2..10][4..] == [Low8(n / 0x100_0000), Low8(n / 0x1_0000), Low8(n / 0x100), Low8(n)];
      FourBytes(n);
    } else if n >= 126 {
      TwoBytes(n);
    }
  }

  lemma FirstByteIs(kind: Kind)
    requires kind != Other
    ensures FirstByte(kind) & 0x80 == 0x80 <==> kind != MinData
    ensures FirstByte(kind) & 0x0F == Opcode(kind)
  {
  }

  /** Section 5.2 of RFC 6455. */
  function Opcode(kind: Kind): bv8 {
    match kind
    case MinData => 0
    case TxtData => 1
    case BinData => 2
    case Disconn => 8
    case Ping => 9
    case Pong => 10
    case Other => 15
  }

  /** Every masked frame is read back: flags, opcode, length, header size, key and payload. */
  lemma MaskedRoundTrip(data: Bytes, kind: Kind, key: Bytes, stale: bv8)
    requires |data| < 0x8000_0000 && |key| == 4 && kind != Other
    ensures var m := Frame(data, kind, true, key, stale);
      && |m| >= HeadSize(m[1]) + 4
      && HeadOf(m) == Head(kind != MinData, Opcode(kind), true, |m| - |data|, |data|, key)
      && Masked(m[|m| - |data|..], key) == data
  {
    var m, k := FrameParts(data, kind, true, key, stale);
    ShortIs(|data|);
    LowBits(ShortLength(|data|));
    LengthRecovered(m, |data|);
    FirstByteIs(kind);
    KeyAndPayload(m, k, key, Masked(data, key));
    UnmaskMasked(data, key);
  }

  lemma KeyAndPayload(m: Bytes, k: nat, key: Bytes, payload: Bytes)
    requires k <= |m| && m[k..] == key + payload && |key| == 4
    ensures |m| == k + 4 + |payload| && m[k..k + 4] == key && m[k + 4..] == payload
  {
    assert m[k..k + 4] == m[k..][..4];
    assert m[k + 4..] == m[k..][4..];
  }

  /** Where the parts of a frame stand. */
  lemma FrameParts(data: Bytes, kind: Kind, isMask: bool, key: Bytes, stale: bv8) returns (m: Bytes, k: nat)
    requires |key| == 4
    ensures m == Frame(data, kind, isMask, key, stale) && k == 2 + |Extended(|data|)| <= |m|
    ensures m[0] == FirstByte(kind) && m[1] == (if isMask then 0x80 else stale) | ShortLength(|data|)
    ensures m[2..k] == Extended(|data|) && m[k..] == Body(data, isMask, key)
  {
    m, k := Frame(data, kind, isMask, key, stale), 2 + |Extended(|data|)|;
  }

  /** The header size section 5.2 of RFC 6455 gives to m. */
  function RfcHeadSize(m: Bytes): nat
    requires |m| >= 2
  {
    HeadSize(m[1]) + if m[1] & 0x80 == 0x80 then 4 else 0
  }

  /** The parser finds the payload exactly when the mask bit is set. */
  lemma PayloadFoundIffMasked(m: Bytes)
    requires |m| >= 2 && |m| >= HeadSize(m[1]) + 4
    ensures HeadOf(m).headLen == RfcHeadSize(m) <==> HeadOf(m).mask
  {
  }

  /** A byte is determined by its value. */
  lemma {:induction false} ByteOfValue(b: bv8, m: nat)
    requires m < 256 && b as nat == m
    ensures b == ByteOf(m)
  {
    if m > 0 {
      ByteDec(b);
      ByteOfValue(b - 1, m - 1);
    } else {
      ByteZero(b);
    }
  }

  lemma ByteDec(b: bv8)
    requires b as nat > 0
    ensures (b - 1) as nat == b as nat - 1 && (b - 1) + 1 == b
  {
  }

  lemma ByteZero(b: bv8)
    requires b as nat == 0
    ensures b == 0
  {
  }

  lemma OrIs(stale: bv8, x: bv8)
    requires x <= 127
    ensures (stale | x) & 0x80 != 0x80 && (stale | x) & 0x7F == x <==> stale | x == x
  {
  }

  lemma ShortByte(v: bv8, n: nat)
    requires n < 126 && v as nat == n
    ensures v == ShortLength(n)
  {
    ByteOfValue(v, n);
    BelowByte(n);
  }

  lemma BelowByte(n: nat)
    requires n < 256
    ensures n % 256 == n
  {
  }

  lemma HeadSizeIs(b: bv8)
    ensures (HeadSize(b) == 4 <==> b & 0x7F == 126) && (HeadSize(b) == 10 <==> b & 0x7F == 127)
  {
  }

  lemma LengthOfShort(m: Bytes)
    requires |m| >= 2 && HeadSize(m[1]) == 2
    ensures LengthOf(m) == (m[1] & 0x7F) as nat
  {
  }

  /** Header size and length determine the seven length bits. */
  lemma ShortFromLength(m: Bytes, n: nat)
    requires |m| >= 2 && |m| >= HeadSize(m[1]) == 2 + |Extended(n)| && LengthOf(m) == n
    ensures m[1] & 0x7F == ShortLength(n)
  {
    if n < 126 {
      LengthOfShort(m);
      ShortByte(m[1] & 0x7F, n);
    } else {
      HeadSizeIs(m[1]);
    }
  }

  /** m reads, by section 5.2 of RFC 6455, as an unmasked frame with exactly this payload. */
  predicate ReadsAs(m: Bytes, data: Bytes) {
    && |m| >= 2 && m[1] & 0x80 != 0x80 && |m| >= HeadSize(m[1]) && LengthOf(m) == |data|
    && m[HeadSize(m[1])..] == data
  }

  /** What the server sends reads as the payload if and only if the buffer held no bit there that the length lacks. */
  lemma UnmaskedReadIff(data: Bytes, kind: Kind, key: Bytes, stale: bv8)
    requires |data| < 0x8000_0000 && |key| == 4
    ensures ReadsAs(Frame(data, kind, false, key, stale), data) <==> stale | ShortLength(|data|) == ShortLength(|data|)
  {
    var m, k := FrameParts(data, kind, false, key, stale);
    ShortIs(|data|);
    OrIs(stale, ShortLength(|data|));
    UnmaskedReads(m, data, |data|, k);
  }

  lemma UnmaskedReads(m: Bytes, data: Bytes, n: nat, k: nat)
    requires n == |data| < 0x8000_0000 && k == 2 + |Extended(n)| <= |m| && m[2..k] == Extended(n) && m[k..] == data
    ensures ReadsAs(m, data) <==> m[1] & 0x80 != 0x80 && m[1] & 0x7F == ShortLength(n)
  {
    if m[1] & 0x7F == ShortLength(n) {
      LengthRecovered(m, n);
    }
    if ReadsAs(m, data) {
      assert |m| == k + n && |m| == HeadSize(m[1]) + n;
      ShortFromLength(m, n);
    }
  }

  // ----- the buffers

  function FrameSize(n: nat, isMask: bool): nat {
    2 + |Extended(n)| + n + if isMask then 4 else 0
  }

  /** Writes b at k, as consecutive stores through the advancing package pointer do. */
  method Append(package: array<bv8>, k: nat, b: Bytes) returns (k': nat)
    requires k + |b| <= package.Length
    modifies package
    ensures k' == k + |b| && package[..k'] == old(package[..k]) + b
    ensures package[k'..] == old(package[k'..])
  {
    ghost var was := package[..];
    var i := 0;
    while i < |b|
      invariant i <= |b| && package[..k + i] == was[..k] + b[..i]
      invariant package[k + i..] == was[k + i..]
    {
      package[k + i] := b[i];
      StoreStep(was, k, i, b, package[..]);
      i := i + 1;
    }
    assert b[..i] == b;
    return k + |b|;
  }

  lemma StoreStep(was: Bytes, k: nat, i: nat, b: Bytes, now: Bytes)
    requires |was| == |now| && k + i < |now| && i < |b|
    requires now[..k + i] == was[..k] + b[..i] && now[k + i] == b[i] && now[k + i + 1..] == was[k + i..][1..]
    ensures now[..k + i + 1] == was[..k] + b[..i + 1]
    ensures now[k + i + 1..] == was[k + i + 1..]
  {
    assert b[..i + 1] == b[..i] + [b[i]];
    assert now[..k + i + 1] == now[..k + i] + [now[k + i]];
  }

  /** The expression of webserver.c:204 is exclusive or. */
  lemma XorExpanded(a: bv8, b: bv8)
    ensures (!a & b) | (a & !b) == Xor(b, a)
  {
  }

  lemma MaskedAt(data: Bytes, key: Bytes, i: nat, c: nat)
    requires |key| == 4 && i < |data| && c == i % 4
    ensures Masked(data, key)[i] == (!key[c] & data[i]) | (key[c] & !data[i])
  {
    XorExpanded(key[c], data[i]);
  }

  /** webserver.c:200-208: the payload under the key, whose bytes are used in turn. */
  method AppendMasked(package: array<bv8>, k: nat, data: Bytes, key: Bytes) returns (k': nat)
    requires k + |data| <= package.Length && |key| == 4
    modifies package
    ensures k' == k + |data| && package[..k'] == old(package[..k]) + Masked(data, key)
    ensures package[k'..] == old(package[k'..])
  {
    ghost var (was, b) := (package[..], Masked(data, key));
    var i, count := 0, 0;
    while i < |data|
      invariant i <= |data| && count == i % 4
      invariant package[..k + i] == was[..k] + b[..i] && package[k + i..] == was[k + i..]
    {
      var temp1, temp2 := key[count], data[i];
      package[k + i] := (!temp1 & temp2) | (temp1 & !temp2);
      MaskedAt(data, key, i, count);
      StoreStep(was, k, i, b, package[..]);
      i := i + 1;
      count := count + 1;
      if count >= 4 { count := 0; }
    }
    assert b[..i] == b;
    return k + |data|;
  }

  /**
   webserver.c:131-222; the random key is a parameter. A frame that fits needs room for the NUL after it; for one
   that does not fit, the buffer need only be as long as it is said to be.
   */
  method EnPackage(data: Bytes, package: array<bv8>, packageMaxLen: nat, isMask: bool, kind: Kind, key: Bytes)
    returns (n: int)
    requires |data| < 0x8000_0000 && |key| == 4 && packageMaxLen < 0x1_0000_0000
    requires kind != Other && packageMaxLen >= FrameSize(|data|, isMask) ==> package.Length > FrameSize(|data|, isMask)
    requires kind != Other && packageMaxLen < FrameSize(|data|, isMask) ==>
      packageMaxLen <= package.Length || package.Length > FrameSize(|data|, isMask)
    modifies package
    ensures n == -1 <==> kind == Other || packageMaxLen < FrameSize(|data|, isMask)
    ensures n != -1 ==> n == ToInt(FrameSize(|data|, isMask))
    ensures n != -1 ==> package[..FrameSize(|data|, isMask)] == Frame(data, kind, isMask, key, old(package[1]))
    ensures n != -1 ==> package[FrameSize(|data|, isMask)] == 0
  {
    if packageMaxLen < 2 || kind == Other { return -1; }
    var k := AppendHead(package, |data|, packageMaxLen, isMask, kind);
    if k == -1 || packageMaxLen < k + |data| + (if isMask then 4 else 0) { return -1; }
    k := AppendBody(package, k, data, isMask, key);
    return ToInt(k);
  }

  /** webserver.c:141-188; the package pointer has advanced by k. */
  method AppendHead(package: array<bv8>, dataLen: nat, packageMaxLen: nat, isMask: bool, kind: Kind) returns (k: int)
    requires package.Length >= 2 && (packageMaxLen >= 2 + |Extended(dataLen)| ==> package.Length >= 2 + |Extended(dataLen)|)
    requires packageMaxLen >= 2
    modifies package
    ensures k == -1 || k == 2 + |Extended(dataLen)|
    ensures k == -1 <==> |Extended(dataLen)| > 0 && packageMaxLen < 2 + |Extended(dataLen)|
    ensures k != -1 ==> package[..k] == HeadBytes(dataLen, kind, isMask, old(package[1]))
  {
    var second := SecondByte(dataLen, isMask, package[1]);
    k := Append(package, 0, [FirstByte(kind), second]);
    if 126 <= dataLen < 65536 && packageMaxLen < 4 { return -1; }
    if 65536 <= dataLen && packageMaxLen < 10 { return -1; }
    k := Append(package, k, Extended(dataLen));
  }

  /** webserver.c:190-219, and the terminating NUL. */
  method AppendBody(package: array<bv8>, k: nat, data: Bytes, isMask: bool, key: Bytes) returns (end: nat)
    requires |key| == 4 && package.Length > k + |Body(data, isMask, key)|
    modifies package
    ensures end == k + |Body(data, isMask, key)|
    ensures package[..end] == old(package[..k]) + Body(data, isMask, key) && package[end] == 0
  {
    if isMask {
      end := Append(package, k, key);
      end := AppendMasked(package, end, data, key);
    } else {
      end := Append(package, k, data);
    }
    ghost var done := package[..end];
    package[end] := 0;
    assert package[..end] == done;
  }

  // ----- receiving

  /** The eight length bytes in reverse order, as the parser leaves them behind. */
  ghost function Swapped(m: Bytes): Bytes
    requires |m| >= 2 && |m| >= HeadSize(m[1])
  {
    if m[1] & 0x7F == 127 then Mirrored(m, 4) else m
  }

  /** The outermost i of the four pairs of length bytes exchanged. */
  ghost function Mirrored(m: Bytes, i: nat): (r: Bytes)
    requires |m| >= 10
    ensures |r| == |m| && forall j :: 0 <= j < |m| ==> r[j] == m[Mirror(i, j)]
  {
    seq(|m|, j requires 0 <= j < |m| => m[Mirror(i, j)])
  }

  function Mirror(i: nat, j: nat): (r: nat)
    ensures r < 10 || r == j
  {
    if 2 <= j < 2 + i && j < 10 then 11 - j else if 10 <= j + i && 2 <= j < 10 then 11 - j else j
  }

  lemma MirrorStep(m: Bytes, i: nat)
    requires |m| >= 10 && i < 4
    ensures var r := Mirrored(m, i); Mirrored(m, i + 1) == r[2 + i := r[9 - i]][9 - i := r[2 + i]]
  {
  }

  /** webserver.c:72-115 on a little-endian machine; the 64-bit length is cut to 32 bits. */
  method ParsingFrameHeader(recvMsg: array<bv8>, recvLen: int) returns (r: int, head: Head)
    requires recvLen > 0 ==> recvMsg.Length >= 2 && recvMsg.Length >= HeadSize(recvMsg[1]) + 4
    modifies recvMsg
    ensures recvLen <= 0 ==> r == -1 && recvMsg[..] == old(recvMsg[..])
    ensures recvLen > 0 ==> r == 0 && head == HeadOf(old(recvMsg[..])) && recvMsg[..] == Swapped(old(recvMsg[..]))
  {
    head := Head(false, 0, false, 0, 0, []);
    if recvLen <= 0 { return -1, head; }
    ghost var m := recvMsg[..];
    var fin, opcode := recvMsg[0] & 0x80 == 0x80, recvMsg[0] & 0x0F;
    var mask := recvMsg[1] & 0x80 == 0x80;
    var short := recvMsg[1] & 0x7F;
    var length, readCount := short as nat, 2;
    if short == 126 {
      length := recvMsg[2] as nat * 256 + recvMsg[3] as nat;
      BigEndianPair(m[2], m[3]);
      assert m[2..4] == [m[2], m[3]];
      readCount := 4;
    } else if short == 127 {
      SwapEight(recvMsg);
      length := LittleEndian(recvMsg[2], recvMsg[3], recvMsg[4], recvMsg[5]);
      LittleIsBig(m[9], m[8], m[7], m[6]);
      assert m[6..10] == [m[6], m[7], m[8], m[9]];
      readCount := 10;
    }
    var key := recvMsg[readCount..readCount + 4];
    assert key == m[readCount..readCount + 4];
    head := Head(fin, opcode, mask, readCount + 4, length, key);
    r := 0;
  }

  function LittleEndian(a: bv8, b: bv8, c: bv8, d: bv8): nat {
    a as nat + 0x100 * b as nat + 0x1_0000 * c as nat + 0x100_0000 * d as nat
  }

  lemma LittleIsBig(a: bv8, b: bv8, c: bv8, d: bv8)
    ensures LittleEndian(a, b, c, d) == BigEndian([d, c, b, a])
  {
    BigEndianPair(d, c);
    BigEndianQuad(d, c, b, a);
  }

  /** webserver.c:99-104. */
  method SwapEight(a: array<bv8>)
    requires a.Length >= 10 && a[1] & 0x7F == 127
    modifies a
    ensures a[..] == Swapped(old(a[..]))
  {
    ghost var m := a[..];
    var i := 0;
    assert Mirrored(m, 0) == m;
    while i < 4
      invariant 0 <= i <= 4 && a[..] == Mirrored(m, i)
    {
      MirrorStep(m, i);
      a[2 + i], a[9 - i] := a[9 - i], a[2 + i];
      i := i + 1;
    }
  }

  /** webserver.c:224-229, on the part of the buffer that starts at `at`. */
  method Webumask(data: array<bv8>, at: nat, len: int, mask: Bytes)
    requires |mask| == 4 && (len > 0 ==> at + len <= data.Length)
    modifies data
    ensures len > 0 ==> data[at..at + len] == Masked(old(data[at..at + len]), mask)
    ensures forall j :: 0 <= j < data.Length && !(at <= j < at + len) ==> data[j] == old(data[j])
  {
    ghost var m := data[..];
    var i := 0;
    while i < len
      invariant 0 <= i && if len > 0 then i <= len else i == 0
      invariant forall j :: 0 <= j < data.Length ==>
        data[j] == if at <= j < at + i then Xor(m[j], mask[(j - at) % 4]) else m[j]
    {
      data[at + i] := data[at + i] ^ mask[i % 4];
      i := i + 1;
    }
  }

  /** webserver.c:367-368: from a masked frame in the receive buffer to its payload. */
  method Receive(recvMsg: array<bv8>, recvLen: nat, ghost data: Bytes, ghost kind: Kind, ghost key: Bytes, ghost stale: bv8)
    returns (head: Head)
    requires 0 < recvLen <= recvMsg.Length && |data| < 0x8000_0000 && |key| == 4 && kind != Other
    requires recvMsg[..recvLen] == Frame(data, kind, true, key, stale)
    modifies recvMsg
    ensures head == Head(kind != MinData, Opcode(kind), true, recvLen - |data|, |data|, key)
    ensures head.headLen + head.length <= recvMsg.Length
    ensures recvMsg[head.headLen..head.headLen + head.length] == data
  {
    ghost var m := recvMsg[..];
    FrameInBuffer(m, recvLen, data, kind, key, stale);
    var _, h := ParsingFrameHeader(recvMsg, recvLen);
    head := h;
    Webumask(recvMsg, head.headLen, head.length, head.key);
  }

  /** What parser and unmasking loop need to know of a frame at the start of a buffer. */
  lemma FrameInBuffer(m: Bytes, n: nat, data: Bytes, kind: Kind, key: Bytes, stale: bv8)
    requires 0 < n <= |m| && |data| < 0x8000_0000 && |key| == 4 && kind != Other && m[..n] == Frame(data, kind, true, key, stale)
    ensures |m| >= 2 && |m| >= HeadSize(m[1]) + 4 && n >= |data|
    ensures HeadOf(m) == Head(kind != MinData, Opcode(kind), true, n - |data|, |data|, key)
    ensures |Swapped(m)| == |m| && Masked(Swapped(m)[n - |data|..n], key) == data
  {
    var f := m[..n];
    FrameReads(f, data, kind, key, stale);
    SecondOfPrefix(m, n, f);
    PrefixHead(m, n, f);
    PayloadOfPrefix(m, n, f, n - |data|);
  }

  lemma FrameReads(f: Bytes, data: Bytes, kind: Kind, key: Bytes, stale: bv8)
    requires |data| < 0x8000_0000 && |key| == 4 && kind != Other && f == Frame(data, kind, true, key, stale)
    ensures |f| >= 2 && |f| >= HeadSize(f[1]) + 4 && |f| - |data| == HeadSize(f[1]) + 4
    ensures HeadOf(f) == Head(kind != MinData, Opcode(kind), true, |f| - |data|, |data|, key)
    ensures Masked(f[|f| - |data|..], key) == data
  {
    MaskedRoundTrip(data, kind, key, stale);
  }

  lemma SecondOfPrefix(m: Bytes, n: nat, f: Bytes)
    requires 2 <= n <= |m| && f == m[..n]
    ensures m[0] == f[0] && m[1] == f[1]
  {
  }

  lemma PayloadOfPrefix(m: Bytes, n: nat, f: Bytes, at: nat)
    requires 2 <= n <= |m| && f == m[..n] && HeadSize(m[1]) <= at <= n
    ensures |Swapped(m)| == |m| && Swapped(m)[at..n] == f[at..]
  {
    PayloadUntouched(m, at, n - at);
    assert f[at..] == m[at..n];
  }

  /** Only the bytes of the header matter to the parser. */
  lemma PrefixHead(m: Bytes, n: nat, f: Bytes)
    requires n <= |m| && n >= 2 && n >= HeadSize(m[1]) + 4 && f == m[..n]
    ensures HeadOf(m) == HeadOf(f)
  {
    SecondOfPrefix(m, n, f);
    PrefixLength(m, n, f);
    SameHead(m, f, HeadSize(m[1])) by { SliceOfPrefix(m, n, HeadSize(m[1]), HeadSize(m[1]) + 4); }
  }

  lemma SameHead(m: Bytes, f: Bytes, k: nat)
    requires |m| >= 2 && |f| >= 2 && m[0] == f[0] && m[1] == f[1] && k == HeadSize(m[1]) && |m| >= k + 4 && |f| >= k + 4
    requires m[k..k + 4] == f[k..k + 4] && LengthOf(m) == LengthOf(f)
    ensures HeadOf(m) == HeadOf(f)
  {
  }

  lemma PrefixLength(m: Bytes, n: nat, f: Bytes)
    requires n <= |m| && n >= 2 && n >= HeadSize(m[1]) && f == m[..n] && m[1] == f[1]
    ensures LengthOf(m) == LengthOf(f)
  {
    if HeadSize(m[1]) == 4 {
      SliceOfPrefix(m, n, 2, 4);
    } else if HeadSize(m[1]) == 10 {
      SliceOfPrefix(m, n, 6, 10);
    }
  }

  lemma PayloadUntouched(m: Bytes, at: nat, len: nat)
    requires |m| >= 2 && |m| >= HeadSize(m[1]) && at >= HeadSize(m[1]) && at + len <= |m|
    ensures |Swapped(m)| == |m| && Swapped(m)[at..at + len] == m[at..at + len]
  {
  }
}
