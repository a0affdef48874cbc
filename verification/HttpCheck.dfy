/**
 The incremental completeness check of App/HttpAPI/httpapi.c:68-121: what it remembers from earlier pieces of a
 request must agree with a parse from scratch (section 3.3.3 of RFC 7230).
 */
module HttpCheck {
  import opened CStrings
  import opened Sequences

  const CR := '\r' as int
  const LF := '\n' as int

  function Crlf(): Text {
    [CR, LF]
  }

  function HeadEnd(): Text {
    [CR, LF, CR, LF]
  }

  const NAME_LEN := 15

  /** The two spellings the program knows, the one it looks for first being the lower-case one. */
  function Name(lower: bool): (t: Text)
    ensures |t| == NAME_LEN && forall i :: 0 <= i < |t| ==> t[i] != CR && t[i] != 0
  {
    if lower then Ascii("content-length:") else Ascii("Content-Length:")
  }

  /** httpapi.c:53-58. */
  datatype Info = Info(isHeadEnd: bool, headLen: nat, contentLen: int)

  const ZERO := Info(false, 0, 0)

  // ----- one call

  /** Where the length field starts, in the spelling found first (httpapi.c:94-100). */
  function FieldStart(s: Text): int {
    var p := StrStr(s, Name(true), 0);
    if p != -1 then p else StrStr(s, Name(false), 0)
  }

  /** The field's value runs from one character after the colon to the end of the line. */
  function FieldEnd(s: Text): int
    requires FieldStart(s) >= 0
  {
    StrStr(s, Crlf(), FieldStart(s))
  }

  /** The value fits the 32 bytes of tmp, with a NUL, and is not of negative length. */
  predicate FieldFits(s: Text) {
    FieldStart(s) >= 0 && FieldEnd(s) >= 0 ==> 0 <= FieldEnd(s) - (FieldStart(s) + NAME_LEN + 1) < 32
  }

  datatype Field = Missing | Value(n: int)

  /** httpapi.c:94-112: the stated length, if there is one. */
  function LengthField(s: Text): Field
    requires FieldFits(s)
  {
    if FieldStart(s) == -1 || FieldEnd(s) == -1 then Missing
    else Value(Atoi(s[FieldStart(s) + NAME_LEN + 1..FieldEnd(s)]))
  }

  method FindStart(s: Text) returns (ps: int)
    ensures ps == FieldStart(s)
  {
    ps := StrStr(s, Name(true), 0);
    if ps == -1 {
      ps := StrStr(s, Name(false), 0);
    }
  }

  method FindLength(s: Text) returns (f: Field)
    requires FieldFits(s)
    ensures f == LengthField(s)
  {
    var ps := FindStart(s);
    if ps == -1 { return Missing; }
    var pe := StrStr(s, Crlf(), ps);
    if pe == -1 { return Missing; }
    return Value(Atoi(s[ps + NAME_LEN + 1..pe]));
  }

  /** When the field is looked for, its value fits. */
  predicate Safe(info: Info, received: Text) {
    (info.isHeadEnd || StrStr(Str(received), HeadEnd(), 0) != -1) && info.contentLen == 0 ==> FieldFits(Str(received))
  }

  /** The answer and the new state when `received` is in the buffer and followed by NULs. */
  function Check(info: Info, received: Text): (bool, Info)
    requires Safe(info, received)
  {
    var s := Str(received);
    var p := StrStr(s, HeadEnd(), 0);
    if !info.isHeadEnd && p == -1 then (false, info)
    else
      var info' := if info.isHeadEnd then info else info.(isHeadEnd := true, headLen := p + 4);
      if info'.contentLen != 0 then (info'.contentLen + info'.headLen <= |received|, info')
      else
        match LengthField(s)
        case Missing => (true, info')
        case Value(n) => (n + info'.headLen <= |received|, info'.(contentLen := n))
  }

  /** NetCliInfo_T.usrdef, which is allocated by the first call. */
  class Client {
    var usrdef: bool
    var isHeadEnd: bool
    var headLen: nat
    var contentLen: int

    function Remembered(): Info
      reads this
    {
      if usrdef then Info(isHeadEnd, headLen, contentLen) else ZERO
    }

    constructor ()
      ensures Remembered() == ZERO
    {
      usrdef := false;
    }

    /** httpapi.c:68-121. */
    method HttpChecked(received: Text) returns (complete: bool)
      requires Safe(Remembered(), received)
      modifies this
      ensures (complete, Remembered()) == Check(old(Remembered()), received)
    {
      var s := Str(received);
      if !usrdef {
        usrdef, isHeadEnd, headLen, contentLen := true, false, 0, 0;
      }
      if !isHeadEnd {
        var p := StrStr(s, HeadEnd(), 0);
        if p == -1 { return false; }
        headLen := p + 4;
        isHeadEnd := true;
      }
      if contentLen == 0 {
        var f := FindLength(s);
        if f.Missing? { return true; }
        contentLen := f.n;
      }
      return contentLen + headLen <= |received|;
    }
  }

  // ----- requests

  const INT_LIMIT := 0x8000_0000

  /** Optional whitespace around a field value: spaces and tabs. */
  predicate Blank(s: Text) {
    forall i :: 0 <= i < |s| ==> s[i] == 32 || s[i] == 9
  }

  predicate AllDigits(s: Text) {
    forall i :: 0 <= i < |s| ==> IsDigit(s[i])
  }

  /** The number that decimal digits denote. */
  function Number(digits: Text): nat
    requires AllDigits(digits)
  {
    if digits == [] then 0
    else Number(digits[..|digits| - 1]) * 10 + (digits[|digits| - 1] - '0' as int)
  }

  /** A header of h bytes whose length field stands at p: its value, and the whitespace before and after it. */
  datatype Form = Form(h: nat, p: nat, before: Text, digits: Text, after: Text, lower: bool)

  function ValueText(f: Form): Text {
    f.before + f.digits + f.after
  }

  /** Where the field's line ends. */
  function LineEnd(f: Form): nat {
    f.p + NAME_LEN + |ValueText(f)|
  }

  /** The value is a number between whitespace, for which there is room in tmp; header and content fit an int. */
  predicate GoodValue(f: Form) {
    && Blank(f.before) && Blank(f.after) && AllDigits(f.digits) && f.digits != []
    && |ValueText(f)| <= 32 && f.h + Number(f.digits) < INT_LIMIT
  }

  /**
   m has such a header. No other length field comes first, and with the capitalised spelling the lower-case one
   does not occur at all.
   */
  ghost predicate WellFormed(m: Text, f: Form) {
    && GoodValue(f) && 4 <= f.h <= |m| && NoNul(m[..f.h]) && StrStr(m, HeadEnd(), 0) == f.h - 4
    && LineEnd(f) + 2 <= f.h && m[f.p + NAME_LEN..LineEnd(f)] == ValueText(f) && Occurs(m, Crlf(), LineEnd(f))
    && StrStr(m, Name(f.lower), 0) == f.p
    && (!f.lower ==> StrStr(Str(m), Name(true), 0) == -1)
  }

  /** The content length the request states (section 3.3.2 of RFC 7230). */
  function Stated(f: Form): nat
    requires AllDigits(f.digits)
  {
    Number(f.digits)
  }

  /** What the program makes of it: the character after the colon is skipped. */
  function Understood(f: Form): nat
    requires AllDigits(f.digits) && f.digits != []
  {
    Number(if f.before == [] then f.digits[1..] else f.digits)
  }

  /** The program skips a digit that matters. */
  predicate LosesDigit(f: Form)
    requires f.digits != []
  {
    f.before == [] && f.digits[0] != '0' as int
  }

  // ----- numbers

  lemma {:induction false} ReadIsNumber(digits: Text)
    requires AllDigits(digits)
    ensures ReadDigits(digits, 0) == Number(digits)
    decreases |digits|
  {
    if digits != [] {
      var (front, c) := (digits[..|digits| - 1], digits[|digits| - 1]);
      ReadIsNumber(front);
      ReadSnoc(front, c, 0);
      assert front + [c] == digits;
    }
  }

  /** Reading stops at the first character that is no digit. */
  lemma {:induction false} ReadStops(digits: Text, after: Text, acc: nat)
    requires AllDigits(digits) && Blank(after)
    ensures ReadDigits(digits + after, acc) == ReadDigits(digits, acc)
    decreases |digits|
  {
    if digits == [] {
      assert digits + after == after;
    } else {
      assert (digits + after)[1..] == digits[1..] + after;
      ReadStops(digits[1..], after, acc * 10 + (digits[0] - '0' as int));
    }
  }

  lemma {:induction false} ReadGrows(digits: Text, a: nat, b: nat)
    requires AllDigits(digits)
    ensures ReadDigits(digits, a + b) >= ReadDigits(digits, b) + a
    decreases |digits|
  {
    if digits != [] {
      var c := digits[0] - '0' as int;
      ReadGrows(digits[1..], 10 * a, b * 10 + c);
      assert (a + b) * 10 + c == 10 * a + (b * 10 + c);
    }
  }

  /** Dropping the first digit makes a number smaller, unless that digit is 0. */
  lemma FirstDigit(digits: Text)
    requires AllDigits(digits) && digits != []
    ensures if digits[0] == '0' as int then Number(digits[1..]) == Number(digits) else Number(digits[1..]) < Number(digits)
  {
    ReadIsNumber(digits);
    ReadIsNumber(digits[1..]);
    ReadGrows(digits[1..], digits[0] - '0' as int, 0);
  }

  /** The program understands the stated length if and only if it does not skip a digit that matters. */
  lemma UnderstoodIff(f: Form)
    requires AllDigits(f.digits) && f.digits != []
    ensures Understood(f) == Stated(f) <==> !LosesDigit(f)
    ensures Understood(f) <= Stated(f)
  {
    FirstDigit(f.digits);
  }

  lemma {:induction false} SkipBlank(before: Text, rest: Text)
    requires Blank(before)
    ensures SkipSpace(before + rest) == SkipSpace(rest)
    decreases |before|
  {
    if before == [] {
      assert before + rest == rest;
    } else {
      assert (before + rest)[1..] == before[1..] + rest;
      SkipBlank(before[1..], rest);
    }
  }

  lemma AtoiNumber(before: Text, digits: Text, after: Text)
    requires Blank(before) && AllDigits(digits) && Blank(after)
    ensures Atoi(before + (digits + after)) == Number(digits)
  {
    SkipBlank(before, digits + after);
    ReadIsNumber(digits);
    if digits == [] {
      assert digits + after == after;
      SkipBlank(after, []);
      assert after + [] == after;
    } else {
      AtoiFromDigit(before + (digits + after), digits + after);
      ReadStops(digits, after, 0);
    }
  }

  lemma AtoiFromDigit(t: Text, u: Text)
    requires u != [] && IsDigit(u[0]) && SkipSpace(t) == SkipSpace(u)
    ensures Atoi(t) == ReadDigits(u, 0)
  {
  }

  lemma AtoiOfField(f: Form)
    requires GoodValue(f)
    ensures Atoi(ValueText(f)[1..]) == Understood(f)
  {
    if f.before == [] {
      assert ValueText(f)[1..] == [] + (f.digits[1..] + f.after);
      AtoiNumber([], f.digits[1..], f.after);
    } else {
      assert ValueText(f)[1..] == f.before[1..] + (f.digits + f.after);
      AtoiNumber(f.before[1..], f.digits, f.after);
    }
  }

  // ----- prefixes

  /** A piece received so far is, as a C string, a prefix of the whole request. */
  lemma PieceIsPrefix(m: Text, n: nat, s: Text)
    requires n <= |m| && s == Str(m[..n])
    ensures |s| <= n && s == m[..|s|] && |s| <= |Str(m)|
  {
    var r := m[..n];
    assert forall i :: 0 <= i < |s| ==> r[i] == m[i] != 0;
    assert |s| <= StrLen(m);
  }

  lemma PieceHoldsHead(m: Text, n: nat, h: nat, s: Text)
    requires h <= n <= |m| && NoNul(m[..h]) && s == Str(m[..n])
    ensures h <= |s|
  {
    assert forall i :: 0 <= i < h ==> m[i] == m[..h][i];
  }

  lemma OccursInPrefix(s: Text, m: Text, pat: Text, i: int)
    requires |s| <= |m| && s == m[..|s|]
    ensures Occurs(s, pat, i) <==> Occurs(m, pat, i) && i + |pat| <= |s|
  {
    if 0 <= i && i + |pat| <= |s| {
      assert s[i..i + |pat|] == m[i..i + |pat|];
    }
  }

  /** A first occurrence that lies within a prefix is the first there too; otherwise the prefix has none. */
  lemma FirstInPrefix(s: Text, m: Text, pat: Text, from: nat, i: int)
    requires |s| <= |m| && s == m[..|s|] && i == StrStr(m, pat, from) && from <= |m|
    ensures StrStr(s, pat, from) == if i != -1 && i + |pat| <= |s| then i else -1
  {
    var j := StrStr(s, pat, from);
    OccursInPrefix(s, m, pat, j);
    OccursInPrefix(s, m, pat, i);
  }

  // ----- the length field of a piece

  /** A value has no carriage return and no NUL. */
  lemma ValueIsPlain(f: Form, i: nat)
    requires GoodValue(f) && i < |ValueText(f)|
    ensures ValueText(f)[i] != CR && ValueText(f)[i] != 0
  {
  }

  /** From the name to the end of the value there is no carriage return. */
  lemma LineHasNoReturn(m: Text, f: Form, i: nat)
    requires WellFormed(m, f) && f.p <= i < LineEnd(f)
    ensures m[i] != CR
  {
    if i < f.p + NAME_LEN {
      assert m[f.p..f.p + NAME_LEN][i - f.p] == Name(f.lower)[i - f.p];
    } else {
      var k := i - (f.p + NAME_LEN);
      assert m[f.p + NAME_LEN..LineEnd(f)][k] == ValueText(f)[k];
      ValueIsPlain(f, k);
    }
  }

  lemma LineEnds(m: Text, f: Form)
    requires WellFormed(m, f)
    ensures StrStr(m, Crlf(), f.p) == LineEnd(f)
  {
    forall e | f.p <= e < LineEnd(f)
      ensures !Occurs(m, Crlf(), e)
    {
      LineHasNoReturn(m, f, e);
      NoCrlf(m, e);
    }
  }

  lemma NoCrlf(m: Text, e: nat)
    requires e < |m| && m[e] != CR
    ensures !Occurs(m, Crlf(), e)
  {
    assert e + 2 <= |m| ==> m[e..e + 2][0] == m[e];
  }

  /** A piece that holds the header has the field where the whole request has it. */
  lemma FieldOfPiece(m: Text, f: Form, s: Text)
    requires WellFormed(m, f) && f.h <= |s| <= |Str(m)| && s == m[..|s|]
    ensures FieldStart(s) == f.p && FieldEnd(s) == LineEnd(f)
  {
    FirstInPrefix(s, m, Name(f.lower), 0, f.p);
    if !f.lower {
      FirstInPrefix(s, Str(m), Name(true), 0, -1);
    }
    LineEnds(m, f);
    FirstInPrefix(s, m, Crlf(), f.p, LineEnd(f));
  }

  lemma LengthFieldIs(s: Text, p: nat, q: nat, e: nat)
    requires FieldStart(s) == p && FieldEnd(s) == e && q == p + NAME_LEN + 1 && q <= e < q + 32 && e <= |s|
    ensures FieldFits(s) && LengthField(s) == Value(Atoi(s[q..e]))
  {
  }

  lemma LengthOfPiece(m: Text, f: Form, s: Text)
    requires WellFormed(m, f) && f.h <= |s| <= |Str(m)| && s == m[..|s|]
    ensures FieldFits(s) && LengthField(s) == Value(Understood(f))
  {
    FieldOfPiece(m, f, s);
    var (q, e) := (f.p + NAME_LEN + 1, LineEnd(f));
    LengthFieldIs(s, f.p, q, e);
    SliceOfPrefix(m, |s|, q, e);
    TailOfSlice(m, q, e);
    AtoiOfField(f);
  }

  lemma TailOfSlice(m: Text, q: nat, e: nat)
    requires 0 < q <= e <= |m|
    ensures m[q - 1..e][1..] == m[q..e]
  {
  }

  /** Before the end of the header nothing is reported and nothing remembered. */
  lemma HeadNotEnded(m: Text, f: Form, n: nat)
    requires WellFormed(m, f) && n < f.h
    ensures StrStr(Str(m[..n]), HeadEnd(), 0) == -1
  {
    var s := Str(m[..n]);
    PieceIsPrefix(m, n, s);
    FirstInPrefix(s, m, HeadEnd(), 0, f.h - 4);
  }

  lemma HeadEnded(m: Text, f: Form, n: nat)
    requires WellFormed(m, f) && f.h <= n <= |m|
    ensures StrStr(Str(m[..n]), HeadEnd(), 0) == f.h - 4
    ensures FieldFits(Str(m[..n])) && LengthField(Str(m[..n])) == Value(Understood(f))
  {
    var s := Str(m[..n]);
    PieceIsPrefix(m, n, s);
    PieceHoldsHead(m, n, f.h, s);
    FirstInPrefix(s, m, HeadEnd(), 0, f.h - 4);
    LengthOfPiece(m, f, s);
  }

  // ----- all pieces

  /** What is remembered once n bytes have been received. */
  ghost function Memory(f: Form, n: nat): Info
    requires GoodValue(f)
  {
    if n < f.h then ZERO else Info(true, f.h, Understood(f))
  }

  lemma CheckNotEnded(r: Text)
    requires StrStr(Str(r), HeadEnd(), 0) == -1
    ensures Safe(ZERO, r) && Check(ZERO, r) == (false, ZERO)
  {
  }

  lemma CheckEnded(info: Info, r: Text, h: nat, n: nat)
    requires StrStr(Str(r), HeadEnd(), 0) == h - 4 && h >= 4 && FieldFits(Str(r)) && LengthField(Str(r)) == Value(n)
    requires info == ZERO || info == Info(true, h, n)
    ensures Safe(info, r) && Check(info, r) == (h + n <= |r|, Info(true, h, n))
  {
  }

  /** With whatever was remembered from an earlier piece, the answer depends on the received length alone. */
  lemma PieceAnswer(m: Text, f: Form, n0: nat, n: nat)
    requires WellFormed(m, f) && n0 <= n <= |m|
    ensures Safe(Memory(f, n0), m[..n])
    ensures Check(Memory(f, n0), m[..n]) == (f.h + Understood(f) <= n, Memory(f, n))
  {
    if n < f.h {
      HeadNotEnded(m, f, n);
      CheckNotEnded(m[..n]);
    } else {
      HeadEnded(m, f, n);
      CheckEnded(Memory(f, n0), m[..n], f.h, Understood(f));
    }
  }

  /** The remembered fields give the same answer and the same fields as a parse from scratch. */
  lemma CacheAgrees(m: Text, f: Form, n0: nat, n: nat)
    requires WellFormed(m, f) && n0 <= n <= |m|
    ensures Safe(ZERO, m[..n]) && Safe(Memory(f, n0), m[..n])
    ensures Check(Memory(f, n0), m[..n]) == Check(ZERO, m[..n])
  {
    PieceAnswer(m, f, 0, n);
    PieceAnswer(m, f, n0, n);
  }

  /** The check is right about the first n bytes: complete means header and stated content have been received. */
  ghost predicate RightAbout(m: Text, f: Form, n: nat)
    requires n <= |m| && GoodValue(f) && Safe(ZERO, m[..n])
  {
    Check(ZERO, m[..n]).0 <==> f.h + Stated(f) <= n
  }

  /**
   When all of the request is there to be received, the check is right about every piece if and only if the byte
   after the colon is not a digit from 1 to 9.
   */
  lemma CompletionIff(m: Text, f: Form)
    requires WellFormed(m, f) && |m| >= f.h + Stated(f)
    ensures forall n :: 0 <= n <= |m| ==> Safe(ZERO, m[..n])
    ensures (forall n :: 0 <= n <= |m| ==> RightAbout(m, f, n)) <==> !('1' as int <= m[f.p + NAME_LEN] <= '9' as int)
  {
    forall n | 0 <= n <= |m|
      ensures Safe(ZERO, m[..n]) && (RightAbout(m, f, n) <==> (f.h + Understood(f) <= n <==> f.h + Stated(f) <= n))
    {
      PieceAnswer(m, f, 0, n);
    }
    UnderstoodIff(f);
    FirstOfValue(m, f);
    if LosesDigit(f) {
      assert !RightAbout(m, f, f.h + Understood(f));
    }
  }

  lemma FirstOfValue(m: Text, f: Form)
    requires WellFormed(m, f)
    ensures LosesDigit(f) <==> '1' as int <= m[f.p + NAME_LEN] <= '9' as int
  {
    assert m[f.p + NAME_LEN..LineEnd(f)][0] == ValueText(f)[0];
  }

  // ----- requests without a length

  /** m has a header of h bytes, and neither spelling of the name anywhere. */
  ghost predicate WithoutLength(m: Text, h: nat) {
    && 4 <= h <= |m| && NoNul(m[..h]) && StrStr(m, Ascii("\r\n\r\n"), 0) == h - 4
    && StrStr(Str(m), Ascii("content-length:"), 0) == -1 && StrStr(Str(m), Ascii("Content-Length:"), 0) == -1
  }

  ghost function PlainMemory(h: nat, n: nat): Info {
    if n < h then ZERO else Info(true, h, 0)
  }

  lemma HeadEndIs()
    ensures HeadEnd() == Ascii("\r\n\r\n")
  {
    assert HeadEnd() == [13, 10, 13, 10];
  }

  lemma NoFieldInPiece(m: Text, h: nat, n: nat, s: Text)
    requires WithoutLength(m, h) && n <= |m| && s == Str(m[..n])
    ensures FieldStart(s) == -1 && (n < h ==> StrStr(s, HeadEnd(), 0) == -1) && (h <= n ==> StrStr(s, HeadEnd(), 0) == h - 4)
  {
    HeadEndIs();
    PieceIsPrefix(m, n, s);
    PieceIsPrefix(m, |m|, Str(m[..|m|]));
    assert m[..|m|] == m;
    assert s == Str(m)[..|s|];
    FirstInPrefix(s, Str(m), Name(true), 0, -1);
    FirstInPrefix(s, Str(m), Name(false), 0, -1);
    FirstInPrefix(s, m, HeadEnd(), 0, h - 4);
    if h <= n {
      PieceHoldsHead(m, n, h, s);
    }
  }

  lemma CheckPlain(info: Info, r: Text, h: nat)
    requires StrStr(Str(r), HeadEnd(), 0) == h - 4 && h >= 4 && FieldStart(Str(r)) == -1
    requires info == ZERO || info == Info(true, h, 0)
    ensures Safe(info, r) && Check(info, r) == (true, Info(true, h, 0))
  {
  }

  /** With whatever an earlier piece left behind, such a request is complete when its header is. */
  lemma PlainPieceAnswer(m: Text, h: nat, n0: nat, n: nat)
    requires WithoutLength(m, h) && n0 <= n <= |m|
    ensures Safe(PlainMemory(h, n0), m[..n])
    ensures Check(PlainMemory(h, n0), m[..n]) == (h <= n, PlainMemory(h, n))
  {
    NoFieldInPiece(m, h, n, Str(m[..n]));
    if n < h {
      CheckNotEnded(m[..n]);
    } else {
      CheckPlain(PlainMemory(h, n0), m[..n], h);
    }
  }

  // ----- piece after piece

  /** From any piece to a later one, the answer depends on `total` alone, and the memory follows. */
  ghost predicate AnswersBy(m: Text, total: nat, memory: nat -> Info) {
    memory(0) == ZERO && forall n0: nat, n: nat :: n0 <= n <= |m| ==> AnswerBy(m, total, memory, n0, n)
  }

  ghost predicate AnswerBy(m: Text, total: nat, memory: nat -> Info, n0: nat, n: nat)
    requires n <= |m|
  {
    Safe(memory(n0), m[..n]) && Check(memory(n0), m[..n]) == (total <= n, memory(n))
  }

  /** One more piece, with what is remembered of the last one. */
  method NextPiece(cli: Client, m: Text, n: nat, ghost total: nat, ghost memory: nat -> Info, ghost last: nat)
    returns (complete: bool)
    requires AnswersBy(m, total, memory) && last <= n <= |m| && cli.Remembered() == memory(last)
    modifies cli
    ensures cli.Remembered() == memory(n) && (complete <==> total <= n)
  {
    assert AnswerBy(m, total, memory, last, n);
    complete := cli.HttpChecked(m[..n]);
  }

  /** ExtLibs/TSocket/tsocket.c:155-171 with this check as checkendcb, until a piece is reported complete. */
  method Receive(m: Text, cuts: seq<nat>, ghost total: nat, ghost memory: nat -> Info) returns (k: nat)
    requires AnswersBy(m, total, memory)
    requires forall i, j :: 0 <= i < j < |cuts| ==> cuts[i] <= cuts[j]
    requires forall i :: 0 <= i < |cuts| ==> cuts[i] <= |m|
    ensures k <= |cuts| && (forall i :: 0 <= i < k ==> cuts[i] < total) && (k < |cuts| ==> total <= cuts[k])
  {
    var cli := new Client();
    ghost var last := 0;
    k := 0;
    while k < |cuts|
      invariant k <= |cuts| && (forall i :: 0 <= i < k ==> cuts[i] < total)
      invariant cli.Remembered() == memory(last) && last == if k == 0 then 0 else cuts[k - 1]
    {
      var n := cuts[k];
      var complete := NextPiece(cli, m, n, total, memory, last);
      if complete { return; }
      last, k := n, k + 1;
    }
  }

  /**
   However a request is cut, the first piece reported complete is the first one with which the header and the content
   as understood have been received, which is the stated content unless a digit is lost.
   */
  method ReceiveAll(m: Text, cuts: seq<nat>, ghost f: Form) returns (k: nat)
    requires WellFormed(m, f)
    requires forall i, j :: 0 <= i < j < |cuts| ==> cuts[i] <= cuts[j]
    requires forall i :: 0 <= i < |cuts| ==> cuts[i] <= |m|
    ensures k <= |cuts| && (forall i :: 0 <= i < k ==> cuts[i] < f.h + Understood(f))
    ensures k < |cuts| ==> f.h + Understood(f) <= cuts[k]
    ensures !('1' as int <= m[f.p + NAME_LEN] <= '9' as int) ==> Understood(f) == Stated(f)
  {
    UnderstoodIff(f);
    FirstOfValue(m, f);
    ghost var total, memory := AnswersWithLength(m, f);
    k := Receive(m, cuts, total, memory);
  }

  lemma AnswersWithLength(m: Text, f: Form) returns (total: nat, memory: nat -> Info)
    requires WellFormed(m, f)
    ensures total == f.h + Understood(f) && AnswersBy(m, total, memory)
  {
    total, memory := f.h + Understood(f), (n: nat) => Memory(f, n);
    forall n0: nat, n: nat | n0 <= n <= |m|
      ensures AnswerBy(m, total, memory, n0, n)
    {
      PieceAnswer(m, f, n0, n);
    }
  }

  lemma AnswersWithout(m: Text, h: nat) returns (memory: nat -> Info)
    requires WithoutLength(m, h)
    ensures AnswersBy(m, h, memory)
  {
    memory := (n: nat) => PlainMemory(h, n);
    forall n0: nat, n: nat | n0 <= n <= |m|
      ensures AnswerBy(m, h, memory, n0, n)
    {
      PlainPieceAnswer(m, h, n0, n);
    }
  }

  /** However a request without a length is cut, the first piece reported complete is the first with all of the header. */
  method ReceiveWithoutLength(m: Text, cuts: seq<nat>, ghost h: nat) returns (k: nat)
    requires WithoutLength(m, h)
    requires forall i, j :: 0 <= i < j < |cuts| ==> cuts[i] <= cuts[j]
    requires forall i :: 0 <= i < |cuts| ==> cuts[i] <= |m|
    ensures k <= |cuts| && (forall i :: 0 <= i < k ==> cuts[i] < h) && (k < |cuts| ==> h <= cuts[k])
  {
    ghost var memory := AnswersWithout(m, h);
    k := Receive(m, cuts, h, memory);
  }

  // ----- requests with nothing but the field

  lemma FirstHeadEnd(m: Text, e: nat)
    requires Occurs(m, HeadEnd(), e) && forall i :: 0 <= i < e ==> m[i] != CR
    ensures StrStr(m, HeadEnd(), 0) == e
  {
    forall k | 0 <= k < e
      ensures !Occurs(m, HeadEnd(), k)
    {
      assert k + 4 <= |m| ==> m[k..k + 4][0] == m[k];
    }
  }

  lemma NoNulBefore(m: Text, e: nat)
    requires Occurs(m, HeadEnd(), e) && forall i :: 0 <= i < e ==> m[i] != 0
    ensures NoNul(m[..e + 4])
  {
    var s := m[e..e + 4];
    assert s[0] == m[e] && s[1] == m[e + 1] && s[2] == m[e + 2] && s[3] == m[e + 3];
  }

  lemma FieldParts(m: Text, f: Form, body: Text, e: nat)
    requires f.p == 0 && e == LineEnd(f) && m == Name(f.lower) + ValueText(f) + HeadEnd() + body
    ensures |m| >= e + 4 && Occurs(m, Name(f.lower), 0) && m[NAME_LEN..e] == ValueText(f)
    ensures Occurs(m, HeadEnd(), e) && Occurs(m, Crlf(), e)
  {
    assert m[e..e + 4] == HeadEnd() && m[e..e + 2] == Crlf();
    assert m[..NAME_LEN] == Name(f.lower);
  }

  /** A request whose only field is the length, with any value that fits and any body, is well formed. */
  lemma FieldAlone(m: Text, f: Form, body: Text)
    requires GoodValue(f) && f.p == 0 && f.h == LineEnd(f) + 4
    requires m == Name(f.lower) + ValueText(f) + HeadEnd() + body
    requires !f.lower ==> StrStr(Str(m), Name(true), 0) == -1
    ensures WellFormed(m, f)
  {
    var e := LineEnd(f);
    FieldParts(m, f, body, e);
    forall i | 0 <= i < e
      ensures m[i] != CR && m[i] != 0
    {
      PlainBefore(m, f, e, i);
    }
    FirstHeadEnd(m, e);
    NoNulBefore(m, e);
  }

  lemma PlainBefore(m: Text, f: Form, e: nat, i: nat)
    requires GoodValue(f) && f.p == 0 && e == LineEnd(f) <= |m| && i < e
    requires Occurs(m, Name(f.lower), 0) && m[NAME_LEN..e] == ValueText(f)
    ensures m[i] != CR && m[i] != 0
  {
    if i < NAME_LEN {
      assert m[0..0 + NAME_LEN][i] == Name(f.lower)[i];
    } else {
      assert m[NAME_LEN..e][i - NAME_LEN] == ValueText(f)[i - NAME_LEN];
      ValueIsPlain(f, i - NAME_LEN);
    }
  }

  lemma NumberSnoc(digits: Text, c: CChar)
    requires AllDigits(digits) && IsDigit(c)
    ensures AllDigits(digits + [c]) && Number(digits + [c]) == Number(digits) * 10 + (c - '0' as int)
  {
    assert (digits + [c])[..|digits|] == digits;
  }

  lemma TwoDigits(a: CChar, b: CChar, t: Text)
    requires IsDigit(a) && IsDigit(b) && t == [a, b]
    ensures AllDigits(t) && Number(t) == (a - '0' as int) * 10 + (b - '0' as int)
  {
    NumberSnoc([], a);
    NumberSnoc([a], b);
    assert [] + [a] == [a] && [a] + [b] == t;
  }

  lemma ThreeDigits(a: CChar, b: CChar, c: CChar, t: Text)
    requires IsDigit(a) && IsDigit(b) && IsDigit(c) && t == [a, b, c]
    ensures AllDigits(t) && Number(t) == ((a - '0' as int) * 10 + (b - '0' as int)) * 10 + (c - '0' as int)
  {
    TwoDigits(a, b, [a, b]);
    NumberSnoc([a, b], c);
    assert [a, b] + [c] == t;
  }

  lemma SpeltWithoutSpace()
    ensures Ascii("content-length:512\r\n\r\n") == Name(true) + Ascii("512") + HeadEnd()
  {
    HeadEndIs();
  }

  lemma SpeltWithSpace()
    ensures Ascii("Content-Length: 512\r\n\r\n") == Name(false) + (Ascii(" ") + Ascii("512")) + HeadEnd()
  {
    HeadEndIs();
  }

  /** Without a space after the colon, the length of this request is understood as 12. */
  lemma NoSpaceLosesDigit(m: Text, f: Form, t: Text, body: Text)
    requires t == Ascii("512") && f == Form(NAME_LEN + 3 + 4, 0, [], t, [], true)
    requires m == Ascii("content-length:512\r\n\r\n") + body
    ensures WellFormed(m, f) && Stated(f) == 512 && Understood(f) == 12
  {
    ThreeDigits('5' as int, '1' as int, '2' as int, t);
    TwoDigits('1' as int, '2' as int, t[1..]);
    assert ValueText(f) == t;
    SpeltWithoutSpace();
    FieldAlone(m, f, body);
  }

  /** With one, it is understood, in the other spelling too. */
  lemma SpaceKeepsDigits(m: Text, f: Form, t: Text, body: Text)
    requires t == Ascii("512") && f == Form(NAME_LEN + 4 + 4, 0, Ascii(" "), t, [], false)
    requires m == Ascii("Content-Length: 512\r\n\r\n") + body && StrStr(Str(m), Name(true), 0) == -1
    ensures WellFormed(m, f) && Stated(f) == 512 && Understood(f) == 512
  {
    ThreeDigits('5' as int, '1' as int, '2' as int, t);
    assert ValueText(f) == Ascii(" ") + t;
    SpeltWithSpace();
    FieldAlone(m, f, body);
  }
}
