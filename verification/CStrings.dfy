/** C strings: characters are signed, a string ends at the first NUL of its buffer. */
module CStrings {
  /** A signed char. */
  type CChar = c: int | -128 <= c < 128

  type Text = seq<CChar>

  function Ascii(s: string): (t: Text)
    requires forall i :: 0 <= i < |s| ==> s[i] < 128 as char
    ensures |t| == |s| && forall i :: 0 <= i < |s| ==> t[i] == s[i] as int
  {
    seq(|s|, i requires 0 <= i < |s| => s[i] as int)
  }

  /** The first place of c in s, or the length of s. */
  function IndexOf(s: Text, c: CChar): (j: nat)
    ensures j <= |s| && (j < |s| ==> s[j] == c) && forall i :: 0 <= i < j ==> s[i] != c
  {
    if s == [] || s[0] == c then 0 else 1 + IndexOf(s[1..], c)
  }

  ghost predicate NoNul(s: Text) {
    forall i :: 0 <= i < |s| ==> s[i] != 0
  }

  /** strlen, of a buffer that holds a NUL. */
  function StrLen(b: Text): nat {
    IndexOf(b, 0)
  }

  function Str(b: Text): Text {
    b[..StrLen(b)]
  }

  lemma StrIs(b: Text, s: Text)
    requires NoNul(s) && |b| > |s| && b[..|s|] == s && b[|s|] == 0
    ensures StrLen(b) == |s| && Str(b) == s
  {
    assert forall i :: 0 <= i < |s| ==> b[i] == s[i];
  }

  predicate Occurs(s: Text, pat: Text, i: int) {
    0 <= i && i + |pat| <= |s| && s[i..i + |pat|] == pat
  }

  /** strstr: the first occurrence at or after i, or -1. */
  function StrStr(s: Text, pat: Text, i: nat): (r: int)
    ensures r == -1 || (i <= r && Occurs(s, pat, r))
    ensures forall k :: i <= k < (if r == -1 then |s| + 1 else r) ==> !Occurs(s, pat, k)
    decreases |s| - i
  {
    if i + |pat| > |s| then -1
    else if s[i..i + |pat|] == pat then i
    else StrStr(s, pat, i + 1)
  }

  predicate IsDigit(c: CChar) {
    '0' as int <= c <= '9' as int
  }

  function Digits(n: nat): Text {
    (if n < 10 then [] else Digits(n / 10)) + ['0' as int + n % 10]
  }

  /** %d. */
  function Decimal(n: int): Text {
    if n < 0 then ['-' as int] + Digits(-n) else Digits(n)
  }

  function ReadDigits(s: Text, acc: nat): nat
    decreases |s|
  {
    if s == [] || !IsDigit(s[0]) then acc else ReadDigits(s[1..], acc * 10 + (s[0] - '0' as int))
  }

  function SkipSpace(s: Text): Text {
    if s != [] && (9 <= s[0] <= 13 || s[0] == 32) then SkipSpace(s[1..]) else s
  }

  /** atoi, without its behaviour on overflow. */
  function Atoi(s: Text): int {
    var t := SkipSpace(s);
    if t != [] && t[0] == '-' as int then -(ReadDigits(t[1..], 0) as int)
    else if t != [] && t[0] == '+' as int then ReadDigits(t[1..], 0)
    else ReadDigits(t, 0)
  }

  lemma {:induction false} ReadSnoc(s: Text, c: CChar, acc: nat)
    requires (forall i :: 0 <= i < |s| ==> IsDigit(s[i])) && IsDigit(c)
    ensures ReadDigits(s + [c], acc) == ReadDigits(s, acc) * 10 + (c - '0' as int)
    decreases |s|
  {
    if s == [] {
      assert [c][1..] == [];
      assert s + [c] == [c];
    } else {
      assert (s + [c])[1..] == s[1..] + [c];
      ReadSnoc(s[1..], c, acc * 10 + (s[0] - '0' as int));
    }
  }

  lemma {:induction false} DigitsAreDigits(n: nat)
    ensures |Digits(n)| > 0 && forall i :: 0 <= i < |Digits(n)| ==> IsDigit(Digits(n)[i])
  {
    if n >= 10 {
      DigitsAreDigits(n / 10);
    }
  }

  lemma {:induction false} ReadBack(n: nat)
    ensures ReadDigits(Digits(n), 0) == n
  {
    var front := if n < 10 then [] else Digits(n / 10);
    if n >= 10 {
      ReadBack(n / 10);
      DigitsAreDigits(n / 10);
    }
    ReadSnoc(front, '0' as int + n % 10, 0);
  }

  /** atoi undoes %d. */
  lemma AtoiDecimal(n: int)
    ensures Atoi(Decimal(n)) == n
  {
    var m := if n < 0 then -n else n;
    DigitsAreDigits(m);
    ReadBack(m);
    if n < 0 {
      assert Decimal(n)[1..] == Digits(m);
    }
  }
}
