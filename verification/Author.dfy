/** Licence strings of ExtLibs/MyAuthor/author.c:63-91, 117-175: a name and its checksum under the port's book. */
module Author {
  import opened CStrings
  import opened AuthorCipher

  // ----- what is hidden and found again

  const MARK: Text := ['_' as int, 'c' as int, 'r' as int, 'c' as int, '_' as int]

  function SumOf(s: Text): int {
    if s == [] then 0 else SumOf(s[..|s| - 1]) + s[|s| - 1]
  }

  function Tagged(name: Text): Text {
    name + MARK + Decimal(SumOf(name))
  }

  /** The licence string of a name. */
  function Hidden(name: Text, port: nat): Text {
    SubstAll(Letters(), Book(port), Tagged(name))
  }

  /** Return value and name that paresAuthor gives for a licence string. */
  function Recovered(text: Text, port: nat): (int, Text) {
    RecoveredFrom(SubstAll(Book(port), Letters(), text))
  }

  /** The same from the decoded text. */
  function RecoveredFrom(t: Text): (int, Text) {
    var p := StrStr(t, MARK, 0);
    if p == -1 then (-1, [])
    else (if SumOf(t[..p]) == Atoi(t[p + |MARK|..]) then 0 else -1, t[..p])
  }

  predicate MarkAt(t: Text, i: nat) {
    i + 5 <= |t| && t[i] == MARK[0] && t[i + 1] == MARK[1] && t[i + 2] == MARK[2] && t[i + 3] == MARK[3] && t[i + 4] == MARK[4]
  }

  lemma OccursMark(t: Text, i: nat)
    ensures Occurs(t, MARK, i) <==> MarkAt(t, i)
  {
    if Occurs(t, MARK, i) {
      var s := t[i..i + 5];
      assert s[0] == t[i] && s[1] == t[i + 1] && s[2] == t[i + 2] && s[3] == t[i + 3] && s[4] == t[i + 4];
    }
  }

  /** Two marks overlap in at most one character. */
  lemma MarksApart(t: Text, i: nat, j: nat)
    requires MarkAt(t, i) && MarkAt(t, j) && i < j
    ensures i + 4 <= j
  {
  }

  /** A mark before the tag ends within the name and the first character of the tag. */
  lemma EarlyMark(name: Text, rest: Text, i: nat)
    ensures i < |name| && Occurs(name + MARK + rest, MARK, i) <==> Occurs(name + MARK[..1], MARK, i)
  {
    var (t, u) := (name + MARK + rest, name + MARK[..1]);
    OccursMark(t, i);
    OccursMark(u, i);
    assert t[..|u|] == u;
    assert forall k :: 0 <= k < |u| ==> t[k] == u[k];
    if i < |name| && MarkAt(t, i) {
      MarksApart(t, i, |name|);
    }
  }

  /** The tag is found at the end of the name unless the name has a mark of its own. */
  lemma FoundAtEnd(name: Text, rest: Text)
    ensures StrStr(name + MARK + rest, MARK, 0) == |name| <==> StrStr(name + MARK[..1], MARK, 0) == -1
  {
    var (t, u) := (name + MARK + rest, name + MARK[..1]);
    assert Occurs(t, MARK, |name|);
    var (p, q) := (StrStr(t, MARK, 0), StrStr(u, MARK, 0));
    EarlyMark(name, rest, p);
    if q != -1 {
      EarlyMark(name, rest, q);
    }
  }

  /** A name comes back, with success, exactly when the name followed by an underscore contains no "_crc_". */
  lemma NameRecovered(name: Text, port: nat)
    ensures Recovered(Hidden(name, port), port) == (0, name) <==> StrStr(name + MARK[..1], MARK, 0) == -1
  {
    LettersDistinct();
    BookArranges(port);
    SubstAllBack(Letters(), Book(port), Tagged(name));
    var (t, rest) := (Tagged(name), Decimal(SumOf(name)));
    FoundAtEnd(name, rest);
    AtoiDecimal(SumOf(name));
    if StrStr(t, MARK, 0) == |name| {
      assert t[..|name|] == name && t[|name| + 5..] == rest;
    }
  }

  /** A licence with any other sum than that of its name is rejected. */
  lemma SumChecked(name: Text, v: int, text: Text, port: nat)
    requires StrStr(name + MARK[..1], MARK, 0) == -1
    requires text == SubstAll(Letters(), Book(port), name + MARK + Decimal(v))
    ensures Recovered(text, port) == (if v == SumOf(name) then 0 else -1, name)
  {
    var t := name + MARK + Decimal(v);
    LettersDistinct();
    BookArranges(port);
    SubstAllBack(Letters(), Book(port), t);
    FoundAtEnd(name, Decimal(v));
    AtoiDecimal(v);
    assert t[..|name|] == name && t[|name| + 5..] == Decimal(v);
  }

  // ----- the functions of the program

  /** author.c:131-133 and 168-170. */
  method Checksum(s: Text) returns (crc: int)
    ensures crc == SumOf(s)
  {
    crc := 0;
    var i := 0;
    while i < |s|
      invariant i <= |s| && crc == SumOf(s[..i])
    {
      assert s[..i + 1][..i] == s[..i];
      crc := crc + s[i];
      i := i + 1;
    }
    assert s[..i] == s;
  }

  /** author.c:68-73: the search in the alphabet for one character. */
  method EncryptChar(c: CChar, book: array2<CChar>) returns (r: CChar)
    requires book.Length0 == SIDE && book.Length1 == SIDE
    ensures r == Subst(Letters(), Flat(book), c)
  {
    r := c;
    var j := 0;
    while j < 64
      invariant j <= 64 && r == c && forall i :: 0 <= i < j ==> Letters()[i] != c
    {
      if c == Letter(j) {
        r := book[j / 8, j % 8];
        assert IndexOf(Letters(), c) == j;
        return;
      }
      j := j + 1;
    }
  }

  /** author.c:83-88: the search in the book for one character. */
  method DecodeChar(c: CChar, book: array2<CChar>) returns (r: CChar)
    requires book.Length0 == SIDE && book.Length1 == SIDE
    ensures r == Subst(Flat(book), Letters(), c)
  {
    r := c;
    var j := 0;
    while j < 64
      invariant j <= 64 && r == c && forall i :: 0 <= i < j ==> Flat(book)[i] != c
    {
      if c == book[j / 8, j % 8] {
        r := Letter(j);
        assert IndexOf(Flat(book), c) == j;
        return;
      }
      j := j + 1;
    }
  }

  /** The first i characters of s are rewritten in the buffer, and it still has the length of s. */
  ghost predicate Rewriting(b: Text, old': Text, s: Text, to: Text, i: nat) {
    && |b| == |old'| && |s| == |to| && i <= |s| < |old'| && old'[..|s|] == s && old'[|s|] == 0 && NoNul(s) && NoNul(to)
    && b == to[..i] + old'[i..]
  }

  lemma RewritingLength(b: Text, old': Text, s: Text, to: Text, i: nat)
    requires Rewriting(b, old', s, to, i)
    ensures StrLen(b) == |s| && (i < |s| ==> b[i] == s[i])
  {
    assert forall k :: 0 <= k < |s| ==> b[k] == (if k < i then to[k] else s[k]) && b[k] != 0;
    assert b[|s|] == 0;
  }

  lemma RewritingStep(b: Text, old': Text, s: Text, to: Text, i: nat)
    requires Rewriting(b, old', s, to, i) && i < |s|
    ensures Rewriting(b[i := to[i]], old', s, to, i + 1) && StrLen(b[i := to[i]]) == |s|
  {
    assert to[..i + 1] == to[..i] + [to[i]];
    RewritingLength(b[i := to[i]], old', s, to, i + 1);
  }

  lemma RewritingEnd(b: Text, old': Text, s: Text, to: Text)
    requires Rewriting(b, old', s, to, |s|)
    ensures Str(b) == to && b[|s|..] == old'[|s|..]
  {
    assert b[..|s|] == to;
    assert b[|s|..] == old'[|s|..];
    StrIs(b, to);
  }

  lemma RewritingStart(b: Text, s: Text, to: Text)
    requires StrLen(b) < |b| && s == Str(b) && NoNul(to) && |to| == |s|
    ensures Rewriting(b, b, s, to, 0) && StrLen(b) == |s|
  {
  }

  lemma SubstNoNul(from: Text, to: Text, s: Text)
    requires |from| == |to| && NoNul(to) && NoNul(s)
    ensures NoNul(SubstAll(from, to, s))
  {
  }

  /** One character of the buffer is rewritten. */
  method Rewrite(name: array<CChar>, i: nat, c: CChar, ghost old': Text, ghost s: Text, ghost to: Text)
    requires Rewriting(name[..], old', s, to, i) && i < |s| && c == to[i]
    modifies name
    ensures Rewriting(name[..], old', s, to, i + 1) && StrLen(name[..]) == |s|
  {
    RewritingStep(name[..], old', s, to, i);
    name[i] := c;
  }

  /** author.c:63-76. */
  method EncryptString(name: array<CChar>, book: array2<CChar>)
    requires book.Length0 == SIDE && book.Length1 == SIDE && StrLen(name[..]) < name.Length && NoNul(Flat(book))
    modifies name
    ensures Str(name[..]) == SubstAll(Letters(), Flat(book), old(Str(name[..])))
    ensures StrLen(name[..]) < name.Length
  {
    ghost var (b, s, t) := (name[..], Str(name[..]), Flat(book));
    ghost var to := SubstAll(Letters(), t, s);
    SubstNoNul(Letters(), t, s);
    RewritingStart(b, s, to);
    var i := 0;
    while i < StrLen(name[..])
      invariant Flat(book) == t && Rewriting(name[..], b, s, to, i) && StrLen(name[..]) == |s|
    {
      RewritingLength(name[..], b, s, to, i);
      var c := EncryptChar(name[i], book);
      Rewrite(name, i, c, b, s, to);
      i := i + 1;
    }
    RewritingEnd(name[..], b, s, to);
  }

  /** author.c:78-91. */
  method DecodeString(name: array<CChar>, book: array2<CChar>)
    requires book.Length0 == SIDE && book.Length1 == SIDE && StrLen(name[..]) < name.Length
    modifies name
    ensures Str(name[..]) == SubstAll(Flat(book), Letters(), old(Str(name[..])))
    ensures StrLen(name[..]) < name.Length
  {
    ghost var (b, s, t) := (name[..], Str(name[..]), Flat(book));
    ghost var to := SubstAll(t, Letters(), s);
    LettersNoNul();
    SubstNoNul(t, Letters(), s);
    RewritingStart(b, s, to);
    var i := 0;
    while i < StrLen(name[..])
      invariant Flat(book) == t && Rewriting(name[..], b, s, to, i) && StrLen(name[..]) == |s|
    {
      RewritingLength(name[..], b, s, to, i);
      var c := DecodeChar(name[i], book);
      Rewrite(name, i, c, b, s, to);
      i := i + 1;
    }
    RewritingEnd(name[..], b, s, to);
  }

  /** sprintf of a finished text. */
  method Print(out: array<CChar>, text: Text)
    requires |text| < out.Length && NoNul(text)
    modifies out
    ensures Str(out[..]) == text && StrLen(out[..]) < out.Length
  {
    var i := 0;
    while i < |text|
      invariant i <= |text| && out[..i] == text[..i]
    {
      out[i] := text[i];
      i := i + 1;
    }
    out[i] := 0;
    assert text[..i] == text;
    StrIs(out[..], text);
  }

  method NewBook(port: nat) returns (book: array2<CChar>)
    ensures fresh(book) && book.Length0 == SIDE && book.Length1 == SIDE && Flat(book) == Book(port)
  {
    book := new CChar[8, 8]((i, j) => if 0 <= i < 8 && 0 <= j < 8 then Initial(8 * i + j) else 0);
    assert Flat(book) == InitialBook();
    ExBook2Port(book, port);
  }

  lemma TaggedNoNul(name: Text)
    requires NoNul(name)
    ensures NoNul(Tagged(name))
  {
    DecimalNoNul(SumOf(name));
    NoNulAppend(name, MARK);
    NoNulAppend(name + MARK, Decimal(SumOf(name)));
  }

  lemma DecimalNoNul(n: int)
    ensures NoNul(Decimal(n))
  {
    DigitsAreDigits(if n < 0 then -n else n);
  }

  lemma NoNulAppend(a: Text, b: Text)
    requires NoNul(a) && NoNul(b)
    ensures NoNul(a + b)
  {
  }

  lemma BookNoNul(port: nat)
    ensures NoNul(Book(port))
  {
    LettersNoNul();
    BookArranges(port);
  }

  /** author.c:117-138. */
  method MakeAuthor(name: Text, port: nat, out: array<CChar>)
    requires NoNul(name) && |Tagged(name)| < out.Length
    modifies out
    ensures StrLen(out[..]) < out.Length && Str(out[..]) == Hidden(name, port)
  {
    var crc := Checksum(name);
    TaggedNoNul(name);
    Print(out, name + MARK + Decimal(crc));
    var book := NewBook(port);
    BookNoNul(port);
    EncryptString(out, book);
  }

  /** author.c:142-175; the caller's name buffer is zeroed and large enough. */
  method ParseAuthor(text: Text, port: nat, name: array<CChar>) returns (r: int)
    requires NoNul(text) && |text| < 256 && name.Length >= 256 && forall i :: 0 <= i < name.Length ==> name[i] == 0
    modifies name
    ensures StrLen(name[..]) < name.Length && (r, Str(name[..])) == Recovered(text, port)
  {
    var book := NewBook(port);
    var out := new CChar[256](i => 0);
    Print(out, text);
    DecodeString(out, book);
    r := ReadTag(Str(out[..]), name);
  }

  /** author.c:160-174. */
  method ReadTag(t: Text, name: array<CChar>) returns (r: int)
    requires NoNul(t) && |t| < name.Length && forall i :: 0 <= i < name.Length ==> name[i] == 0
    modifies name
    ensures StrLen(name[..]) < name.Length && (r, Str(name[..])) == RecoveredFrom(t)
  {
    var p := StrStr(t, MARK, 0);
    if p == -1 {
      StrIs(name[..], []);
      return -1;
    }
    Copy(name, t[..p]);
    var crc := Checksum(Str(name[..]));
    return if crc == Atoi(t[p + |MARK|..]) then 0 else -1;
  }

  /** memcpy to the start of a zeroed buffer. */
  method Copy(name: array<CChar>, s: Text)
    requires |s| < name.Length && NoNul(s) && forall i :: 0 <= i < name.Length ==> name[i] == 0
    modifies name
    ensures Str(name[..]) == s && StrLen(name[..]) < name.Length
  {
    var i := 0;
    while i < |s|
      invariant i <= |s| && name[..i] == s[..i] && forall k :: i <= k < name.Length ==> name[k] == 0
    {
      name[i] := s[i];
      i := i + 1;
    }
    assert s[..i] == s;
    StrIs(name[..], s);
  }
}
