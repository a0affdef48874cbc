/** The substitution cipher of ExtLibs/MyAuthor/author.c:8-115: an 8 by 8 book of characters, rearranged by the port. */
module AuthorCipher {
  import opened CStrings

  const SIDE := 8

  // ----- substitution

  /** c, or what stands in `to` where c stands in `from`. */
  function Subst(from: Text, to: Text, c: CChar): CChar
    requires |from| == |to|
  {
    var j := IndexOf(from, c);
    if j < |from| then to[j] else c
  }

  function SubstAll(from: Text, to: Text, s: Text): (r: Text)
    requires |from| == |to|
    ensures |r| == |s| && forall i :: 0 <= i < |s| ==> r[i] == Subst(from, to, s[i])
  {
    seq(|s|, i requires 0 <= i < |s| => Subst(from, to, s[i]))
  }

  ghost predicate Distinct(s: Text) {
    forall i, j :: 0 <= i < j < |s| ==> s[i] != s[j]
  }

  /** A book: some arrangement of the alphabet. */
  ghost predicate Arranges(book: Text, letters: Text) {
    |book| == |letters| && Distinct(book) && forall i :: 0 <= i < |book| ==> book[i] in letters
  }

  lemma SubstBack(letters: Text, book: Text, c: CChar)
    requires Distinct(letters) && Arranges(book, letters)
    ensures Subst(book, letters, Subst(letters, book, c)) == c
  {
    var j := IndexOf(letters, c);
    if j < |letters| {
      var k := IndexOf(book, book[j]);
      assert k == j;
    }
  }

  lemma SubstAllBack(letters: Text, book: Text, s: Text)
    requires Distinct(letters) && Arranges(book, letters)
    ensures SubstAll(book, letters, SubstAll(letters, book, s)) == s
  {
    var r := SubstAll(book, letters, SubstAll(letters, book, s));
    forall i | 0 <= i < |s|
      ensures r[i] == s[i]
    {
      SubstBack(letters, book, s[i]);
    }
  }

  // ----- the alphabet and the book

  /** g_book[j].c; its coordinates are j / 8 and j % 8. */
  function Letter(j: nat): CChar
    requires j < 64
  {
    if j < 10 then '0' as int + j
    else if j < 36 then 'a' as int + (j - 10)
    else if j < 62 then 'A' as int + (j - 36)
    else if j == 62 then '_' as int
    else '-' as int
  }

  function Letters(): (r: Text)
    ensures |r| == 64 && forall j :: 0 <= j < 64 ==> r[j] == Letter(j)
  {
    seq(64, j requires 0 <= j < 64 => Letter(j))
  }

  lemma LettersDistinct()
    ensures Distinct(Letters())
  {
  }

  lemma LettersNoNul()
    ensures NoNul(Letters())
  {
  }

  /** The book before any exchange is the alphabet with s and t exchanged (author.c:119-128). */
  function Initial(j: nat): CChar
    requires j < 64
  {
    if j == 28 then Letter(29) else if j == 29 then Letter(28) else Letter(j)
  }

  function InitialBook(): (r: Text)
    ensures |r| == 64 && forall j :: 0 <= j < 64 ==> r[j] == Initial(j)
  {
    seq(64, j requires 0 <= j < 64 => Initial(j))
  }

  lemma InitialArranges()
    ensures Arranges(InitialBook(), Letters())
  {
    var (b, s) := (InitialBook(), Letters());
    forall i | 0 <= i < 64
      ensures b[i] in s
    {
      assert b[i] == s[if i == 28 then 29 else if i == 29 then 28 else i];
    }
  }

  // ----- exchanges

  /** Rows 0 and x exchanged. */
  function RowMap(x: nat, k: nat): (r: nat)
    requires x < SIDE && k < 64
    ensures r < 64
  {
    if k < 8 then 8 * x + k else if k / 8 == x then k % 8 else k
  }

  /** Columns 0 and y exchanged. */
  function ColMap(y: nat, k: nat): (r: nat)
    requires y < SIDE && k < 64
    ensures r < 64
  {
    if k % 8 == 0 then k + y else if k % 8 == y then k - y else k
  }

  function Exchanged(s: Text, rows: bool, x: nat): (r: Text)
    requires |s| == 64 && x < SIDE
    ensures |r| == 64 && forall k :: 0 <= k < 64 ==> r[k] == s[if rows then RowMap(x, k) else ColMap(x, k)]
  {
    seq(64, k requires 0 <= k < 64 => s[if rows then RowMap(x, k) else ColMap(x, k)])
  }

  lemma MapsInvolutive(rows: bool, x: nat, k: nat)
    requires x < SIDE && k < 64
    ensures if rows then RowMap(x, RowMap(x, k)) == k else ColMap(x, ColMap(x, k)) == k
  {
  }

  /** An exchange done twice is undone. */
  lemma ExchangeTwice(s: Text, rows: bool, x: nat)
    requires |s| == 64 && x < SIDE
    ensures Exchanged(Exchanged(s, rows, x), rows, x) == s
  {
    var r := Exchanged(Exchanged(s, rows, x), rows, x);
    forall k | 0 <= k < 64
      ensures r[k] == s[k]
    {
      MapsInvolutive(rows, x, k);
    }
  }

  lemma ExchangeArranges(s: Text, letters: Text, rows: bool, x: nat)
    requires Arranges(s, letters) && |s| == 64 && x < SIDE
    ensures Arranges(Exchanged(s, rows, x), letters)
  {
    var r := Exchanged(s, rows, x);
    forall i, j | 0 <= i < j < 64
      ensures r[i] != r[j]
    {
      MapsInvolutive(rows, x, i);
      MapsInvolutive(rows, x, j);
    }
  }

  /** A sequence of exchanges: rows or columns, and which. */
  function ExchangeAll(s: Text, steps: seq<(bool, nat)>): (r: Text)
    requires |s| == 64 && forall i :: 0 <= i < |steps| ==> steps[i].1 < SIDE
    ensures |r| == 64
    decreases |steps|
  {
    if steps == [] then s
    else Exchanged(ExchangeAll(s, steps[..|steps| - 1]), steps[|steps| - 1].0, steps[|steps| - 1].1)
  }

  /** Any sequence of exchanges leaves an arrangement of the alphabet. */
  lemma {:induction false} ExchangesArrange(s: Text, letters: Text, steps: seq<(bool, nat)>)
    requires Arranges(s, letters) && |s| == 64 && forall i :: 0 <= i < |steps| ==> steps[i].1 < SIDE
    ensures Arranges(ExchangeAll(s, steps), letters)
    decreases |steps|
  {
    if steps != [] {
      var n := |steps| - 1;
      ExchangesArrange(s, letters, steps[..n]);
      ExchangeArranges(ExchangeAll(s, steps[..n]), letters, steps[n].0, steps[n].1);
    }
  }

  // ----- the book in place

  ghost function Flat(book: array2<CChar>): (r: Text)
    requires book.Length0 == SIDE && book.Length1 == SIDE
    reads book
    ensures |r| == 64 && forall k :: 0 <= k < 64 ==> r[k] == book[k / 8, k % 8]
  {
    seq(64, k requires 0 <= k < 64 reads book => book[k / 8, k % 8])
  }

  /** author.c:38-48. */
  method ExchangeBookX(book: array2<CChar>, x: nat)
    requires book.Length0 == SIDE && book.Length1 == SIDE && x < SIDE
    modifies book
    ensures Flat(book) == Exchanged(old(Flat(book)), true, x)
  {
    var i := 0;
    while i < 8
      invariant 0 <= i <= 8
      invariant forall r, c :: 0 <= r < 8 && 0 <= c < 8 ==>
        book[r, c] == old(book[if c >= i then r else if r == 0 then x else if r == x then 0 else r, c])
    {
      var c := book[x, i];
      book[x, i] := book[0, i];
      book[0, i] := c;
      i := i + 1;
    }
  }

  /** author.c:51-61. */
  method ExchangeBookY(book: array2<CChar>, y: nat)
    requires book.Length0 == SIDE && book.Length1 == SIDE && y < SIDE
    modifies book
    ensures Flat(book) == Exchanged(old(Flat(book)), false, y)
  {
    var i := 0;
    while i < 8
      invariant 0 <= i <= 8
      invariant forall r, c :: 0 <= r < 8 && 0 <= c < 8 ==>
        book[r, c] == old(book[r, if r >= i then c else if c == 0 then y else if c == y then 0 else c])
    {
      var c := book[i, y];
      book[i, y] := book[i, 0];
      book[i, 0] := c;
      i := i + 1;
    }
  }

  /** The exchanges of author.c:95-113. */
  function PortSteps(port: nat): (r: seq<(bool, nat)>)
    ensures |r| == 19 && forall i :: 0 <= i < |r| ==> 1 <= r[i].1 < SIDE
  {
    var (a, b, c, d) := (port / 1000 % 6 + 1, port / 100 % 6 + 1, port / 10 % 6 + 1, port % 6 + 1);
    var (e, f) := (port / 7 % 6 + 1, port / 13 % 6 + 1);
    [(true, a), (false, b), (true, c), (false, d), (true, e), (false, f),
     (true, 1), (false, 2), (true, 3), (false, 4), (true, 5), (false, 6), (true, 7),
     (false, a), (true, b), (false, c), (true, d), (false, e), (true, f)]
  }

  /** The book of a port. */
  function Book(port: nat): (r: Text)
    ensures |r| == 64
  {
    ExchangeAll(InitialBook(), PortSteps(port))
  }

  lemma BookArranges(port: nat)
    ensures Arranges(Book(port), Letters())
  {
    InitialArranges();
    ExchangesArrange(InitialBook(), Letters(), PortSteps(port));
  }

  /** The exchanges one after the other. */
  method RunExchanges(book: array2<CChar>, steps: seq<(bool, nat)>)
    requires book.Length0 == SIDE && book.Length1 == SIDE && forall i :: 0 <= i < |steps| ==> steps[i].1 < SIDE
    modifies book
    ensures Flat(book) == ExchangeAll(old(Flat(book)), steps)
  {
    ghost var s := Flat(book);
    var i := 0;
    while i < |steps|
      invariant i <= |steps| && Flat(book) == ExchangeAll(s, steps[..i])
    {
      var (rows, x) := steps[i];
      if rows {
        ExchangeBookX(book, x);
      } else {
        ExchangeBookY(book, x);
      }
      assert steps[..i + 1][..i] == steps[..i];
      i := i + 1;
    }
    assert steps[..i] == steps;
  }

  /** author.c:93-115; a port is not negative. */
  method ExBook2Port(book: array2<CChar>, port: nat)
    requires book.Length0 == SIDE && book.Length1 == SIDE
    modifies book
    ensures Flat(book) == ExchangeAll(old(Flat(book)), PortSteps(port))
  {
    RunExchanges(book, PortSteps(port));
  }
}
