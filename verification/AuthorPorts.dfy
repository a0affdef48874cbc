/**
 What the port does to the book of ExtLibs/MyAuthor/author.c:93-115: where every letter goes, and that a licence made
 for one port does not serve another that differs from it in one of the six residues.
 */
module AuthorPorts {
  import opened CStrings
  import opened AuthorCipher
  import opened Author

  // ----- rows and columns

  /** Where an exchange of 0 and x takes i. */
  function Swap(x: nat, i: nat): nat {
    if i == 0 then x else if i == x then 0 else i
  }

  /** The row that ends up as row i, and the column as column i, after the first n steps. */
  function Origin(steps: seq<(bool, nat)>, n: nat, rows: bool, i: nat): nat
    requires n <= |steps|
  {
    if n == 0 then i
    else Origin(steps, n - 1, rows, if steps[n - 1].0 == rows then Swap(steps[n - 1].1, i) else i)
  }

  predicate InBook(steps: seq<(bool, nat)>) {
    forall k :: 0 <= k < |steps| ==> steps[k].1 < SIDE
  }

  lemma {:induction false} OriginBound(steps: seq<(bool, nat)>, n: nat, rows: bool, i: nat)
    requires n <= |steps| && InBook(steps) && i < 8
    ensures Origin(steps, n, rows, i) < 8
  {
    if n > 0 {
      OriginBound(steps, n - 1, rows, if steps[n - 1].0 == rows then Swap(steps[n - 1].1, i) else i);
    }
  }

  lemma MapsAre(x: nat, i: nat, j: nat, k: nat)
    requires x < 8 && i < 8 && j < 8 && k == 8 * i + j
    ensures RowMap(x, k) == 8 * Swap(x, i) + j && ColMap(x, k) == 8 * i + Swap(x, j)
  {
    assert k / 8 == i && k % 8 == j;
  }

  /** Where an exchange takes the entry of row i' and column j' from. */
  function MapOf(step: (bool, nat), k: nat): nat
    requires step.1 < SIDE && k < 64
  {
    if step.0 then RowMap(step.1, k) else ColMap(step.1, k)
  }

  lemma MapIs(step: (bool, nat), i: nat, j: nat, i': nat, j': nat, k: nat)
    requires step.1 < SIDE && i < 8 && j < 8 && k == 8 * i + j
    requires i' == (if step.0 then Swap(step.1, i) else i) && j' == if step.0 then j else Swap(step.1, j)
    ensures i' < 8 && j' < 8 && MapOf(step, k) == 8 * i' + j'
  {
    MapsAre(step.1, i, j, k);
  }

  /** Rows and columns are exchanged independently. */
  lemma {:induction false} Located(s: Text, steps: seq<(bool, nat)>, n: nat, i: nat, j: nat)
    requires |s| == 64 && n <= |steps| && InBook(steps) && i < 8 && j < 8
    ensures Origin(steps, n, true, i) < 8 && Origin(steps, n, false, j) < 8
    ensures ExchangeAll(s, steps[..n])[8 * i + j] == s[8 * Origin(steps, n, true, i) + Origin(steps, n, false, j)]
  {
    OriginBound(steps, n, true, i);
    OriginBound(steps, n, false, j);
    if n > 0 {
      var (rows, x) := steps[n - 1];
      var (i', j') := (if rows then Swap(x, i) else i, if rows then j else Swap(x, j));
      LastExchange(s, steps, n, i, j, i', j');
      Located(s, steps, n - 1, i', j');
      OriginStep(steps, n, true, i, i');
      OriginStep(steps, n, false, j, j');
    }
  }

  lemma OriginStep(steps: seq<(bool, nat)>, n: nat, rows: bool, i: nat, i': nat)
    requires 0 < n <= |steps| && i' == if steps[n - 1].0 == rows then Swap(steps[n - 1].1, i) else i
    ensures Origin(steps, n, rows, i) == Origin(steps, n - 1, rows, i')
  {
  }

  lemma LastExchange(s: Text, steps: seq<(bool, nat)>, n: nat, i: nat, j: nat, i': nat, j': nat)
    requires |s| == 64 && 0 < n <= |steps| && InBook(steps) && i < 8 && j < 8
    requires i' == (if steps[n - 1].0 then Swap(steps[n - 1].1, i) else i)
    requires j' == if steps[n - 1].0 then j else Swap(steps[n - 1].1, j)
    ensures i' < 8 && j' < 8
    ensures ExchangeAll(s, steps[..n])[8 * i + j] == ExchangeAll(s, steps[..n - 1])[8 * i' + j']
  {
    MapIs(steps[n - 1], i, j, i', j', 8 * i + j);
    EntryOfLast(s, steps, n, 8 * i + j, 8 * i' + j');
  }

  lemma EntryOfLast(s: Text, steps: seq<(bool, nat)>, n: nat, k: nat, k': nat)
    requires |s| == 64 && 0 < n <= |steps| && InBook(steps) && k < 64
    requires k' == MapOf(steps[n - 1], k)
    ensures k' < 64 && ExchangeAll(s, steps[..n])[k] == ExchangeAll(s, steps[..n - 1])[k']
  {
    var (a, b) := (ExchangeAll(s, steps[..n - 1]), ExchangeAll(s, steps[..n]));
    LastIs(s, steps, n, a, b);
    ExchangedAt(a, steps[n - 1], b, k, k');
  }

  lemma LastIs(s: Text, steps: seq<(bool, nat)>, n: nat, a: Text, b: Text)
    requires |s| == 64 && 0 < n <= |steps| && InBook(steps) && a == ExchangeAll(s, steps[..n - 1]) && b == ExchangeAll(s, steps[..n])
    ensures b == Exchanged(a, steps[n - 1].0, steps[n - 1].1)
  {
    assert steps[..n][..n - 1] == steps[..n - 1];
  }

  lemma ExchangedAt(a: Text, step: (bool, nat), b: Text, k: nat, k': nat)
    requires |a| == 64 && step.1 < SIDE && b == Exchanged(a, step.0, step.1) && k < 64 && k' == MapOf(step, k)
    ensures k' < 64 && b[k] == a[k']
  {
  }

  lemma {:induction false} OriginInjective(steps: seq<(bool, nat)>, n: nat, i: nat, k: nat)
    requires n <= |steps| && i != k
    ensures Origin(steps, n, true, i) != Origin(steps, n, true, k)
  {
    if n > 0 {
      var (rows, x) := steps[n - 1];
      OriginInjective(steps, n - 1, if rows then Swap(x, i) else i, if rows then Swap(x, k) else k);
    }
  }

  // ----- two ports

  /** Both lists exchange the same rows in their first n steps, but for step k. */
  predicate SameRowsBut(s: seq<(bool, nat)>, t: seq<(bool, nat)>, n: nat, k: int) {
    n <= |s| && n <= |t| && forall m :: 0 <= m < n && m != k ==> s[m].0 == t[m].0 && (s[m].0 ==> s[m] == t[m])
  }

  lemma {:induction false} SameOrigin(s: seq<(bool, nat)>, t: seq<(bool, nat)>, n: nat, i: nat)
    requires SameRowsBut(s, t, n, -1)
    ensures Origin(s, n, true, i) == Origin(t, n, true, i)
  {
    if n > 0 {
      SameOrigin(s, t, n - 1, if s[n - 1].0 then Swap(s[n - 1].1, i) else i);
    }
  }

  /** Then some row comes from different places. */
  lemma {:induction false} RowsDiffer(s: seq<(bool, nat)>, t: seq<(bool, nat)>, n: nat, k: nat) returns (i: nat)
    requires k < n && SameRowsBut(s, t, n, k) && s[k].0 && t[k].0 && s[k].1 != t[k].1 && InBook(s)
    ensures i < 8 && Origin(s, n, true, i) != Origin(t, n, true, i)
  {
    if k == n - 1 {
      i := 0;
      SameOrigin(s, t, k, t[k].1);
      OriginInjective(s, k, s[k].1, t[k].1);
    } else {
      var j := RowsDiffer(s, t, n - 1, k);
      i := if s[n - 1].0 then Swap(s[n - 1].1, j) else j;
      assert s[n - 1].0 ==> Swap(s[n - 1].1, i) == j;
    }
  }

  /** The six residues of a port that ExBook2Port uses. */
  function Residue(port: nat, k: nat): nat
    requires k < 6
  {
    if k == 0 then port / 1000 % 6 else if k == 1 then port / 100 % 6 else if k == 2 then port / 10 % 6
    else if k == 3 then port % 6 else if k == 4 then port / 7 % 6 else port / 13 % 6
  }

  /** The ports differ in residue k and in no other. */
  predicate DifferOnlyIn(p: nat, q: nat, k: nat)
    requires k < 6
  {
    Residue(p, k) != Residue(q, k) && forall m :: 0 <= m < 6 && m != k ==> Residue(p, m) == Residue(q, m)
  }

  /** The step that exchanges rows by residue k. */
  function RowStep(k: nat): nat {
    if k == 0 then 0 else if k == 1 then 14 else if k == 2 then 2 else if k == 3 then 16 else if k == 4 then 4 else 18
  }

  lemma StepsOf(port: nat, s: seq<(bool, nat)>)
    requires s == PortSteps(port)
    ensures |s| == 19 && InBook(s)
    ensures s[0] == (true, Residue(port, 0) + 1) && s[14] == (true, Residue(port, 1) + 1) && s[2] == (true, Residue(port, 2) + 1)
    ensures s[16] == (true, Residue(port, 3) + 1) && s[4] == (true, Residue(port, 4) + 1) && s[18] == (true, Residue(port, 5) + 1)
    ensures forall m :: 0 <= m < 19 ==> (s[m].0 <==> m % 2 == 0)
    ensures s[6].1 == 1 && s[8].1 == 3 && s[10].1 == 5 && s[12].1 == 7
  {
  }

  lemma RowsBut(p: nat, q: nat, k: nat, s: seq<(bool, nat)>, t: seq<(bool, nat)>)
    requires k < 6 && DifferOnlyIn(p, q, k) && s == PortSteps(p) && t == PortSteps(q)
    ensures SameRowsBut(s, t, 19, RowStep(k)) && s[RowStep(k)].0 && t[RowStep(k)].0 && s[RowStep(k)].1 != t[RowStep(k)].1
  {
    StepsOf(p, s);
    StepsOf(q, t);
    forall m | 0 <= m < 19 && m != RowStep(k)
      ensures s[m].0 == t[m].0 && (s[m].0 ==> s[m] == t[m])
    {
      OtherStep(p, q, k, m, s, t);
    }
  }

  lemma OtherStep(p: nat, q: nat, k: nat, m: nat, s: seq<(bool, nat)>, t: seq<(bool, nat)>)
    requires k < 6 && DifferOnlyIn(p, q, k) && s == PortSteps(p) && t == PortSteps(q) && m < 19 && m != RowStep(k)
    ensures s[m].0 == t[m].0 && (s[m].0 ==> s[m] == t[m])
  {
    StepsOf(p, s);
    StepsOf(q, t);
    if m % 2 == 0 {
      assert m == 6 || m == 8 || m == 10 || m == 12 || exists n :: 0 <= n < 6 && RowStep(n) == m by {
        assert RowStep(0) == 0 && RowStep(1) == 14 && RowStep(2) == 2 && RowStep(3) == 16 && RowStep(4) == 4 && RowStep(5) == 18;
      }
    }
  }

  lemma InitialDistinct(i: nat, j: nat, k: nat, l: nat)
    requires i < 8 && j < 8 && k < 8 && l < 8 && i != k
    ensures InitialBook()[8 * i + j] != InitialBook()[8 * k + l]
  {
    InitialArranges();
    assert 8 * i + j != 8 * k + l;
  }

  /** Ports that differ in exactly one residue have different books. */
  lemma BooksDiffer(p: nat, q: nat, k: nat) returns (n: nat)
    requires k < 6 && DifferOnlyIn(p, q, k)
    ensures n < 64 && Book(p)[n] != Book(q)[n]
  {
    var (s, t) := (PortSteps(p), PortSteps(q));
    RowsBut(p, q, k, s, t);
    StepsOf(p, s);
    var i := RowsDiffer(s, t, 19, RowStep(k));
    n := 8 * i;
    assert s[..19] == s && t[..19] == t;
    Located(InitialBook(), s, 19, i, 0);
    Located(InitialBook(), t, 19, i, 0);
    InitialDistinct(Origin(s, 19, true, i), Origin(s, 19, false, 0), Origin(t, 19, true, i), Origin(t, 19, false, 0));
  }

  // ----- licences of another port

  lemma SubstLetter(book: Text, n: nat)
    requires n < 64 && |book| == 64
    ensures Subst(Letters(), book, Letters()[n]) == book[n]
  {
    LettersDistinct();
    assert IndexOf(Letters(), Letters()[n]) == n;
  }

  /** A character written with one book and read with another. */
  lemma ReadWrong(book: Text, other: Text, n: nat)
    requires n < 64 && Arranges(book, Letters()) && Arranges(other, Letters()) && book[n] != other[n]
    ensures Subst(other, Letters(), Subst(Letters(), book, Letters()[n])) != Letters()[n]
  {
    SubstLetter(book, n);
    LettersDistinct();
    var j := IndexOf(other, book[n]);
    if j < 64 {
      assert j != n;
    } else {
      BookHasAll(other, book[n]);
    }
  }

  /** An arrangement of the alphabet has every letter: reading undoes writing for it. */
  lemma BookHasAll(other: Text, c: CChar)
    requires Arranges(other, Letters()) && c in Letters()
    ensures c in other
  {
    LettersDistinct();
    SetsEqual(other, Letters(), 64);
  }

  ghost function ElementsOf(s: Text): set<CChar> {
    set i | 0 <= i < |s| :: s[i]
  }

  lemma ElementsSnoc(front: Text, c: CChar)
    ensures ElementsOf(front + [c]) == ElementsOf(front) + {c}
  {
    var s := front + [c];
    forall x | x in ElementsOf(front) + {c}
      ensures x in ElementsOf(s)
    {
      if x == c {
        assert s[|front|] == c;
      } else {
        var i :| 0 <= i < |front| && front[i] == x;
        assert s[i] == x;
      }
    }
  }

  lemma {:induction false} Elements(s: Text)
    requires Distinct(s)
    ensures |ElementsOf(s)| == |s|
    decreases |s|
  {
    if s != [] {
      var (front, c) := (s[..|s| - 1], s[|s| - 1]);
      Elements(front);
      ElementsSnoc(front, c);
      assert front + [c] == s;
      assert c !in ElementsOf(front);
    }
  }

  lemma SetsEqual(s: Text, t: Text, n: nat)
    requires |s| == |t| == n && Distinct(s) && Distinct(t) && forall i :: 0 <= i < n ==> s[i] in t
    ensures forall i :: 0 <= i < n ==> t[i] in s
  {
    Elements(s);
    Elements(t);
    assert ElementsOf(s) <= ElementsOf(t);
    SubsetEqual(ElementsOf(s), ElementsOf(t));
    forall i | 0 <= i < n
      ensures t[i] in s
    {
      assert t[i] in ElementsOf(t);
    }
  }

  lemma SubsetEqual<T>(a: set<T>, b: set<T>)
    requires a <= b && |a| == |b|
    ensures a == b
  {
    assert b == a + (b - a);
  }

  /** A name that no longer starts with its own first character is not recovered. */
  lemma FirstCharacterLost(t: Text, c: CChar)
    requires t != [] && t[0] != c
    ensures RecoveredFrom(t) != (0, [c])
  {
  }

  lemma OneLetterName(c: CChar, port: nat)
    ensures Recovered(Hidden([c], port), port) == (0, [c])
  {
    NameRecovered([c], port);
    var u := [c] + MARK[..1];
    forall i | 0 <= i
      ensures !Occurs(u, MARK, i)
    {
    }
  }

  /** Some licence of one port is not recovered at another that differs from it in exactly one residue. */
  lemma OtherPortRejects(p: nat, q: nat, k: nat) returns (name: Text)
    requires k < 6 && DifferOnlyIn(p, q, k)
    ensures Recovered(Hidden(name, p), p) == (0, name) && Recovered(Hidden(name, p), q) != (0, name)
  {
    var n := BooksDiffer(p, q, k);
    var c := Letters()[n];
    name := [c];
    OneLetterName(c, p);
    BookArranges(p);
    BookArranges(q);
    ReadWrong(Book(p), Book(q), n);
    var h := Hidden(name, p);
    assert Tagged(name)[0] == c;
    FirstCharacterLost(SubstAll(Book(q), Letters(), h), c);
  }

  // ----- one port written out

  /** Where the rows of a port's book come from, the last exchange first. */
  function RowPath(a: nat, b: nat, c: nat, d: nat, e: nat, f: nat, i: nat): nat {
    Swap(a, Swap(c, Swap(e, Swap(1, Swap(3, Swap(5, Swap(7, Swap(b, Swap(d, Swap(f, i))))))))))
  }

  function ColPath(a: nat, b: nat, c: nat, d: nat, e: nat, f: nat, j: nat): nat {
    Swap(b, Swap(d, Swap(f, Swap(2, Swap(4, Swap(6, Swap(a, Swap(c, Swap(e, j)))))))))
  }

  lemma RowStepBack(s: seq<(bool, nat)>, n: nat, x: nat, i: nat)
    requires 1 < n <= |s| && s[n - 1] == (true, x) && !s[n - 2].0
    ensures Origin(s, n, true, i) == Origin(s, n - 2, true, Swap(x, i))
  {
  }

  lemma ColStepBack(s: seq<(bool, nat)>, n: nat, y: nat, j: nat)
    requires 1 < n <= |s| && s[n - 1] == (false, y) && s[n - 2].0
    ensures Origin(s, n, false, j) == Origin(s, n - 2, false, Swap(y, j))
  {
  }

  lemma RowPathIs(s: seq<(bool, nat)>, a: nat, b: nat, c: nat, d: nat, e: nat, f: nat, i: nat)
    requires s == [(true, a), (false, b), (true, c), (false, d), (true, e), (false, f),
                   (true, 1), (false, 2), (true, 3), (false, 4), (true, 5), (false, 6), (true, 7),
                   (false, a), (true, b), (false, c), (true, d), (false, e), (true, f)]
    ensures Origin(s, 19, true, i) == RowPath(a, b, c, d, e, f, i)
  {
    var i1 := Swap(f, i);
    var i2 := Swap(d, i1);
    var i3 := Swap(b, i2);
    var i4 := Swap(7, i3);
    var i5 := Swap(5, i4);
    var i6 := Swap(3, i5);
    var i7 := Swap(1, i6);
    var i8 := Swap(e, i7);
    var i9 := Swap(c, i8);
    RowStepBack(s, 19, f, i);
    RowStepBack(s, 17, d, i1);
    RowStepBack(s, 15, b, i2);
    RowStepBack(s, 13, 7, i3);
    RowStepBack(s, 11, 5, i4);
    RowStepBack(s, 9, 3, i5);
    RowStepBack(s, 7, 1, i6);
    RowStepBack(s, 5, e, i7);
    RowStepBack(s, 3, c, i8);
    assert Origin(s, 1, true, i9) == Origin(s, 0, true, Swap(a, i9));
  }

  lemma ColPathIs(s: seq<(bool, nat)>, a: nat, b: nat, c: nat, d: nat, e: nat, f: nat, j: nat)
    requires s == [(true, a), (false, b), (true, c), (false, d), (true, e), (false, f),
                   (true, 1), (false, 2), (true, 3), (false, 4), (true, 5), (false, 6), (true, 7),
                   (false, a), (true, b), (false, c), (true, d), (false, e), (true, f)]
    ensures Origin(s, 19, false, j) == ColPath(a, b, c, d, e, f, j)
  {
    var j1 := Swap(e, j);
    var j2 := Swap(c, j1);
    var j3 := Swap(a, j2);
    var j4 := Swap(6, j3);
    var j5 := Swap(4, j4);
    var j6 := Swap(2, j5);
    var j7 := Swap(f, j6);
    var j8 := Swap(d, j7);
    assert Origin(s, 19, false, j) == Origin(s, 18, false, j);
    ColStepBack(s, 18, e, j);
    ColStepBack(s, 16, c, j1);
    ColStepBack(s, 14, a, j2);
    ColStepBack(s, 12, 6, j3);
    ColStepBack(s, 10, 4, j4);
    ColStepBack(s, 8, 2, j5);
    ColStepBack(s, 6, f, j6);
    ColStepBack(s, 4, d, j7);
    assert Origin(s, 2, false, j8) == Origin(s, 1, false, Swap(b, j8)) == Origin(s, 0, false, Swap(b, j8));
  }

  /** Row i of a book, spelt out. */
  predicate RowIs(book: Text, i: nat, row: string) {
    |book| == 64 && i < 8 && |row| == 8 && forall j :: 0 <= j < 8 ==> book[8 * i + j] == row[j] as int
  }

  /** The alphabet, as author.c:14-23 has it. */
  lemma AlphabetRows()
    ensures RowIs(Letters(), 0, "01234567") == true
    ensures RowIs(Letters(), 1, "89abcdef") == true
    ensures RowIs(Letters(), 2, "ghijklmn") == true
    ensures RowIs(Letters(), 3, "opqrstuv") == true
    ensures RowIs(Letters(), 4, "wxyzABCD") == true
    ensures RowIs(Letters(), 5, "EFGHIJKL") == true
    ensures RowIs(Letters(), 6, "MNOPQRST") == true
    ensures RowIs(Letters(), 7, "UVWXYZ_-") == true
  {
    AlphabetRow(0, "01234567");
    AlphabetRow(1, "89abcdef");
    AlphabetRow(2, "ghijklmn");
    AlphabetRow(3, "opqrstuv");
    AlphabetRow(4, "wxyzABCD");
    AlphabetRow(5, "EFGHIJKL");
    AlphabetRow(6, "MNOPQRST");
    AlphabetRow(7, "UVWXYZ_-");
  }

  lemma AlphabetRow(i: nat, row: string)
    requires i < 8 && |row| == 8 && forall j :: 0 <= j < 8 ==> Letter(8 * i + j) == row[j] as int
    ensures RowIs(Letters(), i, row)
  {
  }

  /** Which rows and columns of the book of lines 119-128 make up that of port 8080. */
  function Row8080(i: nat): nat {
    if i == 0 then 4 else if i == 1 then 0 else if i == 2 then 2 else if i == 3 then 7 else if i == 4 then 5 else if i == 5 then 1 else if i == 6 then 6 else 3
  }

  function Col8080(j: nat): nat {
    if j == 0 then 6 else if j == 1 then 1 else if j == 2 then 4 else if j == 3 then 3 else if j == 4 then 2 else if j == 5 then 0 else if j == 6 then 5 else 7
  }

  lemma Paths8080(i: nat)
    requires i < 8
    ensures RowPath(3, 3, 5, 5, 3, 4, i) == Row8080(i) && ColPath(3, 3, 5, 5, 3, 4, i) == Col8080(i)
  {
  }

  lemma Steps8080(port: nat, s: seq<(bool, nat)>)
    requires port == 8080 && s == PortSteps(port)
    ensures s == [(true, 3), (false, 3), (true, 5), (false, 5), (true, 3), (false, 4),
                  (true, 1), (false, 2), (true, 3), (false, 4), (true, 5), (false, 6), (true, 7),
                  (false, 3), (true, 3), (false, 5), (true, 5), (false, 3), (true, 4)]
  {
  }

  lemma Letter8080(port: nat, i: nat, j: nat)
    requires port == 8080 && i < 8 && j < 8
    ensures Row8080(i) < 8 && Col8080(j) < 8 && Book(port)[8 * i + j] == Initial(8 * Row8080(i) + Col8080(j))
  {
    var s := PortSteps(port);
    Steps8080(port, s);
    RowPathIs(s, 3, 3, 5, 5, 3, 4, i);
    ColPathIs(s, 3, 3, 5, 5, 3, 4, j);
    Paths8080(i);
    Paths8080(j);
    assert s[..19] == s;
    Located(InitialBook(), s, 19, i, j);
  }

  lemma Row0Of8080(port: nat)
    requires port == 8080
    ensures RowIs(Book(port), 0, "CxAzywBD")
  {
    RowOf8080(port, 0, "CxAzywBD");
  }

  lemma Row1Of8080(port: nat)
    requires port == 8080
    ensures RowIs(Book(port), 1, "61432057")
  {
    RowOf8080(port, 1, "61432057");
  }

  lemma Row2Of8080(port: nat)
    requires port == 8080
    ensures RowIs(Book(port), 2, "mhkjigln")
  {
    RowOf8080(port, 2, "mhkjigln");
  }

  lemma Row3Of8080(port: nat)
    requires port == 8080
    ensures RowIs(Book(port), 3, "_VYXWUZ-")
  {
    RowOf8080(port, 3, "_VYXWUZ-");
  }

  lemma Row4Of8080(port: nat)
    requires port == 8080
    ensures RowIs(Book(port), 4, "KFIHGEJL")
  {
    RowOf8080(port, 4, "KFIHGEJL");
  }

  lemma Row5Of8080(port: nat)
    requires port == 8080
    ensures RowIs(Book(port), 5, "e9cba8df")
  {
    RowOf8080(port, 5, "e9cba8df");
  }

  lemma Row6Of8080(port: nat)
    requires port == 8080
    ensures RowIs(Book(port), 6, "SNQPOMRT")
  {
    RowOf8080(port, 6, "SNQPOMRT");
  }

  lemma Row7Of8080(port: nat)
    requires port == 8080
    ensures RowIs(Book(port), 7, "uptrqosv")
  {
    RowOf8080(port, 7, "uptrqosv");
  }

  /** The whole book of port 8080. */
  lemma BookOf8080(port: nat)
    requires port == 8080
    ensures RowIs(Book(port), 0, "CxAzywBD") == true
    ensures RowIs(Book(port), 1, "61432057") == true
    ensures RowIs(Book(port), 2, "mhkjigln") == true
    ensures RowIs(Book(port), 3, "_VYXWUZ-") == true
    ensures RowIs(Book(port), 4, "KFIHGEJL") == true
    ensures RowIs(Book(port), 5, "e9cba8df") == true
    ensures RowIs(Book(port), 6, "SNQPOMRT") == true
    ensures RowIs(Book(port), 7, "uptrqosv") == true
  {
    Row0Of8080(port);
    Row1Of8080(port);
    Row2Of8080(port);
    Row3Of8080(port);
    Row4Of8080(port);
    Row5Of8080(port);
    Row6Of8080(port);
    Row7Of8080(port);
  }

  lemma RowOf8080(port: nat, i: nat, row: string)
    requires port == 8080 && i < 8 && |row| == 8 && Row8080(i) < 8
    requires forall j :: 0 <= j < 8 ==> Col8080(j) < 8 && Initial(8 * Row8080(i) + Col8080(j)) == row[j] as int
    ensures RowIs(Book(port), i, row)
  {
    forall j | 0 <= j < 8
      ensures Book(port)[8 * i + j] == row[j] as int
    {
      Letter8080(port, i, j);
    }
  }

  /** Letter n of the alphabet and what it is written as, which stands at n = 8i + j in the book. */
  lemma Written(port: nat, t: Text, m: nat, n: nat, c: CChar, w: CChar)
    requires m < |t| && n < 64 && t[m] == c == Letters()[n] && Book(port)[n] == w
    ensures SubstAll(Letters(), Book(port), t)[m] == w
  {
    SubstLetter(Book(port), n);
  }

  lemma SumOfAbc(name: Text)
    requires name == Ascii("abc")
    ensures SumOf(name) == 294
  {
    assert name == [97, 98, 99];
    assert name[..2] == [97, 98] && [97, 98][..1] == [97] && [97][..0] == [];
    assert SumOf([97]) == 97 && SumOf([97, 98]) == 195;
  }

  lemma DecimalOf294()
    ensures Decimal(294) == ['2' as int, '9' as int, '4' as int]
  {
    assert Digits(2) == ['2' as int];
    assert Digits(29) == ['2' as int, '9' as int];
  }

  lemma TaggedAbc(name: Text, t: Text)
    requires name == Ascii("abc") && t == Tagged(name)
    ensures t == Ascii("abc_crc_294")
  {
    SumOfAbc(name);
    DecimalOf294();
  }

  lemma LicenceStart(port: nat, t: Text, r: Text)
    requires port == 8080 && t == Ascii("abc_crc_294") && r == SubstAll(Letters(), Book(port), t)
    ensures |r| == 11 && r[0] == '4' as int && r[1] == '3' as int && r[2] == '2' as int && r[3] == 's' as int
  {
    AlphabetRows();
    BookOf8080(port);
    WrittenIn(port, t, 0, 1, 2, "89abcdef", "61432057");
    WrittenIn(port, t, 1, 1, 3, "89abcdef", "61432057");
    WrittenIn(port, t, 2, 1, 4, "89abcdef", "61432057");
    WrittenIn(port, t, 3, 7, 6, "UVWXYZ_-", "uptrqosv");
  }

  lemma LicenceMiddle(port: nat, t: Text, r: Text)
    requires port == 8080 && t == Ascii("abc_crc_294") && r == SubstAll(Letters(), Book(port), t)
    ensures |r| == 11 && r[4] == '2' as int && r[5] == 'X' as int && r[6] == '2' as int && r[7] == 's' as int
  {
    AlphabetRows();
    BookOf8080(port);
    WrittenIn(port, t, 4, 1, 4, "89abcdef", "61432057");
    WrittenIn(port, t, 5, 3, 3, "opqrstuv", "_VYXWUZ-");
    WrittenIn(port, t, 6, 1, 4, "89abcdef", "61432057");
    WrittenIn(port, t, 7, 7, 6, "UVWXYZ_-", "uptrqosv");
  }

  lemma LicenceEnd(port: nat, t: Text, r: Text)
    requires port == 8080 && t == Ascii("abc_crc_294") && r == SubstAll(Letters(), Book(port), t)
    ensures |r| == 11 && r[8] == 'A' as int && r[9] == '1' as int && r[10] == 'y' as int
  {
    AlphabetRows();
    BookOf8080(port);
    WrittenIn(port, t, 8, 0, 2, "01234567", "CxAzywBD");
    WrittenIn(port, t, 9, 1, 1, "89abcdef", "61432057");
    WrittenIn(port, t, 10, 0, 4, "01234567", "CxAzywBD");
  }

  /** The licence of abc at port 8080. */
  lemma LicenceOfAbc(port: nat, name: Text)
    requires port == 8080 && name == Ascii("abc")
    ensures Hidden(name, port) == Ascii("432s2X2sA1y")
  {
    var (t, r) := (Tagged(name), Hidden(name, port));
    TaggedAbc(name, t);
    LicenceStart(port, t, r);
    LicenceMiddle(port, t, r);
    LicenceEnd(port, t, r);
    Spelt(r);
  }

  lemma Spelt(r: Text)
    requires |r| == 11 && r[0] == '4' as int && r[1] == '3' as int && r[2] == '2' as int && r[3] == 's' as int
    requires r[4] == '2' as int && r[5] == 'X' as int && r[6] == '2' as int && r[7] == 's' as int
    requires r[8] == 'A' as int && r[9] == '1' as int && r[10] == 'y' as int
    ensures r == Ascii("432s2X2sA1y")
  {
  }

  lemma WrittenIn(port: nat, t: Text, m: nat, i: nat, j: nat, letters: string, row: string)
    requires m < |t| && i < 8 && j < 8 && RowIs(Letters(), i, letters) && RowIs(Book(port), i, row)
    requires t[m] == letters[j] as int
    ensures SubstAll(Letters(), Book(port), t)[m] == row[j] as int
  {
    var n := 8 * i + j;
    Written(port, t, m, n, Letters()[n], Book(port)[n]);
  }
}
