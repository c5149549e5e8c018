/** The string operations the repository borrows from its language's library, on ASCII text. */
module Text {

  predicate IsSpace(c: char) {
    c == ' ' || c == '\t' || c == '\n' || c == '\r' || c == '\U{0B}' || c == '\U{0C}'
  }

  function TrimLeft(s: string): (r: string)
    ensures |r| <= |s|
  {
    if s != [] && IsSpace(s[0]) then TrimLeft(s[1..]) else s
  }

  function TrimRight(s: string): (r: string)
    ensures |r| <= |s|
  {
    if s != [] && IsSpace(s[|s| - 1]) then TrimRight(s[..|s| - 1]) else s
  }

  function TrimSpace(s: string): (r: string)
    ensures |r| <= |s|
  {
    TrimRight(TrimLeft(s))
  }

  /** Neither end is white space. */
  predicate Trimmed(s: string) {
    s != [] ==> !IsSpace(s[0]) && !IsSpace(s[|s| - 1])
  }

  lemma {:induction false} TrimIsTrimmed(s: string)
    ensures Trimmed(TrimSpace(s))
    decreases |s|
  {
    if s != [] && IsSpace(s[0]) {
      TrimIsTrimmed(s[1..]);
    } else {
      TrimRightKeepsHead(s);
    }
  }

  lemma {:induction false} TrimRightKeepsHead(s: string)
    requires s != [] ==> !IsSpace(s[0])
    ensures Trimmed(TrimRight(s))
    ensures TrimRight(s) <= s
    decreases |s|
  {
    if s != [] && IsSpace(s[|s| - 1]) {
      TrimRightKeepsHead(s[..|s| - 1]);
    }
  }

  /** Trimming undoes a space on either side of a trimmed text. */
  lemma TrimPadded(s: string)
    requires Trimmed(s) && s != []
    ensures TrimSpace(s) == s && TrimSpace(s + " ") == s && TrimSpace(" " + s) == s
  {
    assert (s + " ")[..|s|] == s;
    assert (" " + s)[1..] == s;
  }

  lemma SliceOfSlice(s: string, i: nat, j: nat, a: nat, b: nat)
    requires i <= j <= |s| && a <= b <= j - i
    ensures s[i..j][a..b] == s[i + a..i + b]
  {
    assert forall k :: 0 <= k < b - a ==> s[i..j][a..b][k] == s[i..j][a + k] == s[i + a..i + b][k];
  }

  /** Trimming cuts a stretch out of a text, and only white space off it. */
  lemma {:induction false} TrimCuts(s: string) returns (a: nat, b: nat)
    ensures a <= b <= |s| && TrimSpace(s) == s[a..b]
    ensures forall i :: 0 <= i < |s| && !IsSpace(s[i]) ==> a <= i < b
    decreases |s|
  {
    if s != [] && IsSpace(s[0]) {
      a, b := TrimCuts(s[1..]);
      assert s[1..] == s[1..|s|];
      SliceOfSlice(s, 1, |s|, a, b);
      a, b := a + 1, b + 1;
      forall i | 0 <= i < |s| && !IsSpace(s[i]) ensures a <= i < b {
        assert s[1..][i - 1] == s[i];
      }
    } else {
      a := 0;
      b := TrimRightCuts(s);
    }
  }

  lemma {:induction false} TrimRightCuts(s: string) returns (b: nat)
    ensures b <= |s| && TrimRight(s) == s[..b]
    ensures forall i :: 0 <= i < |s| && !IsSpace(s[i]) ==> i < b
    decreases |s|
  {
    if s != [] && IsSpace(s[|s| - 1]) {
      b := TrimRightCuts(s[..|s| - 1]);
      assert s[..|s| - 1][..b] == s[..b];
      forall i | 0 <= i < |s| && !IsSpace(s[i]) ensures i < b {
        assert s[..|s| - 1][i] == s[i];
      }
    } else {
      b := |s|;
    }
  }

  function Lower(c: char): char {
    if 'A' <= c <= 'Z' then (c as int + 32) as char else c
  }

  function ToLower(s: string): string {
    seq(|s|, i requires 0 <= i < |s| => Lower(s[i]))
  }

  predicate HasPrefix(s: string, p: string) {
    p <= s
  }

  function TrimPrefix(s: string, p: string): string {
    if HasPrefix(s, p) then s[|p|..] else s
  }

  predicate OccursAt(s: string, p: string, i: nat) {
    i + |p| <= |s| && forall q :: 0 <= q < |p| ==> s[i + q] == p[q]
  }

  predicate Avoids(s: string, p: string) {
    forall i :: 0 <= i <= |s| ==> !OccursAt(s, p, i)
  }

  function IndexFrom(s: string, p: string, i: nat): (r: int)
    ensures r == -1 || (i <= r && OccursAt(s, p, r))
    decreases |s| - i
  {
    if i + |p| > |s| then -1
    else if OccursAt(s, p, i) then i
    else IndexFrom(s, p, i + 1)
  }

  /** The position of the first occurrence of p in s, or -1. */
  function Index(s: string, p: string): (r: int)
    ensures r == -1 || (0 <= r && OccursAt(s, p, r))
  {
    IndexFrom(s, p, 0)
  }

  lemma {:induction false} IndexFromSkips(s: string, p: string, i: nat, k: nat)
    requires i <= k && (forall j :: i <= j < k ==> !OccursAt(s, p, j)) && OccursAt(s, p, k)
    ensures IndexFrom(s, p, i) == k
    decreases k - i
  {
    if i < k {
      IndexFromSkips(s, p, i + 1, k);
    }
  }

  lemma {:induction false} IndexFromMisses(s: string, p: string, i: nat)
    requires Avoids(s, p)
    ensures IndexFrom(s, p, i) == -1
    decreases |s| - i
  {
    if i + |p| <= |s| {
      IndexFromMisses(s, p, i + 1);
    }
  }

  lemma FirstIndex(s: string, p: string, k: nat)
    requires OccursAt(s, p, k) && forall j :: 0 <= j < k ==> !OccursAt(s, p, j)
    ensures Index(s, p) == k
  {
    IndexFromSkips(s, p, 0, k);
  }

  lemma NoIndex(s: string, p: string)
    requires Avoids(s, p)
    ensures Index(s, p) == -1
  {
    IndexFromMisses(s, p, 0);
  }

  // ----- Numbers -----

  function Digit(d: nat): char
    requires d < 10
  {
    "0123456789"[d]
  }

  /** Decimal notation. */
  function Decimal(n: nat): string {
    if n < 10 then [Digit(n)] else Decimal(n / 10) + [Digit(n % 10)]
  }

  lemma {:induction false} DecimalInjective(m: nat, n: nat)
    requires Decimal(m) == Decimal(n)
    ensures m == n
    decreases m
  {
    var dm, dn := Decimal(m), Decimal(n);
    assert dm[|dm| - 1] == Digit(m % 10) && dn[|dn| - 1] == Digit(n % 10);
    DigitInjective(m % 10, n % 10);
    if m >= 10 && n >= 10 {
      assert Decimal(m / 10) == dm[..|dm| - 1] && Decimal(n / 10) == dn[..|dn| - 1];
      DecimalInjective(m / 10, n / 10);
    } else if m >= 10 {
      DecimalNonEmpty(m / 10);
    } else if n >= 10 {
      DecimalNonEmpty(n / 10);
    }
  }

  lemma DigitInjective(c: nat, d: nat)
    requires c < 10 && d < 10 && Digit(c) == Digit(d)
    ensures c == d
  {
  }

  lemma DecimalNonEmpty(n: nat)
    ensures |Decimal(n)| > 0
  {
  }

  /** The number a string of digits stands for. */
  function NumberOf(s: string): int {
    if s == "" then 0 else 10 * NumberOf(s[..|s| - 1]) + (s[|s| - 1] as int - '0' as int)
  }

  lemma {:induction false} DecimalReads(n: nat)
    ensures NumberOf(Decimal(n)) == n && (forall i :: 0 <= i < |Decimal(n)| ==> '0' <= Decimal(n)[i] <= '9')
    ensures n > 0 ==> Decimal(n)[0] != '0'
    decreases n
  {
    var d := Decimal(n);
    if n < 10 {
      assert d[..0] == "";
      assert NumberOf(d[..0]) == 0;
    } else {
      DecimalReads(n / 10);
      DecimalNonEmpty(n / 10);
      assert d[..|d| - 1] == Decimal(n / 10);
    }
  }
}
