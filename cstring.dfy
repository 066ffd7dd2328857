/**
 * The C library string primitives the shell is built on: `strstr`, `strtok`,
 * `isdigit`/`isspace` and `atoi`, stated over `seq<char>`.
 */
module CString {
  import opened Wrappers

  /** `n` occurs in `h` starting at index `i`. */
  predicate OccursAt(h: string, n: string, i: nat) {
    i + |n| <= |h| && h[i..i + |n|] == n
  }

  /** `strstr(h, n)`: the index of the first occurrence of `n` in `h`, or NULL. */
  function FindSub(h: string, n: string): (r: Option<nat>)
    ensures r.Some? ==> OccursAt(h, n, r.value)
    ensures r.Some? ==> forall j: nat :: j < r.value ==> !OccursAt(h, n, j)
    ensures r.None? ==> forall j: nat :: !OccursAt(h, n, j)
  {
    FindFrom(h, n, 0)
  }

  function FindFrom(h: string, n: string, i: nat): (r: Option<nat>)
    ensures r.Some? ==> i <= r.value && OccursAt(h, n, r.value)
    ensures r.Some? ==> forall j: nat :: i <= j < r.value ==> !OccursAt(h, n, j)
    ensures r.None? ==> forall j: nat :: i <= j ==> !OccursAt(h, n, j)
    decreases |h| - i
  {
    if i + |n| > |h| then None
    else if h[i..i + |n|] == n then Some(i)
    else FindFrom(h, n, i + 1)
  }

  /** `strstr(h, n) != NULL`. */
  predicate Contains(h: string, n: string) {
    FindSub(h, n).Some?
  }

  /** A single-character needle is found at the first index holding that character. */
  lemma FindCharAt(h: string, c: char, k: nat)
    requires k < |h| && h[k] == c && c !in h[..k]
    ensures FindSub(h, [c]) == Some(k)
  {
    assert h[k..k + 1] == [c];
    assert OccursAt(h, [c], k);
    var v := FindSub(h, [c]).value;
    assert h[v] == h[v..v + 1][0];
  }

  /** `strstr(h, "c")` finds something exactly when `c` occurs in `h`. */
  lemma ContainsChar(h: string, c: char)
    ensures Contains(h, [c]) <==> c in h
  {
    if c in h {
      var k :| 0 <= k < |h| && h[k] == c;
      assert h[k..k + 1] == [c];
      assert OccursAt(h, [c], k);
    }
    if Contains(h, [c]) {
      var i := FindSub(h, [c]).value;
      assert h[i] == h[i..i + 1][0];
    }
  }

  /** The index of the first `c` in `s`: what `strchr` and `strstr(s, "c")` point at. */
  function FirstIndex(s: string, c: char): (i: nat)
    requires c in s
    ensures i < |s| && s[i] == c && c !in s[..i]
  {
    if s[0] == c then 0
    else
      var i := 1 + FirstIndex(s[1..], c);
      assert s[..i] == [s[0]] + s[1..][..i - 1];
      i
  }

  /** `strstr(s, "c")` finds the first `c`. */
  lemma FindFirstChar(s: string, c: char)
    requires c in s
    ensures FindSub(s, [c]) == Some(FirstIndex(s, c))
  {
    FindCharAt(s, c, FirstIndex(s, c));
  }

  /** `isdigit` in the C locale. */
  predicate IsDigit(c: char) {
    '0' <= c <= '9'
  }

  /** `isspace` in the C locale. */
  predicate IsSpace(c: char) {
    c == ' ' || c == '\t' || c == '\n' || c == '\U{0B}' || c == '\U{0C}' || c == '\r'
  }

  predicate AllDigits(s: string) {
    forall i :: 0 <= i < |s| ==> IsDigit(s[i])
  }

  /** The value of a run of decimal digits, most significant first. */
  function DecimalValue(s: string): nat
    requires AllDigits(s)
  {
    if s == [] then 0
    else 10 * DecimalValue(s[..|s| - 1]) + (s[|s| - 1] as int - '0' as int)
  }

  /** The length of the leading run of digits of `s`. */
  function DigitRun(s: string): (k: nat)
    ensures k <= |s| && AllDigits(s[..k])
    ensures k < |s| ==> !IsDigit(s[k])
  {
    if s == [] || !IsDigit(s[0]) then 0
    else
      var k := 1 + DigitRun(s[1..]);
      assert s[..k] == [s[0]] + s[1..][..k - 1];
      k
  }

  /**
   * `atoi`: skip leading white space, read an optional sign and then the leading
   * digits; no digits give 0.  The value is the mathematical one (see README for
   * values outside the range of `int`).
   */
  function Atoi(s: string): (r: int)
    ensures r < 0 ==> '-' in s
    ensures (forall i :: 0 <= i < |s| ==> !IsDigit(s[i])) ==> r == 0
  {
    if s != [] && IsSpace(s[0]) then Atoi(s[1..])
    else if s != [] && s[0] == '-' then -(DecimalValue(s[1..][..DigitRun(s[1..])]) as int)
    else if s != [] && s[0] == '+' then DecimalValue(s[1..][..DigitRun(s[1..])])
    else DecimalValue(s[..DigitRun(s)])
  }

  /** On a string of digits `atoi` is the decimal value of the whole string. */
  lemma {:induction false} AtoiOfDigits(s: string)
    requires s != [] && AllDigits(s)
    ensures Atoi(s) == DecimalValue(s)
  {
    assert s[..DigitRun(s)] == s;
  }

  /** The length of the leading run of characters other than `d`. */
  function RunLength(s: string, d: char): (k: nat)
    ensures k <= |s| && d !in s[..k]
    ensures k < |s| ==> s[k] == d
  {
    if s == [] || s[0] == d then 0
    else
      var k := 1 + RunLength(s[1..], d);
      assert s[..k] == [s[0]] + s[1..][..k - 1];
      k
  }

  /**
   * `strtok(s, d)` called until it returns NULL: the maximal runs of characters
   * other than `d`, in the order they appear.  Runs of delimiters produce no
   * empty token.
   */
  function Tokens(s: string, d: char): (ws: seq<string>)
    ensures forall k :: 0 <= k < |ws| ==> ws[k] != [] && d !in ws[k]
    decreases |s|
  {
    if s == [] then []
    else if s[0] == d then Tokens(s[1..], d)
    else
      var k := RunLength(s, d);
      [s[..k]] + Tokens(s[k..], d)
  }

  /** The words written one after another with a single `d` between neighbours. */
  function JoinWith(ws: seq<string>, d: char): string
  {
    if ws == [] then []
    else if |ws| == 1 then ws[0]
    else ws[0] + [d] + JoinWith(ws[1..], d)
  }

  lemma {:induction false} RunLengthExtend(a: string, t: string, d: char)
    requires d in a || t == [] || t[0] == d
    ensures RunLength(a + t, d) == RunLength(a, d)
  {
    if a == [] {
    } else if a[0] == d {
    } else {
      assert (a + t)[1..] == a[1..] + t;
      RunLengthExtend(a[1..], t, d);
    }
  }

  /** The first token of `a t` is the first token of `a` when `a` holds a delimiter. */
  lemma TokensRun(a: string, b: string, d: char)
    requires a != [] && a[0] != d
    ensures Tokens(a + [d] + b, d) == [a[..RunLength(a, d)]] + Tokens(a[RunLength(a, d)..] + [d] + b, d)
    ensures Tokens(a, d) == [a[..RunLength(a, d)]] + Tokens(a[RunLength(a, d)..], d)
  {
    var s := a + [d] + b;
    assert s == a + ([d] + b);
    RunLengthExtend(a, [d] + b, d);
    var k := RunLength(a, d);
    assert s[..k] == a[..k];
    assert s[k..] == a[k..] + [d] + b;
  }

  /** A delimiter separates: tokenizing `a d b` tokenizes `a` and `b` apart. */
  lemma {:induction false} TokensSplit(a: string, b: string, d: char)
    ensures Tokens(a + [d] + b, d) == Tokens(a, d) + Tokens(b, d)
    decreases |a|
  {
    var s := a + [d] + b;
    if a == [] {
      assert s[1..] == b;
    } else if a[0] == d {
      assert s[1..] == a[1..] + [d] + b;
      TokensSplit(a[1..], b, d);
    } else {
      TokensRun(a, b, d);
      TokensSplit(a[RunLength(a, d)..], b, d);
    }
  }

  /** A delimiter-free non-empty string is a single token. */
  lemma TokensOfWord(w: string, d: char)
    requires w != [] && d !in w
    ensures Tokens(w, d) == [w]
  {
    RunLengthExtend(w, [], d);
    assert w + [] == w;
    assert w[|w|..] == [];
  }

  /** Tokenizing undoes joining, for words that are tokens. */
  lemma {:induction false} TokensJoin(ws: seq<string>, d: char)
    requires forall k :: 0 <= k < |ws| ==> ws[k] != [] && d !in ws[k]
    ensures Tokens(JoinWith(ws, d), d) == ws
  {
    if ws == [] {
    } else if |ws| == 1 {
      TokensOfWord(ws[0], d);
    } else {
      TokensJoin(ws[1..], d);
      TokensSplit(ws[0], JoinWith(ws[1..], d), d);
      TokensOfWord(ws[0], d);
      assert ws == [ws[0]] + ws[1..];
    }
  }

  /** There are no tokens exactly when every character is a delimiter. */
  lemma {:induction false} TokensEmpty(s: string, d: char)
    ensures Tokens(s, d) == [] <==> forall i :: 0 <= i < |s| ==> s[i] == d
    decreases |s|
  {
    if s != [] && s[0] == d {
      TokensEmpty(s[1..], d);
      assert forall i :: 1 <= i < |s| ==> s[i] == s[1..][i - 1];
    }
  }
}
