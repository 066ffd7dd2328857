/**
 * History substitution (`histSubst`, ush/ush.c).  The history list is a
 * sequence of recorded commands, each a non-empty word list, head first.
 * The list helpers of include/list.h are read as sequence operations:
 * `insertNode` appends at the tail (so the head is the OLDEST entry),
 * `getNthNode(list, n)` is the n-th node counting from 1 at the head, and
 * `insertListIntoPos(list, aux)` puts `list` where `aux` was and returns its
 * first node.
 */
module History {
  import opened Wrappers
  import opened CString
  import opened Util
  import opened VarTable

  type Entry = seq<string>

  /** Every recorded command has at least one word. */
  predicate WellFormed(hist: seq<Entry>) {
    forall k :: 0 <= k < |hist| ==> hist[k] != []
  }

  /** Which history reference a word holds, tested in the order of the source. */
  datatype Ref =
    | LastCommand        // contains "!!"
    | LastWord           // contains "!$"
    | LoneBang           // the first '!' is the word's last character
    | Nth(n: int)        // the text after the first '!' is all digits
    | Prefix(p: string)  // any other text after the first '!'
    | NoRef              // no '!'

  /** A word holding a reference that starts with '!' holds a '!'. */
  lemma BangIn(w: string, n: string)
    requires n != [] && n[0] == '!' && Contains(w, n)
    ensures '!' in w
  {
    var i := FindSub(w, n).value;
    assert w[i] == w[i..i + |n|][0];
  }

  /**
   * The reference a word holds.  Past "!!" and "!$", the text after the first
   * '!' decides: nothing is a lone '!', digits are `!n` with their decimal
   * value, anything else is a prefix.
   */
  function Classify(w: string): (r: Ref)
    ensures r.NoRef? <==> '!' !in w
    ensures r.LastCommand? <==> Contains(w, "!!")
    ensures r.LastWord? <==> !Contains(w, "!!") && Contains(w, "!$")
    ensures '!' in w && !Contains(w, "!!") && !Contains(w, "!$") ==>
              var rest := w[FirstIndex(w, '!') + 1..];
              (r.LoneBang? <==> rest == []) &&
              (r.Nth? <==> rest != [] && IsNumber(rest)) &&
              (r.Nth? ==> AllDigits(rest) && r.n == DecimalValue(rest)) &&
              (r.Prefix? ==> r.p == rest)
    ensures r.Nth? ==> r.n >= 0
    ensures r.Prefix? ==> r.p != [] && !IsNumber(r.p)
  {
    ContainsChar(w, '!');
    if Contains(w, "!!") then BangIn(w, "!!"); LastCommand
    else if Contains(w, "!$") then BangIn(w, "!$"); LastWord
    else if '!' !in w then NoRef
    else
      FindFirstChar(w, '!');
      match FindSub(w, "!")
      case None => NoRef
      case Some(i) =>
        var rest := w[i + 1..];
        if rest == [] then LoneBang
        else if IsNumber(rest) then
          AtoiOfDigits(rest);
          Nth(Atoi(rest))
        else Prefix(rest)
  }

  /** The last entry, head to tail, whose FIRST word contains `p`. */
  function LastMatch(hist: seq<Entry>, p: string): (r: Option<nat>)
    requires WellFormed(hist)
    ensures r.Some? ==> r.value < |hist| && Contains(hist[r.value][0], p)
    ensures r.Some? ==> forall j :: r.value < j < |hist| ==> !Contains(hist[j][0], p)
    ensures r.None? <==> forall j :: 0 <= j < |hist| ==> !Contains(hist[j][0], p)
  {
    if hist == [] then None
    else if Contains(hist[|hist| - 1][0], p) then Some(|hist| - 1)
    else LastMatch(hist[..|hist| - 1], p)
  }

  /** `insertListIntoPos`: the word at `pos` replaced by the words of `e`. */
  function Splice(words: seq<string>, pos: nat, e: seq<string>): (r: seq<string>)
    requires pos < |words|
    ensures |r| == |words| - 1 + |e|
    ensures r[..pos] == words[..pos] && r[pos..pos + |e|] == e && r[pos + |e|..] == words[pos + 1..]
  {
    words[..pos] + e + words[pos + 1..]
  }

  /** What one turn of the scanning loop leaves behind. */
  datatype Step =
    | Continue(words: seq<string>, pos: nat)  // go on at `pos`
    | Stop                                    // `break`: the line is then recorded
    | Fail                                    // `return -1`: nothing is recorded

  /**
   * One turn of the loop on the word at `pos`, with history `hist`, corrected:
   * scanning resumes after the words spliced in, and `!0` moves on to the
   * next word.  An unmatched `!prefix` stops like an out-of-range `!n`.
   */
  function HistStep(hist: seq<Entry>, words: seq<string>, pos: nat): (r: Step)
    requires hist != [] && WellFormed(hist) && pos < |words|
    ensures r.Continue? ==> r.pos <= |r.words| && |r.words| - r.pos < |words| - pos
    ensures r.Continue? ==> |r.words| >= |words| && r.words[..pos] == words[..pos]
    ensures r.Continue? ==> r.words[r.pos..] == words[pos + 1..]
    ensures r.Fail? <==> Classify(words[pos]).LoneBang?
    ensures Classify(words[pos]).NoRef? ==> r == Continue(words, pos + 1)
    ensures Classify(words[pos]).LastCommand? ==>
              r == Continue(Splice(words, pos, hist[0]), pos + |hist[0]|)
    ensures Classify(words[pos]).LastWord? ==>
              r == Continue(words[pos := hist[0][|hist[0]| - 1]], pos + 1)
    ensures Classify(words[pos]).Nth? ==>
              var n := Classify(words[pos]).n;
              (r == Stop <==> n > |hist|) &&
              (n == 0 ==> r == Continue(words, pos + 1)) &&
              (1 <= n <= |hist| ==> r == Continue(Splice(words, pos, hist[n - 1]), pos + |hist[n - 1]|))
    ensures Classify(words[pos]).Prefix? ==>
              match LastMatch(hist, Classify(words[pos]).p)
              case None => r == Stop
              case Some(k) => r == Continue(Splice(words, pos, hist[k]), pos + |hist[k]|)
  {
    StepFor(hist, words, pos, Classify(words[pos]))
  }

  /** The turn for a word whose reference is `c`. */
  function StepFor(hist: seq<Entry>, words: seq<string>, pos: nat, c: Ref): (r: Step)
    requires hist != [] && WellFormed(hist) && pos < |words|
    ensures r.Continue? ==> r.pos <= |r.words| && |r.words| - r.pos < |words| - pos
    ensures r.Continue? ==> |r.words| >= |words| && r.words[..pos] == words[..pos]
    ensures r.Continue? ==> r.words[r.pos..] == words[pos + 1..]
    ensures r.Fail? <==> c.LoneBang?
    ensures c.NoRef? ==> r == Continue(words, pos + 1)
    ensures c.LastCommand? ==>
              r == Continue(Splice(words, pos, hist[0]), pos + |hist[0]|)
    ensures c.LastWord? ==>
              r == Continue(words[pos := hist[0][|hist[0]| - 1]], pos + 1)
    ensures c.Nth? ==>
              var n := c.n;
              (r == Stop <==> n > |hist|) &&
              (n == 0 ==> r == Continue(words, pos + 1)) &&
              (1 <= n <= |hist| ==> r == Continue(Splice(words, pos, hist[n - 1]), pos + |hist[n - 1]|))
    ensures c.Prefix? ==>
              match LastMatch(hist, c.p)
              case None => r == Stop
              case Some(k) => r == Continue(Splice(words, pos, hist[k]), pos + |hist[k]|)
  {
    match c
    case LastCommand => Continue(Splice(words, pos, hist[0]), pos + |hist[0]|)
    case LastWord =>
      assert Splice(words, pos, [hist[0][|hist[0]| - 1]]) == words[pos := hist[0][|hist[0]| - 1]];
      Continue(Splice(words, pos, [hist[0][|hist[0]| - 1]]), pos + 1)
    case LoneBang => Fail
    case Nth(n) =>
      if n <= 0 then Continue(words, pos + 1)
      else if n > |hist| then Stop
      else Continue(Splice(words, pos, hist[n - 1]), pos + |hist[n - 1]|)
    case Prefix(p) =>
      (match LastMatch(hist, p)
       case None => Stop
       case Some(k) => Continue(Splice(words, pos, hist[k]), pos + |hist[k]|))
    case NoRef => Continue(words, pos + 1)
  }

  /**
   * The same turn as the C code takes it, None where it is undefined: after a
   * splice `aux` is the first inserted node and `aux = aux->next` rescans the
   * others; `!0` takes `continue` without moving `aux`; an unmatched
   * `!prefix` hands NULL to `insertListIntoPos`.
   */
  function HistStepAsWritten(hist: seq<Entry>, words: seq<string>, pos: nat): (r: Option<Step>)
    requires hist != [] && WellFormed(hist) && pos < |words|
    ensures r.None? <==> Classify(words[pos]).Prefix? && LastMatch(hist, Classify(words[pos]).p).None?
    ensures r == Some(Continue(words, pos)) <==> Classify(words[pos]) == Nth(0)
    ensures r.Some? && r.value.Continue? && r.value.pos != pos ==>
              r.value.pos == pos + 1 &&
              HistStep(hist, words, pos).Continue? && HistStep(hist, words, pos).words == r.value.words
    ensures r.Some? && !r.value.Continue? ==> r.value == HistStep(hist, words, pos)
  {
    match Classify(words[pos])
    case LastCommand => Some(Continue(Splice(words, pos, hist[0]), pos + 1))
    case LastWord => Some(Continue(Splice(words, pos, [hist[0][|hist[0]| - 1]]), pos + 1))
    case LoneBang => Some(Fail)
    case Nth(n) =>
      if n <= 0 then Some(Continue(words, pos))
      else if n > |hist| then Some(Stop)
      else Some(Continue(Splice(words, pos, hist[n - 1]), pos + 1))
    case Prefix(p) =>
      (match LastMatch(hist, p)
       case None => None
       case Some(k) => Some(Continue(Splice(words, pos, hist[k]), pos + 1)))
    case NoRef => Some(Continue(words, pos + 1))
  }

  /** The loop from `pos` on: the status `histSubst` returns and the words it leaves. */
  function SubstFrom(hist: seq<Entry>, words: seq<string>, pos: nat): (r: (int, seq<string>))
    requires hist != [] && WellFormed(hist) && pos <= |words|
    ensures r.0 == 0 || r.0 == -1
    ensures |r.1| >= |words| && r.1[..pos] == words[..pos]
    ensures r.0 == -1 ==> exists k :: pos <= k < |words| && Classify(words[k]).LoneBang?
    decreases |words| - pos
  {
    if pos == |words| then (0, words)
    else match HistStep(hist, words, pos)
      case Continue(w, p) =>
        var r := SubstFrom(hist, w, p);
        assert r.1[..pos] == r.1[..p][..pos];
        if r.0 == -1 then
          var k :| p <= k < |w| && Classify(w[k]).LoneBang?;
          assert w[k] == w[p..][k - p] == words[pos + 1..][k - p] == words[pos + 1 + k - p];
          r
        else r
      case Stop => (0, words)
      case Fail => (-1, words)
  }

  /** `histSubst(&words)` before it records: status and the substituted words. */
  function Substitute(hist: seq<Entry>, words: seq<string>): (r: (int, seq<string>))
    requires WellFormed(hist)
    ensures r.0 == 0 || r.0 == -1
    ensures |r.1| >= |words|
    ensures words == [] ==> r.0 == -1
    ensures hist == [] && words != [] ==> r == (0, words)
  {
    if words == [] then (-1, words)
    else if hist == [] then (0, words)
    else SubstFrom(hist, words, 0)
  }

  /**
   * Whether the line is recorded: `HISTSIZE` is defined and the count of
   * recorded lines, an `unsigned int`, is below `atoi` of its value converted
   * to `unsigned int`.
   */
  predicate MayRecord(vars: Table, histSize: nat): (b: bool)
    ensures ValueOf(vars, "HISTSIZE").None? ==> !b
    ensures b ==> histSize < 0xFFFF_FFFF
  {
    match ValueOf(vars, "HISTSIZE")
    case None => false
    case Some(v) => histSize < Atoi(v) % 0x1_0000_0000
  }

  /** Words without a '!' are left as they are. */
  lemma {:induction false} SubstNoBang(hist: seq<Entry>, words: seq<string>, pos: nat)
    requires hist != [] && WellFormed(hist) && pos <= |words|
    requires forall k :: pos <= k < |words| ==> '!' !in words[k]
    ensures SubstFrom(hist, words, pos) == (0, words)
    decreases |words| - pos
  {
    if pos < |words| {
      SubstNoBang(hist, words, pos + 1);
    }
  }

  /** A line without '!' passes unchanged, whatever the history holds. */
  lemma SubstituteNoBang(hist: seq<Entry>, words: seq<string>)
    requires WellFormed(hist) && words != []
    requires forall k :: 0 <= k < |words| ==> '!' !in words[k]
    ensures Substitute(hist, words) == (0, words)
  {
    if hist != [] {
      SubstNoBang(hist, words, 0);
    }
  }

  /** Words without a '!' are passed over: the loop goes on at the first word that has one. */
  lemma {:induction false} SubstSkip(hist: seq<Entry>, words: seq<string>, pos: nat, i: nat)
    requires hist != [] && WellFormed(hist) && pos <= i <= |words|
    requires forall k :: pos <= k < i ==> '!' !in words[k]
    ensures SubstFrom(hist, words, pos) == SubstFrom(hist, words, i)
    decreases i - pos
  {
    if pos < i {
      SubstSkip(hist, words, pos + 1, i);
    }
  }

  /**
   * A line whose only '!' is in the word at `i`: the result is what one turn
   * on that word makes of it.
   */
  lemma SubstituteOne(hist: seq<Entry>, words: seq<string>, i: nat)
    requires hist != [] && WellFormed(hist) && i < |words|
    requires forall k :: 0 <= k < |words| && k != i ==> '!' !in words[k]
    ensures Substitute(hist, words) ==
              match HistStep(hist, words, i)
              case Continue(w, _) => (0, w)
              case Stop => (0, words)
              case Fail => (-1, words)
  {
    SubstSkip(hist, words, 0, i);
    match HistStep(hist, words, i)
    case Continue(w, p) =>
      forall k | p <= k < |w| ensures '!' !in w[k] {
        assert w[k] == w[p..][k - p] == words[i + 1..][k - p];
      }
      SubstNoBang(hist, w, p);
    case Stop =>
    case Fail =>
  }

  /** `!!` anywhere in the line: the word becomes the head entry of the history. */
  lemma SubstituteLastCommand(hist: seq<Entry>, words: seq<string>, i: nat)
    requires hist != [] && WellFormed(hist) && i < |words| && Contains(words[i], "!!")
    requires forall k :: 0 <= k < |words| && k != i ==> '!' !in words[k]
    ensures Substitute(hist, words) == (0, words[..i] + hist[0] + words[i + 1..])
  {
    SubstituteOne(hist, words, i);
  }

  /** `!$` anywhere in the line: the word becomes the last word of the head entry. */
  lemma SubstituteLastWord(hist: seq<Entry>, words: seq<string>, i: nat)
    requires hist != [] && WellFormed(hist) && i < |words|
    requires !Contains(words[i], "!!") && Contains(words[i], "!$")
    requires forall k :: 0 <= k < |words| && k != i ==> '!' !in words[k]
    ensures Substitute(hist, words) == (0, words[i := hist[0][|hist[0]| - 1]])
  {
    SubstituteOne(hist, words, i);
  }

  /**
   * `!n` anywhere in the line: the word becomes entry `n`, counted from 1 at the
   * head; past the last entry the loop stops and the line stays as it is.
   */
  lemma SubstituteNth(hist: seq<Entry>, words: seq<string>, i: nat, n: int)
    requires hist != [] && WellFormed(hist) && i < |words| && Classify(words[i]) == Nth(n)
    requires forall k :: 0 <= k < |words| && k != i ==> '!' !in words[k]
    ensures Substitute(hist, words) ==
              if n == 0 || n > |hist| then (0, words) else (0, words[..i] + hist[n - 1] + words[i + 1..])
  {
    SubstituteOne(hist, words, i);
  }

  /**
   * `!prefix` anywhere in the line: the word becomes the entry `LastMatch`
   * picks; without a match the loop stops and the line stays as it is.
   */
  lemma SubstitutePrefix(hist: seq<Entry>, words: seq<string>, i: nat, p: string)
    requires hist != [] && WellFormed(hist) && i < |words| && Classify(words[i]) == Prefix(p)
    requires forall k :: 0 <= k < |words| && k != i ==> '!' !in words[k]
    ensures Substitute(hist, words) ==
              match LastMatch(hist, p)
              case None => (0, words)
              case Some(k) => (0, words[..i] + hist[k] + words[i + 1..])
  {
    SubstituteOne(hist, words, i);
  }

  /**
   * A lone '!' as the first reference of the line fails without a change,
   * except with an empty history, where the loop never looks at the words.
   */
  lemma SubstituteLoneBangAt(hist: seq<Entry>, words: seq<string>, i: nat)
    requires WellFormed(hist) && i < |words| && Classify(words[i]).LoneBang?
    requires forall k :: 0 <= k < i ==> '!' !in words[k]
    ensures Substitute(hist, words) == (if hist == [] then 0 else -1, words)
  {
    if hist != [] {
      SubstSkip(hist, words, 0, i);
    }
  }

  lemma BangBangContains()
    ensures Contains("!!", "!!")
  {
    assert OccursAt("!!", "!!", 0);
  }

  /** The line `!!` becomes the head entry of the history. */
  lemma SubstituteBangBang(hist: seq<Entry>)
    requires hist != [] && WellFormed(hist)
    ensures Substitute(hist, ["!!"]) == (0, hist[0])
  {
    BangBangContains();
    assert Splice(["!!"], 0, hist[0]) == hist[0];
  }

  /** The line `!` fails without substituting anything. */
  lemma SubstituteLoneBang(hist: seq<Entry>)
    requires hist != [] && WellFormed(hist)
    ensures Substitute(hist, ["!"]) == (-1, ["!"])
  {
    var w := "!";
    assert !OccursAt(w, "!!", 0) && !OccursAt(w, "!$", 0);
    FindCharAt(w, '!', 0);
    assert Classify(w) == LoneBang;
  }

  /** The word `!0`: its number is 0. */
  lemma ClassifyBangZero()
    ensures Classify("!0") == Nth(0)
  {
    var w := "!0";
    assert w[0..2] == "!0";
    assert !OccursAt(w, "!!", 0) && !OccursAt(w, "!$", 0);
    FindCharAt(w, '!', 0);
    assert w[1..] == "0";
    assert DigitRun("0") == 1;
    assert "0"[..1] == "0";
  }

  /** The C loop makes no progress on `!0`: the same word at the same place, forever. */
  lemma BangZeroLoops(hist: seq<Entry>, words: seq<string>, pos: nat)
    requires hist != [] && WellFormed(hist) && pos < |words| && words[pos] == "!0"
    ensures HistStepAsWritten(hist, words, pos) == Some(Continue(words, pos))
    ensures HistStep(hist, words, pos) == Continue(words, pos + 1)
  {
    ClassifyBangZero();
  }

  /** `k` copies of `c`. */
  function Copies(c: string, k: nat): (r: seq<string>)
    ensures |r| == k && forall i :: 0 <= i < k ==> r[i] == c
  {
    if k == 0 then [] else Copies(c, k - 1) + [c]
  }

  /**
   * With the head entry `c !!` (recorded verbatim while the history was
   * empty), the C loop turns `c^k !!` scanned at `k` into `c^(k+1) !!`
   * scanned at `k + 1`: the line grows without end.
   */
  lemma RescanNeverEnds(hist: seq<Entry>, c: string, k: nat)
    requires hist != [] && WellFormed(hist) && hist[0] == [c, "!!"]
    ensures HistStepAsWritten(hist, Copies(c, k) + ["!!"], k) ==
            Some(Continue(Copies(c, k + 1) + ["!!"], k + 1))
  {
    var words := Copies(c, k) + ["!!"];
    BangBangContains();
    assert words[k] == "!!";
    assert Splice(words, k, [c, "!!"]) == Copies(c, k + 1) + ["!!"];
  }

  /** The corrected loop resumes after the spliced words: `!!` with head `c !!` is done in one turn. */
  lemma RescanCorrected(hist: seq<Entry>, c: string)
    requires hist != [] && WellFormed(hist) && hist[0] == [c, "!!"]
    ensures Substitute(hist, ["!!"]) == (0, [c, "!!"])
  {
    SubstituteBangBang(hist);
  }

  /** An unmatched `!x`: the C code hands NULL to `insertListIntoPos`, the corrected loop stops. */
  lemma PrefixMiss(hist: seq<Entry>, pos: nat, words: seq<string>)
    requires hist != [] && WellFormed(hist) && pos < |words| && words[pos] == "!x"
    requires forall j :: 0 <= j < |hist| ==> 'x' !in hist[j][0]
    ensures HistStepAsWritten(hist, words, pos) == None
    ensures HistStep(hist, words, pos) == Stop
  {
    var w := "!x";
    assert w[0..2] == "!x";
    assert !OccursAt(w, "!!", 0) && !OccursAt(w, "!$", 0);
    FindCharAt(w, '!', 0);
    assert w[1..] == "x";
    assert !IsNumber("x");
    forall j | 0 <= j < |hist| ensures !Contains(hist[j][0], "x") {
      ContainsChar(hist[j][0], 'x');
    }
  }

  /** `HISTSIZE` of -1 reads as 4294967295 in the unsigned comparison: recording goes on. */
  lemma HistSizeMinusOne(vars: Table, n: nat)
    requires ValueOf(vars, "HISTSIZE") == Some("-1")
    ensures MayRecord(vars, n) <==> n < 0xFFFF_FFFF
  {
    var s := "-1";
    assert s[1..] == "1" && DigitRun("1") == 1 && "1"[..1] == "1";
    assert Atoi(s) == -1;
  }

  /** `HISTSIZE` of 2 allows exactly two recorded lines. */
  lemma HistSizeTwo(vars: Table, n: nat)
    requires ValueOf(vars, "HISTSIZE") == Some("2")
    ensures MayRecord(vars, n) <==> n < 2
  {
    assert DigitRun("2") == 1 && "2"[..1] == "2";
  }
}
