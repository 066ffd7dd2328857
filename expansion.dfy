/**
 * Variable expansion (`varExpansion`, ush/ush.c): each word that refers to a
 * shell variable is overwritten with the variable's value, or with "" when
 * the variable is not defined.  The word list keeps its length.
 */
module Expansion {
  import opened Wrappers
  import opened CString
  import opened VarTable

  /** What the two `strstr` tests find in a word. */
  datatype WordKind =
    | Plain          // no '$': the word is kept
    | Name(n: string)
    | Lone           // the word is "$": `return -1`
    | Unsized        // ")" before "$(": the size computed for the name is negative

  /**
   * The name a word refers to.  With "$(" at `i` and the first ")" at `j`,
   * the name is the `j - i - 2` characters from index 2 of the word; with a
   * '$' anywhere else, it is the word without its first character.
   */
  function ClassifyWord(w: string): (k: WordKind)
    ensures k.Plain? <==> '$' !in w
    ensures k.Lone? <==> w == "$"
    ensures k.Unsized? ==> ')' in w && '$' in w
  {
    ContainsChar(w, '$');
    ContainsChar(w, ')');
    match (FindSub(w, "$("), FindSub(w, ")"))
    case (Some(i), Some(j)) =>
      assert w[i] == w[i..i + 2][0] && w[i + 1] == w[i..i + 2][1];
      assert w[j] == w[j..j + 1][0];
      var sz: int := j as int - (i + 2) + 1;
      if sz < 0 then Unsized
      else if sz == 0 then Lone
      else Name(w[2..2 + sz - 1])
    case _ =>
      if '$' in w then
        if |w| == 1 then Lone else Name(w[1..])
      else Plain
  }

  /** `$name`: a '$' followed by a name without ')' refers to that name. */
  lemma ClassifyDollar(n: string)
    requires n != [] && ')' !in n
    ensures ClassifyWord("$" + n) == Name(n)
  {
    var w := "$" + n;
    ContainsChar(w, ')');
    assert w[1..] == n;
    assert w[0] == '$';
  }

  /** `$(name)`: a name without ')' between "$(" and ")" refers to that name. */
  lemma ClassifyParen(n: string)
    requires ')' !in n
    ensures ClassifyWord("$(" + n + ")") == Name(n)
  {
    var w := "$(" + n + ")";
    assert OccursAt(w, "$(", 0);
    assert w[|n| + 2] == ')';
    FindCharAt(w, ')', |n| + 2);
    assert w[2..|n| + 2] == n;
  }

  /** The name is taken from index 2 of the word, not from after "$(": `a$(X)` refers to "(". */
  lemma ClassifyInnerParen()
    ensures ClassifyWord("a$(X)") == Name("(")
  {
    var w := "a$(X)";
    assert !OccursAt(w, "$(", 0) by { assert w[0..2] == "a$"; }
    assert OccursAt(w, "$(", 1) by { assert w[1..3] == "$("; }
    assert w[4] == ')';
    FindCharAt(w, ')', 4);
    assert w[2..3] == "(";
  }

  /** The value a defined variable has, or "" for an undefined one. */
  function ValueOrEmpty(vars: Table, name: string): string {
    match ValueOf(vars, name)
    case Some(v) => v
    case None => ""
  }

  /** What the loop makes of one word it gets past. */
  function ExpandWord(vars: Table, w: string): string {
    match ClassifyWord(w)
    case Name(n) => ValueOrEmpty(vars, n)
    case _ => w
  }

  /** A word the loop cannot get past: a lone "$" (`return -1`) or an unsized name. */
  predicate Halts(w: string) {
    ClassifyWord(w).Lone? || ClassifyWord(w).Unsized?
  }

  /** The first word from `pos` on that the loop cannot get past, or `|words|`. */
  function FirstHalt(words: seq<string>, pos: nat): (h: nat)
    requires pos <= |words|
    ensures pos <= h <= |words|
    ensures forall k :: pos <= k < h ==> !Halts(words[k])
    ensures h < |words| ==> Halts(words[h])
    decreases |words| - pos
  {
    if pos == |words| || Halts(words[pos]) then pos else FirstHalt(words, pos + 1)
  }

  /** Where the loop halts depends only on the words from `pos` on. */
  lemma {:induction false} FirstHaltAgree(a: seq<string>, b: seq<string>, pos: nat)
    requires pos <= |a| == |b| && forall k :: pos <= k < |a| ==> a[k] == b[k]
    ensures FirstHalt(a, pos) == FirstHalt(b, pos)
    decreases |a| - pos
  {
    if pos < |a| {
      FirstHaltAgree(a, b, pos + 1);
    }
  }

  datatype Outcome =
    | Expanded(words: seq<string>)   // returns 0
    | Rejected(words: seq<string>)   // returns -1, the words rewritten so far
    | Undefined

  /**
   * The loop of `varExpansion` from word `pos` on, with `varName` cleared for
   * every word: the words from `pos` on are expanded one by one until a lone
   * "$" rejects the line.
   */
  function ExpandFrom(vars: Table, words: seq<string>, pos: nat): (r: Outcome)
    requires pos <= |words|
    ensures !r.Undefined? ==> |r.words| == |words| && r.words[..pos] == words[..pos]
    ensures r.Expanded? <==>
              forall k :: pos <= k < |words| ==> !ClassifyWord(words[k]).Lone? && !ClassifyWord(words[k]).Unsized?
    ensures r.Expanded? ==> forall k :: pos <= k < |words| ==> r.words[k] == ExpandWord(vars, words[k])
    decreases |words| - pos
  {
    if pos == |words| then Expanded(words)
    else match ClassifyWord(words[pos])
      case Lone => Rejected(words)
      case Unsized => Undefined
      case Plain => ExpandFrom(vars, words, pos + 1)
      case Name(n) =>
        var w' := words[pos := ValueOrEmpty(vars, n)];
        var r := ExpandFrom(vars, w', pos + 1);
        assert forall k :: pos < k < |words| ==> w'[k] == words[k];
        if r.Undefined? then r
        else
          UpdatedPrefix(words, pos, ValueOrEmpty(vars, n), r.words);
          r
  }

  /** A list that agrees with `words[pos := v]` up to `pos` holds `v` at `pos` after `words[..pos]`. */
  lemma UpdatedPrefix(words: seq<string>, pos: nat, v: string, rw: seq<string>)
    requires pos < |words| && pos + 1 <= |rw| && rw[..pos + 1] == words[pos := v][..pos + 1]
    ensures rw[..pos] == words[..pos] && rw[pos] == v
  {
    assert rw[..pos] == rw[..pos + 1][..pos];
    assert rw[pos] == rw[..pos + 1][pos];
  }

  /**
   * Where the loop ends: it returns -1 exactly when the first word from `pos`
   * that it cannot get past is a lone "$". The words before that one are then
   * expanded, and that word and the words after it are kept.
   */
  lemma {:induction false} ExpandFromHalts(vars: Table, words: seq<string>, pos: nat)
    requires pos <= |words|
    ensures var r, h := ExpandFrom(vars, words, pos), FirstHalt(words, pos);
            (r.Rejected? <==> h < |words| && ClassifyWord(words[h]).Lone?) &&
            (r.Rejected? ==> forall k :: pos <= k < |words| ==>
                               r.words[k] == if k < h then ExpandWord(vars, words[k]) else words[k])
    decreases |words| - pos, 1
  {
    if pos == |words| {
      assert ExpandFrom(vars, words, pos) == Expanded(words);
    } else {
      match ClassifyWord(words[pos])
      case Lone =>
        assert FirstHalt(words, pos) == pos;
      case Unsized =>
        assert FirstHalt(words, pos) == pos;
      case Plain =>
        ExpandFromHalts(vars, words, pos + 1);
        HaltsAfter(vars, words, words, pos);
      case Name(n) => HaltsName(vars, words, pos, n);
    }
  }

  /** The step of `ExpandFromHalts` past a word with a name. */
  lemma {:induction false} HaltsName(vars: Table, words: seq<string>, pos: nat, n: string)
    requires pos < |words| && ClassifyWord(words[pos]) == Name(n)
    ensures var r, h := ExpandFrom(vars, words, pos), FirstHalt(words, pos);
            (r.Rejected? <==> h < |words| && ClassifyWord(words[h]).Lone?) &&
            (r.Rejected? ==> forall k :: pos <= k < |words| ==>
                               r.words[k] == if k < h then ExpandWord(vars, words[k]) else words[k])
    decreases |words| - pos, 0
  {
    var w' := words[pos := ValueOrEmpty(vars, n)];
    ExpandFromHalts(vars, w', pos + 1);
    assert forall k :: pos < k < |words| ==> w'[k] == words[k];
    FirstHaltAgree(w', words, pos + 1);
    HaltsAfter(vars, words, w', pos);
  }

  /**
   * The step of `ExpandFromHalts` past a word the loop gets past: the loop went
   * on from `pos + 1` with `w'`, which holds the expanded word at `pos`.
   */
  lemma HaltsAfter(vars: Table, words: seq<string>, w': seq<string>, pos: nat)
    requires pos < |words| == |w'| && !Halts(words[pos])
    requires w'[pos] == ExpandWord(vars, words[pos]) && forall k :: pos < k < |words| ==> w'[k] == words[k]
    requires FirstHalt(w', pos + 1) == FirstHalt(words, pos + 1)
    requires ExpandFrom(vars, words, pos) == ExpandFrom(vars, w', pos + 1)
    requires var r, h := ExpandFrom(vars, w', pos + 1), FirstHalt(w', pos + 1);
             (r.Rejected? <==> h < |w'| && ClassifyWord(w'[h]).Lone?) &&
             (r.Rejected? ==> forall k :: pos + 1 <= k < |w'| ==>
                                r.words[k] == if k < h then ExpandWord(vars, w'[k]) else w'[k])
    ensures var r, h := ExpandFrom(vars, words, pos), FirstHalt(words, pos);
            (r.Rejected? <==> h < |words| && ClassifyWord(words[h]).Lone?) &&
            (r.Rejected? ==> forall k :: pos <= k < |words| ==>
                               r.words[k] == if k < h then ExpandWord(vars, words[k]) else words[k])
  {
    var r, h := ExpandFrom(vars, words, pos), FirstHalt(words, pos);
    assert h == FirstHalt(words, pos + 1);
    if r.Rejected? {
      assert r.words[pos] == r.words[..pos + 1][pos] == w'[..pos + 1][pos];
      forall k | pos <= k < |words|
        ensures r.words[k] == if k < h then ExpandWord(vars, words[k]) else words[k]
      {
        if k > pos {
          assert w'[k] == words[k];
        }
      }
    }
  }

  /**
   * The same loop as the C code runs it: after a word with a name, `varName`
   * still points at the freed name, so the next word without '$' looks it up
   * (a use after free) and frees it again.
   */
  function ExpandFromAsWritten(vars: Table, words: seq<string>, pos: nat, dangling: bool): (r: Outcome)
    requires pos <= |words|
    ensures !r.Undefined? ==> |r.words| == |words| && r.words[..pos] == words[..pos]
    decreases |words| - pos
  {
    if pos == |words| then Expanded(words)
    else match ClassifyWord(words[pos])
      case Lone => Rejected(words)
      case Unsized => Undefined
      case Plain => if dangling then Undefined else ExpandFromAsWritten(vars, words, pos + 1, false)
      case Name(n) =>
        var r := ExpandFromAsWritten(vars, words[pos := ValueOrEmpty(vars, n)], pos + 1, true);
        if r.Undefined? then r
        else
          UpdatedPrefix(words, pos, ValueOrEmpty(vars, n), r.words);
          r
  }

  /** One word without '$' while no name is pending. */
  lemma AsWrittenPlain(vars: Table, words: seq<string>, pos: nat)
    requires pos < |words| && '$' !in words[pos]
    ensures ExpandFromAsWritten(vars, words, pos, false) == ExpandFromAsWritten(vars, words, pos + 1, false)
  {
    assert ClassifyWord(words[pos]) == Plain;
  }

  /** The C loop passes over words without '$' while no name is pending. */
  lemma {:induction false} AsWrittenSkip(vars: Table, words: seq<string>, pos: nat, i: nat)
    requires pos <= i <= |words| && forall k :: pos <= k < i ==> '$' !in words[k]
    ensures ExpandFromAsWritten(vars, words, pos, false) == ExpandFromAsWritten(vars, words, i, false)
    decreases i - pos
  {
    if pos < i {
      AsWrittenPlain(vars, words, pos);
      AsWrittenSkip(vars, words, pos + 1, i);
    }
  }

  /**
   * A word with a name followed by a word without '$', after words without
   * '$': the C loop frees the name a second time, whatever the table holds.
   */
  lemma NameThenPlain(vars: Table, words: seq<string>, i: nat)
    requires i + 1 < |words| && ClassifyWord(words[i]).Name? && '$' !in words[i + 1]
    requires forall k :: 0 <= k < i ==> '$' !in words[k]
    ensures ExpandFromAsWritten(vars, words, 0, false) == Undefined
  {
    AsWrittenSkip(vars, words, 0, i);
    var w' := words[i := ValueOrEmpty(vars, ClassifyWord(words[i]).n)];
    assert w'[i + 1] == words[i + 1];
  }

  /**
   * `varExpansion(&words)`: nothing to do on an empty table; -1 for an empty list.
   * Otherwise -1 exactly when the first word the loop cannot get past is a lone
   * "$"; the words before it are then expanded and the rest kept.
   */
  function Expand(vars: Table, words: seq<string>): (r: Outcome)
    ensures !r.Undefined? ==> |r.words| == |words|
    ensures words == [] ==> r == Rejected([])
    ensures words != [] && vars == [] ==> r == Expanded(words)
    ensures words != [] && vars != [] ==>
              var h := FirstHalt(words, 0);
              (r.Expanded? <==> h == |words|) &&
              (r.Rejected? <==> h < |words| && ClassifyWord(words[h]).Lone?) &&
              (!r.Undefined? ==> forall k :: 0 <= k < |words| ==>
                                   r.words[k] == if k < h then ExpandWord(vars, words[k]) else words[k])
  {
    if words == [] then Rejected(words)
    else if vars == [] then Expanded(words)
    else
      ExpandFromHalts(vars, words, 0);
      ExpandFrom(vars, words, 0)
  }

  /** Wherever the C loop is defined it agrees with the corrected one. */
  lemma {:induction false} ExpandAgrees(vars: Table, words: seq<string>, pos: nat, dangling: bool)
    requires pos <= |words|
    ensures !ExpandFromAsWritten(vars, words, pos, dangling).Undefined? ==>
              ExpandFromAsWritten(vars, words, pos, dangling) == ExpandFrom(vars, words, pos)
    decreases |words| - pos
  {
    if pos < |words| {
      match ClassifyWord(words[pos])
      case Lone =>
      case Unsized =>
      case Plain => ExpandAgrees(vars, words, pos + 1, false);
      case Name(n) => ExpandAgrees(vars, words[pos := ValueOrEmpty(vars, n)], pos + 1, true);
    }
  }

  /** Words without '$' are kept. */
  lemma {:induction false} ExpandNoDollar(vars: Table, words: seq<string>, pos: nat)
    requires pos <= |words| && forall k :: pos <= k < |words| ==> '$' !in words[k]
    ensures ExpandFrom(vars, words, pos) == Expanded(words)
    decreases |words| - pos
  {
    if pos < |words| {
      ExpandNoDollar(vars, words, pos + 1);
    }
  }

  /**
   * `set X = 5` then `echo $X`: the word becomes "5"; with the words the
   * other way round the C loop frees the name twice.
   */
  lemma SetThenEcho(t: Table)
    requires UniqueNames(t)
    ensures Expand(SetEntry(t, "X", "5"), ["echo", "$X"]) == Expanded(["echo", "5"])
    ensures ExpandFromAsWritten(SetEntry(t, "X", "5"), ["$X", "echo"], 0, false) == Undefined
    ensures Expand(SetEntry(t, "X", "5"), ["$X", "echo"]) == Expanded(["5", "echo"])
  {
    var vars := SetEntry(t, "X", "5");
    SetThenValue(t, "X", "5", "X");
    ClassifyDollar("X");
    assert "$" + "X" == "$X";
    assert '$' !in "echo";
    assert ["echo", "$X"][1 := "5"] == ["echo", "5"];
    assert ["$X", "echo"][0 := "5"] == ["5", "echo"];
    assert ExpandFrom(vars, ["echo", "5"], 2) == Expanded(["echo", "5"]);
    assert ExpandFrom(vars, ["5", "echo"], 2) == Expanded(["5", "echo"]);
  }

  /**
   * A lone "$" after words the loop gets past rejects the whole line: the
   * words before it are expanded, and it and the words after it are kept.
   */
  lemma LoneDollarAt(vars: Table, words: seq<string>, i: nat)
    requires vars != [] && i < |words| && words[i] == "$"
    requires forall k :: 0 <= k < i ==> !Halts(words[k])
    ensures Expand(vars, words).Rejected?
    ensures forall k :: 0 <= k < |words| ==>
              Expand(vars, words).words[k] == if k < i then ExpandWord(vars, words[k]) else words[k]
  {
    assert FirstHalt(words, 0) == i;
  }

  /** A lone "$" rejects the line and leaves it as it was from there on. */
  lemma LoneDollar(vars: Table, words: seq<string>, pos: nat)
    requires pos < |words| && words[pos] == "$"
    ensures ExpandFrom(vars, words, pos) == Rejected(words)
  {
  }
}
