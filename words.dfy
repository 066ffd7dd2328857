/**
 * The command line as a list of words (ush/ush.c): `buildWordsList`,
 * `buildArgv` and the argument parser `getSetArgs` of the `set` builtin.
 * A word list is a `seq<string>`; the C linked list keeps its words in the
 * same order.
 */
module Words {
  import opened Wrappers
  import opened CString

  /** A word as `buildWordsList` produces it: non-empty and free of spaces. */
  predicate IsWord(w: string) {
    w != [] && ' ' !in w
  }

  /**
   * `buildWordsList(str)`: the space-separated tokens of the line, in order;
   * NULL (here None) when the line has none, which the prompt loop skips.
   */
  function BuildWordsList(line: string): (r: Option<seq<string>>)
    ensures r.None? <==> forall i :: 0 <= i < |line| ==> line[i] == ' '
    ensures r.Some? ==> r.value != [] && forall k :: 0 <= k < |r.value| ==> IsWord(r.value[k])
  {
    TokensEmpty(line, ' ');
    var ws := Tokens(line, ' ');
    if ws == [] then None else Some(ws)
  }

  /** Joining words with single spaces and splitting the line again gives the words back. */
  lemma BuildWordsListJoin(ws: seq<string>)
    requires ws != [] && forall k :: 0 <= k < |ws| ==> IsWord(ws[k])
    ensures BuildWordsList(JoinWith(ws, ' ')) == Some(ws)
  {
    TokensJoin(ws, ' ');
  }

  /** Extra spaces between, before or after the words do not change the list. */
  lemma {:induction false} BuildWordsListSpaces(a: string, b: string)
    ensures BuildWordsList(a + " " + b) == BuildWordsList(a + "  " + b)
    ensures BuildWordsList(" " + a) == BuildWordsList(a)
    ensures BuildWordsList(a + " ") == BuildWordsList(a)
  {
    TokensSplit(a, b, ' ');
    TokensSplit(a, " " + b, ' ');
    assert a + " " + (" " + b) == a + "  " + b;
    assert (" " + b)[1..] == b;
    assert (" " + a)[1..] == a;
    TokensSplit(a, "", ' ');
    assert a + " " == a + [' '] + "";
    assert Tokens(a + " ", ' ') == Tokens(a, ' ');
  }

  /**
   * The NULL-terminated array `buildArgv` builds: one entry per word, then
   * the NULL (None) that ends it.
   */
  function ArgvOf(words: seq<string>): (argv: seq<Option<string>>)
    ensures |argv| == |words| + 1 && argv[|words|] == None
    ensures forall i :: 0 <= i < |words| ==> argv[i] == Some(words[i])
  {
    seq(|words|, i requires 0 <= i < |words| => Some(words[i])) + [None]
  }

  /** The strings a program sees in a NULL-terminated argv: those before the first NULL. */
  function ArgsOf(argv: seq<Option<string>>): (args: seq<string>)
    ensures |args| <= |argv|
    ensures forall i :: 0 <= i < |args| ==> argv[i] == Some(args[i])
    ensures |args| < |argv| ==> argv[|args|] == None
  {
    if argv == [] || argv[0].None? then []
    else [argv[0].value] + ArgsOf(argv[1..])
  }

  /** `buildArgv` loses nothing: reading the array back gives the words. */
  lemma {:induction false} ArgsOfArgv(words: seq<string>)
    ensures ArgsOf(ArgvOf(words)) == words
  {
    if words != [] {
      assert ArgvOf(words)[1..] == ArgvOf(words[1..]);
      ArgsOfArgv(words[1..]);
    }
  }

  /** Writing a NULL over argument `k` leaves the first `k` arguments. */
  lemma {:induction false} ArgsOfCut(argv: seq<Option<string>>, k: nat)
    requires k <= |ArgsOf(argv)| && k < |argv|
    ensures ArgsOf(argv[k := None]) == ArgsOf(argv)[..k]
  {
    if k > 0 {
      assert argv[k := None][1..] == argv[1..][k - 1 := None];
      ArgsOfCut(argv[1..], k - 1);
      assert ArgsOf(argv)[..k] == [argv[0].value] + ArgsOf(argv[1..])[..k - 1];
    }
  }

  /**
   * `buildArgv(words)`: NULL for an empty list, otherwise a new array holding
   * the words and a final NULL.
   */
  method BuildArgv(words: seq<string>) returns (argv: array?<Option<string>>)
    ensures argv == null <==> words == []
    ensures argv != null ==> fresh(argv) && argv[..] == ArgvOf(words)
  {
    if words == [] {
      return null;
    }
    argv := new Option<string>[|words| + 1](_ => None);
    var i := 0;
    while i < |words|
      invariant 0 <= i <= |words|
      invariant forall k :: 0 <= k < i ==> argv[k] == Some(words[k])
      invariant argv[|words|] == None
    {
      argv[i] := Some(words[i]);
      i := i + 1;
    }
    argv[i] := None;
  }

  /** What `getSetArgs` finds after the command word. */
  datatype SetArgs =
    | ShowAll                            // no argument: name and value NULL
    | Assign(name: string, value: string)
    | Malformed                          // "Malformed expression"

  /** The status `getSetArgs` returns. */
  function SetArgsCode(a: SetArgs): int {
    if a.Malformed? then -1 else 0
  }

  /**
   * `getSetArgs(words, ...)` on the words of a `set` or `setenv` command (the
   * command word first).  Words after the value are ignored.
   */
  function GetSetArgs(words: seq<string>): (r: SetArgs)
    requires words != []
    ensures r.ShowAll? <==> |words| == 1
    ensures r.Assign? <==> |words| >= 4 && words[2] == "="
    ensures r.Assign? ==> r.name == words[1] && r.value == words[3]
    ensures SetArgsCode(r) == 0 <==> |words| == 1 || (|words| >= 4 && words[2] == "=")
  {
    if |words| == 1 then ShowAll
    else if |words| < 4 then Malformed
    else if words[2] != "=" then Malformed
    else Assign(words[1], words[3])
  }
}
