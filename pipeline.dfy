/**
 * How a command with pipes is cut into stages (ush/ush.c): `execWrapper`
 * looks for any word that is exactly "|", and `execWithPipes` splits at the
 * rightmost one, runs the upstream part (recursively) in a child process and
 * the downstream part itself.
 */
module Pipeline {
  import opened Wrappers

  /** The loop at the top of `execWrapper`: the first word that is exactly "|". */
  function FirstPipe(words: seq<string>): (r: Option<nat>)
    ensures r.Some? ==> r.value < |words| && words[r.value] == "|" && "|" !in words[..r.value]
    ensures r.None? <==> "|" !in words
  {
    if words == [] then None
    else if words[0] == "|" then Some(0)
    else match FirstPipe(words[1..])
      case None => None
      case Some(i) =>
        assert words[..i + 1] == [words[0]] + words[1..][..i];
        Some(i + 1)
  }

  /** The loop at the top of `execWithPipes`: the last word that is exactly "|". */
  function LastPipe(words: seq<string>): (r: Option<nat>)
    ensures r.Some? ==> r.value < |words| && words[r.value] == "|" && "|" !in words[r.value + 1..]
    ensures r.None? <==> "|" !in words
  {
    if words == [] then None
    else if words[|words| - 1] == "|" then Some(|words| - 1)
    else
      var init := words[..|words| - 1];
      assert words == init + [words[|words| - 1]];
      match LastPipe(init)
      case None => None
      case Some(i) =>
        assert words[i + 1..] == init[i + 1..] + [words[|words| - 1]];
        Some(i)
  }

  /** Both loops agree on whether there is a pipe, and the first one is never after the last. */
  lemma PipeSearchesAgree(words: seq<string>)
    ensures FirstPipe(words).Some? <==> LastPipe(words).Some?
    ensures FirstPipe(words).Some? ==> FirstPipe(words).value <= LastPipe(words).value
  {
  }

  /** The outcome of `execWithPipes`' split. */
  datatype Split =
    | NoPipe                                  // run the words as one command
    | Split(up: seq<string>, down: seq<string>)
    | LeadingPipe                             // the rightmost "|" is the first word: `prev` is NULL

  function SplitAtLastPipe(words: seq<string>): (r: Split)
    ensures r.NoPipe? <==> "|" !in words
    ensures r.LeadingPipe? <==> LastPipe(words) == Some(0)
    ensures r.Split? ==> words == r.up + ["|"] + r.down && r.up != [] && "|" !in r.down
  {
    match LastPipe(words)
    case None => NoPipe
    case Some(i) =>
      if i == 0 then LeadingPipe
      else
        assert words == words[..i] + ["|"] + words[i + 1..];
        Split(words[..i], words[i + 1..])
  }

  /** The stages of a pipeline written back with a "|" word between neighbours. */
  function JoinStages(stages: seq<seq<string>>): seq<string>
    requires stages != []
  {
    if |stages| == 1 then stages[0]
    else JoinStages(stages[..|stages| - 1]) + ["|"] + stages[|stages| - 1]
  }

  /**
   * The commands the recursion of `execWithPipes` runs, left to right, or None
   * when it reaches a rightmost "|" that is the first word, where the source
   * dereferences a NULL `prev` link.
   */
  function Stages(words: seq<string>): (r: Option<seq<seq<string>>>)
    ensures r.None? <==> words != [] && words[0] == "|"
    ensures r.Some? ==> r.value != [] && JoinStages(r.value) == words
    ensures r.Some? ==> forall k :: 0 <= k < |r.value| ==> "|" !in r.value[k]
    decreases |words|
  {
    match SplitAtLastPipe(words)
    case NoPipe => Some([words])
    case LeadingPipe => None
    case Split(up, down) =>
      match Stages(up)
      case None => None
      case Some(ss) =>
        assert (ss + [down])[..|ss|] == ss;
        Some(ss + [down])
  }

  /** A pipeline of n pipes, none of them first, has n + 1 stages. */
  lemma {:induction false} StagesCount(words: seq<string>)
    requires words == [] || words[0] != "|"
    ensures |Stages(words).value| == multiset(words)["|"] + 1
    decreases |words|
  {
    match SplitAtLastPipe(words)
    case NoPipe =>
    case LeadingPipe =>
    case Split(up, down) =>
      StagesCount(up);
      assert multiset(words) == multiset(up) + multiset(["|"]) + multiset(down);
      assert "|" !in multiset(down);
  }
}
