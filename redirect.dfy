/**
 * The redirection-operator scan of `handleRedirOperator` (ush/ush.c): the
 * first `<`, `>`, `&>` or `&` `>` in the argument list selects the kind of
 * redirection and its file operand, and the operator's slot in argv is
 * overwritten with NULL so that the program does not see the redirection.
 */
module Redirect {
  import opened Wrappers
  import opened Words

  datatype RedirKind = In | Out | OutErr

  /**
   * The redirection operator that starts at argument `k`, if any, with the
   * distance from it to its file operand.
   */
  function OperatorAt(args: seq<string>, k: nat): Option<(RedirKind, nat)>
    requires k < |args|
  {
    if args[k] == "<" then Some((In, 1))
    else if args[k] == ">" then Some((Out, 1))
    else if args[k] == "&>" then Some((OutErr, 1))
    else if args[k] == "&" && k + 1 < |args| && args[k + 1] == ">" then Some((OutErr, 2))
    else None
  }

  /** The entry of a NULL-terminated argv at index `j <= |args|`: the NULL at the end is None. */
  function Operand(args: seq<string>, j: nat): Option<string> {
    if j < |args| then Some(args[j]) else None
  }

  datatype Scan = NoRedir | Redirect(kind: RedirKind, at: nat, file: Option<string>)

  /**
   * The scan from argument `i` on: the first operator and its operand, which
   * is None (a NULL filename) when the operator ends the argument list.
   */
  function ScanRedir(args: seq<string>, i: nat): (r: Scan)
    requires i <= |args|
    ensures r.NoRedir? <==> forall k :: i <= k < |args| ==> OperatorAt(args, k).None?
    ensures r.Redirect? ==>
              i <= r.at < |args| && OperatorAt(args, r.at).Some? &&
              r.kind == OperatorAt(args, r.at).value.0 &&
              r.file == Operand(args, r.at + OperatorAt(args, r.at).value.1) &&
              forall k :: i <= k < r.at ==> OperatorAt(args, k).None?
    decreases |args| - i
  {
    if i == |args| then NoRedir
    else match OperatorAt(args, i)
      case Some((kind, off)) => Redirect(kind, i, Operand(args, i + off))
      case None => ScanRedir(args, i + 1)
  }

  /**
   * The same scan as the C code performs it, None where it is undefined: it
   * passes the NULL terminator to `strdup` when an operator is the last
   * argument, and to `strcmp` when a lone "&" is.
   */
  function ScanRedirAsWritten(args: seq<string>, i: nat): (r: Option<Scan>)
    requires i <= |args|
    ensures r.None? ==> i < |args| && args[|args| - 1] in {"<", ">", "&>", "&"}
    ensures r.Some? && r.value.Redirect? ==> r.value.file.Some?
    decreases |args| - i
  {
    if i == |args| then Some(NoRedir)
    else if args[i] == "<" || args[i] == ">" || args[i] == "&>" then
      if i + 1 == |args| then None
      else Some(Redirect(OperatorAt(args, i).value.0, i, Some(args[i + 1])))
    else if args[i] == "&" then
      if i + 1 == |args| then None
      else if args[i + 1] == ">" then
        if i + 2 == |args| then None else Some(Redirect(OutErr, i, Some(args[i + 2])))
      else ScanRedirAsWritten(args, i + 1)
    else ScanRedirAsWritten(args, i + 1)
  }

  /**
   * Where the C scan is defined it agrees with the corrected one, and it is
   * undefined exactly when the operand is missing or a lone "&" ends the
   * arguments before any operator.
   */
  lemma {:induction false} ScanRedirAgrees(args: seq<string>, i: nat)
    requires i <= |args|
    ensures ScanRedirAsWritten(args, i).Some? ==> ScanRedirAsWritten(args, i).value == ScanRedir(args, i)
    ensures ScanRedirAsWritten(args, i).None? <==>
              (ScanRedir(args, i).Redirect? && ScanRedir(args, i).file.None?) ||
              (ScanRedir(args, i).NoRedir? && i < |args| && args[|args| - 1] == "&")
    decreases |args| - i
  {
    if i < |args| && OperatorAt(args, i).None? {
      ScanRedirAgrees(args, i + 1);
    }
  }

  /** A trailing "&" is an ordinary word to the corrected scan; the C scan reads past it. */
  lemma TrailingAmpersand()
    ensures ScanRedir(["sleep", "1", "&"], 0) == NoRedir
    ensures ScanRedirAsWritten(["sleep", "1", "&"], 0) == None
  {
    var args := ["sleep", "1", "&"];
    assert OperatorAt(args, 0).None? && OperatorAt(args, 1).None? && OperatorAt(args, 2).None?;
  }

  /** An operator without a file gives a NULL filename instead of `strdup(NULL)`. */
  lemma MissingOperand()
    ensures ScanRedir(["cat", "<"], 0) == Redirect(In, 1, None)
    ensures ScanRedirAsWritten(["cat", "<"], 0) == None
  {
    var args := ["cat", "<"];
    assert OperatorAt(args, 0).None?;
  }

  /**
   * `handleRedirOperator(argv, &inRedir, &outRedir, &outErrRedir)` on a
   * NULL-terminated argv, with the missing operand read as a NULL filename.
   */
  method HandleRedirOperator(argv: array<Option<string>>)
    returns (filename: Option<string>, inRedir: bool, outRedir: bool, outErrRedir: bool)
    requires None in argv[..]
    modifies argv
    ensures var r := ScanRedir(ArgsOf(old(argv[..])), 0);
            (inRedir <==> r.Redirect? && r.kind == In) &&
            (outRedir <==> r.Redirect? && r.kind == Out) &&
            (outErrRedir <==> r.Redirect? && r.kind == OutErr) &&
            filename == (if r.Redirect? then r.file else None) &&
            argv[..] == (if r.Redirect? then old(argv[..])[r.at := None] else old(argv[..])) &&
            ArgsOf(argv[..]) == (if r.Redirect? then ArgsOf(old(argv[..]))[..r.at] else ArgsOf(old(argv[..])))
  {
    ghost var a := argv[..];
    ghost var args := ArgsOf(a);
    var i := 0;
    while argv[i].Some?
      invariant i <= |args| && argv[..] == a
      invariant ScanRedir(args, i) == ScanRedir(args, 0)
      decreases |args| - i
    {
      var w := argv[i].value;
      OperatorInArgv(a, i);
      if w == "<" || w == ">" || w == "&>" || (w == "&" && argv[i + 1] == Some(">")) {
        break;
      }
      assert ScanRedir(args, i) == ScanRedir(args, i + 1);
      i := i + 1;
    }
    if argv[i].None? {
      assert i == |args|;
      return None, false, false, false;
    }
    var w := argv[i].value;
    OperatorInArgv(a, i);
    var off := if w == "&" then 2 else 1;
    RedirectAt(a, i);
    filename := argv[i + off];
    inRedir, outRedir, outErrRedir := w == "<", w == ">", w == "&>" || w == "&";
    argv[i] := None;
  }

  /** The operator test on the argument list, read off the NULL-terminated argv. */
  lemma OperatorInArgv(argv: seq<Option<string>>, i: nat)
    requires i < |ArgsOf(argv)| && None in argv
    ensures var w := argv[i].value;
            OperatorAt(ArgsOf(argv), i) ==
              if w == "<" then Some((In, 1))
              else if w == ">" then Some((Out, 1))
              else if w == "&>" then Some((OutErr, 1))
              else if w == "&" && argv[i + 1] == Some(">") then Some((OutErr, 2))
              else None
  {
    var args := ArgsOf(argv);
    if i + 1 == |args| {
      assert argv[i + 1] == None;
    }
  }

  /** An operator at `i`: the scan stops there, its operand is in argv, and the cut keeps what precedes it. */
  lemma RedirectAt(argv: seq<Option<string>>, i: nat)
    requires i < |ArgsOf(argv)| && None in argv && OperatorAt(ArgsOf(argv), i).Some?
    ensures var (kind, off) := OperatorAt(ArgsOf(argv), i).value;
            i + off < |argv| &&
            ScanRedir(ArgsOf(argv), i) == Redirect(kind, i, argv[i + off]) &&
            ArgsOf(argv[i := None]) == ArgsOf(argv)[..i]
  {
    var off := OperatorAt(ArgsOf(argv), i).value.1;
    OperandInArgv(argv, i + off);
    ArgsOfCut(argv, i);
  }

  /** Up to its terminating NULL, argv holds the operands `Operand` describes. */
  lemma OperandInArgv(argv: seq<Option<string>>, j: nat)
    requires j <= |ArgsOf(argv)| && j < |argv|
    ensures argv[j] == Operand(ArgsOf(argv), j)
  {
  }
}
