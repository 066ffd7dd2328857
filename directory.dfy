/**
 * The `cd` builtin of `execCommand` (ush/ush.c) and its static `lastDir`.
 * The working directory is a string; `chdir` is a partial operation that,
 * from a working directory and an argument, either fails or gives the new
 * working directory (what `getcwd` reports afterwards).
 */
module Directory {
  import opened Wrappers

  datatype DirState = DirState(cwd: string, lastDir: string)

  /** `chdir(arg)` from working directory `cwd`: the new working directory, or None on failure. */
  type Chdir = (string, string) -> Option<string>

  /**
   * `cd` with the words `args` after it.  `cd -` goes to `lastDir` and puts
   * the old working directory there; it fails without a change when
   * `lastDir` is empty or `chdir` fails.  Any other `cd` first stores the
   * working directory in `lastDir`, then goes to the argument, or to HOME
   * when there is none, and fails when HOME is unset or `chdir` fails.
   */
  function Cd(st: DirState, args: seq<string>, home: Option<string>, chdir: Chdir): (r: (int, DirState))
    ensures r.0 == 0 || r.0 == -1
    ensures r.0 == 0 ==> r.1.lastDir == st.cwd
    ensures args != [] && args[0] == "-" ==>
              (r.0 == 0 <==> st.lastDir != "" && chdir(st.cwd, st.lastDir).Some?) &&
              (r.0 == -1 ==> r.1 == st)
    ensures (args == [] || args[0] != "-") ==>
              r.1.lastDir == st.cwd &&
              (r.0 == -1 ==> r.1.cwd == st.cwd)
    ensures var target := if args != [] && args[0] == "-" then (if st.lastDir == "" then None else Some(st.lastDir))
                          else if args == [] then home else Some(args[0]);
            (r.0 == 0 <==> target.Some? && chdir(st.cwd, target.value).Some?) &&
            (r.0 == 0 ==> Some(r.1.cwd) == chdir(st.cwd, target.value))
  {
    if args != [] && args[0] == "-" then
      if st.lastDir == "" then (-1, st)
      else match chdir(st.cwd, st.lastDir)
        case None => (-1, st)
        case Some(d) => (0, DirState(d, st.cwd))
    else
      var target := if args == [] then home else Some(args[0]);
      match target
      case None => (-1, DirState(st.cwd, st.cwd))
      case Some(t) =>
        match chdir(st.cwd, t)
        case None => (-1, DirState(st.cwd, st.cwd))
        case Some(d) => (0, DirState(d, st.cwd))
  }

  /**
   * `cd dir` then `cd -` comes back, and a second `cd -` goes to `dir` again,
   * provided `chdir` to an absolute directory that exists lands there.
   */
  lemma CdThenBack(st: DirState, dir: string, home: Option<string>, chdir: Chdir)
    requires Cd(st, [dir], home, chdir).0 == 0
    requires st.cwd != "" && Cd(st, [dir], home, chdir).1.cwd != ""
    requires chdir(Cd(st, [dir], home, chdir).1.cwd, st.cwd) == Some(st.cwd)
    requires chdir(st.cwd, Cd(st, [dir], home, chdir).1.cwd) == Some(Cd(st, [dir], home, chdir).1.cwd)
    ensures var s1 := Cd(st, [dir], home, chdir).1;
            var s2 := Cd(s1, ["-"], home, chdir);
            s2 == (0, DirState(st.cwd, s1.cwd)) &&
            Cd(s2.1, ["-"], home, chdir) == (0, s1)
  {
    var s1 := Cd(st, [dir], home, chdir).1;
    assert s1.lastDir == st.cwd;
    var s2 := Cd(s1, ["-"], home, chdir);
    assert s2 == (0, DirState(st.cwd, s1.cwd));
  }
}
