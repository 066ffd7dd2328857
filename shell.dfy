/**
 * The state the shell keeps between lines (ush/ush.c): the variable table
 * `varTableGl`, the history list `historyGl` and its count `histSizeGl`, the
 * `verbose` flag and the directory state of `cd`.  The methods update it in
 * place as the C functions do.
 */
module Shell {
  import opened Wrappers
  import opened VarTable
  import opened Words
  import opened History
  import opened Expansion
  import opened Directory

  class Shell {
    var vars: Table
    var history: seq<Entry>
    var histSize: nat
    var dirs: DirState
    var verbose: bool

    /** Names are unique, every entry has a word, and the unsigned count matches the list. */
    ghost predicate Valid()
      reads this
    {
      UniqueNames(vars) && WellFormed(history) &&
      histSize == |history| && histSize < 0x1_0000_0000
    }

    /** The state at start-up: no variables, no history, no previous directory. */
    constructor (cwd: string, verbose: bool)
      ensures Valid()
      ensures vars == [] && history == [] && histSize == 0
      ensures dirs == DirState(cwd, "") && this.verbose == verbose
    {
      vars := [];
      history := [];
      histSize := 0;
      dirs := DirState(cwd, "");
      this.verbose := verbose;
    }

    /** `lookupTable(name)`: the index of the first entry with that name. */
    method LookupTable(name: string) returns (r: Option<nat>)
      ensures r == Lookup(vars, name)
    {
      var i := 0;
      while i < |vars| && vars[i].0 != name
        invariant 0 <= i <= |vars|
        invariant forall k :: 0 <= k < i ==> vars[k].0 != name
      {
        i := i + 1;
      }
      if i < |vars| {
        r := Some(i);
      } else {
        r := None;
      }
    }

    /** `set(name, value)`; a NULL name or value only prints the table. */
    method Set(name: Option<string>, value: Option<string>)
      requires Valid()
      modifies this
      ensures Valid()
      ensures vars == if name.Some? && value.Some? then SetEntry(old(vars), name.value, value.value) else old(vars)
      ensures history == old(history) && histSize == old(histSize)
      ensures dirs == old(dirs) && verbose == old(verbose)
    {
      if name.None? || value.None? {
        return;
      }
      SetKeepsUnique(vars, name.value, value.value);
      var found := LookupTable(name.value);
      match found
      case Some(i) =>
        vars := vars[i := (name.value, value.value)];
      case None =>
        vars := vars + [(name.value, value.value)];
    }

    /** `unset(name)`: -1 when the name is not defined, 0 once its entry is unlinked. */
    method Unset(name: string) returns (r: int)
      requires Valid()
      modifies this
      ensures Valid()
      ensures r == (if Lookup(old(vars), name).None? then -1 else 0)
      ensures vars == UnsetEntry(old(vars), name) && Lookup(vars, name) == None
      ensures history == old(history) && histSize == old(histSize)
      ensures dirs == old(dirs) && verbose == old(verbose)
    {
      var found := LookupTable(name);
      match found
      case None =>
        UnsetAbsent(vars, name);
        r := -1;
      case Some(i) =>
        UnsetPresent(vars, name);
        vars := vars[..i] + vars[i + 1..];
        r := 0;
    }

    /**
     * `histSubst(&words)`: substitute the history references of the line
     * (with the scan corrected as in `HistStep`), then record the result when
     * `HISTSIZE` allows it, unless the substitution returned -1.
     */
    method HistSubst(words: seq<string>) returns (status: int, result: seq<string>)
      requires Valid()
      modifies this
      ensures Valid()
      ensures (status, result) == Substitute(old(history), words)
      ensures history == if status == 0 && MayRecord(vars, old(histSize)) then old(history) + [result] else old(history)
      ensures vars == old(vars) && dirs == old(dirs) && verbose == old(verbose)
    {
      if words == [] {
        return -1, words;
      }
      status, result := 0, words;
      if history != [] {
        var pos := 0;
        var stopped := false;
        while pos < |result| && !stopped
          invariant pos <= |result| && |result| >= |words|
          invariant !stopped ==> SubstFrom(history, result, pos) == SubstFrom(history, words, 0)
          invariant stopped ==> SubstFrom(history, words, 0) == (0, result)
          decreases |result| - pos, !stopped
        {
          var step := HistStep(history, result, pos);
          match step
          case Continue(w, p) =>
            result, pos := w, p;
          case Stop =>
            stopped := true;
          case Fail =>
            return -1, result;
        }
      }
      if MayRecord(vars, histSize) {
        history := history + [result];
        histSize := histSize + 1;
      }
    }

    /** `varExpansion(&words)` with `varName` cleared for every word. */
    method VarExpansion(words: seq<string>) returns (r: Outcome)
      ensures r == Expand(vars, words)
    {
      if words == [] {
        return Rejected(words);
      }
      if vars == [] {
        return Expanded(words);
      }
      var result := words;
      var pos := 0;
      while pos < |result|
        invariant pos <= |result| == |words|
        invariant ExpandFrom(vars, result, pos) == ExpandFrom(vars, words, 0)
      {
        match ClassifyWord(result[pos]) {
          case Lone =>
            return Rejected(result);
          case Unsized =>
            return Undefined;
          case Plain =>
          case Name(n) =>
            var found := LookupTable(n);
            var value := if found.Some? then vars[found.value].1 else "";
            result := result[pos := value];
        }
        pos := pos + 1;
      }
      r := Expanded(result);
    }

    /**
     * The part of the prompt loop between reading a line and running it:
     * drop a final newline, split the line into words (None: an empty line,
     * skipped), substitute history (recording the line), expand variables.
     */
    method PrepareLine(line: string) returns (r: Option<Outcome>)
      requires Valid()
      modifies this
      ensures Valid()
      ensures var text := if line != [] && line[|line| - 1] == '\n' then line[..|line| - 1] else line;
              match BuildWordsList(text)
              case None => r.None? && history == old(history)
              case Some(words) =>
                var (status, subst) := Substitute(old(history), words);
                r == Some(Expand(vars, subst)) &&
                history == if status == 0 && MayRecord(vars, old(histSize)) then old(history) + [subst] else old(history)
      ensures vars == old(vars) && dirs == old(dirs) && verbose == old(verbose)
    {
      var text := line;
      if line != [] && line[|line| - 1] == '\n' {
        text := line[..|line| - 1];
      }
      var words := BuildWordsList(text);
      if words.None? {
        return None;
      }
      var status, subst := HistSubst(words.value);
      var expanded := VarExpansion(subst);
      r := Some(expanded);
    }

    /**
     * The builtins of `execCommand`: None for a command that goes on to
     * `execWrapper`, otherwise the status.  `setenv` and `unsetenv` act on
     * the process environment, which is not part of this state.
     */
    method ExecBuiltin(words: seq<string>, home: Option<string>, chdir: Chdir) returns (status: Option<int>)
      requires Valid() && words != []
      modifies this
      ensures Valid()
      ensures status.None? <==>
                words[0] !in {"set", "unset", "setenv", "unsetenv", "cd", "history", "verbose", "nonverbose"}
      ensures words[0] == "set" ==>
                status == Some(0) &&
                vars == match GetSetArgs(words)
                        case Assign(n, v) => SetEntry(old(vars), n, v)
                        case _ => old(vars)
      ensures words[0] == "unset" ==>
                status == Some(if |words| == 1 then -1 else 0) &&
                vars == if |words| == 1 then old(vars) else UnsetEntry(old(vars), words[1])
      ensures words[0] == "setenv" ==> status == Some(0)
      ensures words[0] == "unsetenv" ==> status == Some(if |words| == 1 then -1 else 0)
      ensures words[0] == "cd" ==> status == Some(Cd(old(dirs), words[1..], home, chdir).0) &&
                                   dirs == Cd(old(dirs), words[1..], home, chdir).1
      ensures words[0] in {"history", "verbose", "nonverbose"} ==> status == Some(0)
      ensures words[0] == "verbose" ==> verbose
      ensures words[0] == "nonverbose" ==> !verbose
      ensures words[0] != "set" && words[0] != "unset" ==> vars == old(vars)
      ensures words[0] != "cd" ==> dirs == old(dirs)
      ensures words[0] != "verbose" && words[0] != "nonverbose" ==> verbose == old(verbose)
      ensures history == old(history) && histSize == old(histSize)
    {
      var cmd := words[0];
      if cmd == "set" {
        match GetSetArgs(words) {
          case Assign(n, v) => Set(Some(n), Some(v));
          case ShowAll => Set(None, None);
          case Malformed =>
        }
        status := Some(0);
      } else if cmd == "unset" {
        if |words| == 1 {
          return Some(-1);
        }
        var _ := Unset(words[1]);
        status := Some(0);
      } else if cmd == "setenv" {
        status := Some(0);
      } else if cmd == "unsetenv" {
        status := Some(if |words| == 1 then -1 else 0);
      } else if cmd == "cd" {
        var (s, d) := Cd(dirs, words[1..], home, chdir);
        dirs := d;
        status := Some(s);
      } else if cmd == "history" {
        status := Some(0);
      } else if cmd == "verbose" {
        verbose := true;
        status := Some(0);
      } else if cmd == "nonverbose" {
        verbose := false;
        status := Some(0);
      } else {
        status := None;
      }
    }
  }
}
