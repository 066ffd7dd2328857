/**
 * The search of `lookupPath` (ush/ush.c) for an executable: every
 * `:`-separated directory of PATH is listed with `readdir`, and the name is
 * compared with each entry.  The file system is a map from directory name to
 * the names `readdir` lists in it; a directory missing from the map is one
 * `opendir` cannot open.
 */
module PathSearch {
  import opened Wrappers
  import opened CString

  type Listings = map<string, seq<string>>

  datatype PathResult = Found(path: string) | NotFound | Undefined

  /** Directory `d` opens and lists an entry named `prog`. */
  predicate Lists(fs: Listings, d: string, prog: string) {
    d in fs && prog in fs[d]
  }

  /** The last directory of `dirs` that lists `prog`. */
  function LastListing(dirs: seq<string>, fs: Listings, prog: string): (r: Option<nat>)
    ensures r.Some? ==> r.value < |dirs| && Lists(fs, dirs[r.value], prog)
    ensures r.Some? ==> forall j :: r.value < j < |dirs| ==> !Lists(fs, dirs[j], prog)
    ensures r.None? <==> forall j :: 0 <= j < |dirs| ==> !Lists(fs, dirs[j], prog)
  {
    if dirs == [] then None
    else if Lists(fs, dirs[|dirs| - 1], prog) then Some(|dirs| - 1)
    else LastListing(dirs[..|dirs| - 1], fs, prog)
  }

  /** The full name `lookupPath` builds with `strlcat`. */
  function Qualified(dir: string, prog: string): string {
    dir + "/" + prog
  }

  /**
   * `lookupPath(prog)` as written: `strdup(getenv("PATH"))` is undefined when
   * PATH is unset, and `readdir` of a directory that does not open is
   * undefined too; otherwise the last directory listing the name wins.
   */
  function LookupPathAsWritten(prog: string, path: Option<string>, fs: Listings): (r: PathResult)
    ensures r.Undefined? <==> path.None? || exists d :: d in Tokens(path.value, ':') && d !in fs
  {
    if path.None? then Undefined
    else
      var dirs := Tokens(path.value, ':');
      if exists d :: d in dirs && d !in fs then Undefined
      else match LastListing(dirs, fs, prog)
        case None => NotFound
        case Some(k) => Found(Qualified(dirs[k], prog))
  }

  /**
   * `lookupPath(prog)` with an unset PATH read as empty and directories that
   * do not open skipped: the name qualified by the last PATH directory that
   * lists it, or NotFound (NULL) when none does.
   */
  function LookupPath(prog: string, path: Option<string>, fs: Listings): (r: PathResult)
    ensures !r.Undefined?
    ensures r.NotFound? <==> path.None? || forall d :: d in Tokens(path.value, ':') ==> !Lists(fs, d, prog)
    ensures r.Found? ==>
              (path.Some? &&
               var dirs := Tokens(path.value, ':');
               exists k :: 0 <= k < |dirs| && r.path == Qualified(dirs[k], prog) && Lists(fs, dirs[k], prog) &&
                           forall j :: k < j < |dirs| ==> !Lists(fs, dirs[j], prog))
  {
    if path.None? then NotFound
    else
      var dirs := Tokens(path.value, ':');
      match LastListing(dirs, fs, prog)
      case None => NotFound
      case Some(k) => Found(Qualified(dirs[k], prog))
  }

  /** Wherever the C search is defined, the corrected one returns the same. */
  lemma LookupPathAgrees(prog: string, path: Option<string>, fs: Listings)
    ensures !LookupPathAsWritten(prog, path, fs).Undefined? ==>
              LookupPathAsWritten(prog, path, fs) == LookupPath(prog, path, fs)
  {
  }

  /** Two PATH directories that both list the name: the later one wins. */
  lemma {:induction false} LastDirectoryWins(a: string, b: string, prog: string, fs: Listings)
    requires a != [] && ':' !in a && b != [] && ':' !in b
    requires Lists(fs, a, prog) && Lists(fs, b, prog)
    ensures LookupPath(prog, Some(a + ":" + b), fs) == Found(Qualified(b, prog))
    ensures LookupPathAsWritten(prog, Some(a + ":" + b), fs) == Found(Qualified(b, prog))
  {
    TokensSplit(a, b, ':');
    TokensOfWord(a, ':');
    TokensOfWord(b, ':');
    assert Tokens(a + ":" + b, ':') == [a, b];
  }

  /** A PATH naming a directory that does not exist: the C search is undefined, the corrected one goes on. */
  lemma {:induction false} MissingDirectory(a: string, b: string, prog: string, fs: Listings)
    requires a != [] && ':' !in a && b != [] && ':' !in b
    requires a !in fs && Lists(fs, b, prog)
    ensures LookupPathAsWritten(prog, Some(a + ":" + b), fs) == Undefined
    ensures LookupPath(prog, Some(a + ":" + b), fs) == Found(Qualified(b, prog))
  {
    TokensSplit(a, b, ':');
    TokensOfWord(a, ':');
    TokensOfWord(b, ':');
    assert Tokens(a + ":" + b, ':') == [a, b];
  }
}
