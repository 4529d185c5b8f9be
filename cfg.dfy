/**
 * Command-line configuration of `gogit` (cfg/cfg.go): which inputs are
 * required, in which order they are checked, where the access token comes
 * from, and how a token file path under the home directory is expanded.
 */
module Cfg {
  import opened Options
  import opened GoStrings

  /** The token file a user would expect to be read when `-pat-path` is not given. */
  const DefaultPath: string := "~/.gogitpat"

  /** The error LoadArgs reports when neither token source is given. */
  const MissingTokenSource: string := "Either pat or pat-path must be provided"

  /** The parsed flags: `-pat`, `-pat-path`, `-h` and `-json`. */
  datatype CmdArgs = CmdArgs(pat: string, patPath: string, help: bool, json: bool)

  /** What the rest of the tool needs: the token, organisation, branch, dependency path and output format. */
  datatype Config = Config(gitPat: string, org: string, branch: string, dep: string, json: bool)

  const ZeroConfig: Config := Config("", "", "", "", false)

  /** The file system as seen by `os.ReadFile`: the readable files and their contents. */
  type Files = map<string, string>

  // ---------------------------------------------------------------------
  // loadFromPath
  // ---------------------------------------------------------------------

  /**
   * The path loadFromPath reads: it starts from DefaultPath but replaces it by
   * the argument whenever DefaultPath is non-empty, which it always is, so the
   * argument is always used and the default never is.
   */
  function SelectPath(p: string): (path: string)
    ensures path == p
  {
    var path := DefaultPath;
    if path != "" then p else path
  }

  /** `filepath.Join(dir, elem)` without its final lexical cleaning: empty elements are skipped. */
  function JoinPath(dir: string, elem: string): (path: string)
    ensures dir != "" ==> HasPrefix(path, dir)
    ensures elem != "" ==> |elem| <= |path| && path[|path| - |elem|..] == elem
    ensures dir != "" && elem != "" ==> |path| == |dir| + 1 + |elem| && path[|dir|] == '/'
    ensures dir == "" ==> path == elem
    ensures elem == "" ==> path == dir
  {
    if dir == "" then elem
    else if elem == "" then dir
    else
      assert (dir + "/" + elem)[..|dir|] == dir;
      dir + "/" + elem
  }

  /**
   * `~` alone is the home directory; `~/rest` is rest under the home directory
   * (the result starts with the home directory and ends with rest); any other
   * path, `~user` included, is kept as it is.
   */
  function ExpandHome(path: string, home: string): (expanded: string)
    ensures path == "~" ==> expanded == home
    ensures HasPrefix(path, "~/") ==>
      && (home != "" ==> HasPrefix(expanded, home))
      && |path| - 2 <= |expanded| && expanded[|expanded| - (|path| - 2)..] == path[2..]
    ensures HasPrefix(path, "~/") ==> expanded == JoinPath(home, path[2..])
    ensures path != "~" && !HasPrefix(path, "~/") ==> expanded == path
  {
    if path == "~" then home
    else if HasPrefix(path, "~/") then JoinPath(home, path[2..])
    else path
  }

  /** `os.ReadFile` with its error ignored: a file that cannot be read yields no bytes. */
  function ReadFile(files: Files, path: string): string
  {
    if path in files then files[path] else ""
  }

  /**
   * loadFromPath(p): the contents of the file at p itself (never at DefaultPath),
   * with `~` expanded and surrounding white space trimmed; empty when the file
   * cannot be read.
   */
  function LoadFromPath(p: string, home: string, files: Files): (token: string)
    ensures Trimmed(token)
    ensures ExpandHome(p, home) !in files ==> token == ""
    ensures token == TrimSpace(ReadFile(files, ExpandHome(p, home)))
  {
    var path := ExpandHome(SelectPath(p), home);
    TrimSpace(ReadFile(files, path))
  }

  // ---------------------------------------------------------------------
  // LoadArgs
  // ---------------------------------------------------------------------

  /**
   * LoadArgs after flag parsing. A missing token source is an error, checked
   * before `-h`, so `-h` alone still fails; `-h` with a token source yields the
   * zero Config and no error; otherwise the three positional arguments (which
   * must exist: the source indexes them unchecked) are organisation, branch and
   * dependency, and the token is `-pat` when given, else read from `-pat-path`.
   */
  method LoadArgs(cmd: CmdArgs, args: seq<string>, home: string, files: Files) returns (cfg: Config, err: Option<string>)
    requires (cmd.pat != "" || cmd.patPath != "") && !cmd.help ==> |args| >= 3
    ensures err.Some? <==> cmd.pat == "" && cmd.patPath == ""
    ensures err.Some? ==> err.value == MissingTokenSource && cfg == ZeroConfig
    ensures err.None? && cmd.help ==> cfg == ZeroConfig
    ensures err.None? && !cmd.help ==>
      && cfg.org == args[0] && cfg.branch == args[1] && cfg.dep == args[2]
      && cfg.json == cmd.json
    ensures err.None? && !cmd.help && cmd.pat != "" ==> cfg.gitPat == cmd.pat
    ensures err.None? && !cmd.help && cmd.pat == "" ==> cfg.gitPat == LoadFromPath(cmd.patPath, home, files)
  {
    cfg, err := ZeroConfig, None;
    if cmd.pat == "" && cmd.patPath == "" {
      err := Some(MissingTokenSource);
      return;
    }
    if cmd.help {
      return;
    }
    cfg := Config(cmd.pat, args[0], args[1], args[2], cmd.json);
    if cfg.gitPat == "" {
      cfg := cfg.(gitPat := LoadFromPath(cmd.patPath, home, files));
    }
  }
}
