# gogit in Dafny

`gogit` reports which version of one Go module every repository of a GitHub
organisation depends on. It reads each repository's `go.mod` on a given
branch, looks for the module among the `require` entries, and prints one row
per repository that declares a valid semantic version, ordered by version.
The access token comes from `-pat` or from a file named by `-pat-path`.

This project models the sequential core of that tool and proves properties of
it:

- `options.dfy`: `Options.Option`, the usual optional value.
- `gostrings.dfy`: module `GoStrings`, the pieces of Go's `strings` package
  and string ordering that the core relies on. These are byte-wise `<`,
  `Split`, `Join`, `Repeat`, `HasPrefix` and `TrimSpace` with Go's Unicode
  white space.
- `semver.dfy`: module `Semver`, the `IsValid` and `Compare` functions of
  `golang.org/x/mod/semver`, written out concretely so that their ordering
  laws can be proved. Versions follow Semantic Versioning 2.0.0 with a
  mandatory `v`. The shorthands `v1` and `v1.2` are accepted. Build metadata
  is ignored. An invalid string ranks below every valid version.
- `gogit.dfy`: module `Gogit`, the `Diff` record and the logic of
  `cmd/gogit/main.go`.
  - `getDiff`: the lookup of the first matching `require`, `"none"` when
    there is none, and the zero `Diff` on any fetch failure.
  - The aggregation loop of `main`: drop invalid versions, then `sort.Slice`
    with `semver.Compare(...) < 1`. The sort is an in-place insertion sort
    on an array.
  - `writeDiff` and `writeRow`: the text row.
- `cfg.dfy`: module `Cfg`, covering `cfg/cfg.go`.
  - `LoadArgs` after flag parsing: the order of its checks, its error
    message and where the token comes from.
  - `loadFromPath`: which path is read, how `~` is expanded against the home
    directory, and how the contents are trimmed.

The network, the goroutines and the file system are not modelled as such.
The outcome of downloading and parsing a `go.mod` is an input to `GetDiff`.
The results a channel delivers are a sequence in arrival order, and any
order is allowed. The home directory is a parameter, and the readable files
are a map from path to contents.

## Model

| member | source | states |
|---|---|---|
| Gogit.DeclaredVersion | cmd/gogit/main.go:136-142 | the version of the first `require` whose path equals the dependency, and `"none"` when no `require` has that path |
| Gogit.DeclaredVersionAppend | cmd/gogit/main.go:136-141 | `require` entries after the first match never change the answer; without a match in front, only the rest decides |
| Gogit.GetDiff | cmd/gogit/main.go:121-144 | a download, read or parse failure yields the zero `Diff` (no name) and an error; otherwise no error and `Diff(repo, DeclaredVersion(requires, dependency))` |
| Gogit.KeepValid | cmd/gogit/main.go:40-47 | keeps at most the received results, and every kept version is a valid semantic version, so neither `""` nor `"none"` survives |
| Gogit.KeepValidCounts | cmd/gogit/main.go:40-47 | every result with a valid version is kept exactly as many times as it was received; every other result is dropped |
| Gogit.KeepValidAppend | cmd/gogit/main.go:40-47 | filtering distributes over concatenation, so results keep their order of arrival |
| Gogit.CollectValid | cmd/gogit/main.go:40-47 | the collection loop computes exactly `KeepValid` of the results in the order received |
| Gogit.SortedIsPairwise | cmd/gogit/main.go:48-50 | in a sequence whose adjacent pairs are in version order, every earlier element is at most every later one |
| Gogit.InsertIntoSorted | cmd/gogit/main.go:48-50 | one insertion pass turns a sorted prefix of length i into a sorted prefix of length i+1, permutes the array and leaves everything after position i untouched |
| Gogit.SortByVersion | cmd/gogit/main.go:48-50 | `sort.Slice` with `Compare < 1`: the array ends up in non-decreasing version order and is a permutation of its old contents |
| Gogit.Aggregate | cmd/gogit/main.go:40-50 | the report is a permutation of the valid results (multiplicities kept), every version is valid, and any earlier entry's version compares at most any later one's |
| Gogit.SortedPermutationsAgree | cmd/gogit/main.go:40-50 | any two sorted arrangements of the same results agree position by position up to equal precedence, so arrival order only affects ties |
| Gogit.MixedResultsKept | cmd/gogit/main.go:40-47 | of four results (two declaring the dependency at `v1.2.0` and `v1.4.0`, one failed lookup, one without the dependency) only the two versioned ones survive |
| Gogit.MixedResultsReport | cmd/gogit/main.go:40-50 | whatever the arrival order of those four results, the report is svc-a at v1.2.0, then svc-c at v1.4.0 |
| Gogit.PaddingAsWritten | cmd/gogit/main.go:74 | the count passed to `strings.Repeat` is negative exactly when the name is longer than 45 characters |
| Gogit.LongNameMakesPaddingNegative | cmd/gogit/main.go:74 | a 46-character repository name makes that count -1 |
| Gogit.WriteRow | cmd/gogit/main.go:73-75 | the row is the name, spaces, the message and a newline; for names of up to 45 characters the message starts at offset 47, so the rows align |
| Gogit.WriteDiff | cmd/gogit/main.go:62-71 | the text is empty exactly when the version is empty; otherwise it is the row of the name and the version |
| Semver.Parse | cmd/gogit/main.go:43 | a parsed version string starts with `v`, and its pre-release is empty or starts with `-` |
| Semver.ParseRebuilds | cmd/gogit/main.go:43 | parsing loses nothing: a valid version string is the full form `vMAJOR.MINOR.PATCH-PRE+BUILD` of its parsed parts, or a shorthand `vMAJOR` or `vMAJOR.MINOR` whose omitted parts parse as `0` |
| Semver.SentinelsAreInvalid | cmd/gogit/main.go:43 | the failure value `""` and the marker `"none"` are not valid versions |
| Semver.ParseShortRelease | cmd/gogit/main.go:43 | `vX.Y.Z` with single digits is valid, with exactly those numbers and no pre-release or build |
| Semver.CompareIntIsStrictOrder | cmd/gogit/main.go:49 | comparing major, minor or patch numbers as text is 0 only on equal numbers, antisymmetric and transitive |
| Semver.CompareIdentIsStrictOrder | cmd/gogit/main.go:49 | the same for one pre-release identifier, where numeric identifiers rank below alphanumeric ones |
| Semver.CompareIdentsAntisymmetric | cmd/gogit/main.go:49 | comparing identifier lists is antisymmetric and 0 only on equal lists |
| Semver.CompareIdentsTransitive | cmd/gogit/main.go:49 | comparing identifier lists is transitive |
| Semver.ComparePrereleaseIsStrictOrder | cmd/gogit/main.go:49 | pre-release comparison is a strict total order, with no pre-release ranking highest |
| Semver.ComparePrecedenceIsPreorder | cmd/gogit/main.go:49 | precedence of parsed versions is a total preorder whose ties are exactly the versions that differ at most in build metadata |
| Semver.CompareIsTotalPreorder | cmd/gogit/main.go:48-50 | `semver.Compare` is reflexive, antisymmetric in sign and transitive on `<= 0`, which is what the sort's `less` needs |
| Semver.SamePrecedenceTransitive | cmd/gogit/main.go:48-50 | equal precedence (`Compare == 0`) is transitive |
| Semver.CompareZeroIffSamePrecedence | cmd/gogit/main.go:49 | two valid versions compare equal exactly when they differ at most in build metadata |
| Semver.ReportVersions | cmd/gogit/main.go:43-49 | `v1.2.0` and `v1.4.0` are valid and `v1.4.0` ranks above `v1.2.0` |
| Semver.Section11Examples | cmd/gogit/main.go:49 | the example chain of section 11 of Semantic Versioning 2.0.0, alpha < alpha.1 < alpha.beta < beta < beta.2 < beta.11 < rc.1 < the release |
| GoStrings.LexCompareIsStrictOrder | cmd/gogit/main.go:49 | Go's string ordering is 0 only on equal strings, antisymmetric and transitive |
| GoStrings.JoinSplit | cmd/gogit/main.go:49 | joining the pieces of a split with the separator gives back the string, so dot-separated identifiers lose nothing |
| GoStrings.Repeat | cmd/gogit/main.go:74 | repeating a one-character string `count` times gives `count` copies of that character |
| GoStrings.TrimSpace | cfg/cfg.go:77 | the result neither starts nor ends with white space, and it is the stretch of the input after its leading white space, with only white space after it |
| Cfg.SelectPath | cfg/cfg.go:65-68 | the path read is always the argument, never the default `~/.gogitpat` |
| Cfg.JoinPath | cfg/cfg.go:74 | two non-empty parts give the directory, one `/` and the element; an empty part gives the other part unchanged |
| Cfg.ExpandHome | cfg/cfg.go:69-75 | `~` becomes the home directory; `~/rest` becomes the home directory joined with rest by `JoinPath`, so it starts with the home directory and ends with rest; every other path, `~user` included, is unchanged |
| Cfg.LoadFromPath | cfg/cfg.go:64-78 | the token is the trimmed contents of the file at the expanded argument, has no surrounding white space, and is empty when that file cannot be read |
| Cfg.LoadArgs | cfg/cfg.go:27-62 | an error (with its message and the zero Config) exactly when neither `-pat` nor `-pat-path` is given; `-h` with a token source gives the zero Config; otherwise the three positional arguments and `-json` are copied, and the token is `-pat` when given, else read through `loadFromPath` |

## Left out

- The GitHub client (`newGitClient`, `getRepos` and the download in `getDiff`), `modfile.Parse` and `ioutil.ReadAll` are not modelled. Their outcome is the `Fetched` input of `GetDiff`. The org and branch arguments only feed the download and are dropped.
- The goroutines and the channel of `main` are not modelled. Results arrive as a sequence in any order. The lookup error of each goroutine is discarded, as in the source.
- JSON output, printing, `os.Exit` and `panic` on a failed repository listing are not modelled. The model stops at the sorted report and the text of each row.
- `flag` parsing and the usage text are not modelled. `LoadArgs` takes the parsed flags and the positional arguments.
- `user.Current` is not modelled; the home directory is a parameter. When the lookup fails, the source discards the error and then reads `HomeDir` through a nil pointer, so `loadFromPath` panics for every path, `~` or not. That panic is not modelled.
- `os.ReadFile` is a map lookup. Any read error, which the source ignores, yields an empty file.
- Cfg.JoinPath: does not apply the lexical `Clean` that `filepath.Join` performs, so `//` or `..` in a path stay as written.
- Cfg.LoadArgs: requires three positional arguments when a token source is given without `-h`, because the source indexes them unchecked and panics otherwise.
- The unused `cfg` parameter of `writeDiff` and the unused `org`, `branch` and `dep` fields of `cmdArgs` are not modelled.
- Gogit.WriteRow: measures the name in characters, where Go's `len` counts bytes; the two agree for ASCII repository names, which is what GitHub allows.
- Gogit.SortByVersion: is an insertion sort. Go's `sort.Slice` runs insertion sort only on slices of up to 12 elements and pdqsort beyond. The proved contract (sorted, permutation) is what any of them gives; the order of equal versions is not specified, since `sort.Slice` is not stable.
- Gogit.SortedPermutationsAgree: ties are determined only up to equal precedence, because the sort is not stable. A stable tie order (arrival order) is not what the code guarantees.
- Semver.Parse: `golang.org/x/mod/semver` is an external package. Its `IsValid` and `Compare` are written out here from Semantic Versioning 2.0.0 and that package's documented behaviour, including the `v1` and `v1.2` shorthands. The canonical-form and `Max` helpers of that package are not modelled.

## Findings

| source | as written | input that shows it | evidently intended | confidence | as-written member | corrected member |
|---|---|---|---|---|---|---|
| cmd/gogit/main.go:74 | the padding count `45-len(repoName)` is passed to `strings.Repeat` unchecked, and a negative count panics | any repository whose name is longer than 45 characters, for example 46 times `r` (GitHub allows 100) | every row is printed; a long name simply gets no padding | medium, not executed | Gogit.LongNameMakesPaddingNegative | Gogit.WriteRow |
