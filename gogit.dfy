/**
 * The sequential logic of the `gogit` command (cmd/gogit/main.go): the
 * per-repository dependency lookup, the aggregation of the results into a
 * report ordered by version, and the text rendering of one report row.
 */
module Gogit {
  import opened Options
  import opened GoStrings
  import Semver

  /** One repository's scan result: its name and the version it declares of the dependency. */
  datatype Diff = Diff(name: string, version: string)

  /** The result of a lookup that failed before the manifest could be searched. */
  const ZeroDiff: Diff := Diff("", "")

  /** The version reported when the manifest does not require the dependency. */
  const NotDeclared: string := "none"

  // ---------------------------------------------------------------------
  // Dependency lookup (getDiff)
  // ---------------------------------------------------------------------

  /** One `require` line of a go.mod file: module path and version. */
  datatype Require = Require(path: string, version: string)

  /** What downloading, reading and parsing a repository's go.mod produced. */
  datatype Fetched = DownloadFailed | ReadFailed | ParseFailed | Manifest(require: seq<Require>)

  datatype FetchError = DownloadError | ReadError | ParseError

  /** No require of `reqs` has exactly the module path `path`. */
  predicate Absent(reqs: seq<Require>, path: string)
  {
    forall k :: 0 <= k < |reqs| ==> reqs[k].path != path
  }

  /** Dropping a non-matching head: a matchless prefix of reqs loses its head and stays matchless. */
  lemma AbsentAfterHead(reqs: seq<Require>, path: string)
    requires reqs != [] && reqs[0].path != path
    ensures Absent(reqs, path) ==> Absent(reqs[1..], path)
    ensures forall i :: 0 < i < |reqs| ==> reqs[1..][i - 1] == reqs[i]
    ensures forall i :: 0 < i <= |reqs| && Absent(reqs[..i], path) ==> Absent(reqs[1..][..i - 1], path)
  {
    forall i | 0 < i <= |reqs| && Absent(reqs[..i], path)
      ensures Absent(reqs[1..][..i - 1], path)
    {
      var tail := reqs[1..][..i - 1];
      assert forall k :: 0 <= k < |tail| ==> tail[k] == reqs[..i][k + 1];
    }
  }

  /**
   * The version the manifest declares for `path`: that of the FIRST require
   * whose path is exactly `path`, or "none" when no require has that path.
   */
  function DeclaredVersion(reqs: seq<Require>, path: string): (v: string)
    ensures Absent(reqs, path) ==> v == NotDeclared
    ensures forall i :: 0 <= i < |reqs| && reqs[i].path == path && Absent(reqs[..i], path) ==> v == reqs[i].version
  {
    if reqs == [] then NotDeclared
    else if reqs[0].path == path then reqs[0].version
    else
      AbsentAfterHead(reqs, path);
      DeclaredVersion(reqs[1..], path)
  }

  /** Requires after the first match never change the answer; without a match in front, only what follows counts. */
  lemma {:induction false} DeclaredVersionAppend(front: seq<Require>, back: seq<Require>, path: string)
    ensures DeclaredVersion(front + back, path)
         == if Absent(front, path) then DeclaredVersion(back, path) else DeclaredVersion(front, path)
  {
    if front == [] {
      assert front + back == back;
    } else {
      assert (front + back)[1..] == front[1..] + back;
      assert front[0].path != path ==> (Absent(front, path) <==> Absent(front[1..], path)) by {
        assert forall k :: 0 < k < |front| ==> front[1..][k - 1] == front[k];
      }
      DeclaredVersionAppend(front[1..], back, path);
    }
  }

  /**
   * getDiff after the network calls: a failure of the download, the read or the
   * parse gives the zero Diff (not even the name is set) and the error; otherwise
   * the repository's name and the declared version.
   */
  method GetDiff(repo: string, packagePath: string, fetched: Fetched) returns (diff: Diff, err: Option<FetchError>)
    ensures !fetched.Manifest? ==> diff == ZeroDiff && err.Some?
    ensures fetched.Manifest? ==> err == None && diff == Diff(repo, DeclaredVersion(fetched.require, packagePath))
  {
    diff, err := ZeroDiff, None;
    match fetched
    case DownloadFailed =>
      err := Some(DownloadError);
      return;
    case ReadFailed =>
      err := Some(ReadError);
      return;
    case ParseFailed =>
      err := Some(ParseError);
      return;
    case Manifest(reqs) =>
      diff := diff.(name := repo);
      var i := 0;
      while i < |reqs|
        invariant 0 <= i <= |reqs|
        invariant Absent(reqs[..i], packagePath)
        invariant diff == Diff(repo, "")
      {
        if reqs[i].path == packagePath {
          diff := diff.(version := reqs[i].version);
          return;
        }
        i := i + 1;
      }
      assert reqs[..i] == reqs;
      diff := diff.(version := NotDeclared);
  }

  // ---------------------------------------------------------------------
  // Aggregation: keep the valid versions, then sort by version
  // ---------------------------------------------------------------------

  /**
   * The received results whose version is valid, in the order received;
   * neither the failure sentinel "" nor "none" survives.
   */
  function KeepValid(received: seq<Diff>): (kept: seq<Diff>)
    ensures |kept| <= |received|
    ensures forall k :: 0 <= k < |kept| ==> Semver.IsValid(kept[k].version) && kept[k].version != "" && kept[k].version != NotDeclared
  {
    Semver.SentinelsAreInvalid();
    hide Semver.Parse;
    if received == [] then []
    else (if Semver.IsValid(received[0].version) then [received[0]] else []) + KeepValid(received[1..])
  }

  /** Each result with a valid version is kept exactly as often as it was received; every other one is gone. */
  lemma {:induction false} KeepValidCounts(received: seq<Diff>, d: Diff)
    ensures multiset(KeepValid(received))[d] == if Semver.IsValid(d.version) then multiset(received)[d] else 0
  {
    hide Semver.Parse;
    if received != [] {
      var r, rest := received[0], received[1..];
      assert received == [r] + rest;
      var head := if Semver.IsValid(r.version) then [r] else [];
      assert KeepValid(received) == head + KeepValid(rest);
      assert multiset(KeepValid(received)) == multiset(head) + multiset(KeepValid(rest));
      assert multiset(received) == multiset([r]) + multiset(rest);
      KeepValidCounts(rest, d);
      if r == d {
        assert multiset(head)[d] == if Semver.IsValid(d.version) then 1 else 0;
      } else {
        assert multiset(head)[d] == 0;
      }
    }
  }

  /** Filtering distributes over concatenation: the order of receipt is kept. */
  lemma {:induction false} KeepValidAppend(a: seq<Diff>, b: seq<Diff>)
    ensures KeepValid(a + b) == KeepValid(a) + KeepValid(b)
  {
    hide Semver.Parse;
    if a == [] {
      assert a + b == b;
    } else {
      assert (a + b)[0] == a[0];
      assert (a + b)[1..] == a[1..] + b;
      KeepValidAppend(a[1..], b);
    }
  }

  /** The collection loop of main: append each received result whose version is valid. */
  method CollectValid(received: seq<Diff>) returns (diffs: seq<Diff>)
    ensures diffs == KeepValid(received)
  {
    hide Semver.Parse;
    diffs := [];
    var i := 0;
    while i < |received|
      invariant 0 <= i <= |received|
      invariant diffs == KeepValid(received[..i])
    {
      var d := received[i];
      assert received[..i + 1] == received[..i] + [d];
      KeepValidAppend(received[..i], [d]);
      if Semver.IsValid(d.version) {
        diffs := diffs + [d];
      }
      i := i + 1;
    }
    assert received[..i] == received;
  }

  /** The `less` function handed to sort.Slice: `semver.Compare(x, y) < 1`. */
  predicate Less(x: Diff, y: Diff)
  {
    Semver.Compare(x.version, y.version) < 1
  }

  /** Every adjacent pair is in non-decreasing version order. */
  predicate SortedByVersion(s: seq<Diff>)
  {
    forall k :: 0 < k < |s| ==> Semver.Compare(s[k - 1].version, s[k].version) <= 0
  }

  /** In a sequence sorted by version, every earlier element is at most every later one. */
  lemma {:induction false} SortedIsPairwise(s: seq<Diff>, i: nat, j: nat)
    requires SortedByVersion(s) && i <= j < |s|
    ensures Semver.Compare(s[i].version, s[j].version) <= 0
    decreases j
  {
    hide Semver.Parse;
    if i == j {
      Semver.CompareIsTotalPreorder(s[i].version, s[i].version, s[i].version);
    } else {
      SortedIsPairwise(s, i, j - 1);
      Semver.CompareIsTotalPreorder(s[i].version, s[j - 1].version, s[j].version);
    }
  }

  /**
   * Any two version-sorted arrangements of the same results agree position by
   * position up to equal precedence: the report is determined by the results
   * received, except for the relative order of results with equal versions.
   */
  lemma {:induction false} SortedPermutationsAgree(s: seq<Diff>, t: seq<Diff>)
    requires SortedByVersion(s) && SortedByVersion(t) && multiset(s) == multiset(t)
    ensures |s| == |t|
    ensures forall k :: 0 <= k < |s| ==> Semver.Compare(s[k].version, t[k].version) == 0
    decreases |s|
  {
    hide Semver.Compare;
    assert |s| == |multiset(s)| == |multiset(t)| == |t|;
    if s != [] {
      var x := s[0];
      assert x in multiset(t);
      var j :| 0 <= j < |t| && t[j] == x;
      assert t[0] in multiset(s);
      var i :| 0 <= i < |s| && s[i] == t[0];
      SortedIsPairwise(s, 0, i);
      SortedIsPairwise(t, 0, j);
      Semver.CompareIsTotalPreorder(x.version, t[0].version, t[0].version);
      // Every element of t up to position j has the precedence of x.
      forall m | 0 <= m <= j
        ensures Semver.Compare(t[m].version, x.version) == 0
      {
        SortedIsPairwise(t, 0, m);
        SortedIsPairwise(t, m, j);
        Semver.CompareIsTotalPreorder(x.version, t[0].version, t[m].version);
        Semver.CompareIsTotalPreorder(t[m].version, x.version, x.version);
      }
      var rest := t[..j] + t[j + 1..];
      RemoveMatching(s, t, j);
      RemovePreservesSorted(t, j);
      SortedPermutationsAgree(s[1..], rest);
      forall k | 0 <= k < |s|
        ensures Semver.Compare(s[k].version, t[k].version) == 0
      {
        if k == 0 {
        } else if k > j {
          assert s[k] == s[1..][k - 1] && rest[k - 1] == t[k];
        } else {
          assert s[k] == s[1..][k - 1] && rest[k - 1] == t[k - 1];
          Semver.CompareIsTotalPreorder(x.version, t[k - 1].version, t[k - 1].version);
          Semver.SamePrecedenceTransitive(s[k].version, t[k - 1].version, x.version);
          Semver.CompareIsTotalPreorder(x.version, t[k].version, t[k].version);
          Semver.SamePrecedenceTransitive(s[k].version, x.version, t[k].version);
        }
      }
    }
  }

  /** Taking the head of s and a copy of it in t out of two permutations leaves two permutations. */
  lemma RemoveMatching(s: seq<Diff>, t: seq<Diff>, j: nat)
    requires multiset(s) == multiset(t) && s != [] && j < |t| && t[j] == s[0]
    ensures multiset(s[1..]) == multiset(t[..j] + t[j + 1..])
  {
    assert s == [s[0]] + s[1..];
    assert t == t[..j] + [t[j]] + t[j + 1..];
    assert multiset(s) == multiset{s[0]} + multiset(s[1..]);
    assert multiset(t) == multiset(t[..j]) + multiset{t[j]} + multiset(t[j + 1..]);
    assert multiset(t[..j] + t[j + 1..]) == multiset(t[..j]) + multiset(t[j + 1..]);
    assert multiset(s[1..]) == multiset(s) - multiset{s[0]};
    assert multiset(t[..j] + t[j + 1..]) == multiset(t) - multiset{t[j]};
  }

  /** Taking one element out of a sequence sorted by version leaves it sorted. */
  lemma RemovePreservesSorted(t: seq<Diff>, j: nat)
    requires SortedByVersion(t) && j < |t|
    ensures SortedByVersion(t[..j] + t[j + 1..])
  {
    hide Semver.Parse;
    var rest := t[..j] + t[j + 1..];
    forall k | 0 < k < |rest|
      ensures Semver.Compare(rest[k - 1].version, rest[k].version) <= 0
    {
      if k == j {
        assert rest[k - 1] == t[j - 1] && rest[k] == t[j + 1];
        SortedIsPairwise(t, j - 1, j + 1);
      } else if k < j {
        assert rest[k - 1] == t[k - 1] && rest[k] == t[k];
      } else {
        assert rest[k - 1] == t[k] && rest[k] == t[k + 1];
      }
    }
  }

  /** Four results: two declaring the dependency, one failed lookup, one without the dependency. */
  const MixedResults: seq<Diff> :=
    [Diff("svc-a", "v1.2.0"), Diff("svc-b", ""), Diff("svc-c", "v1.4.0"), Diff("svc-d", NotDeclared)]

  /** Whatever order those four results arrive in, the report is svc-a at v1.2.0, then svc-c at v1.4.0. */
  lemma MixedResultsReport(received: seq<Diff>, report: seq<Diff>)
    requires multiset(received) == multiset(MixedResults)
    requires multiset(report) == multiset(KeepValid(received)) && SortedByVersion(report)
    ensures report == [Diff("svc-a", "v1.2.0"), Diff("svc-c", "v1.4.0")]
  {
    hide Semver.Parse;
    hide Semver.Compare;
    hide KeepValid;
    var a, c := Diff("svc-a", "v1.2.0"), Diff("svc-c", "v1.4.0");
    MixedResultsKept(received);
    Semver.ReportVersions();
    assert |report| == 2 by {
      assert |multiset(report)| == |multiset{a, c}|;
    }
    assert report == [report[0], report[1]];
    assert report[0] in multiset{a, c} && report[1] in multiset{a, c};
    assert multiset(report)[a] == 1 && multiset(report)[c] == 1;
    assert report[0] != c;
  }

  /** Of those four results, exactly svc-a and svc-c survive the validity filter. */
  lemma MixedResultsKept(received: seq<Diff>)
    requires multiset(received) == multiset(MixedResults)
    ensures multiset(KeepValid(received)) == multiset{Diff("svc-a", "v1.2.0"), Diff("svc-c", "v1.4.0")}
  {
    hide Semver.Parse;
    Semver.ReportVersions();
    Semver.SentinelsAreInvalid();
    forall d
      ensures multiset(KeepValid(received))[d] == multiset{Diff("svc-a", "v1.2.0"), Diff("svc-c", "v1.4.0")}[d]
    {
      KeepValidCounts(received, d);
    }
  }

  /**
   * The state of one insertion pass over s[..i + 1], with the moving element at
   * j: both sides of j are in order, and the neighbours of j are in order with
   * each other.
   */
  predicate Inserting(s: seq<Diff>, j: nat, i: nat)
    requires j <= i < |s|
  {
    && (forall k :: 0 < k < j ==> Semver.Compare(s[k - 1].version, s[k].version) <= 0)
    && (forall k :: j < k <= i ==> Semver.Compare(s[k - 1].version, s[k].version) <= 0)
    && (0 < j < i ==> Semver.Compare(s[j - 1].version, s[j + 1].version) <= 0)
  }

  /** Swapping the moving element with a left neighbour it is `less` than keeps the pass's state. */
  lemma SwapKeepsInserting(s: seq<Diff>, j: nat, i: nat)
    requires 0 < j <= i < |s| && Inserting(s, j, i) && Less(s[j], s[j - 1])
    ensures Inserting(s[j - 1 := s[j]][j := s[j - 1]], j - 1, i)
  {
    hide Semver.Compare;
    var t := s[j - 1 := s[j]][j := s[j - 1]];
    forall k | 0 < k < j - 1
      ensures Semver.Compare(t[k - 1].version, t[k].version) <= 0
    {
      assert t[k - 1] == s[k - 1] && t[k] == s[k];
    }
    forall k | j - 1 < k <= i
      ensures Semver.Compare(t[k - 1].version, t[k].version) <= 0
    {
      if k == j {
        assert t[k - 1] == s[j] && t[k] == s[j - 1];
      } else if k == j + 1 {
        assert t[k - 1] == s[j - 1] && t[k] == s[j + 1];
      } else {
        assert t[k - 1] == s[k - 1] && t[k] == s[k];
      }
    }
    if 0 < j - 1 {
      assert t[j - 2] == s[j - 2] && t[j] == s[j - 1];
    }
  }

  /** The pass stops at the front or at a left neighbour the moving element is not `less` than: the prefix is sorted. */
  lemma InsertingDone(s: seq<Diff>, j: nat, i: nat)
    requires j <= i < |s| && Inserting(s, j, i) && (j == 0 || !Less(s[j], s[j - 1]))
    ensures SortedByVersion(s[..i + 1])
  {
    hide Semver.Compare;
    if j > 0 {
      Semver.CompareIsTotalPreorder(s[j].version, s[j - 1].version, s[j - 1].version);
    }
    var prefix := s[..i + 1];
    forall k | 0 < k < |prefix|
      ensures Semver.Compare(prefix[k - 1].version, prefix[k].version) <= 0
    {
      assert prefix[k - 1] == s[k - 1] && prefix[k] == s[k];
    }
  }

  /**
   * One pass of Go's insertion sort (`insertionSortLessFunc`): move a[i] left
   * while it is `less` than its left neighbour, so a sorted prefix of length i
   * becomes a sorted prefix of length i + 1.
   */
  method InsertIntoSorted(a: array<Diff>, i: nat)
    requires i < a.Length && SortedByVersion(a[..i])
    modifies a
    ensures SortedByVersion(a[..i + 1])
    ensures multiset(a[..]) == old(multiset(a[..]))
    ensures a[i + 1..] == old(a[i + 1..])
  {
    hide Semver.Compare;
    var j := i;
    assert Inserting(a[..], j, i) by {
      forall k | 0 < k < i
        ensures Semver.Compare(a[k - 1].version, a[k].version) <= 0
      {
        assert a[..i][k - 1] == a[k - 1] && a[..i][k] == a[k];
      }
    }
    while j > 0 && Less(a[j], a[j - 1])
      invariant 0 <= j <= i
      invariant Inserting(a[..], j, i)
      invariant multiset(a[..]) == old(multiset(a[..]))
      invariant a[i + 1..] == old(a[i + 1..])
    {
      SwapKeepsInserting(a[..], j, i);
      a[j - 1], a[j] := a[j], a[j - 1];
      j := j - 1;
    }
    InsertingDone(a[..], j, i);
  }

  /**
   * sort.Slice with the source's `less`, by the insertion sort Go applies to
   * short slices: the array ends up a permutation of itself in non-decreasing
   * version order. Equal versions may end up in either order.
   */
  method SortByVersion(a: array<Diff>)
    modifies a
    ensures SortedByVersion(a[..])
    ensures multiset(a[..]) == old(multiset(a[..]))
  {
    var i := 0;
    while i < a.Length
      invariant 0 <= i <= a.Length
      invariant SortedByVersion(a[..i])
      invariant multiset(a[..]) == old(multiset(a[..]))
    {
      InsertIntoSorted(a, i);
      i := i + 1;
    }
    assert a[..i] == a[..];
  }

  /**
   * Lines 40-50 of main: from the N results received (in any order), the report
   * holds exactly the results with a valid version, each as often as received,
   * in non-decreasing version order.
   */
  method Aggregate(received: seq<Diff>) returns (report: array<Diff>)
    ensures report.Length <= |received|
    ensures multiset(report[..]) == multiset(KeepValid(received))
    ensures forall k :: 0 <= k < report.Length ==> Semver.IsValid(report[k].version)
    ensures forall i, j :: 0 <= i <= j < report.Length ==> Semver.Compare(report[i].version, report[j].version) <= 0
  {
    hide Semver.Parse;
    var diffs := CollectValid(received);
    report := new Diff[|diffs|](k => if 0 <= k < |diffs| then diffs[k] else ZeroDiff);
    assert report[..] == diffs;
    SortByVersion(report);
    forall i, j | 0 <= i <= j < report.Length
      ensures Semver.Compare(report[i].version, report[j].version) <= 0
    {
      SortedIsPairwise(report[..], i, j);
    }
    forall k | 0 <= k < report.Length
      ensures Semver.IsValid(report[k].version)
    {
      assert report[k] in multiset(report[..]);
    }
    assert |report[..]| == |multiset(report[..])|;
  }

  // ---------------------------------------------------------------------
  // Text rendering of one report row
  // ---------------------------------------------------------------------

  /** The column the padding fills up to; the message starts two characters later. */
  const NameColumn: nat := 45

  /**
   * The count writeRow hands to strings.Repeat, as written: 45 minus the name's
   * length. It is negative for any name longer than 45 characters, and
   * strings.Repeat panics on a negative count.
   */
  function PaddingAsWritten(repoName: string): (count: int)
    ensures count < 0 <==> |repoName| > NameColumn
    ensures count >= 0 ==> |repoName| + count == NameColumn
  {
    NameColumn - |repoName|
  }

  /** A 46-character repository name (GitHub allows up to 100) drives the padding count below zero. */
  lemma LongNameMakesPaddingNegative()
    ensures |Repeat("r", 46)| == 46 && PaddingAsWritten(Repeat("r", 46)) == -1
  {
  }

  /** The offset at which a row's message starts: two past the wider of the name and the name column. */
  function MessageOffset(repoName: string): nat
  {
    (if |repoName| <= NameColumn then NameColumn else |repoName|) + 2
  }

  /**
   * writeRow: `fmt.Sprintln(name, padding, message)`, the name, a space, spaces
   * up to column 45, a space, the message and a newline, so that the message
   * starts at offset 47 for every name of up to 45 characters. A longer name
   * gets no padding (where the source panics) and pushes the message right.
   */
  function WriteRow(repoName: string, message: string): (row: string)
    ensures |row| == MessageOffset(repoName) + |message| + 1
    ensures row[..|repoName|] == repoName
    ensures forall k :: |repoName| <= k < MessageOffset(repoName) ==> row[k] == ' '
    ensures row[MessageOffset(repoName)..|row| - 1] == message
    ensures row[|row| - 1] == '\n'
    ensures |repoName| <= NameColumn ==> MessageOffset(repoName) == NameColumn + 2
  {
    var padding := if |repoName| <= NameColumn then PaddingAsWritten(repoName) else 0;
    repoName + " " + Repeat(" ", padding) + " " + message + "\n"
  }

  /**
   * writeDiff: nothing for an empty version, otherwise the row of the name and
   * the version (the one-element list joined with ", " is the version itself).
   */
  function WriteDiff(repoName: string, diff: Diff): (text: string)
    ensures text == "" <==> diff.version == ""
    ensures diff.version != "" ==> text == WriteRow(repoName, diff.version)
  {
    if diff.version == "" then ""
    else
      var msg := [diff.version];
      WriteRow(repoName, Join(msg, ", "))
  }
}
