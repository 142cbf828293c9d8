/** `create_build_history` (esgf_build.py:241-255): after the builds, append
    to the day's history file a time stamp, a rule, and for each repository of
    the build list the last line of its build log that mentions "BUILD" (ant's
    "BUILD SUCCESSFUL" or "BUILD FAILED"). */
module BuildHistory {
  import opened Builtins

  /** The 53-dash rule under the time stamp. */
  const HistoryRule := "-----------------------------------------------------"

  /** The build log of a repository, relative to the starting directory. */
  function BuildLogPath(repo: string): string {
    "buildlogs/" + repo + "-build.log"
  }

  /** The two lines written before any repository. The time is an input. */
  function HistoryHeader(now: string): seq<string> {
    ["Build Time: " + now, HistoryRule]
  }

  /** The index of the last line that contains "BUILD", if any. */
  function LastBuildLine(lines: seq<string>): (r: Option<nat>)
    ensures r.Some? ==> r.value < |lines| && Contains(lines[r.value], "BUILD")
    ensures r.Some? ==> forall j :: r.value < j < |lines| ==> !Contains(lines[j], "BUILD")
    ensures r.None? <==> forall j :: 0 <= j < |lines| ==> !Contains(lines[j], "BUILD")
  {
    if lines == [] then None
    else if Contains(lines[|lines| - 1], "BUILD") then Some(|lines| - 1)
    else LastBuildLine(lines[..|lines| - 1])
  }

  /** The history line of one repository: its name, a colon and the last
      "BUILD" line of its log without trailing white space; none without one. */
  function HistoryEntry(repo: string, logLines: seq<string>): (r: Option<string>)
    ensures r.Some? ==> StartsWith(r.value, repo + ": ")
  {
    match LastBuildLine(logLines)
    case None => None
    case Some(k) => Some(repo + ": " + RStrip(logLines[k]))
  }

  /** A repository gets no history line exactly when no line of its log mentions "BUILD". */
  lemma HistoryEntryNone(repo: string, logLines: seq<string>)
    ensures HistoryEntry(repo, logLines).None? <==> forall j :: 0 <= j < |logLines| ==> !Contains(logLines[j], "BUILD")
  {
    var r := LastBuildLine(logLines);
    assert r.None? <==> HistoryEntry(repo, logLines).None?;
  }

  /** Stripping trailing white space keeps an occurrence of a word that has no white space. */
  lemma RStripKeeps(line: string, word: string, i: nat)
    requires OccursAt(line, word, i) && word != [] && !IsSpace(word[|word| - 1])
    ensures OccursAt(RStrip(line), word, i)
  {
    var r := RStrip(line);
    assert line[i + |word| - 1] == word[|word| - 1];
    assert i + |word| <= |r|;
    assert r[i..i + |word|] == line[i..i + |word|];
  }

  /** A history line starts with the repository name and a colon, and still
      contains "BUILD". */
  lemma HistoryEntryMentionsBuild(repo: string, logLines: seq<string>)
    requires HistoryEntry(repo, logLines).Some?
    ensures StartsWith(HistoryEntry(repo, logLines).value, repo + ": ")
    ensures Contains(HistoryEntry(repo, logLines).value, "BUILD")
  {
    var k := LastBuildLine(logLines).value;
    var line := logLines[k];
    var i :| 0 <= i <= |line| - |"BUILD"| && OccursAt(line, "BUILD", i);
    RStripKeeps(line, "BUILD", i);
    var e := repo + ": " + RStrip(line);
    assert e[|repo + ": "| + i..|repo + ": "| + i + 5] == RStrip(line)[i..i + 5];
    assert OccursAt(e, "BUILD", |repo + ": "| + i);
  }

  /** The lines written for the repositories, and the exception that stopped
      the scan: IOError when a build log does not exist. */
  datatype Written = Written(lines: seq<string>, failure: Option<Error>)

  /** The entries for a build list, in build-list order. */
  function HistoryEntries(buildList: seq<string>, logs: map<string, seq<string>>): (w: Written)
    ensures |w.lines| <= |buildList|
    ensures w.failure.Some? ==> w.failure.value.IOError? && w.failure.value.path !in logs
  {
    if buildList == [] then Written([], None)
    else
      var before := HistoryEntries(buildList[..|buildList| - 1], logs);
      var repo := buildList[|buildList| - 1];
      var path := BuildLogPath(repo);
      if before.failure.Some? then before
      else if path !in logs then Written(before.lines, Some(IOError(path)))
      else
        match HistoryEntry(repo, logs[path])
        case None => before
        case Some(e) => Written(before.lines + [e], None)
  }

  /** Every repository contributes at most one line, and the scan fails
      exactly when some build log is missing, with IOError naming it. */
  lemma {:induction false} HistoryFailure(buildList: seq<string>, logs: map<string, seq<string>>)
    ensures var w := HistoryEntries(buildList, logs);
      |w.lines| <= |buildList|
      && (w.failure.None? <==> forall i :: 0 <= i < |buildList| ==> BuildLogPath(buildList[i]) in logs)
      && (w.failure.Some? ==>
            exists i :: 0 <= i < |buildList| && w.failure == Some(IOError(BuildLogPath(buildList[i])))
              && forall j :: 0 <= j < i ==> BuildLogPath(buildList[j]) in logs)
  {
    if buildList != [] {
      var p := buildList[..|buildList| - 1];
      HistoryFailure(p, logs);
      assert forall i :: 0 <= i < |p| ==> p[i] == buildList[i];
    }
  }

  /** Every repository contributes at most one line; the scan fails exactly
      when some build log is missing; with every log present and mentioning
      "BUILD", line `i` is the entry of the `i`-th repository. */
  lemma HistoryOnePerRepo(buildList: seq<string>, logs: map<string, seq<string>>)
    ensures var w := HistoryEntries(buildList, logs);
      |w.lines| <= |buildList|
      && (w.failure.None? <==> forall i :: 0 <= i < |buildList| ==> BuildLogPath(buildList[i]) in logs)
      && (w.failure.Some? ==>
            exists i :: 0 <= i < |buildList| && w.failure == Some(IOError(BuildLogPath(buildList[i])))
              && forall j :: 0 <= j < i ==> BuildLogPath(buildList[j]) in logs)
      && ((forall i :: 0 <= i < |buildList| ==>
             BuildLogPath(buildList[i]) in logs && HistoryEntry(buildList[i], logs[BuildLogPath(buildList[i])]).Some?)
          ==> |w.lines| == |buildList|
              && forall i :: 0 <= i < |buildList| ==>
                   Some(w.lines[i]) == HistoryEntry(buildList[i], logs[BuildLogPath(buildList[i])]))
  {
    HistoryFailure(buildList, logs);
    if forall i :: 0 <= i < |buildList| ==>
         BuildLogPath(buildList[i]) in logs && HistoryEntry(buildList[i], logs[BuildLogPath(buildList[i])]).Some?
    {
      HistoryInOrder(buildList, logs);
      KeptAll(buildList, logs);
    }
  }

  /** When every repository has an entry, every position is kept, in order. */
  lemma {:induction false} KeptAll(buildList: seq<string>, logs: map<string, seq<string>>)
    requires forall i :: 0 <= i < |buildList| ==>
      BuildLogPath(buildList[i]) in logs && HistoryEntry(buildList[i], logs[BuildLogPath(buildList[i])]).Some?
    ensures |Kept(buildList, logs)| == |buildList|
    ensures forall m :: 0 <= m < |buildList| ==> Kept(buildList, logs)[m] == m
  {
    if buildList != [] {
      var p := buildList[..|buildList| - 1];
      assert forall i :: 0 <= i < |p| ==> p[i] == buildList[i];
      KeptAll(p, logs);
    }
  }

  /** The positions, in build-list order, of the repositories whose build log
      exists and has a "BUILD" line: the repositories that get a history line. */
  function Kept(buildList: seq<string>, logs: map<string, seq<string>>): (idx: seq<nat>)
    ensures forall m :: 0 <= m < |idx| ==> idx[m] < |buildList|
  {
    if buildList == [] then []
    else
      var last := |buildList| - 1;
      var path := BuildLogPath(buildList[last]);
      Kept(buildList[..last], logs)
      + (if path in logs && HistoryEntry(buildList[last], logs[path]).Some? then [last] else [])
  }

  /** Every build log of the list exists. */
  predicate AllLogged(buildList: seq<string>, logs: map<string, seq<string>>) {
    forall i :: 0 <= i < |buildList| ==> BuildLogPath(buildList[i]) in logs
  }

  /** `lines` are the entries of the repositories at positions `idx`, which
      increase strictly and list exactly the repositories that have an entry. */
  predicate InOrder(buildList: seq<string>, logs: map<string, seq<string>>, lines: seq<string>, idx: seq<nat>)
    requires AllLogged(buildList, logs)
  {
    |lines| == |idx|
    && (forall m :: 0 <= m < |idx| ==> idx[m] < |buildList|)
    && (forall m, n :: 0 <= m < n < |idx| ==> idx[m] < idx[n])
    && (forall m :: 0 <= m < |idx| ==>
          Some(lines[m]) == HistoryEntry(buildList[idx[m]], logs[BuildLogPath(buildList[idx[m]])]))
    && (forall i :: 0 <= i < |buildList| ==>
          (i in idx <==> HistoryEntry(buildList[i], logs[BuildLogPath(buildList[i])]).Some?))
  }

  /** When every build log exists, the history has one line per repository
      whose log mentions "BUILD" and none for the others, in build-list order:
      line `m` is the entry of repository `Kept(...)[m]`, the positions
      increase strictly, and a position is kept iff its entry exists. */
  lemma {:induction false} HistoryInOrder(buildList: seq<string>, logs: map<string, seq<string>>)
    requires AllLogged(buildList, logs)
    ensures HistoryEntries(buildList, logs).failure.None?
    ensures InOrder(buildList, logs, HistoryEntries(buildList, logs).lines, Kept(buildList, logs))
  {
    if buildList != [] {
      var last := |buildList| - 1;
      var p := buildList[..last];
      assert AllLogged(p, logs) by {
        assert forall i :: 0 <= i < |p| ==> p[i] == buildList[i];
      }
      HistoryInOrder(p, logs);
      var wp, ip := HistoryEntries(p, logs), Kept(p, logs);
      var e := HistoryEntry(buildList[last], logs[BuildLogPath(buildList[last])]);
      assert HistoryEntries(buildList, logs)
             == if e.None? then wp else Written(wp.lines + [e.value], None);
      assert Kept(buildList, logs) == ip + if e.Some? then [last] else [];
      InOrderSnoc(buildList, logs, wp.lines, ip);
    }
  }

  /** The inductive step of `HistoryInOrder`: appending the last repository's entry, if any. */
  lemma InOrderSnoc(buildList: seq<string>, logs: map<string, seq<string>>, lines: seq<string>, idx: seq<nat>)
    requires buildList != [] && AllLogged(buildList, logs)
    requires AllLogged(buildList[..|buildList| - 1], logs)
    requires InOrder(buildList[..|buildList| - 1], logs, lines, idx)
    ensures var last := |buildList| - 1;
      var e := HistoryEntry(buildList[last], logs[BuildLogPath(buildList[last])]);
      InOrder(buildList, logs, if e.None? then lines else lines + [e.value], idx + if e.Some? then [last] else [])
  {
    var last := |buildList| - 1;
    var p := buildList[..last];
    assert forall i :: 0 <= i < |p| ==> p[i] == buildList[i];
    var e := HistoryEntry(buildList[last], logs[BuildLogPath(buildList[last])]);
    var lines', idx' := if e.None? then lines else lines + [e.value], idx + if e.Some? then [last] else [];
    forall i | 0 <= i < |buildList|
      ensures i in idx' <==> HistoryEntry(buildList[i], logs[BuildLogPath(buildList[i])]).Some?
    {
      assert i in idx' <==> i in idx || (e.Some? && i == last);
    }
  }

  /** Logs `a`, ending in "BUILD SUCCESSFUL", and `b`, with no "BUILD" line,
      give the single history line "a: BUILD SUCCESSFUL". */
  lemma HistoryExample(a: string, b: string, logs: map<string, seq<string>>)
    requires logs == map[BuildLogPath(a) := ["Total time: 2 seconds", "BUILD SUCCESSFUL"],
                         BuildLogPath(b) := ["Total time: 1 second"]]
    requires BuildLogPath(a) != BuildLogPath(b)
    ensures HistoryEntries([a, b], logs) == Written([a + ": BUILD SUCCESSFUL"], None)
  {
    var line := "BUILD SUCCESSFUL";
    assert OccursAt(line, "BUILD", 0);
    assert RStrip(line) == line;
    assert HistoryEntry(a, logs[BuildLogPath(a)]) == Some(a + ": " + line);
    var other := "Total time: 1 second";
    forall i | 0 <= i <= |other| - 5 ensures !OccursAt(other, "BUILD", i) {
      assert other[i..i + 5][0] == other[i] != 'B';
    }
    assert !Contains(other, "BUILD");
    assert LastBuildLine([other]) == None;
    assert HistoryEntry(b, logs[BuildLogPath(b)]) == None;
    assert [a][..0] == [];
    assert HistoryEntries([a], logs) == Written([a + ": " + line], None);
    assert [a, b][..1] == [a];
    assert BuildLogPath(b) in logs;
    assert HistoryEntries([a, b], logs) == HistoryEntries([a], logs);
    assert a + ": " + line == a + ": BUILD SUCCESSFUL";
  }

  /** The last line with "BUILD" is the one at `k` when no later line has it. */
  lemma LastBuildLineAt(lines: seq<string>, k: nat)
    requires k < |lines| && Contains(lines[k], "BUILD")
    requires forall j :: k < j < |lines| ==> !Contains(lines[j], "BUILD")
    ensures LastBuildLine(lines) == Some(k)
  {
    var r := LastBuildLine(lines);
    assert r.Some?;
    assert r.value >= k;
  }

  /** The inner loop of `create_build_history`: scan the log from its last
      line and stop at the first line containing "BUILD". */
  method ScanBuildLog(repo: string, logLines: seq<string>) returns (entry: Option<string>)
    ensures entry == HistoryEntry(repo, logLines)
  {
    var j := |logLines|;
    while j > 0
      invariant 0 <= j <= |logLines|
      invariant forall m :: j <= m < |logLines| ==> !Contains(logLines[m], "BUILD")
    {
      j := j - 1;
      if Contains(logLines[j], "BUILD") {
        LastBuildLineAt(logLines, j);
        return Some(repo + ": " + RStrip(logLines[j]));
      }
    }
    return None;
  }

  /** `create_build_history`: the loop over the build list, scanning each
      build log with `ScanBuildLog`. `logs` maps each existing file to its lines;
      `now` is the time stamp. Returns the lines appended to the history. */
  method CreateBuildHistory(buildList: seq<string>, now: string, logs: map<string, seq<string>>) returns (w: Written)
    ensures w.lines == HistoryHeader(now) + HistoryEntries(buildList, logs).lines
    ensures w.failure == HistoryEntries(buildList, logs).failure
  {
    var entries: seq<string> := [];
    for i := 0 to |buildList|
      invariant HistoryEntries(buildList[..i], logs) == Written(entries, None)
    {
      assert buildList[..i + 1][..i] == buildList[..i];
      var repo := buildList[i];
      var buildLog := BuildLogPath(repo);
      if buildLog !in logs {
        HistoryStops(buildList, i + 1, logs);
        return Written(HistoryHeader(now) + entries, Some(IOError(buildLog)));
      }
      var entry := ScanBuildLog(repo, logs[buildLog]);
      if entry.Some? {
        entries := entries + [entry.value];
      }
    }
    assert buildList[..|buildList|] == buildList;
    return Written(HistoryHeader(now) + entries, None);
  }

  /** Once a build log is missing, the repositories after it add nothing. */
  lemma {:induction false} HistoryStops(buildList: seq<string>, k: nat, logs: map<string, seq<string>>)
    requires k <= |buildList|
    requires HistoryEntries(buildList[..k], logs).failure.Some?
    ensures HistoryEntries(buildList, logs) == HistoryEntries(buildList[..k], logs)
  {
    if k < |buildList| {
      var p := buildList[..|buildList| - 1];
      assert p[..k] == buildList[..k];
      HistoryStops(p, k, logs);
    } else {
      assert buildList[..k] == buildList;
    }
  }
}
