/** The text reports the sync stage writes: the taglist block of
    `create_taglist_file` (esgf_build.py:55-61), the block of
    `create_commits_since_last_tag_file` (esgf_build.py:64-75) and the first
    entry of `git log` picked by `get_most_recent_commit` (esgf_build.py:157-161). */
module GitReports {
  import opened Builtins

  /** The 25-dash rule that frames each block. */
  const Rule := "-------------------------"

  /** The text `create_taglist_file` appends for one repository. */
  function TaglistBlock(repoName: string, latestTag: string): string {
    Rule + "\n" + repoName + "\n" + Rule + "\n" + latestTag + "\n" + "\n"
  }

  /** Four lines and an empty one, each ended by a newline, joined. */
  lemma JoinFiveLines(a: string, b: string, c: string, d: string)
    ensures Join([a, b, c, d, "", ""], '\n') == a + "\n" + b + "\n" + c + "\n" + d + "\n" + "\n"
  {
    var l4: seq<string> := ["", ""];
    assert Join(l4, '\n') == "\n" by { assert l4[1..] == [""]; }
    var l3 := [d] + l4;
    assert Join(l3, '\n') == d + "\n" + "\n" by { assert l3[1..] == l4; }
    var l2 := [c] + l3;
    assert Join(l2, '\n') == c + "\n" + d + "\n" + "\n" by { assert l2[1..] == l3; }
    var l1 := [b] + l2;
    assert Join(l1, '\n') == b + "\n" + c + "\n" + d + "\n" + "\n" by { assert l1[1..] == l2; }
    var lines := [a] + l1;
    assert lines[1..] == l1;
    assert lines == [a, b, c, d, "", ""];
  }

  /** A taglist block is exactly five lines: rule, repository name, rule, tag
      and a blank line; reading the lines back recovers the name and the tag. */
  lemma TaglistBlockLines(repoName: string, latestTag: string)
    requires '\n' !in repoName && '\n' !in latestTag
    ensures SplitOn(TaglistBlock(repoName, latestTag), '\n') == [Rule, repoName, Rule, latestTag, "", ""]
  {
    var lines := [Rule, repoName, Rule, latestTag, "", ""];
    JoinFiveLines(Rule, repoName, Rule, latestTag);
    assert '\n' !in Rule;
    assert forall i :: 0 <= i < |lines| ==> '\n' !in lines[i] by {
      assert lines[0] == Rule && lines[1] == repoName && lines[2] == Rule && lines[3] == latestTag;
      assert lines[4] == "" && lines[5] == "";
    }
    SplitJoin(lines, '\n');
  }

  /** The text `create_commits_since_last_tag_file` appends: nothing when
      `git log <tag>..HEAD` printed nothing, else a framed header and the log. */
  function CommitsSinceTagBlock(repoName: string, latestTag: string, commitsSinceTag: string): (r: string)
    ensures r == "" <==> commitsSinceTag == ""
    ensures r != "" ==>
      var header := Rule + "\n" + "Commits since last tag (" + latestTag + ") for " + repoName + "\n";
      StartsWith(r, header + Rule + "\n") && |r| == |header| + |Rule| + 1 + |commitsSinceTag| + 1
    ensures r != "" ==> |r| > |commitsSinceTag| && r[|r| - |commitsSinceTag| - 1..] == commitsSinceTag + "\n"
  {
    if commitsSinceTag == "" then ""
    else
      var header := Rule + "\n" + "Commits since last tag (" + latestTag + ") for " + repoName + "\n";
      var tail := Rule + "\n" + commitsSinceTag + "\n";
      var r := header + tail;
      assert r[..|header| + |Rule| + 1] == header + Rule + "\n";
      assert r[|r| - |commitsSinceTag| - 1..] == tail[|tail| - |commitsSinceTag| - 1..];
      r
  }

  /** `s.split(sep)[0]`: the text before the first occurrence of `sep`, or all of `s`. */
  function TextBefore(s: string, sep: string): (r: string)
    requires sep != []
    ensures r <= s
    ensures forall i :: 0 <= i < |r| ==> !OccursAt(s, sep, i)
    ensures |r| < |s| ==> OccursAt(s, sep, |r|)
    decreases |s|
  {
    if |s| < |sep| then s
    else if s[..|sep|] == sep then ""
    else
      var r := [s[0]] + TextBefore(s[1..], sep);
      OccursAtShift(s, sep);
      r
  }

  lemma OccursAtShift(s: string, sep: string)
    requires s != []
    ensures forall i :: 1 <= i ==> (OccursAt(s, sep, i) <==> OccursAt(s[1..], sep, i - 1))
  {
    forall i | 1 <= i {
      OccursAtShiftAt(s, sep, i);
    }
  }

  lemma OccursAtShiftAt(s: string, sep: string, i: int)
    requires s != [] && 1 <= i
    ensures OccursAt(s, sep, i) <==> OccursAt(s[1..], sep, i - 1)
  {
    if i + |sep| <= |s| {
      var here, there := s[i..i + |sep|], s[1..][i - 1..i - 1 + |sep|];
      assert forall k :: 0 <= k < |sep| ==> here[k] == s[i + k] == there[k];
      assert here == there;
    }
  }

  const CommitMarker := "\ncommit"

  /** `git log` output up to, not including, the line break before the second
      "commit" line: the most recent commit's entry. */
  function MostRecentCommit(log: string): (r: string)
    ensures r <= log
    ensures forall i :: 0 <= i < |r| ==> !OccursAt(log, CommitMarker, i)
    ensures |r| < |log| ==> OccursAt(log, CommitMarker, |r|)
  {
    TextBefore(log, CommitMarker)
  }
}
