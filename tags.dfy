/** `get_latest_tag` (esgf_build.py:33-52): after `git fetch --tags`, keep the
    tags whose commit can be looked up, sort them by commit time with Python's
    stable `sorted`, and take the last one. */
module Tags {
  import opened Builtins

  /** A tag as the repository lists it: its name and, when it points at a
      commit, that commit's time. A tag on a blob or a tree has no commit, and
      asking for its commit time raises ValueError. */
  datatype TagRef = TagRef(name: string, committed: Option<int>)

  /** A tag that survived the filter, with its commit time. */
  datatype CommitTag = CommitTag(name: string, time: int)

  /** The filtered `tag_list`: the tags that point at commits, in the order listed. */
  function Committed(tags: seq<TagRef>): (c: seq<CommitTag>)
    ensures |c| <= |tags|
    ensures (forall j :: 0 <= j < |tags| ==> tags[j].committed.Some?) ==> |c| == |tags|
  {
    if tags == [] then []
    else
      var t := tags[|tags| - 1];
      var earlier := Committed(tags[..|tags| - 1]);
      if t.committed.Some? then earlier + [CommitTag(t.name, t.committed.value)] else earlier
  }

  /** Places `t` after every element whose time is not greater than its own,
      so that equal times keep their input order. */
  function Insert(t: CommitTag, s: seq<CommitTag>): (r: seq<CommitTag>)
    ensures |r| == |s| + 1
    ensures multiset(r) == multiset(s) + multiset{t}
  {
    if s == [] then [t]
    else if t.time < s[0].time then [t] + s
    else
      assert s == [s[0]] + s[1..];
      [s[0]] + Insert(t, s[1..])
  }

  /** `sorted(tag_list, key=commit time)`, a stable insertion sort. */
  function SortByTime(s: seq<CommitTag>): (r: seq<CommitTag>)
    ensures |r| == |s|
    ensures multiset(r) == multiset(s)
  {
    if s == [] then []
    else
      assert s == s[..|s| - 1] + [s[|s| - 1]];
      Insert(s[|s| - 1], SortByTime(s[..|s| - 1]))
  }

  predicate SortedByTime(s: seq<CommitTag>) {
    forall i, j :: 0 <= i < j < |s| ==> s[i].time <= s[j].time
  }

  lemma {:induction false} InsertSorted(t: CommitTag, s: seq<CommitTag>)
    requires SortedByTime(s)
    ensures SortedByTime(Insert(t, s))
  {
    if s != [] && t.time >= s[0].time {
      InsertSorted(t, s[1..]);
      var r := Insert(t, s[1..]);
      forall k | 0 <= k < |r| ensures s[0].time <= r[k].time {
        assert r[k] in multiset(r);
        if r[k] != t {
          assert r[k] in multiset(s[1..]);
          var m :| 0 <= m < |s[1..]| && s[1..][m] == r[k];
          assert s[m + 1] == r[k];
        }
      }
    }
  }

  /** The sort yields commit times in non-decreasing order. */
  lemma {:induction false} SortedBySortByTime(s: seq<CommitTag>)
    ensures SortedByTime(SortByTime(s))
  {
    if s != [] {
      SortedBySortByTime(s[..|s| - 1]);
      InsertSorted(s[|s| - 1], SortByTime(s[..|s| - 1]));
    }
  }

  lemma {:induction false} InsertAtEnd(t: CommitTag, s: seq<CommitTag>)
    requires forall i :: 0 <= i < |s| ==> s[i].time <= t.time
    ensures Insert(t, s) == s + [t]
  {
    if s != [] {
      InsertAtEnd(t, s[1..]);
      assert s == [s[0]] + s[1..];
    }
  }

  lemma {:induction false} InsertKeepsLast(t: CommitTag, s: seq<CommitTag>, i: nat)
    requires i < |s| && t.time < s[i].time
    ensures Insert(t, s)[|s|] == s[|s| - 1]
  {
    if t.time >= s[0].time {
      InsertKeepsLast(t, s[1..], i - 1);
    }
  }

  /** Position `k` holds the latest element: no element is later, and every
      element after `k` is strictly earlier (the last of the latest). */
  predicate IsLatestAt(s: seq<CommitTag>, k: int) {
    0 <= k < |s|
    && (forall j :: 0 <= j < |s| ==> s[j].time <= s[k].time)
    && (forall j :: k < j < |s| ==> s[j].time < s[k].time)
  }

  lemma InMultiset(s: seq<CommitTag>, r: seq<CommitTag>, j: nat) returns (i: nat)
    requires multiset(s) == multiset(r) && j < |s|
    ensures i < |r| && r[i] == s[j]
  {
    assert s[j] in multiset(r);
    i :| 0 <= i < |r| && r[i] == s[j];
  }

  lemma SortByTimeSnoc(p: seq<CommitTag>, x: CommitTag)
    ensures SortByTime(p + [x]) == Insert(x, SortByTime(p))
  {
    var s := p + [x];
    assert s[..|s| - 1] == p && s[|s| - 1] == x;
  }

  /** An element no earlier than everything before it ends the sort, and is the latest. */
  lemma LatestAppended(p: seq<CommitTag>, x: CommitTag)
    requires forall i :: 0 <= i < |SortByTime(p)| ==> SortByTime(p)[i].time <= x.time
    ensures IsLatestAt(p + [x], |p|) && SortByTime(p + [x])[|p|] == x
  {
    var sp := SortByTime(p);
    assert SortByTime(p + [x]) == sp + [x] by {
      SortByTimeSnoc(p, x);
      InsertAtEnd(x, sp);
    }
    var s := p + [x];
    forall j | 0 <= j < |s| ensures s[j].time <= x.time {
      if j < |p| {
        assert s[j] == p[j];
        var i := InMultiset(p, sp, j);
      }
    }
  }

  /** An element earlier than something before it leaves the last of the sort in place. */
  lemma LatestKept(p: seq<CommitTag>, x: CommitTag, i: nat, k: nat)
    requires i < |SortByTime(p)| && SortByTime(p)[i].time > x.time
    requires IsLatestAt(p, k) && SortByTime(p)[|p| - 1] == p[k]
    ensures IsLatestAt(p + [x], k) && SortByTime(p + [x])[|p|] == p[k]
  {
    var sp := SortByTime(p);
    assert SortByTime(p + [x])[|p|] == sp[|p| - 1] by {
      SortByTimeSnoc(p, x);
      InsertKeepsLast(x, sp, i);
    }
    assert x.time < p[k].time by {
      var m := InMultiset(sp, p, i);
    }
  }

  /** The last element of the stable sort is the latest element, and among
      elements of equal latest time the one that came last in the input. */
  lemma {:induction false} SortByTimeLast(s: seq<CommitTag>) returns (k: nat)
    requires s != []
    ensures IsLatestAt(s, k) && SortByTime(s)[|s| - 1] == s[k]
  {
    var p, x := s[..|s| - 1], s[|s| - 1];
    assert s == p + [x];
    var sp := SortByTime(p);
    if forall i :: 0 <= i < |sp| ==> sp[i].time <= x.time {
      LatestAppended(p, x);
      k := |p|;
    } else {
      var i :| 0 <= i < |sp| && sp[i].time > x.time;
      k := SortByTimeLast(p);
      LatestKept(p, x, i, k);
    }
  }

  /** Tag `k` is the one get_latest_tag returns: it points at a commit, no
      commit of another tag is later, and every later-listed tag with a commit
      is strictly earlier. */
  predicate IsLatestTag(tags: seq<TagRef>, k: int) {
    0 <= k < |tags| && tags[k].committed.Some?
    && (forall j :: 0 <= j < |tags| && tags[j].committed.Some? ==>
          tags[j].committed.value <= tags[k].committed.value)
    && (forall j :: k < j < |tags| && tags[j].committed.Some? ==>
          tags[j].committed.value < tags[k].committed.value)
  }

  /** The latest tag is unique. */
  lemma IsLatestTagUnique(tags: seq<TagRef>, k1: int, k2: int)
    requires IsLatestTag(tags, k1) && IsLatestTag(tags, k2)
    ensures k1 == k2
  {
  }

  lemma {:induction false} CommittedCovers(tags: seq<TagRef>, j: nat) returns (m: nat)
    requires j < |tags| && tags[j].committed.Some?
    ensures m < |Committed(tags)| && Committed(tags)[m] == CommitTag(tags[j].name, tags[j].committed.value)
  {
    var p := tags[..|tags| - 1];
    if j == |tags| - 1 {
      m := |Committed(p)|;
    } else {
      m := CommittedCovers(p, j);
    }
  }

  lemma {:induction false} CommittedNonEmpty(tags: seq<TagRef>) returns (j: nat)
    requires Committed(tags) != []
    ensures j < |tags| && tags[j].committed.Some?
  {
    var p := tags[..|tags| - 1];
    if tags[|tags| - 1].committed.Some? {
      j := |tags| - 1;
    } else {
      j := CommittedNonEmpty(p);
    }
  }

  /** The latest element of the filtered list is the latest tag of the listing. */
  lemma {:induction false} CommittedLatest(tags: seq<TagRef>, m: int) returns (k: int)
    requires IsLatestAt(Committed(tags), m)
    ensures IsLatestTag(tags, k)
    ensures Committed(tags)[m] == CommitTag(tags[k].name, tags[k].committed.value)
  {
    var p, t := tags[..|tags| - 1], tags[|tags| - 1];
    var c := Committed(tags);
    assert forall j :: 0 <= j < |p| ==> tags[j] == p[j];
    if t.committed.None? {
      assert c == Committed(p);
      k := CommittedLatest(p, m);
    } else if m == |c| - 1 {
      k := |tags| - 1;
      forall j | 0 <= j < |tags| && tags[j].committed.Some?
        ensures tags[j].committed.value <= t.committed.value
      {
        var i := CommittedCovers(tags, j);
      }
    } else {
      var cp := Committed(p);
      assert c == cp + [CommitTag(t.name, t.committed.value)];
      assert m < |cp|;
      assert forall j :: 0 <= j < |cp| ==> c[j] == cp[j];
      assert IsLatestAt(cp, m);
      k := CommittedLatest(p, m);
      assert c[|c| - 1].time < c[m].time;
    }
  }

  /** Every tag kept by the filter is a listed tag with that commit time. */
  lemma {:induction false} CommittedFrom(tags: seq<TagRef>)
    ensures forall c :: c in Committed(tags) ==>
      exists j :: 0 <= j < |tags| && tags[j] == TagRef(c.name, Some(c.time))
  {
    if tags != [] {
      var p := tags[..|tags| - 1];
      CommittedFrom(p);
      assert forall j :: 0 <= j < |p| ==> p[j] == tags[j];
    }
  }

  /** The functional reading of get_latest_tag: `str(sorted(tag_list, ...)[-1])`,
      where indexing an empty list raises IndexError. */
  function LatestTagName(tags: seq<TagRef>): (r: Result<string>)
    ensures r.Err? ==> r.error == IndexError
    ensures r.Ok? ==> exists j :: 0 <= j < |tags| && tags[j].committed.Some? && tags[j].name == r.value
  {
    var sorted := SortByTime(Committed(tags));
    if sorted == [] then Err(IndexError)
    else
      CommittedFrom(tags);
      assert sorted[|sorted| - 1] in multiset(Committed(tags));
      Ok(sorted[|sorted| - 1].name)
  }

  /** No tag of the repository points at a commit. */
  predicate Untagged(tags: seq<TagRef>) {
    forall j :: 0 <= j < |tags| ==> tags[j].committed.None?
  }

  /** get_latest_tag fails, with IndexError, exactly when no tag points at a commit. */
  lemma LatestTagNameFails(tags: seq<TagRef>)
    ensures LatestTagName(tags).Err? <==> Untagged(tags)
    ensures LatestTagName(tags).Err? ==> LatestTagName(tags).error == IndexError
  {
    if Committed(tags) == [] {
      forall j | 0 <= j < |tags| ensures tags[j].committed.None? {
        if tags[j].committed.Some? {
          var m := CommittedCovers(tags, j);
        }
      }
    } else {
      var j := CommittedNonEmpty(tags);
    }
  }

  /** get_latest_tag fails with IndexError exactly when no tag points at a
      commit, and otherwise names the latest tag. */
  lemma LatestTagNameIsLatest(tags: seq<TagRef>)
    ensures LatestTagName(tags).Err? <==> forall j :: 0 <= j < |tags| ==> tags[j].committed.None?
    ensures LatestTagName(tags).Err? ==> LatestTagName(tags).error == IndexError
    ensures LatestTagName(tags).Ok? ==> exists k :: IsLatestTag(tags, k) && LatestTagName(tags).value == tags[k].name
  {
    LatestTagNameFails(tags);
    var c := Committed(tags);
    if c != [] {
      var m := SortByTimeLast(c);
      var k := CommittedLatest(tags, m);
    }
  }

  /** `get_latest_tag` applied to each repository, given each repository's tags. */
  function LatestTags(repoTags: string -> seq<TagRef>): (latest: string -> Result<string>)
    ensures forall repo :: latest(repo) == LatestTagName(repoTags(repo))
  {
    repo => LatestTagName(repoTags(repo))
  }

  /** get_latest_tag itself: the loop that prunes tags without a commit, then
      the sort and the last element. */
  method LatestTag(tags: seq<TagRef>) returns (r: Result<string>)
    ensures r == LatestTagName(tags)
    ensures r.Err? <==> forall j :: 0 <= j < |tags| ==> tags[j].committed.None?
    ensures r.Ok? ==> exists k :: IsLatestTag(tags, k) && r.value == tags[k].name
  {
    var tagList: seq<CommitTag> := [];
    for i := 0 to |tags|
      invariant tagList == Committed(tags[..i])
    {
      assert tags[..i + 1][..i] == tags[..i];
      if tags[i].committed.Some? {
        tagList := tagList + [CommitTag(tags[i].name, tags[i].committed.value)];
      }
    }
    assert tags[..|tags|] == tags;
    var sorted := SortByTime(tagList);
    if |sorted| == 0 {
      r := Err(IndexError);
    } else {
      r := Ok(sorted[|sorted| - 1].name);
    }
    LatestTagNameIsLatest(tags);
  }
}
