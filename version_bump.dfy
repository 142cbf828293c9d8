/** `bump_tag_version` (esgf_build.py:258-279): turn the latest tag of a
    repository into the next version tag, asking which component to increment
    until the answer names one. */
module VersionBump {
  import opened Builtins
  import opened Prompts
  import opened SemVer

  /** The number of a component in the menu the loop prints. */
  function MenuNumber(part: Part): string {
    match part
    case Major => "0"
    case Minor => "1"
    case Patch => "2"
  }

  /** The name of a component as the loop spells it. */
  function PartName(part: Part): string {
    match part
    case Major => "major"
    case Minor => "minor"
    case Patch => "patch"
  }

  /** The selections the loop accepts: "0" or "major", "1" or "minor", "2" or "patch". */
  function SelectedPart(selection: string): (r: Option<Part>)
    ensures forall part :: r == Some(part) <==> selection == MenuNumber(part) || selection == PartName(part)
  {
    if selection == "0" || selection == "major" then Some(Major)
    else if selection == "1" || selection == "minor" then Some(Minor)
    else if selection == "2" || selection == "patch" then Some(Patch)
    else None
  }

  predicate IsPartAnswer(selection: string) {
    SelectedPart(selection).Some?
  }

  /** The selections the loop looks at, in order: the caller's selection when
      it is truthy, then each line typed at the prompt. */
  function Candidates(selection: Option<string>, answers: seq<string>): seq<string> {
    (if Truthy(selection) then [selection.value] else []) + answers
  }

  /** The component chosen by the first acceptable selection, if any. */
  function ChosenPart(candidates: seq<string>): (r: Option<Part>)
    ensures r.Some? <==> exists i :: 0 <= i < |candidates| && IsPartAnswer(candidates[i])
  {
    match FirstAccepted(candidates, IsPartAnswer)
    case None => None
    case Some(k) => SelectedPart(candidates[k])
  }

  lemma ChosenPartCons(x: string, rest: seq<string>)
    ensures ChosenPart([x] + rest) == if IsPartAnswer(x) then SelectedPart(x) else ChosenPart(rest)
  {
    FirstAcceptedCons(x, rest, IsPartAnswer);
  }

  lemma CandidatesChosen(selection: Option<string>, rest: seq<string>)
    ensures ChosenPart(Candidates(selection, rest))
            == if Truthy(selection) && IsPartAnswer(selection.value) then SelectedPart(selection.value)
               else ChosenPart(rest)
  {
    if Truthy(selection) {
      ChosenPartCons(selection.value, rest);
    } else {
      assert Candidates(selection, rest) == rest;
    }
  }

  /** The tag a bump of `part` makes from `currentVersion`: every 'v' removed,
      the version bumped, "v" put back in front. A string the version parser
      refuses raises ValueError. */
  function BumpedTag(currentVersion: string, part: Part): Result<string> {
    var cv := RemoveAll(currentVersion, 'v');
    match Parse(cv)
    case None => Err(ValueError(cv))
    case Some(v) => Ok("v" + Format(Bump(part, v)))
  }

  /** A bumped tag is "v" followed by a version string that reads back as the
      bumped version: never unprefixed, never unbumped. */
  lemma BumpedTagShape(currentVersion: string, part: Part)
    ensures BumpedTag(currentVersion, part).Ok? <==> Parse(RemoveAll(currentVersion, 'v')).Some?
    ensures BumpedTag(currentVersion, part).Ok? ==>
      var t := BumpedTag(currentVersion, part).value;
      |t| > 0 && t[0] == 'v' && Parse(t[1..]) == Some(Bump(part, Parse(RemoveAll(currentVersion, 'v')).value))
  {
    var cv := RemoveAll(currentVersion, 'v');
    if Parse(cv).Some? {
      var w := Bump(part, Parse(cv).value);
      ParseFormat(w);
      assert ("v" + Format(w))[1..] == Format(w);
    }
  }

  lemma NoVInFormat(v: Version)
    ensures 'v' !in Format(v)
  {
    FormatSpelledOut(v);
  }

  /** A tag written by an earlier bump is read back as its version, so bumps compose. */
  lemma BumpedTagAgain(v: Version, part: Part)
    ensures BumpedTag("v" + Format(v), part) == Ok("v" + Format(Bump(part, v)))
  {
    var s := "v" + Format(v);
    NoVInFormat(v);
    assert s[1..] == Format(v);
    assert RemoveAll(s, 'v') == Format(v);
    ParseFormat(v);
  }

  /** The tag of a version whose components are single digits, character by character. */
  lemma TagSpelling(v: Version)
    requires v.major < 10 && v.minor < 10 && v.patch < 10
    ensures "v" + Format(v) == ['v', DigitChar(v.major), '.', DigitChar(v.minor), '.', DigitChar(v.patch)]
  {
    FormatSingleDigits(v);
  }

  /** The three bumps of tag v1.2.3. */
  lemma BumpedTagExamples()
    ensures BumpedTag("v1.2.3", Patch) == Ok("v1.2.4")
    ensures BumpedTag("v1.2.3", Minor) == Ok("v1.3.0")
    ensures BumpedTag("v1.2.3", Major) == Ok("v2.0.0")
  {
    TagSpelling(Version(1, 2, 3));
    TagSpelling(Version(1, 2, 4));
    TagSpelling(Version(1, 3, 0));
    TagSpelling(Version(2, 0, 0));
    BumpedTagAgain(Version(1, 2, 3), Patch);
    BumpedTagAgain(Version(1, 2, 3), Minor);
    BumpedTagAgain(Version(1, 2, 3), Major);
  }

  /** What `bump_tag_version` returns. Every 'v' of `currentVersion` is
      removed. The menu prints all three bumps before it reads an answer, so a
      version the parser refuses raises ValueError whatever the answers;
      otherwise the first acceptable selection decides the bump, and EOFError
      is raised when the answers run out. */
  function BumpOutcome(currentVersion: string, selection: Option<string>, answers: seq<string>): Result<string> {
    var cv := RemoveAll(currentVersion, 'v');
    if Parse(cv).None? then Err(ValueError(cv))
    else
      match ChosenPart(Candidates(selection, answers))
      case None => Err(EOFError)
      case Some(part) => BumpedTag(currentVersion, part)
  }

  /** A tag is returned exactly when the version parses and some selection is
      acceptable; it is "v" followed by the bumped version, which has higher
      precedence than the current one: never unprefixed, never unbumped. */
  lemma BumpOutcomeIsBump(currentVersion: string, selection: Option<string>, answers: seq<string>)
    ensures var r := BumpOutcome(currentVersion, selection, answers);
      var cv := RemoveAll(currentVersion, 'v');
      var candidates := Candidates(selection, answers);
      (r.Ok? <==> Parse(cv).Some? && exists i :: 0 <= i < |candidates| && IsPartAnswer(candidates[i]))
      && (r.Err? ==> r.error == if Parse(cv).None? then ValueError(cv) else EOFError)
      && (r.Ok? ==>
            (|r.value| > 0 && r.value[0] == 'v'
             && Parse(r.value[1..]) == Some(Bump(ChosenPart(candidates).value, Parse(cv).value))
             && Precedes(Parse(cv).value, Parse(r.value[1..]).value)))
  {
    var candidates := Candidates(selection, answers);
    if Parse(RemoveAll(currentVersion, 'v')).Some? && ChosenPart(candidates).Some? {
      var part := ChosenPart(candidates).value;
      BumpedTagShape(currentVersion, part);
      BumpIsLeastChange(part, Parse(RemoveAll(currentVersion, 'v')).value, Parse(RemoveAll(currentVersion, 'v')).value);
    }
  }

  lemma BumpOutcomeCases(currentVersion: string, selection: Option<string>, answers: seq<string>)
    ensures var cv := RemoveAll(currentVersion, 'v');
      var chosen := ChosenPart(Candidates(selection, answers));
      BumpOutcome(currentVersion, selection, answers)
        == if Parse(cv).None? then Err(ValueError(cv))
           else if chosen.None? then Err(EOFError)
           else Ok("v" + Format(Bump(chosen.value, Parse(cv).value)))
  {
  }

  /** `bump_tag_version`: the `while True` loop over the caller's selection
      and then the typed answers. */
  method BumpTagVersion(currentVersion: string, selection: Option<string>, answers: seq<string>)
    returns (r: Result<string>)
    ensures r == BumpOutcome(currentVersion, selection, answers)
  {
    var version := RemoveAll(currentVersion, 'v');
    var parsed := Parse(version);
    ghost var chosen := ChosenPart(Candidates(selection, answers));
    BumpOutcomeCases(currentVersion, selection, answers);
    var sel := selection;
    var rest := answers;
    while true
      invariant ChosenPart(Candidates(sel, rest)) == chosen
      decreases |rest|, if Truthy(sel) then 1 else 0
    {
      if !Truthy(sel) {
        CandidatesChosen(sel, rest);
        // the menu shows all three bumps, which fails on a malformed version
        if parsed.None? {
          return Err(ValueError(version));
        }
        if rest == [] {
          return Err(EOFError);
        }
        assert rest == [rest[0]] + rest[1..];
        ChosenPartCons(rest[0], rest[1..]);
        sel := Some(rest[0]);
        rest := rest[1..];
      }
      CandidatesChosen(sel, rest);
      var part := SelectedPart(sel.value);
      if part.Some? {
        if parsed.None? {
          return Err(ValueError(version));
        }
        return Ok("v" + Format(Bump(part.value, parsed.value)));
      }
      sel := None;
      CandidatesChosen(sel, rest);
    }
  }
}
