/** The version test of `check_java_compiler` (esgf_build.py:435-444): the
    second space-separated word of the output of `javac -version` must start
    with "1.8.0", the Java 8 compiler the ESGF web applications are built with. */
module Preflight {
  import opened Builtins

  /** `output.split(" ")[1]`: the word after the first space, up to the next
      space or the end; IndexError when there is no space. */
  function ReportedVersion(output: string): (r: Result<string>)
    ensures r.Err? <==> ' ' !in output
    ensures r.Err? ==> r.error == IndexError
    ensures r.Ok? ==>
      var start := IndexOf(output, ' ') + 1;
      r.value <= output[start..] && ' ' !in r.value
      && (start + |r.value| < |output| ==> output[start + |r.value|] == ' ')
  {
    SplitOnFirst(output, ' ');
    if ' ' in output then
      var rest := output[IndexOf(output, ' ') + 1..];
      SplitOnFirst(rest, ' ');
      PyIndex(SplitOn(output, ' '), 1)
    else
      PyIndex(SplitOn(output, ' '), 1)
  }

  /** `check_java_compiler` after the call: passes exactly when the reported
      version starts with "1.8.0"; otherwise EnvironmentError names the
      version found. */
  function CheckJavaCompiler(output: string): (r: Result<()>)
    ensures r.Ok? <==> ReportedVersion(output).Ok? && StartsWith(ReportedVersion(output).value, "1.8.0")
    ensures r.Err? && ReportedVersion(output).Ok? ==> r.error == EnvironmentError(ReportedVersion(output).value)
    ensures ReportedVersion(output).Err? ==> r == Err(IndexError)
  {
    match ReportedVersion(output)
    case Err(e) => Err(e)
    case Ok(javac) => if StartsWith(javac, "1.8.0") then Ok(()) else Err(EnvironmentError(javac))
  }

  lemma ReportedVersionOneSpace(output: string, k: nat)
    requires k < |output| && output[k] == ' ' && ' ' !in output[..k] && ' ' !in output[k + 1..]
    ensures ReportedVersion(output) == Ok(output[k + 1..])
  {
    assert IndexOf(output, ' ') == k;
    SplitOnFirst(output, ' ');
    SplitOnFirst(output[k + 1..], ' ');
  }

  /** Every Java 8 update passes. */
  lemma Java8Passes(update: string)
    requires ' ' !in update
    ensures CheckJavaCompiler("javac 1.8.0_" + update).Ok?
  {
    var output := "javac 1.8.0_" + update;
    assert output[..5] == "javac" && output[5] == ' ';
    assert output[6..] == "1.8.0_" + update;
    ReportedVersionOneSpace(output, 5);
    assert output[6..][..5] == "1.8.0";
  }

  /** A compiler of a later major version is refused, with the version it reports. */
  lemma LaterJavaRefused(major: string, rest: string)
    requires major == "11" || major == "17" || major == "21"
    requires ' ' !in rest
    ensures CheckJavaCompiler("javac " + major + rest) == Err(EnvironmentError(major + rest))
  {
    var output := "javac " + major + rest;
    assert output[..5] == "javac" && output[5] == ' ';
    assert output[6..] == major + rest;
    ReportedVersionOneSpace(output, 5);
    assert output[6..][1] != '.';
  }
}
