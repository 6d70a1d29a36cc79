/** Launching a profile: every path is handed to the OS in list order, and a
    path that fails to start raises one warning without stopping the rest.
    The OS's answer to each attempt is an input, one outcome per attempt. */
module Launcher {
  import opened Profiles

  /** What process creation answered for one attempt. */
  datatype Outcome = Spawned | Failed(error: string)

  /** What a launch does, in order: an attempt to start a path, or the
      warning box naming a path that could not be started. */
  datatype Event = Attempt(path: Path) | Warning(path: Path, error: string)

  /** The paths attempted in `trace`, in order. */
  function Attempts(trace: seq<Event>): seq<Path>
  {
    if trace == [] then []
    else (if trace[0].Attempt? then [trace[0].path] else []) + Attempts(trace[1..])
  }

  /** The warnings shown in `trace`, in order. */
  function Warnings(trace: seq<Event>): seq<Event>
  {
    if trace == [] then []
    else (if trace[0].Warning? then [trace[0]] else []) + Warnings(trace[1..])
  }

  /** How many attempts failed. */
  function Failures(outcomes: seq<Outcome>): nat
  {
    if outcomes == [] then 0
    else (if outcomes[0].Failed? then 1 else 0) + Failures(outcomes[1..])
  }

  /** One pass of the loop: try the path; on failure, warn about it. */
  function Step(p: Path, o: Outcome): seq<Event>
  {
    [Attempt(p)] + (if o.Failed? then [Warning(p, o.error)] else [])
  }

  lemma {:induction false} AttemptsAppend(a: seq<Event>, b: seq<Event>)
    ensures Attempts(a + b) == Attempts(a) + Attempts(b)
    decreases |a|
  {
    if a == [] {
      assert a + b == b;
    } else {
      var h := if a[0].Attempt? then [a[0].path] else [];
      assert (a + b)[0] == a[0] && (a + b)[1..] == a[1..] + b;
      assert Attempts(a + b) == h + Attempts(a[1..] + b);
      AttemptsAppend(a[1..], b);
      assert h + (Attempts(a[1..]) + Attempts(b)) == (h + Attempts(a[1..])) + Attempts(b);
    }
  }

  lemma {:induction false} WarningsAppend(a: seq<Event>, b: seq<Event>)
    ensures Warnings(a + b) == Warnings(a) + Warnings(b)
    decreases |a|
  {
    if a == [] {
      assert a + b == b;
    } else {
      var h := if a[0].Warning? then [a[0]] else [];
      assert (a + b)[0] == a[0] && (a + b)[1..] == a[1..] + b;
      assert Warnings(a + b) == h + Warnings(a[1..] + b);
      WarningsAppend(a[1..], b);
      assert h + (Warnings(a[1..]) + Warnings(b)) == (h + Warnings(a[1..])) + Warnings(b);
    }
  }

  /** The loop over a profile's paths. Every path is attempted exactly once
      and in list order; there is one warning per failed attempt; each
      warning names the path attempted just before it; and every failure is
      reported with its own path and error. */
  function Launch(paths: seq<Path>, outcomes: seq<Outcome>): (trace: seq<Event>)
    requires |outcomes| == |paths|
    ensures Attempts(trace) == paths
    ensures |Warnings(trace)| == Failures(outcomes)
    ensures WarningsFollowAttempts(trace)
    ensures forall i :: 0 <= i < |paths| && outcomes[i].Failed? ==>
              Warning(paths[i], outcomes[i].error) in trace
    decreases |paths|
  {
    if paths == [] then []
    else
      var head := Step(paths[0], outcomes[0]);
      var rest := Launch(paths[1..], outcomes[1..]);
      AttemptsAppend(head, rest);
      WarningsAppend(head, rest);
      StepAdjacency(paths[0], outcomes[0], rest);
      assert forall i :: 1 <= i < |paths| ==> paths[i] == paths[1..][i - 1] && outcomes[i] == outcomes[1..][i - 1];
      head + rest
  }

  /** Every warning follows the attempt of its own path. */
  ghost predicate WarningsFollowAttempts(trace: seq<Event>)
  {
    forall j :: 0 <= j < |trace| && trace[j].Warning? ==> 0 < j && trace[j - 1] == Attempt(trace[j].path)
  }

  /** One more loop pass in front keeps warnings right after their attempts. */
  lemma StepAdjacency(p: Path, o: Outcome, rest: seq<Event>)
    requires WarningsFollowAttempts(rest)
    ensures WarningsFollowAttempts(Step(p, o) + rest)
  {
    var head := Step(p, o);
    var t := head + rest;
    forall j | 0 <= j < |t| && t[j].Warning?
      ensures 0 < j && t[j - 1] == Attempt(t[j].path)
    {
      if j >= |head| {
        assert t[j] == rest[j - |head|];
        if j - |head| > 0 {
          assert t[j - 1] == rest[j - |head| - 1];
        }
      }
    }
  }

  /** Failure isolation: launching two lists back to back is launching
      their concatenation, so nothing that happens in the first part,
      failures included, changes what happens in the second. */
  lemma {:induction false} LaunchAppend(p1: seq<Path>, o1: seq<Outcome>, p2: seq<Path>, o2: seq<Outcome>)
    requires |o1| == |p1| && |o2| == |p2|
    ensures Launch(p1 + p2, o1 + o2) == Launch(p1, o1) + Launch(p2, o2)
    decreases |p1|
  {
    if p1 == [] {
      assert p1 + p2 == p2 && o1 + o2 == o2;
    } else {
      assert (p1 + p2)[1..] == p1[1..] + p2;
      assert (o1 + o2)[1..] == o1[1..] + o2;
      LaunchAppend(p1[1..], o1[1..], p2, o2);
    }
  }

  /** A failing path in the middle of a profile yields exactly one warning,
      and the paths after it are still attempted, in order. */
  lemma LaunchIsolatesFailure(e: string)
    ensures Launch(["/valid/a", "/does/not/exist", "/valid/b"], [Spawned, Failed(e), Spawned])
         == [Attempt("/valid/a"), Attempt("/does/not/exist"), Warning("/does/not/exist", e), Attempt("/valid/b")]
  {
    var paths: seq<Path> := ["/valid/a", "/does/not/exist", "/valid/b"];
    var outcomes := [Spawned, Failed(e), Spawned];
    assert paths[1..] == ["/does/not/exist", "/valid/b"] && paths[1..][1..] == ["/valid/b"];
    assert outcomes[1..] == [Failed(e), Spawned] && outcomes[1..][1..] == [Spawned];
  }
}
