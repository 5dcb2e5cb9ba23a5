/** Reading the duration out of the prober's report: the report is checked
    for a successful exit status, split into lines at every newline, and the
    text after `duration=` on the first line that starts with it is the
    duration.  Running the prober and parsing the number are outside the
    model; the duration is returned as the text the number is parsed from. */
module DurationProbe {
  import opened RustTypes

  /** How the prober exited: its exit code, or none when a signal ended it. */
  datatype ExitStatus = ExitStatus(code: Option<int>)
  {
    /** A process succeeds when it exits with code zero. */
    predicate Success() {
      code == Some(0)
    }
  }

  /** Why no duration could be read. */
  datatype ProbeError = ProbeFailed(status: ExitStatus) | MissingDuration

  /** The key the duration line starts with. */
  const DURATION_PREFIX: string := "duration="

  /** Where the value starts on a duration line. */
  const DURATION_LEN: nat := |DURATION_PREFIX|

  /** No piece holds a newline. */
  predicate NewlineFree(ls: seq<string>) {
    forall i :: 0 <= i < |ls| ==> '\n' !in ls[i]
  }

  /** `s` splits at every newline into `|Lines(s)|` pieces, none holding a
      newline; a trailing newline leaves an empty last piece. */
  function Lines(s: string): (ls: seq<string>)
    ensures |ls| >= 1
    ensures NewlineFree(ls)
    decreases |s|
  {
    if |s| == 0 then [""]
    else if s[0] == '\n' then [""] + Lines(s[1..])
    else
      var rest := Lines(s[1..]);
      [[s[0]] + rest[0]] + rest[1..]
  }

  /** The pieces glued back with a newline between neighbours. */
  function Join(ls: seq<string>): string
    requires |ls| >= 1
    decreases |ls|
  {
    if |ls| == 1 then ls[0] else ls[0] + "\n" + Join(ls[1..])
  }

  /** Joining the pieces of a split gives back the text. */
  lemma {:induction false} JoinLines(s: string)
    ensures Join(Lines(s)) == s
    decreases |s|
  {
    if |s| > 0 {
      JoinLines(s[1..]);
      var rest := Lines(s[1..]);
      if s[0] == '\n' {
        assert Lines(s)[1..] == rest;
      } else {
        var ls := Lines(s);
        assert ls[0] == [s[0]] + rest[0];
        if |rest| == 1 {
          assert Join(ls) == [s[0]] + rest[0];
        } else {
          assert ls[1..] == rest[1..];
          assert Join(rest) == rest[0] + "\n" + Join(rest[1..]);
        }
        assert s == [s[0]] + s[1..];
      }
    }
  }

  /** Text without a newline in front of `t` joins the first piece of `t`. */
  lemma {:induction false} LinesOfPrefix(w: string, t: string)
    requires '\n' !in w
    ensures Lines(w + t) == [w + Lines(t)[0]] + Lines(t)[1..]
    decreases |w|
  {
    if |w| > 0 {
      LinesOfPrefix(w[1..], t);
      assert (w + t)[1..] == w[1..] + t;
      assert (w + t)[0] == w[0];
      assert [w[0]] + (w[1..] + Lines(t)[0]) == w + Lines(t)[0];
    } else {
      assert w + t == t;
      assert w + Lines(t)[0] == Lines(t)[0];
      assert Lines(t) == [Lines(t)[0]] + Lines(t)[1..];
    }
  }

  /** Splitting the join of newline-free pieces gives back the pieces. */
  lemma {:induction false} LinesJoin(ls: seq<string>)
    requires |ls| >= 1 && NewlineFree(ls)
    ensures Lines(Join(ls)) == ls
    decreases |ls|
  {
    if |ls| == 1 {
      LinesOfPrefix(ls[0], "");
      assert ls[0] + "" == ls[0];
    } else {
      var tail := Join(ls[1..]);
      LinesJoin(ls[1..]);
      LinesOfPrefix(ls[0], "\n" + tail);
      assert ("\n" + tail)[1..] == tail;
      assert Lines("\n" + tail) == [""] + ls[1..];
      assert ls[0] + "\n" + tail == ls[0] + ("\n" + tail);
      assert ls[0] + "" == ls[0];
    }
  }

  /** `line` begins with `prefix`. */
  predicate StartsWith(line: string, prefix: string) {
    |prefix| <= |line| && line[..|prefix|] == prefix
  }

  /** Whether `line` is a duration line. */
  predicate IsDurationLine(line: string) {
    StartsWith(line, DURATION_PREFIX)
  }

  /** The value of the first duration line, if any line is one. */
  function FindDuration(lines: seq<string>): (v: Option<string>)
    ensures v.None? <==> forall i :: 0 <= i < |lines| ==> !IsDurationLine(lines[i])
    ensures v.Some? ==>
      exists i :: 0 <= i < |lines| && lines[i] == DURATION_PREFIX + v.value
        && forall k :: 0 <= k < i ==> !IsDurationLine(lines[k])
    decreases |lines|
  {
    if |lines| == 0 then None
    else if IsDurationLine(lines[0]) then
      assert lines[0] == lines[0][..DURATION_LEN] + lines[0][DURATION_LEN..];
      Some(lines[0][DURATION_LEN..])
    else
      var v := FindDuration(lines[1..]);
      assert forall i :: 1 <= i < |lines| ==> lines[i] == lines[1..][i - 1];
      v
  }

  /** The duration text reported by the prober, or why there is none. */
  function GetVideoDuration(status: ExitStatus, stdout: string): (r: Result<string, ProbeError>)
    ensures r == Err(ProbeFailed(status)) <==> !status.Success()
    ensures r == Err(MissingDuration)
        ==> status.Success() && forall i :: 0 <= i < |Lines(stdout)| ==> !IsDurationLine(Lines(stdout)[i])
    ensures r != Err(MissingDuration)
        ==> !status.Success() || !forall i :: 0 <= i < |Lines(stdout)| ==> !IsDurationLine(Lines(stdout)[i])
    ensures r.Err? ==> r == Err(ProbeFailed(status)) || r == Err(MissingDuration)
    ensures r.Ok? ==>
      exists i :: 0 <= i < |Lines(stdout)| && Lines(stdout)[i] == DURATION_PREFIX + r.value
        && forall k :: 0 <= k < i ==> !IsDurationLine(Lines(stdout)[k])
  {
    if !status.Success() then Err(ProbeFailed(status))
    else
      var lines := Lines(stdout);
      match FindDuration(lines)
      case None => Err(MissingDuration)
      case Some(v) =>
        assert !forall i :: 0 <= i < |Lines(stdout)| ==> !IsDurationLine(Lines(stdout)[i]) by {
          var i :| 0 <= i < |lines| && lines[i] == DURATION_PREFIX + v;
          assert lines[i][..DURATION_LEN] == DURATION_PREFIX;
          assert IsDurationLine(Lines(stdout)[i]);
        }
        Ok(v)
  }

  /** Lines that are not duration lines are passed over; the first duration
      line decides and every line after it is ignored. */
  lemma {:induction false} FindDurationConcat(a: seq<string>, b: seq<string>)
    ensures FindDuration(a + b) == if FindDuration(a).Some? then FindDuration(a) else FindDuration(b)
    decreases |a|
  {
    if |a| == 0 {
      assert a + b == b;
    } else {
      assert (a + b)[0] == a[0];
      assert (a + b)[1..] == a[1..] + b;
      FindDurationConcat(a[1..], b);
    }
  }

  /** The prober's report split into given lines yields the first duration line's value. */
  lemma DurationOfJoinedLines(lines: seq<string>)
    requires |lines| >= 1 && NewlineFree(lines)
    ensures GetVideoDuration(ExitStatus(Some(0)), Join(lines))
         == match FindDuration(lines)
            case None => Err(MissingDuration)
            case Some(v) => Ok(v)
  {
    LinesJoin(lines);
  }

  /** A report whose first line is `duration=<v>` yields `v`, whatever follows. */
  lemma DurationOnFirstLine(v: string, rest: string)
    requires '\n' !in v
    ensures GetVideoDuration(ExitStatus(Some(0)), DURATION_PREFIX + v + "\n" + rest) == Ok(v)
  {
    var line := DURATION_PREFIX + v;
    assert '\n' !in line by {
      assert forall i :: 0 <= i < |line| ==> line[i] == if i < 9 then DURATION_PREFIX[i] else v[i - 9];
    }
    LinesOfPrefix(line, "\n" + rest);
    assert ("\n" + rest)[1..] == rest;
    assert DURATION_PREFIX + v + "\n" + rest == line + ("\n" + rest);
    assert Lines(line + ("\n" + rest))[0] == line + "";
    assert line + "" == line;
    assert line[..DURATION_LEN] == DURATION_PREFIX;
    assert line[DURATION_LEN..] == v;
  }
}
