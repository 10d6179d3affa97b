/** The Windows helpers of util/sys/sys_windows.go: counting the TCP and
    UDP lines of `netstat -an` output and collecting process ids from
    `tasklist` output. A command's outcome is a parameter: `Ok(output)`
    or `Err(e)` with the error the command returned. */
module WindowsSys {
  import opened Wrappers
  import opened GoStrings

  /** A line GetTCPCount counts: it mentions TCP and one of the states
      ESTABLISHED, LISTENING or TIME_WAIT. */
  predicate IsTCPLine(line: string) {
    Contains(line, "TCP") && (Contains(line, "ESTABLISHED") || Contains(line, "LISTENING") || Contains(line, "TIME_WAIT"))
  }

  /** A line GetUDPCount counts: it mentions UDP. */
  predicate IsUDPLine(line: string) {
    Contains(line, "UDP")
  }

  predicate MentionsTCP(line: string) {
    Contains(line, "TCP")
  }

  /** The number of lines that satisfy `p`. */
  function CountLines(lines: seq<string>, p: string -> bool): (r: nat)
    ensures r <= |lines|
    decreases |lines|
  {
    if lines == [] then 0
    else CountLines(lines[..|lines| - 1], p) + (if p(lines[|lines| - 1]) then 1 else 0)
  }

  /** Counting over two runs of lines adds up. */
  lemma {:induction false} CountLinesAppend(a: seq<string>, b: seq<string>, p: string -> bool)
    ensures CountLines(a + b, p) == CountLines(a, p) + CountLines(b, p)
    decreases |b|
  {
    if b != [] {
      assert (a + b)[..|a + b| - 1] == a + b[..|b| - 1];
      assert (a + b)[|a + b| - 1] == b[|b| - 1];
      CountLinesAppend(a, b[..|b| - 1], p);
    } else {
      assert a + b == a;
    }
  }

  /** The count is zero exactly when no line satisfies `p`, and it is the
      number of lines exactly when every line does. */
  lemma {:induction false} CountLinesExtremes(lines: seq<string>, p: string -> bool)
    ensures CountLines(lines, p) == 0 <==> forall i :: 0 <= i < |lines| ==> !p(lines[i])
    ensures CountLines(lines, p) == |lines| <==> forall i :: 0 <= i < |lines| ==> p(lines[i])
    decreases |lines|
  {
    if lines != [] {
      var init := lines[..|lines| - 1];
      CountLinesExtremes(init, p);
      assert forall i :: 0 <= i < |init| ==> init[i] == lines[i];
    }
  }

  /** A test that holds of fewer lines counts fewer lines. */
  lemma {:induction false} CountLinesMonotone(lines: seq<string>, p: string -> bool, q: string -> bool)
    requires forall i :: 0 <= i < |lines| ==> p(lines[i]) ==> q(lines[i])
    ensures CountLines(lines, p) <= CountLines(lines, q)
    decreases |lines|
  {
    if lines != [] {
      var init := lines[..|lines| - 1];
      assert forall i :: 0 <= i < |init| ==> init[i] == lines[i];
      CountLinesMonotone(init, p, q);
    }
  }

  /** Both counts are at most the number of newline-separated lines of the
      output, and the TCP count at most the number of lines mentioning TCP. */
  lemma CountsBounded(output: string)
    ensures CountLines(Split(output, '\n'), IsTCPLine) <= CountChar(output, '\n') + 1
    ensures CountLines(Split(output, '\n'), IsUDPLine) <= CountChar(output, '\n') + 1
    ensures CountLines(Split(output, '\n'), IsTCPLine) <= CountLines(Split(output, '\n'), MentionsTCP)
  {
    SplitCount(output, '\n');
    CountLinesMonotone(Split(output, '\n'), IsTCPLine, MentionsTCP);
  }

  /** GetTCPCount over the outcome of `netstat -an`. */
  method GetTCPCount(output: Result<string>) returns (r: Result<nat>)
    ensures output.Err? ==> r == Err(output.error)
    ensures output.Ok? ==> r == Ok(CountLines(Split(output.value, '\n'), IsTCPLine))
  {
    if output.Err? {
      return Err(output.error);
    }
    var lines := Split(output.value, '\n');
    var count := 0;
    for i := 0 to |lines|
      invariant count == CountLines(lines[..i], IsTCPLine)
    {
      assert lines[..i + 1][..i] == lines[..i];
      if Contains(lines[i], "TCP")
        && (Contains(lines[i], "ESTABLISHED") || Contains(lines[i], "LISTENING") || Contains(lines[i], "TIME_WAIT"))
      {
        count := count + 1;
      }
    }
    assert lines[..|lines|] == lines;
    return Ok(count);
  }

  /** GetUDPCount over the outcome of `netstat -an`. */
  method GetUDPCount(output: Result<string>) returns (r: Result<nat>)
    ensures output.Err? ==> r == Err(output.error)
    ensures output.Ok? ==> r == Ok(CountLines(Split(output.value, '\n'), IsUDPLine))
  {
    if output.Err? {
      return Err(output.error);
    }
    var lines := Split(output.value, '\n');
    var count := 0;
    for i := 0 to |lines|
      invariant count == CountLines(lines[..i], IsUDPLine)
    {
      assert lines[..i + 1][..i] == lines[..i];
      if Contains(lines[i], "UDP") {
        count := count + 1;
      }
    }
    assert lines[..|lines|] == lines;
    return Ok(count);
  }

  /** The pid a line of `tasklist` output yields: the line mentions the
      process name, has at least two fields, and the second one parses. */
  function PidOf(line: string, processName: string): Option<int> {
    if Contains(line, processName) then
      var fields := Fields(line);
      if |fields| >= 2 then Atoi(fields[1]) else None
    else None
  }

  function OptionToSeq(o: Option<int>): seq<int> {
    if o.Some? then [o.value] else []
  }

  /** The pids GetPid collects, in line order. */
  function Pids(lines: seq<string>, processName: string): (r: seq<int>)
    ensures |r| <= |lines|
    decreases |lines|
  {
    if lines == [] then []
    else Pids(lines[..|lines| - 1], processName) + OptionToSeq(PidOf(lines[|lines| - 1], processName))
  }

  /** The pids of two runs of lines: those of the first run, then those of
      the second. */
  lemma {:induction false} PidsAppend(a: seq<string>, b: seq<string>, processName: string)
    ensures Pids(a + b, processName) == Pids(a, processName) + Pids(b, processName)
    decreases |b|
  {
    if b != [] {
      assert (a + b)[..|a + b| - 1] == a + b[..|b| - 1];
      assert (a + b)[|a + b| - 1] == b[|b| - 1];
      PidsAppend(a, b[..|b| - 1], processName);
    } else {
      assert a + b == a;
    }
  }

  /** Every collected pid is the pid of some line. */
  lemma {:induction false} PidsSound(lines: seq<string>, processName: string)
    ensures forall k :: 0 <= k < |Pids(lines, processName)| ==>
              exists i :: 0 <= i < |lines| && PidOf(lines[i], processName) == Some(Pids(lines, processName)[k])
    decreases |lines|
  {
    if lines != [] {
      var init := lines[..|lines| - 1];
      var last := lines[|lines| - 1];
      var before := Pids(init, processName);
      PidsSound(init, processName);
      var r := Pids(lines, processName);
      assert r == before + OptionToSeq(PidOf(last, processName));
      forall k | 0 <= k < |r|
        ensures exists i :: 0 <= i < |lines| && PidOf(lines[i], processName) == Some(r[k])
      {
        if k < |before| {
          assert r[k] == before[k];
          var i :| 0 <= i < |init| && PidOf(init[i], processName) == Some(before[k]);
          assert lines[i] == init[i];
          assert PidOf(lines[i], processName) == Some(r[k]);
        } else {
          assert PidOf(last, processName).Some? && r[k] == PidOf(last, processName).value;
          assert PidOf(lines[|lines| - 1], processName) == Some(r[k]);
        }
      }
      assert r == Pids(lines, processName);
    } else {
      assert Pids(lines, processName) == [];
    }
  }

  /** Every line's pid is collected. */
  lemma {:induction false} PidsComplete(lines: seq<string>, processName: string)
    ensures forall i :: 0 <= i < |lines| && PidOf(lines[i], processName).Some? ==>
              PidOf(lines[i], processName).value in Pids(lines, processName)
    decreases |lines|
  {
    if lines != [] {
      var init := lines[..|lines| - 1];
      var last := lines[|lines| - 1];
      PidsComplete(init, processName);
      var r := Pids(lines, processName);
      assert r == Pids(init, processName) + OptionToSeq(PidOf(last, processName));
      forall i | 0 <= i < |lines| && PidOf(lines[i], processName).Some?
        ensures PidOf(lines[i], processName).value in r
      {
        if i < |init| {
          assert lines[i] == init[i];
        }
      }
    }
  }

  /** No pid is collected exactly when no line yields one. */
  lemma {:induction false} PidsEmpty(lines: seq<string>, processName: string)
    ensures Pids(lines, processName) == [] <==> forall i :: 0 <= i < |lines| ==> PidOf(lines[i], processName).None?
    decreases |lines|
  {
    if lines != [] {
      var init := lines[..|lines| - 1];
      PidsEmpty(init, processName);
      assert forall i :: 0 <= i < |init| ==> init[i] == lines[i];
    }
  }

  /** GetPid over the outcome of `tasklist /FI "IMAGENAME eq <name>" /NH`. */
  method GetPid(processName: string, output: Result<string>) returns (r: Result<seq<int>>)
    ensures output.Err? ==> r == Err(output.error)
    ensures output.Ok? && Pids(Split(output.value, '\n'), processName) == [] ==> r == Err("process not found")
    ensures output.Ok? && Pids(Split(output.value, '\n'), processName) != [] ==>
              r == Ok(Pids(Split(output.value, '\n'), processName))
  {
    if output.Err? {
      return Err(output.error);
    }
    var lines := Split(output.value, '\n');
    var pids: seq<int> := [];
    for i := 0 to |lines|
      invariant pids == Pids(lines[..i], processName)
    {
      assert lines[..i + 1][..i] == lines[..i];
      if Contains(lines[i], processName) {
        var fields := Fields(lines[i]);
        if |fields| >= 2 {
          var pid := Atoi(fields[1]);
          if pid.Some? {
            pids := pids + [pid.value];
          }
        }
      }
    }
    assert lines[..|lines|] == lines;
    if |pids| == 0 {
      return Err("process not found");
    }
    return Ok(pids);
  }

  /** On Windows the system name is a constant. */
  function GetSystemInfo(): (r: string)
    ensures r == "Windows"
  {
    "Windows"
  }
}
