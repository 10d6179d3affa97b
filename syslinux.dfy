/** The Linux helpers of util/sys/sys_linux.go: counting lines of a file
    read through a fixed buffer, counting the lines of /proc/net/tcp and
    /proc/net/udp, looking up `key=value` lines, and the system name
    built from /etc/os-release. File contents and read outcomes are
    parameters. */
module LinuxSys {
  import opened Wrappers
  import opened GoStrings

  newtype byte = b: int | 0 <= b < 256

  const Newline: byte := 10

  /** The size of getLinesNum's read buffer. */
  const BufSize: nat := 8192

  function Zeros(n: nat): (r: seq<byte>)
    ensures |r| == n && forall k :: 0 <= k < n ==> r[k] == 0
  {
    seq(n, _ => 0)
  }

  /** The number of newline bytes. */
  function CountNL(s: seq<byte>): nat {
    if s == [] then 0 else CountNL(s[..|s| - 1]) + (if s[|s| - 1] == Newline then 1 else 0)
  }

  lemma {:induction false} CountNLAppend(a: seq<byte>, b: seq<byte>)
    ensures CountNL(a + b) == CountNL(a) + CountNL(b)
    decreases |b|
  {
    if b != [] {
      assert (a + b)[..|a + b| - 1] == a + b[..|b| - 1];
      assert (a + b)[|a + b| - 1] == b[|b| - 1];
      CountNLAppend(a, b[..|b| - 1]);
    } else {
      assert a + b == a;
    }
  }

  lemma {:induction false} CountNLNone(s: seq<byte>)
    requires forall k :: 0 <= k < |s| ==> s[k] != Newline
    ensures CountNL(s) == 0
    decreases |s|
  {
    if s != [] {
      CountNLNone(s[..|s| - 1]);
    }
  }

  /** `bytes.IndexByte`: the first position of `c`, or -1. */
  function IndexByte(s: seq<byte>, c: byte): (i: int)
    ensures -1 <= i < |s|
    ensures i >= 0 ==> s[i] == c && forall j :: 0 <= j < i ==> s[j] != c
    ensures i < 0 ==> forall j :: 0 <= j < |s| ==> s[j] != c
    decreases |s|
  {
    if s == [] then -1
    else if s[0] == c then 0
    else
      var i := IndexByte(s[1..], c);
      if i < 0 then -1 else i + 1
  }

  /** The buffer after a read of `chunk` into it: the chunk at the front,
      the earlier contents behind it. */
  function Overlay(buf: seq<byte>, chunk: seq<byte>): (r: seq<byte>)
    requires |chunk| <= |buf|
    ensures |r| == |buf| && r[..|chunk|] == chunk && r[|chunk|..] == buf[|chunk|..]
  {
    chunk + buf[|chunk|..]
  }

  /** What getLinesNum's inner loop counts after a read of `n` bytes into
      `buf`. It looks for newlines in the whole buffer and stops early only
      on reaching position `n` exactly, which happens when the read ends in
      a newline; otherwise it counts the stale newlines behind the read too. */
  function ScanCount(buf: seq<byte>, n: nat): nat
    requires n <= |buf|
  {
    if n == 0 || buf[n - 1] == Newline then CountNL(buf[..n]) else CountNL(buf)
  }

  /** Reads that return data: between 1 and BufSize bytes each. */
  predicate ValidReads(chunks: seq<seq<byte>>) {
    forall i :: 0 <= i < |chunks| ==> 0 < |chunks[i]| <= BufSize
  }

  function Flatten(chunks: seq<seq<byte>>): seq<byte> {
    if chunks == [] then [] else chunks[0] + Flatten(chunks[1..])
  }

  /** The sum getLinesNum returns for the reads `chunks` into a buffer
      holding `buf`; the closing read of 0 bytes adds nothing. */
  function LinesNumAsWritten(buf: seq<byte>, chunks: seq<seq<byte>>): nat
    requires |buf| == BufSize && ValidReads(chunks)
    decreases |chunks|
  {
    if chunks == [] then 0
    else
      var next := Overlay(buf, chunks[0]);
      ScanCount(next, |chunks[0]|) + LinesNumAsWritten(next, chunks[1..])
  }

  /** Jumping past the next newline adds one to the count. */
  lemma CountNLJump(s: seq<byte>, from: nat, i: nat)
    requires from + i < |s| && s[from + i] == Newline
    requires forall j :: from <= j < from + i ==> s[j] != Newline
    ensures CountNL(s[..from + i + 1]) == CountNL(s[..from]) + 1
  {
    var gap := s[from..from + i];
    forall k | 0 <= k < |gap|
      ensures gap[k] != Newline
    {
      assert gap[k] == s[from + k];
    }
    assert s[..from + i + 1] == s[..from] + s[from..from + i] + [s[from + i]];
    CountNLAppend(s[..from] + s[from..from + i], [s[from + i]]);
    CountNLAppend(s[..from], s[from..from + i]);
    CountNLNone(s[from..from + i]);
    assert CountNL([s[from + i]]) == 1 by {
      assert [s[from + i]][..0] == [];
    }
  }

  /** When no newline follows `from`, the count up to `from` is the count of all. */
  lemma CountNLRestNone(s: seq<byte>, from: nat)
    requires from <= |s|
    requires forall j :: from <= j < |s| ==> s[j] != Newline
    ensures CountNL(s[..from]) == CountNL(s)
  {
    assert s == s[..from] + s[from..];
    CountNLAppend(s[..from], s[from..]);
    CountNLNone(s[from..]);
  }

  /** The inner loop of getLinesNum as written: it searches the whole
      buffer, `buf[buffPosition:]`, and stops on no newline or on reaching
      position `n`. */
  method ScanAsWritten(buf: array<byte>, n: nat) returns (count: nat)
    requires n <= buf.Length
    ensures count == ScanCount(buf[..], n)
  {
    var buffPosition := 0;
    count := 0;
    while true
      invariant 0 <= buffPosition <= buf.Length
      invariant count == CountNL(buf[..buffPosition])
      invariant buffPosition == 0 || buf[buffPosition - 1] == Newline
      invariant n == 0 ==> buffPosition == 0
      invariant n > 0 && buf[n - 1] == Newline ==> buffPosition <= n
      decreases buf.Length - buffPosition
    {
      var i := IndexByte(buf[buffPosition..], Newline);
      if n > 0 && buf[n - 1] == Newline && buffPosition < n {
        assert buf[buffPosition..][n - 1 - buffPosition] == Newline;
      }
      if i < 0 || n == buffPosition {
        if i < 0 {
          forall j | buffPosition <= j < buf.Length
            ensures buf[..][j] != Newline
          {
            assert buf[buffPosition..][j - buffPosition] != Newline;
          }
          CountNLRestNone(buf[..], buffPosition);
          assert buf[..][..buffPosition] == buf[..buffPosition];
        }
        assert buf[..][..n] == buf[..n];
        return;
      }
      forall j | buffPosition <= j < buffPosition + i
        ensures buf[..][j] != Newline
      {
        assert buf[buffPosition..][j - buffPosition] != Newline;
      }
      assert buf[..][buffPosition + i] == Newline;
      CountNLJump(buf[..], buffPosition, i);
      assert buf[..][..buffPosition] == buf[..buffPosition];
      assert buf[..][..buffPosition + i + 1] == buf[..buffPosition + i + 1];
      buffPosition := buffPosition + i + 1;
      count := count + 1;
    }
  }

  /** getLinesNum as written. The file is `chunks`, the data its reads
      return in turn, followed by one read of 0 bytes that reports either
      the end of the file or, when `readFails`, an error. */
  method GetLinesNum(openFails: bool, chunks: seq<seq<byte>>, readFails: bool) returns (sum: nat, failed: bool)
    requires ValidReads(chunks)
    ensures openFails ==> sum == 0 && failed
    ensures !openFails ==> sum == LinesNumAsWritten(Zeros(BufSize), chunks) && failed == readFails
  {
    if openFails {
      return 0, true;
    }
    sum := 0;
    var buf := new byte[BufSize](_ => 0);
    assert buf[..] == Zeros(BufSize);
    var k := 0;
    while true
      invariant 0 <= k <= |chunks| && buf.Length == BufSize
      invariant sum + LinesNumAsWritten(buf[..], chunks[k..]) == LinesNumAsWritten(Zeros(BufSize), chunks)
      decreases |chunks| - k
    {
      var n := 0;
      if k < |chunks| {
        n := |chunks[k]|;
        ghost var before := buf[..];
        forall j | 0 <= j < n {
          buf[j] := chunks[k][j];
        }
        assert buf[..] == Overlay(before, chunks[k]);
      }
      var count := ScanAsWritten(buf, n);
      if k == |chunks| {
        assert count == 0;
        return sum, readFails;
      }
      assert chunks[k..][1..] == chunks[k + 1..];
      sum := sum + count;
      k := k + 1;
    }
  }

  /** The stale bytes behind a read are never fewer newlines than none:
      as written, getLinesNum never counts fewer lines than the file has. */
  lemma {:induction false} AsWrittenNeverUndercounts(buf: seq<byte>, chunks: seq<seq<byte>>)
    requires |buf| == BufSize && ValidReads(chunks)
    ensures LinesNumAsWritten(buf, chunks) >= CountNL(Flatten(chunks))
    decreases |chunks|
  {
    if chunks != [] {
      var next := Overlay(buf, chunks[0]);
      var n := |chunks[0]|;
      assert next == next[..n] + next[n..];
      CountNLAppend(next[..n], next[n..]);
      CountNLAppend(chunks[0], Flatten(chunks[1..]));
      AsWrittenNeverUndercounts(next, chunks[1..]);
    }
  }

  /** When every read ends in a newline the count is exact. */
  lemma {:induction false} AsWrittenExactOnLineReads(buf: seq<byte>, chunks: seq<seq<byte>>)
    requires |buf| == BufSize && ValidReads(chunks)
    requires forall i :: 0 <= i < |chunks| ==> chunks[i][|chunks[i]| - 1] == Newline
    ensures LinesNumAsWritten(buf, chunks) == CountNL(Flatten(chunks))
    decreases |chunks|
  {
    if chunks != [] {
      var next := Overlay(buf, chunks[0]);
      CountNLAppend(chunks[0], Flatten(chunks[1..]));
      AsWrittenExactOnLineReads(next, chunks[1..]);
    }
  }

  /** A file that fits one read is counted exactly: behind the read the
      buffer still holds the zeros it was made with. */
  lemma SingleReadExact(chunk: seq<byte>)
    requires 0 < |chunk| <= BufSize
    ensures LinesNumAsWritten(Zeros(BufSize), [chunk]) == CountNL(chunk)
  {
    var next := Overlay(Zeros(BufSize), chunk);
    assert [chunk][1..] == [];
    ScanBeforeClean(chunk, Zeros(BufSize)[|chunk|..]);
    assert next == chunk + Zeros(BufSize)[|chunk|..];
  }

  /** A scan of a read followed by bytes that hold no newline counts the
      newlines of the read. */
  lemma ScanBeforeClean(chunk: seq<byte>, rest: seq<byte>)
    requires forall k :: 0 <= k < |rest| ==> rest[k] != Newline
    ensures ScanCount(chunk + rest, |chunk|) == CountNL(chunk)
  {
    assert (chunk + rest)[..|chunk|] == chunk;
    CountNLAppend(chunk, rest);
    CountNLNone(rest);
  }

  /** A full read with one newline near its start, then a read of one
      byte: the second scan finds the first read's newline behind its byte
      and counts it again. */
  const FirstRead: seq<byte> := Zeros(5) + [Newline] + Zeros(BufSize - 6)
  const SecondRead: seq<byte> := [0]

  lemma StaleNewlineCountedTwice()
    ensures ValidReads([FirstRead, SecondRead])
    ensures LinesNumAsWritten(Zeros(BufSize), [FirstRead, SecondRead]) == 2
    ensures CountNL(Flatten([FirstRead, SecondRead])) == 1
  {
    assert ValidReads([FirstRead, SecondRead]);
    OneNewline(5, BufSize - 6);
    var first := Overlay(Zeros(BufSize), FirstRead);
    assert first == FirstRead;
    assert ScanCount(first, BufSize) == 1;
    // the second read overwrites the first byte with the zero it held
    var second := Overlay(first, SecondRead);
    assert second == FirstRead;
    assert ScanCount(second, 1) == 1;
    assert [FirstRead, SecondRead][1..] == [SecondRead];
    assert [SecondRead][1..] == [];
    assert LinesNumAsWritten(second, []) == 0;
    assert Flatten([FirstRead, SecondRead]) == FirstRead + SecondRead by {
      assert Flatten([SecondRead]) == SecondRead + Flatten([]);
    }
    CountNLAppend(FirstRead, SecondRead);
    CountNLNone(SecondRead);
  }

  /** A single newline between runs of zeros. */
  lemma OneNewline(a: nat, b: nat)
    ensures CountNL(Zeros(a) + [Newline] + Zeros(b)) == 1
  {
    CountNLNone(Zeros(a));
    CountNLNone(Zeros(b));
    assert CountNL([Newline]) == 1 by {
      assert [Newline][..0] == [];
    }
    CountNLAppend(Zeros(a), [Newline]);
    CountNLAppend(Zeros(a) + [Newline], Zeros(b));
  }

  /** getLinesNum as evidently intended: the inner loop searches only the
      `n` bytes just read, `buf[buffPosition:n]`. */
  method ScanRead(buf: array<byte>, n: nat) returns (count: nat)
    requires n <= buf.Length
    ensures count == CountNL(buf[..n])
  {
    var buffPosition := 0;
    count := 0;
    while true
      invariant 0 <= buffPosition <= n
      invariant count == CountNL(buf[..buffPosition])
      decreases n - buffPosition
    {
      var i := IndexByte(buf[buffPosition..n], Newline);
      if i < 0 {
        forall j | buffPosition <= j < n
          ensures buf[..n][j] != Newline
        {
          assert buf[buffPosition..n][j - buffPosition] != Newline;
        }
        CountNLRestNone(buf[..n], buffPosition);
        assert buf[..n][..buffPosition] == buf[..buffPosition];
        return;
      }
      forall j | buffPosition <= j < buffPosition + i
        ensures buf[..][j] != Newline
      {
        assert buf[buffPosition..n][j - buffPosition] != Newline;
      }
      assert buf[..][buffPosition + i] == Newline;
      CountNLJump(buf[..], buffPosition, i);
      assert buf[..][..buffPosition] == buf[..buffPosition];
      assert buf[..][..buffPosition + i + 1] == buf[..buffPosition + i + 1];
      buffPosition := buffPosition + i + 1;
      count := count + 1;
    }
  }

  /** The corrected getLinesNum: the number of newline bytes in the file. */
  method GetLinesNumFixed(openFails: bool, chunks: seq<seq<byte>>, readFails: bool) returns (sum: nat, failed: bool)
    requires ValidReads(chunks)
    ensures openFails ==> sum == 0 && failed
    ensures !openFails ==> sum == CountNL(Flatten(chunks)) && failed == readFails
  {
    if openFails {
      return 0, true;
    }
    sum := 0;
    var buf := new byte[BufSize](_ => 0);
    var k := 0;
    while true
      invariant 0 <= k <= |chunks| && buf.Length == BufSize
      invariant sum + CountNL(Flatten(chunks[k..])) == CountNL(Flatten(chunks))
      decreases |chunks| - k
    {
      var n := 0;
      if k < |chunks| {
        n := |chunks[k]|;
        forall j | 0 <= j < n {
          buf[j] := chunks[k][j];
        }
        assert buf[..n] == chunks[k];
      }
      var count := ScanRead(buf, n);
      if k == |chunks| {
        return sum, readFails;
      }
      assert chunks[k..][1..] == chunks[k + 1..];
      CountNLAppend(chunks[k], Flatten(chunks[k + 1..]));
      sum := sum + count;
      k := k + 1;
    }
  }

  // ---------------------------------------------------------------------
  // GetTCPCount, GetUDPCount

  /** GetTCPCount and GetUDPCount: the number of pieces of the file's text
      split at newlines, less one. `content` is `Err` with the read's error
      when the file could not be read. */
  function ProcNetCount(content: Result<string>): (r: Result<nat>)
    ensures content.Err? ==> r == Err(content.error)
    ensures content.Ok? ==> r == Ok(CountChar(content.value, '\n'))
  {
    match content
    case Err(e) => Err(e)
    case Ok(text) =>
      SplitCount(text, '\n');
      Ok(|Split(text, '\n')| - 1)
  }

  // ---------------------------------------------------------------------
  // getValueFromFile

  /** What getValueFromFile looks at in a line: its trimmed text split at '='. */
  function Parts(line: string): seq<string> {
    Split(TrimSpace(line), '=')
  }

  /** A line getValueFromFile takes `key`'s value from: it has exactly two
      parts, and the first one is `key`. */
  predicate Qualifies(line: string, key: string) {
    |Parts(line)| == 2 && Parts(line)[0] == key
  }

  /** The parts of every line, in order. */
  function AllParts(lines: seq<string>): (r: seq<seq<string>>)
    ensures |r| == |lines| && forall i :: 0 <= i < |lines| ==> r[i] == Parts(lines[i])
  {
    seq(|lines|, i requires 0 <= i < |lines| => Parts(lines[i]))
  }

  /** The second part of the first entry of `parts` that has two parts, the
      first of them `key`. */
  function FirstValue(parts: seq<seq<string>>, key: string): Option<string>
    decreases |parts|
  {
    if parts == [] then None
    else if |parts[0]| == 2 && parts[0][0] == key then Some(parts[0][1])
    else FirstValue(parts[1..], key)
  }

  /** What getValueFromFile returns for a file whose text is `content`
      (None when the read failed). */
  function ValueFromFile(content: Option<string>, key: string, defaultValue: string): string {
    if content.None? then defaultValue
    else
      match FirstValue(AllParts(Split(content.value, '\n')), key)
      case None => defaultValue
      case Some(v) => v
  }

  /** FirstValue finds something exactly when some entry qualifies, and then
      it is the second part of the first qualifying entry. */
  lemma {:induction false} FirstValueSpec(parts: seq<seq<string>>, key: string)
    ensures FirstValue(parts, key).None? <==> forall i :: 0 <= i < |parts| ==> !(|parts[i]| == 2 && parts[i][0] == key)
    ensures FirstValue(parts, key).Some? ==>
              exists i :: 0 <= i < |parts| && |parts[i]| == 2 && parts[i][0] == key && FirstValue(parts, key) == Some(parts[i][1])
                          && forall j :: 0 <= j < i ==> !(|parts[j]| == 2 && parts[j][0] == key)
    decreases |parts|
  {
    if parts != [] && !(|parts[0]| == 2 && parts[0][0] == key) {
      var rest := parts[1..];
      FirstValueSpec(rest, key);
      assert forall i :: 1 <= i < |parts| ==> parts[i] == rest[i - 1];
      if FirstValue(rest, key).Some? {
        var i :| 0 <= i < |rest| && |rest[i]| == 2 && rest[i][0] == key && FirstValue(rest, key) == Some(rest[i][1])
                  && forall j :: 0 <= j < i ==> !(|rest[j]| == 2 && rest[j][0] == key);
        assert parts[i + 1] == rest[i];
      }
    }
  }

  /** A qualifying line has exactly one '=' once trimmed; lines with none or
      several are skipped. */
  lemma QualifiesOneEquals(line: string, key: string)
    ensures Qualifies(line, key) <==> CountChar(TrimSpace(line), '=') == 1 && Parts(line)[0] == key
  {
    SplitCount(TrimSpace(line), '=');
  }

  /** The value taken from a qualifying line holds no '='; nor does a key
      that can be found. */
  lemma ValueHasNoEquals(line: string, key: string)
    requires Qualifies(line, key)
    ensures forall j :: 0 <= j < |Parts(line)[1]| ==> Parts(line)[1][j] != '='
    ensures forall j :: 0 <= j < |key| ==> key[j] != '='
  {
    var parts := Parts(line);
    SplitJoin(TrimSpace(line), '=');
    assert forall j :: 0 <= j < |parts[0]| ==> parts[0][j] != '=';
    assert forall j :: 0 <= j < |parts[1]| ==> parts[1][j] != '=';
  }

  /** getValueFromFile: a read failure, or no qualifying line, gives `defaultValue`. */
  method GetValueFromFile(content: Option<string>, key: string, defaultValue: string) returns (value: string)
    ensures value == ValueFromFile(content, key, defaultValue)
  {
    if content.None? {
      return defaultValue;
    }
    var lines := Split(content.value, '\n');
    ghost var parts := AllParts(lines);
    var i := 0;
    while i < |lines|
      invariant 0 <= i <= |lines|
      invariant FirstValue(parts, key) == FirstValue(parts[i..], key)
    {
      assert parts[i..][1..] == parts[i + 1..];
      var values := Split(TrimSpace(lines[i]), '=');
      assert values == parts[i..][0];
      if |values| != 2 {
        i := i + 1;
        continue;
      }
      if values[0] == key {
        return values[1];
      }
      i := i + 1;
    }
    return defaultValue;
  }

  // ---------------------------------------------------------------------
  // isLSB, GetSystemInfo

  /** isLSB: the probe file was read and its text contains "LSB". */
  predicate IsLSB(content: Option<string>) {
    content.Some? && Contains(content.value, "LSB")
  }

  /** The version part GetSystemInfo appends: nothing for an empty
      VERSION_ID, otherwise a space and the value with every '"' removed. */
  function VersionSuffix(version: string): string {
    if |version| > 0 then " " + RemoveChar(version, '"') else ""
  }

  /** The text GetSystemInfo builds from /proc/version, /proc/sys/kernel/ostype
      and /etc/os-release. */
  function SystemInfo(procVersion: Option<string>, ostype: Option<string>, osRelease: Option<string>): string {
    if IsLSB(procVersion) || IsLSB(ostype) then
      TrimSpace(ValueFromFile(osRelease, "ID", "")) + VersionSuffix(ValueFromFile(osRelease, "VERSION_ID", ""))
    else ""
  }

  /** What the builder holds after writing the trimmed name and, for a
      non-empty version, a space and the version without its quotes. */
  lemma BuilderText(trimmed: string, version: string)
    ensures (if |version| > 0 then "" + trimmed + " " + RemoveChar(version, '"') else "" + trimmed)
            == trimmed + VersionSuffix(version)
  {
    EmptyThenAppend(trimmed, " ", RemoveChar(version, '"'));
  }

  lemma EmptyThenAppend(a: string, b: string, c: string)
    ensures "" + a == a && "" + a + b + c == a + (b + c)
  {
  }

  method GetSystemInfo(procVersion: Option<string>, ostype: Option<string>, osRelease: Option<string>) returns (info: string)
    ensures info == SystemInfo(procVersion, ostype, osRelease)
  {
    var result := "";
    if IsLSB(procVersion) || IsLSB(ostype) {
      var name := GetValueFromFile(osRelease, "ID", "");
      result := result + TrimSpace(name);
      var version := GetValueFromFile(osRelease, "VERSION_ID", "");
      ghost var found := version;
      if |version| > 0 {
        version := RemoveChar(version, '"');
        result := result + " ";
        result := result + version;
      }
      BuilderText(TrimSpace(name), found);
    }
    return result;
  }

  /** Without "LSB" in either probe file the system name is empty. */
  lemma SystemInfoNeedsLSB(procVersion: Option<string>, ostype: Option<string>, osRelease: Option<string>)
    requires !IsLSB(procVersion) && !IsLSB(ostype)
    ensures SystemInfo(procVersion, ostype, osRelease) == ""
  {
  }

  /** A name followed by the version part: the name comes first; a space
      follows it exactly when the version is not empty, and what follows
      the space holds no '"' and is the version short of its quotes. */
  lemma NameThenVersion(name: string, version: string)
    ensures var r := name + VersionSuffix(version);
            HasPrefix(r, name)
            && (version == "" ==> r == name)
            && (version != "" ==> |r| == |name| + 1 + |version| - CountChar(version, '"') && r[|name|] == ' '
                                  && forall j :: |name| < j < |r| ==> r[j] != '"')
  {
    if version != "" {
      var v := RemoveChar(version, '"');
      SpaceThen(name, v);
    }
  }

  lemma SpaceThen(name: string, v: string)
    ensures var r := name + (" " + v);
            |r| == |name| + 1 + |v| && r[..|name|] == name && r[|name|] == ' '
            && forall j :: |name| < j < |r| ==> r[j] == v[j - |name| - 1]
  {
  }

  /** With "LSB", the system name is the trimmed ID followed by the version
      part: a space exactly when VERSION_ID is not empty, then VERSION_ID
      with its quotes removed. */
  lemma SystemInfoShape(procVersion: Option<string>, ostype: Option<string>, osRelease: Option<string>)
    requires IsLSB(procVersion) || IsLSB(ostype)
    ensures var name := TrimSpace(ValueFromFile(osRelease, "ID", ""));
            var version := ValueFromFile(osRelease, "VERSION_ID", "");
            var r := SystemInfo(procVersion, ostype, osRelease);
            HasPrefix(r, name)
            && (version == "" ==> r == name)
            && (version != "" ==> |r| == |name| + 1 + |version| - CountChar(version, '"') && r[|name|] == ' '
                                  && forall j :: |name| < j < |r| ==> r[j] != '"')
  {
    NameThenVersion(TrimSpace(ValueFromFile(osRelease, "ID", "")), ValueFromFile(osRelease, "VERSION_ID", ""));
  }

  /** A VERSION_ID of two quotes and nothing else is not empty, so the
      name ends in a space with no version after it. */
  lemma QuotedEmptyVersion(procVersion: Option<string>, ostype: Option<string>, osRelease: Option<string>)
    requires IsLSB(procVersion) || IsLSB(ostype)
    requires ValueFromFile(osRelease, "VERSION_ID", "") == "\"\""
    ensures SystemInfo(procVersion, ostype, osRelease) == TrimSpace(ValueFromFile(osRelease, "ID", "")) + " "
  {
    assert RemoveChar("\"\"", '"') == "";
  }
}
