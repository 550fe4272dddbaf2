/** The FTP honeypot's capture of credentials from a byte stream that arrives in arbitrary
    chunks (USER and PASS as in section 4.1.1 of RFC 959). */
module FtpCapture {
  import opened Common

  type Byte = b: int | 0 <= b < 256
  type Bytes = seq<Byte>

  const LF: Byte := 10
  const CR: Byte := 13
  const USER: Bytes := [85, 83, 69, 82]
  const PASS: Bytes := [80, 65, 83, 83]

  /** What has been captured so far. */
  datatype Credentials = Credentials(username: Option<Bytes>, password: Option<Bytes>)

  const NOTHING := Credentials(None, None)

  // ---------- one line ----------

  function Upper(b: Byte): Byte {
    if 97 <= b <= 122 then b - 32 else b
  }

  /** `\s` on bytes. */
  predicate IsSpace(b: Byte) {
    b == 32 || 9 <= b <= 13
  }

  function DropSpaces(s: Bytes): Bytes {
    if s != [] && IsSpace(s[0]) then DropSpaces(s[1..]) else s
  }

  function StripLeftCr(s: Bytes): Bytes {
    if s != [] && s[0] == CR then StripLeftCr(s[1..]) else s
  }

  function StripRightCr(s: Bytes): Bytes {
    if s != [] && s[|s| - 1] == CR then StripRightCr(s[..|s| - 1]) else s
  }

  /** `line.strip(b"\r")`. */
  function StripCr(s: Bytes): Bytes {
    StripRightCr(StripLeftCr(s))
  }

  /** `^CMD\s+(.*)$`, ignoring case: the argument, if the line matches. */
  function Argument(cmd: Bytes, line: Bytes): Option<Bytes> {
    if |line| > |cmd| && (forall i | 0 <= i < |cmd| :: Upper(line[i]) == cmd[i]) && IsSpace(line[|cmd|])
    then Some(DropSpaces(line[|cmd|..]))
    else None
  }

  /** What one complete line adds. */
  function AfterLine(c: Credentials, line: Bytes): Credentials {
    if c.username.None? then c.(username := Argument(USER, line))
    else if c.password.None? then c.(password := Argument(PASS, line))
    else c
  }

  // ---------- the stream, line by line ----------

  /** The position of the first LF, or the length of the stream. */
  function LineEnd(s: Bytes): (n: nat)
    ensures n <= |s| && (n < |s| ==> s[n] == LF) && forall i | 0 <= i < n :: s[i] != LF
  {
    if s == [] || s[0] == LF then 0 else 1 + LineEnd(s[1..])
  }

  /** The complete lines of a stream, CRs stripped; an unfinished line is not one. */
  function Lines(s: Bytes): seq<Bytes>
    decreases |s|
  {
    var n := LineEnd(s);
    if n == |s| then [] else [StripCr(s[..n])] + Lines(s[n + 1..])
  }

  function AfterLines(c: Credentials, lines: seq<Bytes>): Credentials
    decreases lines
  {
    if lines == [] then c else AfterLines(AfterLine(c, lines[0]), lines[1..])
  }

  /** The line-by-line scan of a whole stream. */
  function Scan(s: Bytes): Credentials {
    AfterLines(NOTHING, Lines(s))
  }

  /** The first line at or after `from` that carries the command, or the number of lines. */
  function FirstLine(cmd: Bytes, lines: seq<Bytes>, from: nat): (k: nat)
    requires from <= |lines|
    ensures from <= k <= |lines|
    ensures k < |lines| ==> Argument(cmd, lines[k]).Some?
    ensures forall i | from <= i < k :: Argument(cmd, lines[i]).None?
    decreases |lines| - from
  {
    if from == |lines| || Argument(cmd, lines[from]).Some? then from else FirstLine(cmd, lines, from + 1)
  }

  lemma {:induction false} WithUsername(user: Bytes, lines: seq<Bytes>, from: nat)
    requires from <= |lines|
    ensures var p := FirstLine(PASS, lines, from);
            AfterLines(Credentials(Some(user), None), lines[from..]) ==
            Credentials(Some(user), if p < |lines| then Argument(PASS, lines[p]) else None)
    decreases |lines| - from
  {
    if from < |lines| {
      assert lines[from..][1..] == lines[from + 1..];
      if Argument(PASS, lines[from]).None? {
        WithUsername(user, lines, from + 1);
      } else {
        CompleteStays(AfterLine(Credentials(Some(user), None), lines[from]), lines[from + 1..]);
      }
    }
  }

  lemma {:induction false} CompleteStays(c: Credentials, lines: seq<Bytes>)
    requires c.username.Some? && c.password.Some?
    ensures AfterLines(c, lines) == c
    decreases lines
  {
    if lines != [] { CompleteStays(c, lines[1..]); }
  }

  lemma {:induction false} FromNothing(lines: seq<Bytes>, from: nat)
    requires from <= |lines|
    ensures var u := FirstLine(USER, lines, from);
            AfterLines(NOTHING, lines[from..]) ==
            if u == |lines| then NOTHING
            else
              var p := FirstLine(PASS, lines, u + 1);
              Credentials(Argument(USER, lines[u]), if p < |lines| then Argument(PASS, lines[p]) else None)
    decreases |lines| - from
  {
    if from < |lines| {
      assert lines[from..][1..] == lines[from + 1..];
      if Argument(USER, lines[from]).None? {
        FromNothing(lines, from + 1);
      } else {
        WithUsername(Argument(USER, lines[from]).value, lines, from + 1);
      }
    }
  }

  /** The scan captures the argument of the first USER line and of the first PASS line after
      it, and nothing else. */
  lemma ScanFindsFirstUserThenPass(s: Bytes)
    ensures var lines := Lines(s);
            var u := FirstLine(USER, lines, 0);
            Scan(s) ==
            if u == |lines| then NOTHING
            else
              var p := FirstLine(PASS, lines, u + 1);
              Credentials(Argument(USER, lines[u]), if p < |lines| then Argument(PASS, lines[p]) else None)
  {
    hide Lines, AfterLines, FirstLine, Argument;
    assert Lines(s)[0..] == Lines(s);
    FromNothing(Lines(s), 0);
  }

  // ---------- lines and arguments in plain terms ----------

  predicate IsCommand(cmd: Bytes) {
    forall i | 0 <= i < |cmd| :: 'A' as int <= cmd[i] <= 'Z' as int
  }

  /** The command's letters, each in either case. */
  predicate Spells(word: Bytes, cmd: Bytes) {
    |word| == |cmd| && forall i | 0 <= i < |cmd| :: word[i] == cmd[i] || word[i] as int == cmd[i] as int + 32
  }

  predicate IsGap(gap: Bytes) {
    gap != [] && forall i | 0 <= i < |gap| :: gap[i] in {32, 9, 10, 11, 12, 13}
  }

  lemma {:induction false} SpacesDropped(gap: Bytes, rest: Bytes)
    requires (forall i | 0 <= i < |gap| :: IsSpace(gap[i])) && (rest != [] ==> !IsSpace(rest[0]))
    ensures DropSpaces(gap + rest) == rest
  {
    if gap == [] {
      assert gap + rest == rest;
    } else {
      assert (gap + rest)[1..] == gap[1..] + rest;
      SpacesDropped(gap[1..], rest);
    }
  }

  lemma {:induction false} DroppedSpaces(s: Bytes) returns (gap: Bytes)
    ensures s == gap + DropSpaces(s) && (forall i | 0 <= i < |gap| :: IsSpace(gap[i]))
    ensures DropSpaces(s) != [] ==> !IsSpace(DropSpaces(s)[0])
    ensures s != [] && IsSpace(s[0]) ==> gap != []
  {
    gap := [];
    if s != [] && IsSpace(s[0]) {
      gap := DroppedSpaces(s[1..]);
      gap := [s[0]] + gap;
      assert s == [s[0]] + s[1..] == gap + DropSpaces(s);
    }
  }

  lemma UpperIff(b: Byte, c: Byte)
    requires 'A' as int <= c <= 'Z' as int
    ensures Upper(b) == c <==> b == c || b as int == c as int + 32
  {}

  /** Exactly which lines carry a command, and what is captured of them: the command in any
      case, at least one white-space byte, and then everything from the first byte that is
      not white space to the end of the line. */
  lemma ArgumentIff(cmd: Bytes, line: Bytes, argument: Bytes)
    requires IsCommand(cmd)
    ensures Argument(cmd, line) == Some(argument) <==>
            exists word, gap ::
              line == word + gap + argument && Spells(word, cmd) && IsGap(gap) && (argument != [] ==> !IsSpace(argument[0]))
  {
    hide DropSpaces, Upper;
    forall i | 0 <= i < |cmd| && i < |line| ensures Upper(line[i]) == cmd[i] <==> line[i] == cmd[i] || line[i] as int == cmd[i] as int + 32 {
      UpperIff(line[i], cmd[i]);
    }
    if Argument(cmd, line) == Some(argument) {
      var gap := DroppedSpaces(line[|cmd|..]);
      var word := line[..|cmd|];
      assert line == word + line[|cmd|..] == word + gap + argument;
      assert Spells(word, cmd) && IsGap(gap);
    }
    if word, gap :|
      line == word + gap + argument && Spells(word, cmd) && IsGap(gap) && (argument != [] ==> !IsSpace(argument[0]))
    {
      assert line[|cmd|..] == gap + argument;
      assert forall i | 0 <= i < |cmd| :: line[i] == word[i];
      assert line[|cmd|] == gap[0];
      SpacesDropped(gap, argument);
    }
  }

  lemma CommandBytes()
    ensures IsCommand(USER) && IsCommand(PASS)
    ensures |USER| == 4 && USER[0] as char == 'U' && USER[1] as char == 'S' && USER[2] as char == 'E' && USER[3] as char == 'R'
    ensures |PASS| == 4 && PASS[0] as char == 'P' && PASS[1] as char == 'A' && PASS[2] as char == 'S' && PASS[3] as char == 'S'
  {}

  predicate OnlyCrs(s: Bytes) {
    forall i | 0 <= i < |s| :: s[i] == 13
  }

  lemma {:induction false} LeftCrsStripped(pre: Bytes, rest: Bytes)
    requires OnlyCrs(pre) && (rest != [] ==> rest[0] != 13)
    ensures StripLeftCr(pre + rest) == rest
  {
    if pre == [] {
      assert pre + rest == rest;
    } else {
      assert (pre + rest)[1..] == pre[1..] + rest;
      LeftCrsStripped(pre[1..], rest);
    }
  }

  lemma {:induction false} RightCrsStripped(front: Bytes, post: Bytes)
    requires OnlyCrs(post) && (front != [] ==> front[|front| - 1] != 13)
    ensures StripRightCr(front + post) == front
  {
    if post == [] {
      assert front + post == front;
    } else {
      assert (front + post)[..|front + post| - 1] == front + post[..|post| - 1];
      RightCrsStripped(front, post[..|post| - 1]);
    }
  }

  /** Exactly the CRs at both ends of a line are stripped. */
  lemma CrsStripped(pre: Bytes, line: Bytes, post: Bytes)
    requires OnlyCrs(pre) && OnlyCrs(post) && (line != [] ==> line[0] != 13 && line[|line| - 1] != 13)
    ensures StripCr(pre + line + post) == line
  {
    hide StripLeftCr, StripRightCr;
    if line == [] {
      LeftCrsStripped(pre + post, []);
      assert pre + line + post == pre + post + [];
      RightCrsStripped(line, line);
      assert line + line == line;
    } else {
      assert pre + line + post == pre + (line + post);
      LeftCrsStripped(pre, line + post);
      RightCrsStripped(line, post);
    }
  }

  lemma {:induction false} EndOfFirstLine(first: Bytes, rest: Bytes)
    requires forall i | 0 <= i < |first| :: first[i] != 10
    ensures LineEnd(first + [LF] + rest) == |first|
  {
    var s := first + [LF] + rest;
    assert s[|first|] == LF;
    assert forall i | 0 <= i < |first| :: s[i] == first[i];
  }

  /** The stream is cut at each LF, and what follows the last one is not a line. */
  lemma LinesAreCutAtLf(first: Bytes, rest: Bytes)
    requires forall i | 0 <= i < |first| :: first[i] != 10
    ensures Lines(first) == []
    ensures Lines(first + [LF] + rest) == [StripCr(first)] + Lines(rest)
  {
    var s := first + [LF] + rest;
    EndOfFirstLine(first, rest);
    assert s[..|first|] == first && s[|first| + 1..] == rest;
  }

  /** Text that a client can send as an argument of one line. */
  predicate IsArgument(a: Bytes) {
    (forall i | 0 <= i < |a| :: a[i] != 10) && (a != [] ==> !IsSpace(a[0]) && a[|a| - 1] != 13)
  }

  function CommandLine(cmd: Bytes, argument: Bytes): Bytes {
    cmd + [32] + argument
  }

  lemma CommandLineIs(cmd: Bytes, argument: Bytes)
    requires IsCommand(cmd) && cmd != [] && IsArgument(argument)
    ensures Argument(cmd, CommandLine(cmd, argument)) == Some(argument)
    ensures forall rest: Bytes ::
              Lines(CommandLine(cmd, argument) + [CR, LF] + rest) == [CommandLine(cmd, argument)] + Lines(rest)
  {
    hide Lines, StripCr, Argument;
    var line := CommandLine(cmd, argument);
    assert Spells(cmd, cmd) && IsGap([32]);
    ArgumentIff(cmd, line, argument);
    CrsStripped([], line, [CR]);
    assert [] + line + [CR] == line + [CR];
    forall rest: Bytes ensures Lines(line + [CR, LF] + rest) == [line] + Lines(rest) {
      LinesAreCutAtLf(line + [CR], rest);
      assert line + [CR, LF] + rest == line + [CR] + [LF] + rest;
    }
  }

  /** A client that logs in is captured, whatever it sends and however it goes on. */
  lemma LoginIsCaptured(user: Bytes, password: Bytes, rest: Bytes)
    requires IsArgument(user) && IsArgument(password)
    ensures Scan(CommandLine(USER, user) + [CR, LF] + (CommandLine(PASS, password) + [CR, LF] + rest))
            == Credentials(Some(user), Some(password))
  {
    hide Lines, Argument, CommandLine;
    CommandLineIs(USER, user);
    CommandLineIs(PASS, password);
    var more := CommandLine(PASS, password) + [CR, LF] + rest;
    var lines := Lines(CommandLine(USER, user) + [CR, LF] + more);
    assert lines == [CommandLine(USER, user)] + Lines(more);
    assert lines[1..] == [CommandLine(PASS, password)] + Lines(rest);
    assert lines[1..][1..] == Lines(rest);
    var halfway := Credentials(Some(user), None);
    assert AfterLine(NOTHING, lines[0]) == halfway;
    assert AfterLines(halfway, lines[1..]) == AfterLines(AfterLine(halfway, lines[1..][0]), Lines(rest));
    CompleteStays(Credentials(Some(user), Some(password)), Lines(rest));
  }

  // ---------- the stream, chunk by chunk ----------

  function Flatten(chunks: seq<Bytes>): Bytes {
    if chunks == [] then [] else chunks[0] + Flatten(chunks[1..])
  }

  /** What the connection delivers: an empty chunk is the end of the stream. */
  function Received(chunks: seq<Bytes>): Bytes {
    if chunks == [] || chunks[0] == [] then [] else chunks[0] + Received(chunks[1..])
  }

  lemma {:induction false} ReceivedIsFlat(chunks: seq<Bytes>)
    requires forall k | 0 <= k < |chunks| :: chunks[k] != []
    ensures Received(chunks) == Flatten(chunks)
  {
    if chunks != [] { ReceivedIsFlat(chunks[1..]); }
  }

  lemma {:induction false} LineEndConcat(buffer: Bytes, rest: Bytes)
    requires LineEnd(buffer) < |buffer|
    ensures LineEnd(buffer + rest) == LineEnd(buffer)
  {
    if buffer[0] != LF {
      assert (buffer + rest)[1..] == buffer[1..] + rest;
      LineEndConcat(buffer[1..], rest);
    }
  }

  /** Taking a complete line off the buffer is one step of the scan of all that is left. */
  lemma TakeLine(c: Credentials, buffer: Bytes, rest: Bytes)
    requires LineEnd(buffer) < |buffer|
    ensures var n := LineEnd(buffer);
            AfterLines(c, Lines(buffer + rest)) ==
            AfterLines(AfterLine(c, StripCr(buffer[..n])), Lines(buffer[n + 1..] + rest))
  {
    var n := LineEnd(buffer);
    LineEndConcat(buffer, rest);
    assert (buffer + rest)[..n] == buffer[..n] && (buffer + rest)[n + 1..] == buffer[n + 1..] + rest;
    var lines := Lines(buffer + rest);
    assert lines[1..] == Lines(buffer[n + 1..] + rest);
  }

  /** The inner loop: take every complete line off the buffer. */
  function Drained(c: Credentials, buffer: Bytes): (r: (Credentials, Bytes))
    ensures LineEnd(r.1) == |r.1|
    ensures (c.password.Some? ==> c.username.Some?) ==> (r.0.password.Some? ==> r.0.username.Some?)
    decreases |buffer|
  {
    var n := LineEnd(buffer);
    if n == |buffer| then (c, buffer) else Drained(AfterLine(c, StripCr(buffer[..n])), buffer[n + 1..])
  }

  /** The outer loop: receive until the password is captured or the stream ends. */
  function Captured(c: Credentials, buffer: Bytes, chunks: seq<Bytes>): Credentials
    decreases |chunks|
  {
    if c.password.Some? || chunks == [] || chunks[0] == [] then c
    else
      var (d, rest) := Drained(c, buffer + chunks[0]);
      Captured(d, rest, chunks[1..])
  }

  /** What the capture loop makes of a connection that delivers these chunks. */
  function Capture(chunks: seq<Bytes>): Credentials {
    Captured(NOTHING, [], chunks)
  }

  lemma {:induction false} DrainedLines(c: Credentials, buffer: Bytes, rest: Bytes)
    ensures var (d, left) := Drained(c, buffer); AfterLines(c, Lines(buffer + rest)) == AfterLines(d, Lines(left + rest))
    decreases |buffer|
  {
    var n := LineEnd(buffer);
    if n < |buffer| {
      TakeLine(c, buffer, rest);
      DrainedLines(AfterLine(c, StripCr(buffer[..n])), buffer[n + 1..], rest);
    }
  }

  lemma {:induction false} CapturedIsScan(c: Credentials, buffer: Bytes, chunks: seq<Bytes>)
    requires LineEnd(buffer) == |buffer| && (c.password.Some? ==> c.username.Some?)
    ensures Captured(c, buffer, chunks) == AfterLines(c, Lines(buffer + Received(chunks)))
    decreases |chunks|
  {
    if c.password.Some? {
      CompleteStays(c, Lines(buffer + Received(chunks)));
    } else if chunks == [] || chunks[0] == [] {
      assert buffer + Received(chunks) == buffer;
    } else {
      var rest := Received(chunks[1..]);
      assert buffer + Received(chunks) == (buffer + chunks[0]) + rest;
      DrainedLines(c, buffer + chunks[0], rest);
      var (d, left) := Drained(c, buffer + chunks[0]);
      CapturedIsScan(d, left, chunks[1..]);
    }
  }

  /** Stopping at the password, chunk by chunk, captures what the line-by-line scan of the
      whole stream captures. */
  lemma CaptureIsScan(chunks: seq<Bytes>)
    ensures Capture(chunks) == Scan(Received(chunks))
  {
    assert [] + Received(chunks) == Received(chunks);
    CapturedIsScan(NOTHING, [], chunks);
  }

  /** `_handle_ftp`'s loop over received chunks. */
  method HandleFtp(chunks: seq<Bytes>) returns (c: Credentials)
    ensures c == Capture(chunks) == Scan(Received(chunks))
  {
    CaptureIsScan(chunks);
    c := NOTHING;
    var buffer: Bytes := [];
    var next := 0;
    assert chunks[0..] == chunks;
    while c.password.None?
      invariant 0 <= next <= |chunks|
      invariant Capture(chunks) == Captured(c, buffer, chunks[next..])
      decreases |chunks| - next, c.password.None?
    {
      if next == |chunks| || chunks[next] == [] { return; }
      assert chunks[next..][1..] == chunks[next + 1..];
      buffer := buffer + chunks[next];
      next := next + 1;
      ghost var drained := Drained(c, buffer);
      while LineEnd(buffer) < |buffer|
        invariant Drained(c, buffer) == drained
        decreases |buffer|
      {
        var n := LineEnd(buffer);
        var line := StripCr(buffer[..n]);
        buffer := buffer[n + 1..];
        if c.username.None? {
          var argument := Argument(USER, line);
          if argument.Some? {
            c := c.(username := argument);
            continue;
          }
        }
        if c.username.Some? && c.password.None? {
          var argument := Argument(PASS, line);
          if argument.Some? {
            c := c.(password := argument);
          }
        }
      }
    }
  }

  /** Capture does not depend on packetisation: the loop takes the same credentials from two
      splits of one stream into non-empty chunks, those of the line-by-line scan. */
  lemma PacketisationDoesNotMatter(chunks: seq<Bytes>, others: seq<Bytes>)
    requires Flatten(chunks) == Flatten(others)
    requires (forall k | 0 <= k < |chunks| :: chunks[k] != []) && (forall k | 0 <= k < |others| :: others[k] != [])
    ensures Capture(chunks) == Capture(others) == Scan(Flatten(chunks))
  {
    ReceivedIsFlat(chunks);
    ReceivedIsFlat(others);
    CaptureIsScan(chunks);
    CaptureIsScan(others);
  }
}
