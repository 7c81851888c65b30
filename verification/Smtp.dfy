/** The SMTP client dialogue, against a server that may reply anything. */
module Smtp {
  import opened Basics

  const LF: char := '\n'
  const NUL: char := '\0'
  const MAX: nat := 1023

  // ---------- replies ----------

  // What smtp_fgets takes from the stream: up to a newline or 1023 characters, None if it ends before.
  function LineLength(s: string, max: nat): (k: Option<nat>)
    ensures k.Some? ==> k.value <= |s| && k.value <= max && (max > 0 ==> k.value > 0)
  {
    if max == 0 then Some(0)
    else if s == [] then None
    else if s[0] == LF then Some(1)
    else match LineLength(s[1..], max - 1)
      case Some(k) => Some(k + 1)
      case None => None
  }

  // The loops stop at a line whose fourth character is a blank or missing.
  predicate Final(line: string) {
    |line| <= 3 || line[3] == ' ' || line[3] == NUL
  }

  datatype Reply = Reply(line: string, rest: string)

  // The reply that ends the next loop, and what is left of the stream behind it.
  function NextReply(s: string): (r: Option<Reply>)
    ensures r.Some? ==> |r.value.rest| < |s| && Final(r.value.line)
    decreases |s|
  {
    match LineLength(s, MAX)
    case None => None
    case Some(k) => if Final(s[..k]) then Some(Reply(s[..k], s[k..])) else NextReply(s[k..])
  }

  predicate HasCode(line: string, code: string) {
    |code| <= |line| && line[..|code|] == code
  }

  // ---------- the dialogue as a script ----------

  datatype Command = Helo | MailFrom | RcptTo | Data | Body(line: string) | Dot | Quit

  // Commands to send together, and the code their reply must have.
  datatype Stage = Stage(commands: seq<Command>, code: string)

  function BodyOf(lines: seq<string>): (b: seq<Command>)
    ensures |b| == |lines| && forall i :: 0 <= i < |lines| ==> b[i] == Body(lines[i])
  {
    seq(|lines|, i requires 0 <= i < |lines| => Body(lines[i]))
  }

  // The command order of section 4.1.4 of RFC 5321.
  function Script(lines: seq<string>): seq<Stage> {
    [Stage([Helo], "250"), Stage([MailFrom], "250"), Stage([RcptTo], "250"), Stage([Data], "354"),
     Stage(BodyOf(lines) + [Dot], "250")]
  }

  // What is sent and returned from a point of the script on. A stream that ends stops the client at once.
  function Play(stages: seq<Stage>, input: string): (seq<Command>, int) {
    if stages == [] then ([Quit], 0)
    else
      var s := stages[0];
      match NextReply(input)
      case None => (s.commands, -1)
      case Some(Reply(line, rest)) =>
        if HasCode(line, s.code) then
          var (later, rc) := Play(stages[1..], rest);
          (s.commands + later, rc)
        else (s.commands + [Quit], -1)
  }

  // ---------- what the dialogue guarantees ----------

  function All(stages: seq<Stage>): seq<Command> {
    if stages == [] then [] else stages[0].commands + All(stages[1..])
  }

  // The first n replies have the codes of their stages.
  predicate Accepted(stages: seq<Stage>, input: string, n: nat)
    requires n <= |stages|
    decreases n
  {
    n == 0 ||
    match NextReply(input)
    case None => false
    case Some(Reply(line, rest)) => HasCode(line, stages[0].code) && Accepted(stages[1..], rest, n - 1)
  }

  // Whatever the server says, the commands are a prefix of the script, and then perhaps QUIT.
  lemma {:induction false} CommandsInOrder(stages: seq<Stage>, input: string)
    ensures var sent := Play(stages, input).0;
      sent <= All(stages) || (|sent| > 0 && sent[|sent| - 1] == Quit && sent[..|sent| - 1] <= All(stages))
    decreases |stages|
  {
    if stages != [] {
      var s := stages[0];
      match NextReply(input)
      case None =>
      case Some(Reply(line, rest)) =>
        if HasCode(line, s.code) {
          var later := Play(stages[1..], rest).0;
          CommandsInOrder(stages[1..], rest);
          var sent := s.commands + later;
          assert Play(stages, input).0 == sent;
          if !(later <= All(stages[1..])) {
            assert sent[..|sent| - 1] == s.commands + later[..|later| - 1];
          }
        } else {
          var sent := s.commands + [Quit];
          assert sent[..|sent| - 1] == s.commands;
        }
    }
  }

  // The result is 0 exactly when every reply had its code.
  lemma {:induction false} ResultIsZero(stages: seq<Stage>, input: string)
    ensures Play(stages, input).1 == 0 <==> Accepted(stages, input, |stages|)
    ensures Play(stages, input).1 == 0 || Play(stages, input).1 == -1
    decreases |stages|
  {
    if stages != [] {
      match NextReply(input)
      case None =>
      case Some(Reply(line, rest)) =>
        ResultIsZero(stages[1..], rest);
    }
  }

  // A command that the first n stages do not have, other than QUIT, goes out only after n replies with the right codes.
  lemma {:induction false} SentOnlyAfter(stages: seq<Stage>, input: string, n: nat, c: Command)
    requires n <= |stages| && c in Play(stages, input).0 && c != Quit && c !in All(stages[..n])
    ensures Accepted(stages, input, n)
    decreases n
  {
    if n > 0 {
      assert stages[..n][0] == stages[0] && stages[..n][1..] == stages[1..][..n - 1];
      match NextReply(input)
      case None =>
      case Some(Reply(line, rest)) =>
        if HasCode(line, stages[0].code) {
          SentOnlyAfter(stages[1..], rest, n - 1, c);
        }
    }
  }

  // No line of the message and no final dot before HELO, MAIL and RCPT had 250 and DATA had 354.
  lemma MessageOnlyAfter(lines: seq<string>, input: string, c: Command)
    requires c in Play(Script(lines), input).0 && (c.Body? || c.Dot?)
    ensures Accepted(Script(lines), input, 4)
  {
    var script := Script(lines);
    var d := script[..4][3..];
    assert d == [Stage([Data], "354")] && d[1..] == [];
    var r, m := script[..4][2..], script[..4][1..];
    assert r[1..] == d && m[1..] == r && script[..4][1..] == m;
    assert All(d) == [Data];
    assert All(r) == [RcptTo] + All(d);
    assert All(m) == [MailFrom] + All(r);
    assert All(script[..4]) == [Helo] + All(m);
    SentOnlyAfter(script, input, 4, c);
  }

  // ---------- the same in characters ----------

  // The lines that end the next n replies, as far as there are any.
  function Replies(input: string, n: nat): (r: seq<string>)
    ensures |r| <= n
    decreases n
  {
    if n == 0 then []
    else
      match NextReply(input)
      case None => []
      case Some(Reply(line, rest)) => [line] + Replies(rest, n - 1)
  }

  predicate Starts(line: string, a: char, b: char, c: char) {
    |line| >= 3 && line[0] == a && line[1] == b && line[2] == c
  }

  lemma CodeIs(line: string, code: string)
    requires |code| == 3
    ensures HasCode(line, code) <==> Starts(line, code[0], code[1], code[2])
  {
    if |line| >= 3 {
      assert line[..3] == [line[0], line[1], line[2]] && code == [code[0], code[1], code[2]];
    }
  }

  // Each reply starts with the three characters of its stage.
  ghost predicate Answered(stages: seq<Stage>, replies: seq<string>) {
    |replies| <= |stages| && forall k :: 0 <= k < |replies| ==>
      |stages[k].code| == 3 && Starts(replies[k], stages[k].code[0], stages[k].code[1], stages[k].code[2])
  }

  lemma AnsweredStep(stages: seq<Stage>, line: string, later: seq<string>)
    requires stages != [] && |stages[0].code| == 3
    ensures Answered(stages, [line] + later) <==>
      Starts(line, stages[0].code[0], stages[0].code[1], stages[0].code[2]) && Answered(stages[1..], later)
  {
    hide Starts;
    var all := [line] + later;
    assert all[0] == line;
    assert forall k :: 0 <= k < |later| ==> all[k + 1] == later[k];
    assert forall k :: 0 <= k < |stages| - 1 ==> stages[k + 1] == stages[1..][k];
    if Answered(stages, all) {
      assert forall k :: 0 <= k < |later| ==> later[k] == all[k + 1] && stages[1..][k] == stages[k + 1];
    }
  }

  lemma {:induction false} AcceptedIs(stages: seq<Stage>, input: string, n: nat)
    requires n <= |stages| && forall k :: 0 <= k < |stages| ==> |stages[k].code| == 3
    ensures Accepted(stages, input, n) <==> |Replies(input, n)| == n && Answered(stages, Replies(input, n))
    decreases n
  {
    if n > 0 {
      hide NextReply, HasCode, Starts, Answered;
      match NextReply(input)
      case None =>
      case Some(Reply(line, rest)) =>
        CodeIs(line, stages[0].code);
        AcceptedIs(stages[1..], rest, n - 1);
        AnsweredStep(stages, line, Replies(rest, n - 1));
    }
  }

  // The five replies that the mail needs.
  ghost predicate AllGood(r: seq<string>) {
    && |r| == 5
    && Starts(r[0], '2', '5', '0') && Starts(r[1], '2', '5', '0') && Starts(r[2], '2', '5', '0')
    && Starts(r[3], '3', '5', '4') && Starts(r[4], '2', '5', '0')
  }

  // The mail counts as sent exactly when the replies to HELO, MAIL, RCPT and the final dot start with 250 and the
  // reply to DATA with 354.
  lemma SentExactly(lines: seq<string>, input: string)
    ensures Play(Script(lines), input).1 == 0 <==> AllGood(Replies(input, 5))
    ensures Play(Script(lines), input).1 == 0 || Play(Script(lines), input).1 == -1
  {
    Stages(lines);
    ResultIsZero(Script(lines), input);
    hide Script, Play, Replies, Starts, Accepted;
    AcceptedIs(Script(lines), input, 5);
  }

  // And no line of the message or final dot is sent before the first four of these replies.
  lemma MessageOnlyAfterCodes(lines: seq<string>, input: string, c: Command)
    requires c in Play(Script(lines), input).0 && (c.Body? || c.Dot?)
    ensures var r := Replies(input, 4);
      && |r| == 4
      && Starts(r[0], '2', '5', '0') && Starts(r[1], '2', '5', '0') && Starts(r[2], '2', '5', '0')
      && Starts(r[3], '3', '5', '4')
  {
    Stages(lines);
    MessageOnlyAfter(lines, input, c);
    hide Script, Play, Replies, Starts, Accepted;
    AcceptedIs(Script(lines), input, 4);
  }

  // The stream ends where the reply to some stage should come.
  ghost predicate CutOff(stages: seq<Stage>, input: string) {
    exists n: nat :: n < |stages| && Accepted(stages, input, n) && |Replies(input, n + 1)| == n
  }

  // QUIT is sent in every other case, once, as the last command.
  lemma {:induction false} QuitExactly(stages: seq<Stage>, input: string)
    requires forall k :: 0 <= k < |stages| ==> Quit !in stages[k].commands
    ensures Quit in Play(stages, input).0 <==> !CutOff(stages, input)
    ensures Quit in Play(stages, input).0 ==> var sent := Play(stages, input).0; sent[|sent| - 1] == Quit
    decreases |stages|
  {
    if stages != [] {
      assert Quit !in stages[0].commands;
      match NextReply(input)
      case None =>
        assert Accepted(stages, input, 0) && |Replies(input, 0 + 1)| == 0;
      case Some(Reply(line, rest)) =>
        QuitExactly(stages[1..], rest);
        hide NextReply;
        if HasCode(line, stages[0].code) {
          CutLater(stages, input);
        } else {
          assert forall n: nat :: 0 < n < |stages| ==> !Accepted(stages, input, n);
          assert |Replies(input, 0 + 1)| == 1;
        }
    }
  }

  lemma CutLater(stages: seq<Stage>, input: string)
    requires stages != [] && NextReply(input).Some? && HasCode(NextReply(input).value.line, stages[0].code)
    ensures CutOff(stages, input) <==> CutOff(stages[1..], NextReply(input).value.rest)
  {
    hide NextReply, HasCode;
    var rest := NextReply(input).value.rest;
    assert |Replies(input, 0 + 1)| == 1;
    if CutOff(stages, input) {
      var n: nat :| n < |stages| && Accepted(stages, input, n) && |Replies(input, n + 1)| == n;
      assert n > 0;
      assert Accepted(stages[1..], rest, n - 1) && |Replies(rest, n - 1 + 1)| == n - 1;
    }
    if CutOff(stages[1..], rest) {
      var n: nat :| n < |stages[1..]| && Accepted(stages[1..], rest, n) && |Replies(rest, n + 1)| == n;
      assert Accepted(stages, input, n + 1) && |Replies(input, n + 1 + 1)| == n + 1;
    }
  }

  // Everything the script sends, in the order of section 4.1.4 of RFC 5321.
  lemma ScriptIs(lines: seq<string>)
    ensures All(Script(lines)) == [Helo, MailFrom, RcptTo, Data] + BodyOf(lines) + [Dot]
  {
    var s := Script(lines);
    assert All(s[5..]) == [];
    assert s[4..][1..] == s[5..] && s[3..][1..] == s[4..] && s[2..][1..] == s[3..] && s[1..][1..] == s[2..];
    assert All(s[4..]) == BodyOf(lines) + [Dot];
    assert All(s[3..]) == [Data] + All(s[4..]);
    assert All(s[2..]) == [RcptTo] + All(s[3..]);
    assert All(s[1..]) == [MailFrom] + All(s[2..]);
  }

  // A line of up to three characters ends a reply, and a line without an end is cut at 1023.
  lemma LimitsOfLines(line: string)
    ensures |line| <= 3 ==> Final(line)
    ensures |line| >= 1023 && LF !in line[..1023] ==> LineLength(line, MAX) == Some(1023)
  {
    if |line| >= 1023 && LF !in line[..1023] {
      LineIsCut(line, 1023);
    }
  }

  lemma {:induction false} LineIsCut(s: string, max: nat)
    requires |s| >= max && LF !in s[..max]
    ensures LineLength(s, max) == Some(max)
  {
    if max > 0 {
      assert s[0] == s[..max][0];
      assert s[..max][1..] == s[1..][..max - 1];
      assert forall c :: c in s[..max][1..] ==> c in s[..max];
      LineIsCut(s[1..], max - 1);
    }
  }

  // ---------- replies as section 4.2.1 of RFC 5321 writes them ----------

  // A line as the server sends it: a newline at its end and nowhere else.
  ghost predicate IsLine(line: string) {
    4 <= |line| <= MAX && line[|line| - 1] == LF && forall i :: 0 <= i < |line| - 1 ==> line[i] != LF
  }

  // Lines with a hyphen behind the code, then one without.
  ghost predicate IsReply(lines: seq<string>) {
    && lines != []
    && (forall i :: 0 <= i < |lines| ==> IsLine(lines[i]))
    && (forall i :: 0 <= i < |lines| - 1 ==> lines[i][3] == '-')
    && lines[|lines| - 1][3] != '-'
  }

  function Joined(lines: seq<string>): string {
    if lines == [] then [] else lines[0] + Joined(lines[1..])
  }

  lemma {:induction false} LineIsTaken(line: string, more: string, max: nat)
    requires 0 < |line| <= max && line[|line| - 1] == LF && forall i :: 0 <= i < |line| - 1 ==> line[i] != LF
    ensures LineLength(line + more, max) == Some(|line|)
  {
    if |line| > 1 {
      assert (line + more)[1..] == line[1..] + more;
      LineIsTaken(line[1..], more, max - 1);
    }
  }

  // A reply of any number of lines is judged by its last line exactly when that line has a blank
  // (or a NUL) behind its code; a last line of the bare code is read past.
  lemma {:induction false} LastLineJudges(lines: seq<string>, more: string)
    requires IsReply(lines)
    ensures var last := lines[|lines| - 1];
      NextReply(Joined(lines) + more) == Some(Reply(last, more)) <==> last[3] == ' ' || last[3] == NUL
    decreases |lines|
  {
    var line, rest := lines[0], Joined(lines[1..]) + more;
    assert Joined(lines) + more == line + rest;
    LineIsTaken(line, rest, MAX);
    assert (line + rest)[..|line|] == line && (line + rest)[|line|..] == rest;
    if |lines| == 1 {
      assert rest == more;
    } else {
      LastLineJudges(lines[1..], more);
    }
  }

  lemma BareCodeReadPast()
    ensures IsReply(["250\r\n"]) && NextReply("250\r\n") == None
  {}

  // ---------- the message as sections 4.1.1.4 and 4.5.2 of RFC 5321 read it ----------

  const CR: char := '\r'
  const DOT_LINE: string := ".\r\n"

  predicate Break(s: string, i: int) {
    0 <= i < |s| - 1 && s[i] == CR && s[i + 1] == LF
  }

  // The length of the first line with its CRLF.
  function CrlfLine(s: string): (n: Option<nat>)
    ensures n.Some? ==> 2 <= n.value <= |s| && Break(s, n.value - 2) && forall i :: i < n.value - 2 ==> !Break(s, i)
    ensures n.None? ==> forall i :: !Break(s, i)
  {
    if |s| < 2 then None
    else if Break(s, 0) then Some(2)
    else
      BreakTail(s, 1);
      match CrlfLine(s[1..])
      case Some(n) => Some(n + 1)
      case None => None
  }

  lemma BreakTail(s: string, n: nat)
    requires n <= |s|
    ensures forall i :: i >= n ==> (Break(s, i) <==> Break(s[n..], i - n))
  {}

  // The text and what is left for the next command: a line of a single dot ends the text, and any other line that
  // starts with a dot loses it. None while the text has not ended.
  function Receive(s: string): (r: Option<(string, string)>)
    ensures r.Some? ==> |r.value.0| + |DOT_LINE| + |r.value.1| <= |s|
    decreases |s|
  {
    match CrlfLine(s)
    case None => None
    case Some(n) =>
      if s[..n] == DOT_LINE then Some(([], s[n..]))
      else
        match Receive(s[n..])
        case None => None
        case Some((text, rest)) => Some(((if s[0] == '.' then s[1..n] else s[..n]) + text, rest))
  }

  // Empty or ended by CRLF, and no line starts with a dot.
  ghost predicate Clean(t: string) {
    && (t == [] || (Break(t, |t| - 2) && t[0] != '.'))
    && forall i :: Break(t, i) && i + 2 < |t| ==> t[i + 2] != '.'
  }

  lemma CrlfUnique(s: string, n: nat)
    requires Break(s, n - 2) && forall i :: i < n - 2 ==> !Break(s, i)
    ensures CrlfLine(s) == Some(n)
  {
    hide CrlfLine, Break;
  }

  // What follows a line does not change its end.
  lemma CrlfStays(t: string, n: nat, more: string)
    requires CrlfLine(t) == Some(n)
    ensures CrlfLine(t + more) == Some(n)
  {
    hide CrlfLine;
    assert Break(t + more, n - 2);
    forall i | i < n - 2
      ensures !Break(t + more, i)
    {
      assert !Break(t, i);
    }
    CrlfUnique(t + more, n);
  }

  // A text with a first line is clean exactly when that line starts with no dot and the rest is clean.
  lemma CleanStep(t: string, n: nat)
    requires CrlfLine(t) == Some(n)
    ensures Clean(t) <==> t[0] != '.' && Clean(t[n..])
  {
    hide CrlfLine;
    var u := t[n..];
    BreakTail(t, n);
    if Clean(t) {
      CleanTail(t, n, u);
    }
    if t[0] != '.' && Clean(u) {
      CleanWhole(t, n, u);
    }
  }

  lemma CleanTail(t: string, n: nat, u: string)
    requires 2 <= n <= |t| && u == t[n..] && Break(t, n - 2) && Clean(t)
    requires forall i :: i >= n ==> (Break(t, i) <==> Break(u, i - n))
    ensures Clean(u)
  {
    assert forall i :: Break(u, i) ==> 0 <= i;
    hide Break;
    if u != [] {
      assert t[n - 2 + 2] != '.';
      assert |u| >= 2 by { LastBreak(t, n); }
      assert Break(t, |t| - 2) <==> Break(u, |t| - 2 - n);
    }
    forall i | Break(u, i) && i + 2 < |u|
      ensures u[i + 2] != '.'
    {
      assert Break(t, n + i) <==> Break(u, n + i - n);
      assert t[n + i + 2] == u[i + 2];
    }
  }

  // Two line ends do not overlap.
  lemma LastBreak(t: string, n: nat)
    requires 2 <= n < |t| && Break(t, n - 2) && Break(t, |t| - 2)
    ensures |t| - n >= 2
  {}

  lemma CleanWhole(t: string, n: nat, u: string)
    requires 2 <= n <= |t| && u == t[n..] && Break(t, n - 2) && (forall i :: i < n - 2 ==> !Break(t, i))
    requires forall i :: i >= n ==> (Break(t, i) <==> Break(u, i - n))
    requires t[0] != '.' && Clean(u)
    ensures Clean(t)
  {
    assert !Break(t, n - 1);
    hide Break;
    if u != [] {
      assert Break(t, n + |u| - 2) <==> Break(u, n + |u| - 2 - n);
    }
    forall i | Break(t, i) && i + 2 < |t|
      ensures t[i + 2] != '.'
    {
      if i == n - 2 {
        assert u[0] == t[n];
      } else {
        assert i >= n;
        assert u[i - n + 2] == t[i + 2];
      }
    }
  }

  lemma ReceiveStep(line: string, rest: string)
    requires CrlfLine(line + rest) == Some(|line|)
    ensures line == DOT_LINE ==> Receive(line + rest) == Some(([], rest))
    ensures line != DOT_LINE && Receive(rest).None? ==> Receive(line + rest).None?
    ensures line != DOT_LINE && Receive(rest).Some? ==>
      Receive(line + rest) ==
        Some(((if line[0] == '.' then line[1..] else line) + Receive(rest).value.0, Receive(rest).value.1))
  {
    hide CrlfLine;
    var s, n := line + rest, |line|;
    assert s[..n] == line && s[n..] == rest && s[1..n] == line[1..];
  }

  lemma ReceiveLine(line: string, t: string)
    requires line != [] && CrlfLine(line + (t + DOT_LINE)) == Some(|line|)
    ensures Receive(line + (t + DOT_LINE)) == Some((line + t, [])) <==>
      line[0] != '.' && Receive(t + DOT_LINE) == Some((t, []))
  {
    ReceiveStep(line, t + DOT_LINE);
    hide Receive, CrlfLine;
    var r := Receive(t + DOT_LINE);
    if r.Some? && line[0] != '.' {
      Cancel(line, r.value.0, t);
    }
  }

  lemma Cancel(a: string, b: string, c: string)
    ensures a + b == a + c <==> b == c
  {
    assert (a + b)[|a|..] == b && (a + c)[|a|..] == c;
  }

  // A text sent as it is, and the dot behind it, is received as that text exactly when it is clean.
  lemma {:induction false} ReceivedExactly(t: string)
    ensures Receive(t + DOT_LINE) == Some((t, [])) <==> Clean(t)
    decreases |t|
  {
    hide Receive, Clean, CrlfLine;
    match CrlfLine(t)
    case Some(n) =>
      CleanStep(t, n);
      CrlfStays(t, n, DOT_LINE);
      ReceivedExactly(t[n..]);
      assert t == t[..n] + t[n..];
      assert t + DOT_LINE == t[..n] + (t[n..] + DOT_LINE);
      ReceiveLine(t[..n], t[n..]);
    case None =>
      if t == [] {
        OnlyDot([]);
        assert t + DOT_LINE == DOT_LINE + [];
      } else {
        NeverEnds(t);
      }
  }

  lemma OnlyDot(after: string)
    ensures Receive(DOT_LINE + after) == Some(([], after)) && Clean([])
  {
    var all := DOT_LINE + after;
    assert Break(all, 1) && !Break(all, 0);
    CrlfUnique(all, 3);
    ReceiveStep(DOT_LINE, after);
  }

  // Without a CRLF at its end the text runs into the dot.
  lemma NeverEnds(t: string)
    requires t != [] && CrlfLine(t).None?
    ensures Receive(t + DOT_LINE).None? && !Clean(t)
  {
    hide CrlfLine;
    var all := t + DOT_LINE;
    assert Break(all, |all| - 2);
    forall i | i < |all| - 2
      ensures !Break(all, i)
    {
      assert !Break(t, i);
    }
    CrlfUnique(all, |all|);
    assert all + [] == all;
    NothingReceived();
    ReceiveStep(all, []);
    assert |all| > |DOT_LINE|;
  }

  lemma NothingReceived()
    ensures Receive([]).None?
  {}

  // So the lines of a message reach the recipient unchanged exactly when no line starts with a dot and the last
  // one is complete.
  lemma MessageReceived(lines: seq<string>)
    ensures Receive(Joined(lines) + DOT_LINE) == Some((Joined(lines), [])) <==> Clean(Joined(lines))
  {
    ReceivedExactly(Joined(lines));
  }

  // A line of a dot ends the message there, and the lines behind it are taken for commands.
  lemma {:induction false} DotEndsMessage(before: string, after: string)
    requires Clean(before)
    ensures Receive(before + (DOT_LINE + after)) == Some((before, after))
    decreases |before|
  {
    if before == [] {
      OnlyDot(after);
      assert before + (DOT_LINE + after) == DOT_LINE + after;
    } else {
      assert Break(before, |before| - 2);
      hide Receive, Clean, CrlfLine;
      var n := CrlfLine(before).value;
      var line, t := before[..n], before[n..];
      CleanStep(before, n);
      CrlfStays(before, n, DOT_LINE + after);
      assert before == line + t;
      Grouped(line, t, DOT_LINE + after);
      DotEndsMessage(t, after);
      DotStep(line, t, t + (DOT_LINE + after), after);
    }
  }

  lemma Grouped(a: string, b: string, c: string)
    ensures a + b + c == a + (b + c)
  {}

  lemma DotStep(line: string, t: string, rest: string, after: string)
    requires CrlfLine(line + rest) == Some(|line|) && line[0] != '.' && Receive(rest) == Some((t, after))
    ensures Receive(line + rest) == Some((line + t, after))
  {
    hide Receive, CrlfLine;
    ReceiveStep(line, rest);
  }

  // ---------- the client ----------

  class Connection {
    var input: string  // what the server will still send
    var sent: seq<Command>
    var closed: bool

    constructor (input: string)
      ensures this.input == input && sent == [] && !closed
    {
      this.input, sent, closed := input, [], false;
    }

    method Printf(c: Command)
      modifies `sent
      ensures sent == old(sent) + [c]
    {
      sent := sent + [c];
    }

    // smtp_fgets, one recv per character.
    method Fgets(max: nat) returns (n: int, buffer: string)
      requires max > 0
      modifies `input
      ensures LineLength(old(input), max).None? ==> n == -1
      ensures LineLength(old(input), max).Some? ==>
        && n == LineLength(old(input), max).value
        && buffer == old(input)[..n] && input == old(input)[n..]
    {
      n, buffer := 0, "";
      ghost var all := input;
      while n < max
        invariant 0 <= n <= max && n <= |all| && buffer == all[..n] && input == all[n..]
        invariant forall i :: 0 <= i < n ==> all[i] != LF
        invariant LineLength(all, max) ==
          match LineLength(all[n..], max - n) { case Some(k) => Some(k + n) case None => None }
      {
        if input == [] {
          return -1, buffer;
        }
        var c := input[0];
        assert all[n..][0] == c && all[n..][1..] == all[n + 1..];
        input := input[1..];
        n := n + 1;
        buffer := buffer + [c];
        if c == LF {
          break;
        }
      }
    }

    // The do-while loop over reply lines.
    method ReadReply() returns (ok: bool, inbuffer: string)
      modifies `input
      ensures ok == NextReply(old(input)).Some?
      ensures ok ==> NextReply(old(input)) == Some(Reply(inbuffer, input))
    {
      hide LineLength;
      inbuffer := "";
      while true
        invariant NextReply(input) == NextReply(old(input))
        decreases |input|
      {
        var n;
        n, inbuffer := Fgets(MAX);
        if n < 0 {
          return false, inbuffer;
        }
        if Final(inbuffer) {
          return true, inbuffer;
        }
      }
    }

    // smtp_disconnect.
    method Disconnect()
      modifies `input, `sent, `closed
      ensures sent == old(sent) + [Quit]
      ensures closed == (old(closed) || NextReply(old(input)).Some?)
    {
      Printf(Quit);
      var ok, inbuffer := ReadReply();
      if ok {
        closed := true;
      }
    }

    // The block after each command: the reply, its code, and the way out through quit.
    method Expect(code: string, ghost stages: seq<Stage>, ghost before: seq<Command>) returns (go: bool)
      requires |code| == 3
      requires stages != [] && code == stages[0].code && sent == before + stages[0].commands
      modifies this
      ensures !go ==> sent == before + Play(stages, old(input)).0 && Play(stages, old(input)).1 == -1
      ensures go ==> sent == old(sent)
      ensures go ==> before + Play(stages, old(input)).0 == sent + Play(stages[1..], input).0
      ensures go ==> Play(stages, old(input)).1 == Play(stages[1..], input).1
    {
      hide NextReply;
      var ok, inbuffer := ReadReply();
      if !ok {
        return false;
      }
      CodeIs(inbuffer, code);
      if |inbuffer| < 3 || inbuffer[0] != code[0] || inbuffer[1] != code[1] || inbuffer[2] != code[2] {
        Disconnect();
        return false;
      }
      go := true;
    }

    method SendMessage(lines: seq<string>)
      modifies `sent
      ensures sent == old(sent) + (BodyOf(lines) + [Dot])
    {
      for i := 0 to |lines|
        invariant sent == old(sent) + BodyOf(lines)[..i]
      {
        Printf(Body(lines[i]));
      }
      assert BodyOf(lines)[..|lines|] == BodyOf(lines);
      Printf(Dot);
    }

    // smtp_client, once the envelope is read and the connection is up.
    method Client(lines: seq<string>) returns (rc: int)
      requires sent == []
      modifies this
      ensures match NextReply(old(input))
        case None => sent == [] && rc == -1
        case Some(greeting) => (sent, rc) == Play(Script(lines), greeting.rest)
    {
      hide *;
      var go, inbuffer := ReadReply();
      if !go {
        return -1;
      }
      ghost var script := Script(lines);
      Stages(lines);
      ghost var sent0, total := sent, Play(script, input);
      assert sent0 + total.0 == total.0;
      Printf(Helo);
      go := Expect("250", script, sent0);
      if !go {
        return -1;
      }
      sent0 := sent;
      assert total == (sent + Play(script[1..], input).0, Play(script[1..], input).1);
      Printf(MailFrom);
      go := Expect("250", script[1..], sent0);
      if !go {
        return -1;
      }
      sent0 := sent;
      assert script[1..][1..] == script[2..];
      assert total == (sent + Play(script[2..], input).0, Play(script[2..], input).1);
      Printf(RcptTo);
      go := Expect("250", script[2..], sent0);
      if !go {
        return -1;
      }
      sent0 := sent;
      assert script[2..][1..] == script[3..];
      assert total == (sent + Play(script[3..], input).0, Play(script[3..], input).1);
      Printf(Data);
      go := Expect("354", script[3..], sent0);
      if !go {
        return -1;
      }
      sent0 := sent;
      assert script[3..][1..] == script[4..];
      assert total == (sent + Play(script[4..], input).0, Play(script[4..], input).1);
      SendMessage(lines);
      assert sent == sent0 + script[4..][0].commands;
      go := Expect("250", script[4..], sent0);
      if !go {
        return -1;
      }
      assert script[4..][1..] == [];
      PlayEnd(input);
      Disconnect();
      rc := 0;
    }
  }

  lemma Stages(lines: seq<string>)
    ensures var script := Script(lines);
      && |script| == 5
      && script[0] == Stage([Helo], "250") && script[1] == Stage([MailFrom], "250")
      && script[2] == Stage([RcptTo], "250")
      && script[3] == Stage([Data], "354") && script[4] == Stage(BodyOf(lines) + [Dot], "250")
  {}

  lemma PlayEnd(input: string)
    ensures Play([], input) == ([Quit], 0)
  {}
}
