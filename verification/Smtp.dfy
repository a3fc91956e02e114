/** The loopback mail sink of the browser fixture (`read_smtp_data`): a line-based SMTP receiver
    that undoes the dot-stuffing of section 4.5.2 of RFC 5321. The socket is the octets the
    client sends and, for each reply, whether writing it succeeds. */
module Smtp {
  import opened Bytes

  const MAX_MESSAGE: nat := 65_536

  /** Whether the reply with the given number can be written; 0 is the greeting. */
  type Writes = nat -> bool

  const END_OF_DATA: Bytes := [DOT, CR, NL]

  /** `read_line`: up to and including the next line feed. */
  function ReadLine(input: Bytes): (n: nat)
    ensures n <= |input| && (input != [] ==> n > 0)
  {
    var i := Find(input, NL, 0);
    if i == |input| then i else i + 1
  }

  /** `line.strip_prefix('.').unwrap_or(&line)`. */
  function Unstuffed(line: Bytes): Bytes {
    if line != [] && line[0] == DOT then line[1..] else line
  }

  datatype Command = Ehlo | Data | Quit | Other

  function Classify(line: Bytes): Command {
    if StartsWith(line, Ascii("EHLO ")) then Ehlo
    else if StartsWith(line, Ascii("DATA")) then Data
    else if StartsWith(line, Ascii("QUIT")) then Quit
    else Other
  }

  /** The lines read from the input: up to its end, or to a line that is not UTF-8. */
  function Lines(input: Bytes): seq<Bytes>
    decreases |input|
  {
    var n := ReadLine(input);
    if n == 0 || !ValidUtf8(input[..n]) then [] else [input[..n]] + Lines(input[n..])
  }

  /** What is returned for lines that come between mails; `reply` is the number of the next reply. */
  function Idle(lines: seq<Bytes>, reply: nat, ok: Writes): seq<Bytes>
    decreases |lines|
  {
    if lines == [] || Classify(lines[0]).Quit? || !ok(reply) then []
    else if Classify(lines[0]).Data? then InData(lines[1..], [], reply + 1, ok)
    else Idle(lines[1..], reply + 1, ok)
  }

  /** What is returned for lines that come inside a message. */
  function InData(lines: seq<Bytes>, message: Bytes, reply: nat, ok: Writes): seq<Bytes>
    decreases |lines|
  {
    if lines == [] then []
    else if lines[0] == END_OF_DATA then
      if ok(reply) then [message] + Idle(lines[1..], reply + 1, ok) else []
    else if |message| + |Unstuffed(lines[0])| > MAX_MESSAGE then []
    else InData(lines[1..], message + Unstuffed(lines[0]), reply, ok)
  }

  /** `read_smtp_data`. */
  method ReadSmtpData(input: Bytes, ok: Writes) returns (messages: seq<Bytes>)
    ensures messages == if ok(0) then Idle(Lines(input), 1, ok) else []
  {
    messages := [];
    if !ok(0) {
      return;
    }
    var rest, data, message, reply := input, false, [], 1;
    ghost var all := Idle(Lines(input), 1, ok);
    while true
      invariant messages + (if data then InData(Lines(rest), message, reply, ok)
                            else Idle(Lines(rest), reply, ok)) == all
      decreases |rest|
    {
      var n := ReadLine(rest);
      var line := rest[..n];
      if n == 0 || !ValidUtf8(line) {
        break;
      }
      assert Lines(rest)[1..] == Lines(rest[n..]);
      rest := rest[n..];
      if data {
        if line == END_OF_DATA {
          if !ok(reply) {
            break;
          }
          messages, message, data, reply := messages + [message], [], false, reply + 1;
          continue;
        }
        var clean := Unstuffed(line);
        if |message| + |clean| > MAX_MESSAGE {
          break;
        }
        message := message + clean;
        continue;
      }
      var command := Classify(line);
      if command == Data {
        data, message := true, [];
      } else if command == Quit {
        break;
      }
      if !ok(reply) {
        break;
      }
      reply := reply + 1;
    }
  }

  // ---------------------------------------------------------------- the size bound

  /** No returned message exceeds the bound, whatever the client sends. */
  lemma {:induction false} IdleBounded(lines: seq<Bytes>, reply: nat, ok: Writes)
    ensures forall m :: m in Idle(lines, reply, ok) ==> |m| <= 65536
    decreases |lines|
  {
    if lines != [] {
      InDataBounded(lines[1..], [], reply + 1, ok);
      IdleBounded(lines[1..], reply + 1, ok);
    }
  }

  lemma {:induction false} InDataBounded(lines: seq<Bytes>, message: Bytes, reply: nat, ok: Writes)
    requires |message| <= MAX_MESSAGE
    ensures forall m :: m in InData(lines, message, reply, ok) ==> |m| <= MAX_MESSAGE
    decreases |lines|
  {
    if lines != [] {
      IdleBounded(lines[1..], reply + 1, ok);
      if |message| + |Unstuffed(lines[0])| <= MAX_MESSAGE {
        InDataBounded(lines[1..], message + Unstuffed(lines[0]), reply, ok);
      }
    }
  }

  // ---------------------------------------------------------------- what a client sends

  /** One line of well-formed UTF-8 that ends with its only line feed. */
  predicate IsLine(l: Bytes) {
    l != [] && l[|l| - 1] == NL && NL !in l[..|l| - 1] && ValidUtf8(l)
  }

  predicate IsCrlfLine(l: Bytes) {
    IsLine(l) && |l| >= 2 && l[|l| - 2] == CR
  }

  /** A command that neither opens the data phase nor ends the session. */
  predicate IsCommand(l: Bytes) {
    IsLine(l) && (Classify(l).Ehlo? || Classify(l).Other?)
  }

  predicate IsDataCommand(l: Bytes) {
    IsLine(l) && Classify(l).Data?
  }

  const CRLF: Bytes := [13, 10]

  /** An argument on a command line. */
  predicate IsArgument(x: Bytes) {
    forall i :: 0 <= i < |x| ==> 32 <= x[i] < 127
  }

  lemma CommandLine(verb: Bytes, argument: Bytes)
    requires IsArgument(verb) && IsArgument(argument)
    ensures IsLine(verb + argument + CRLF)
  {
    var l := verb + argument + CRLF;
    assert l[..|l| - 1] == verb + argument + [13];
    AsciiIsUtf8(l);
  }

  /** The commands of a mailer, spelled out: which of them only get a reply, which opens the data phase
      and which ends the session, whatever follows them on the line. */
  lemma CommandsAre(argument: Bytes)
    requires IsArgument(argument)
    ensures IsCommand(Ascii("EHLO ") + argument + CRLF)
    ensures IsCommand(Ascii("MAIL FROM:") + argument + CRLF)
    ensures IsCommand(Ascii("RCPT TO:") + argument + CRLF)
  {
    SpelledCommand(Ascii("EHLO "), argument);
    SpelledCommand(Ascii("MAIL FROM:"), argument);
    SpelledCommand(Ascii("RCPT TO:"), argument);
  }

  lemma DataAndQuitAre(argument: Bytes)
    requires IsArgument(argument)
    ensures IsDataCommand(Ascii("DATA") + argument + CRLF)
    ensures Classify(Ascii("QUIT") + argument + CRLF) == Quit
  {
    SpelledCommand(Ascii("DATA"), argument);
    SpelledCommand(Ascii("QUIT"), argument);
  }

  lemma SpelledCommand(verb: Bytes, argument: Bytes)
    requires |verb| >= 4 && IsArgument(verb) && IsArgument(argument)
    ensures var l := verb + argument + CRLF;
            IsLine(l) && l[0] == verb[0] && StartsWith(l, verb)
  {
    CommandLine(verb, argument);
    var l := verb + argument + CRLF;
    assert l[..|verb|] == verb;
  }

  function Concat(lines: seq<Bytes>): Bytes {
    if lines == [] then [] else lines[0] + Concat(lines[1..])
  }

  /** Dot-stuffing: a line that starts with a dot gets another one. */
  function Stuffed(line: Bytes): Bytes {
    if line != [] && line[0] == DOT then [DOT] + line else line
  }

  function StuffedAll(lines: seq<Bytes>): (r: seq<Bytes>)
    ensures |r| == |lines| && forall i :: 0 <= i < |lines| ==> r[i] == Stuffed(lines[i])
  {
    seq(|lines|, i requires 0 <= i < |lines| => Stuffed(lines[i]))
  }

  /** The mail of one transaction: its commands, its data command and the lines of its message. */
  datatype Mail = Mail(commands: seq<Bytes>, dataCommand: Bytes, lines: seq<Bytes>)

  predicate ValidMail(m: Mail) {
    && (forall i :: 0 <= i < |m.commands| ==> IsCommand(m.commands[i]))
    && IsDataCommand(m.dataCommand)
    && (forall i :: 0 <= i < |m.lines| ==> IsCrlfLine(m.lines[i]))
    && |Concat(m.lines)| <= 65536
  }

  ghost predicate AllValidMails(mails: seq<Mail>) {
    forall i :: 0 <= i < |mails| ==> ValidMail(mails[i])
  }

  /** The lines the client sends for a mail; after its message a dot on a line of its own. */
  function Sent(m: Mail): seq<Bytes> {
    m.commands + ([m.dataCommand] + (StuffedAll(m.lines) + [[46, 13, 10]]))
  }

  function SentAll(mails: seq<Mail>): seq<Bytes> {
    if mails == [] then [] else Sent(mails[0]) + SentAll(mails[1..])
  }

  function Bodies(mails: seq<Mail>): seq<Bytes> {
    if mails == [] then [] else [Concat(mails[0].lines)] + Bodies(mails[1..])
  }

  // ---------------------------------------------------------------- the input as lines

  ghost predicate AllLines(lines: seq<Bytes>) {
    forall i :: 0 <= i < |lines| ==> IsLine(lines[i])
  }

  /** The reader cuts the input where the client's lines end. */
  lemma {:induction false} LinesOf(lines: seq<Bytes>)
    requires AllLines(lines)
    ensures Lines(Concat(lines)) == lines
    decreases |lines|
  {
    if lines != [] {
      var l, rest := lines[0], Concat(lines[1..]);
      var x := l + rest;
      assert x[0..|l| - 1] == l[..|l| - 1];
      FindUnique(x, NL, 0, |l| - 1);
      assert x[..|l|] == l && x[|l|..] == rest;
      LinesOf(lines[1..]);
    }
  }

  /** A stuffed line is one line, is not the end of the data, and unstuffs to the line. */
  lemma StuffedLine(l: Bytes)
    requires IsCrlfLine(l)
    ensures IsLine(Stuffed(l)) && Stuffed(l) != END_OF_DATA && Unstuffed(Stuffed(l)) == l
  {
    if l[0] == DOT {
      var s := [DOT] + l;
      assert s[..|s| - 1] == [DOT] + l[..|l| - 1];
      assert s[1..] == l;
      AsciiFirst(DOT, l);
    }
  }

  lemma EndOfDataLine()
    ensures IsLine(END_OF_DATA)
  {
    AsciiIsUtf8(END_OF_DATA);
  }

  lemma SentIsLines(m: Mail)
    requires ValidMail(m)
    ensures AllLines(Sent(m))
  {
    EndOfDataLine();
    forall i | 0 <= i < |m.lines| ensures IsLine(StuffedAll(m.lines)[i]) { StuffedLine(m.lines[i]); }
  }

  lemma {:induction false} SentAllIsLines(mails: seq<Mail>)
    requires AllValidMails(mails)
    ensures AllLines(SentAll(mails))
  {
    if mails != [] {
      SentIsLines(mails[0]);
      SentAllIsLines(mails[1..]);
    }
  }

  // ---------------------------------------------------------------- delivery

  ghost predicate AllWritten(ok: Writes) {
    forall i :: ok(i)
  }

  lemma {:induction false} CommandsReceived(lines: seq<Bytes>, rest: seq<Bytes>, reply: nat, ok: Writes)
    requires AllWritten(ok) && forall i :: 0 <= i < |lines| ==> IsCommand(lines[i])
    ensures Idle(lines + rest, reply, ok) == Idle(rest, reply + |lines|, ok)
    decreases |lines|
  {
    if lines == [] {
      assert lines + rest == rest;
    } else {
      assert (lines + rest)[1..] == lines[1..] + rest;
      CommandsReceived(lines[1..], rest, reply + 1, ok);
    }
  }

  lemma DataLine(line: Bytes, rest: seq<Bytes>, message: Bytes, reply: nat, ok: Writes)
    requires IsCrlfLine(line) && |message| + |line| <= MAX_MESSAGE
    ensures InData([Stuffed(line)] + rest, message, reply, ok) == InData(rest, message + line, reply, ok)
  {
    StuffedLine(line);
    assert ([Stuffed(line)] + rest)[1..] == rest;
  }

  lemma {:induction false} DataReceived(lines: seq<Bytes>, rest: seq<Bytes>, message: Bytes, reply: nat, ok: Writes)
    requires forall i :: 0 <= i < |lines| ==> IsCrlfLine(lines[i])
    requires |message| + |Concat(lines)| <= MAX_MESSAGE
    ensures InData(StuffedAll(lines) + rest, message, reply, ok)
            == InData(rest, message + Concat(lines), reply, ok)
    decreases |lines|
  {
    var sent := StuffedAll(lines);
    if lines == [] {
      assert sent + rest == rest && message + Concat(lines) == message;
    } else {
      var after := StuffedAll(lines[1..]) + rest;
      assert sent + rest == [Stuffed(lines[0])] + after;
      DataLine(lines[0], after, message, reply, ok);
      DataReceived(lines[1..], rest, message + lines[0], reply, ok);
      assert message + lines[0] + Concat(lines[1..]) == message + Concat(lines);
    }
  }

  lemma DataOpens(line: Bytes, rest: seq<Bytes>, reply: nat, ok: Writes)
    requires ok(reply) && IsDataCommand(line)
    ensures Idle([line] + rest, reply, ok) == InData(rest, [], reply + 1, ok)
  {
    assert ([line] + rest)[1..] == rest;
  }

  lemma DataCloses(rest: seq<Bytes>, message: Bytes, reply: nat, ok: Writes)
    requires ok(reply)
    ensures InData([END_OF_DATA] + rest, message, reply, ok) == [message] + Idle(rest, reply + 1, ok)
  {
    assert ([END_OF_DATA] + rest)[1..] == rest;
  }

  lemma Associative(a: seq<Bytes>, b: seq<Bytes>, c: seq<Bytes>)
    ensures a + b + c == a + (b + c)
  {
  }

  lemma SentParts(m: Mail, rest: seq<Bytes>)
    ensures Sent(m) + rest
            == m.commands + ([m.dataCommand] + (StuffedAll(m.lines) + ([END_OF_DATA] + rest)))
  {
    var stuffed := StuffedAll(m.lines);
    Associative(stuffed, [END_OF_DATA], rest);
    Associative([m.dataCommand], stuffed + [END_OF_DATA], rest);
    Associative(m.commands, [m.dataCommand] + (stuffed + [END_OF_DATA]), rest);
  }

  lemma MailReceived(m: Mail, rest: seq<Bytes>, reply: nat, ok: Writes)
    requires AllWritten(ok) && ValidMail(m)
    ensures Idle(Sent(m) + rest, reply, ok)
            == [Concat(m.lines)] + Idle(rest, reply + |m.commands| + 2, ok)
  {
    var r := reply + |m.commands|;
    var afterEnd := [END_OF_DATA] + rest;
    var afterData := StuffedAll(m.lines) + afterEnd;
    SentParts(m, rest);
    CommandsReceived(m.commands, [m.dataCommand] + afterData, reply, ok);
    DataOpens(m.dataCommand, afterData, r, ok);
    DataReceived(m.lines, afterEnd, [], r + 1, ok);
    assert [] + Concat(m.lines) == Concat(m.lines);
    DataCloses(rest, Concat(m.lines), r + 1, ok);
  }

  /** Whatever commands surround them, dot-stuffed messages of CRLF lines within the bound are
      returned exactly, in order, before whatever the `tail` brings. */
  lemma {:induction false} MailsReceived(mails: seq<Mail>, tail: seq<Bytes>, reply: nat, ok: Writes) returns (last: nat)
    requires AllWritten(ok) && AllValidMails(mails)
    ensures Idle(SentAll(mails) + tail, reply, ok) == Bodies(mails) + Idle(tail, last, ok)
    decreases |mails|
  {
    if mails == [] {
      assert SentAll(mails) + tail == tail;
      last := reply;
    } else {
      var first, others := mails[0], mails[1..];
      Associative(Sent(first), SentAll(others), tail);
      MailReceived(first, SentAll(others) + tail, reply, ok);
      last := MailsReceived(others, tail, reply + |first.commands| + 2, ok);
      Associative([Concat(first.lines)], Bodies(others), Idle(tail, last, ok));
    }
  }

  const QUIT: Bytes := Ascii("QUIT\r\n")

  lemma QuitLine()
    ensures IsLine(QUIT) && Classify(QUIT).Quit?
  {
    assert QUIT[5] == NL && NL !in QUIT[..5];
    AsciiIsUtf8(QUIT);
    assert Classify(QUIT).Quit? by {
      assert QUIT[0] == 81 && QUIT[..4] == Ascii("QUIT");
      assert Ascii("EHLO ")[0] == 69 && Ascii("DATA")[0] == 68;
    }
  }

  /** A session whose client sends its mails dot-stuffed, and then closes or says QUIT, returns
      exactly the messages of the mails. */
  lemma SessionReturnsMessages(mails: seq<Mail>, quits: bool, ok: Writes)
    requires AllWritten(ok) && AllValidMails(mails)
    ensures var input := Concat(SentAll(mails) + if quits then [QUIT] else []);
            Idle(Lines(input), 1, ok) == Bodies(mails)
  {
    var tail := if quits then [QUIT] else [];
    assert AllLines(SentAll(mails) + tail) by {
      QuitLine();
      SentAllIsLines(mails);
    }
    LinesOf(SentAll(mails) + tail);
    var last := MailsReceived(mails, tail, 1, ok);
    TailReceived(quits, last, ok);
  }

  lemma TailReceived(quits: bool, reply: nat, ok: Writes)
    ensures Idle(if quits then [QUIT] else [], reply, ok) == []
  {
    QuitLine();
  }
}
