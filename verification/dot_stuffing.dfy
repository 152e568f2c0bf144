/** Multi-line POP3 replies: byte-stuffing and the end marker (pkg/pop3/session.go; section 3 of RFC 1939). */
module DotStuffing {
  import opened Wrappers

  const CRLF: string := "\r\n"
  const TERMINATOR: string := "." + CRLF

  /** Whether a line starts after `data`, given whether one started before it. */
  function LineStart(start: bool, data: string): bool {
    if data == "" then start else data[|data| - 1] == '\n'
  }

  function Escaped(start: bool, c: char): string {
    if start && c == '.' then ".." else [c]
  }

  /** `data` with one more dot on each line that begins with one. */
  function Stuffed(start: bool, data: string): string
    decreases |data|
  {
    if data == "" then "" else Escaped(start, data[0]) + Stuffed(data[0] == '\n', data[1..])
  }

  lemma LineStartAppend(start: bool, a: string, b: string)
    ensures LineStart(start, a + b) == LineStart(LineStart(start, a), b)
  {
  }

  /** Splitting a message into chunks makes no difference, provided the flag is carried along. */
  lemma {:induction false} StuffedAppend(start: bool, a: string, b: string)
    ensures Stuffed(start, a + b) == Stuffed(start, a) + Stuffed(LineStart(start, a), b)
    decreases |a|
  {
    hide Escaped;
    if a == "" {
      assert a + b == b && LineStart(start, a) == start;
    } else {
      StuffedAppend(a[0] == '\n', a[1..], b);
      assert (a + b)[1..] == a[1..] + b;
      assert LineStart(a[0] == '\n', a[1..]) == LineStart(start, a);
    }
  }

  function Flatten(chunks: seq<string>): string {
    if chunks == [] then "" else Flatten(chunks[..|chunks| - 1]) + chunks[|chunks| - 1]
  }

  lemma FlattenNext(chunks: seq<string>, i: nat)
    requires i < |chunks|
    ensures Flatten(chunks[..i + 1]) == Flatten(chunks[..i]) + chunks[i]
  {
    assert chunks[..i + 1][..i] == chunks[..i];
  }

  lemma StuffedNothing(start: bool)
    ensures Stuffed(start, Flatten([])) == "" && LineStart(start, Flatten([])) == start
  {
  }

  class Session {
    var startOfLine: bool
    var written: string

    /** `handle` leaves startOfLine at its zero value, false. */
    constructor ()
      ensures !startOfLine && written == ""
    {
      startOfLine, written := false, "";
    }

    method DotStuffWrite(data: string)
      modifies this
      ensures written == old(written) + Stuffed(old(startOfLine), data)
      ensures startOfLine == LineStart(old(startOfLine), data)
    {
      assert data[..0] == "";
      for i := 0 to |data|
        invariant written == old(written) + Stuffed(old(startOfLine), data[..i])
        invariant startOfLine == LineStart(old(startOfLine), data[..i])
      {
        StuffedAppend(old(startOfLine), data[..i], [data[i]]);
        LineStartAppend(old(startOfLine), data[..i], [data[i]]);
        assert data[..i + 1] == data[..i] + [data[i]];
        if startOfLine && data[i] == '.' {
          written := written + "..";
          startOfLine := false;
        } else {
          written := written + [data[i]];
          startOfLine := data[i] == '\n';
        }
      }
      assert data[..|data|] == data;
    }

    /** The body of a RETR reply: the blob in the chunks it is read in, then the terminator. */
    method WriteMessage(chunks: seq<string>)
      modifies this
      ensures written == old(written) + Stuffed(old(startOfLine), Flatten(chunks)) + TERMINATOR
      ensures startOfLine == LineStart(old(startOfLine), Flatten(chunks))
    {
      hide Stuffed, LineStart, Flatten;
      StuffedNothing(startOfLine);
      assert chunks[..0] == [];
      for i := 0 to |chunks|
        invariant written == old(written) + Stuffed(old(startOfLine), Flatten(chunks[..i]))
        invariant startOfLine == LineStart(old(startOfLine), Flatten(chunks[..i]))
      {
        FlattenNext(chunks, i);
        StuffedAppend(old(startOfLine), Flatten(chunks[..i]), chunks[i]);
        LineStartAppend(old(startOfLine), Flatten(chunks[..i]), chunks[i]);
        DotStuffWrite(chunks[i]);
      }
      assert chunks[..|chunks|] == chunks;
      written := written + TERMINATOR;
    }
  }

  // ----- The client -----

  /**
    How a client cuts lines. Strict is section 3 of RFC 1939, where CRLF alone ends a line;
    Tolerant takes a bare LF for one as well.
   */
  datatype Client = Strict | Tolerant

  datatype Position = AtLineStart | AfterCR | WithinLine

  function Next(client: Client, at: Position, c: char): Position {
    if c == '\r' then AfterCR
    else if c == '\n' && (client.Tolerant? || at == AfterCR) then AtLineStart
    else WithinLine
  }

  /**
    Reads a multi-line reply: a line that is just a dot ends it, any other leading dot is dropped.
    Returns the message and what follows the reply.
   */
  function ReadReply(client: Client, at: Position, s: string): Option<(string, string)>
    decreases |s|
  {
    if s == "" then None
    else if at == AtLineStart && TERMINATOR <= s then Some(("", s[|TERMINATOR|..]))
    else if at == AtLineStart && s[0] == '.' then ReadReply(client, WithinLine, s[1..])
    else Prepended(s[0], ReadReply(client, Next(client, at, s[0]), s[1..]))
  }

  /** Where the client is after a message. */
  function After(client: Client, m: string): Position {
    if m == "" then AtLineStart
    else if m[|m| - 1] == '\r' then AfterCR
    else if m[|m| - 1] == '\n' && (client.Tolerant? || (|m| > 1 && m[|m| - 2] == '\r')) then AtLineStart
    else WithinLine
  }

  /** A dot the server doubles at a place where the client starts no line. */
  predicate StrayDot(client: Client, m: string, i: int) {
    0 < i < |m| && m[i] == '.' && m[i - 1] == '\n' && After(client, m[..i]) != AtLineStart
  }

  /** The messages that survive the trip when the server's line flag is `start`. */
  ghost predicate Faithful(client: Client, start: bool, m: string) {
    && After(client, m) == AtLineStart
    && (forall i :: !StrayDot(client, m, i))
    && (start || m == "" || m[0] != '.')
  }

  /** The same for a client `at` some place in a line while the server has `m` still to write. */
  predicate Clean(client: Client, at: Position, start: bool, m: string)
    decreases |m|
  {
    if m == "" then at == AtLineStart
    else (m[0] == '.' && start ==> at == AtLineStart) && Clean(client, Next(client, at, m[0]), m[0] == '\n', m[1..])
  }

  /** What the server writes from here to the end of the reply, and after it. */
  function Tail(start: bool, m: string, rest: string): string {
    Stuffed(start, m) + TERMINATOR + rest
  }

  lemma TailFirst(start: bool, m: string, rest: string)
    requires m != ""
    ensures Tail(start, m, rest) == Escaped(start, m[0]) + Tail(m[0] == '\n', m[1..], rest)
  {
  }

  /** How the client takes one character: it drops a doubled dot exactly at the start of a line. */
  lemma ReadsEscaped(client: Client, at: Position, start: bool, c: char, tail: string)
    requires at == AtLineStart ==> start
    ensures var more := ReadReply(client, Next(client, at, c), tail);
      ReadReply(client, at, Escaped(start, c) + tail) ==
        if c == '.' && start && at != AtLineStart then Prepended('.', Prepended('.', more)) else Prepended(c, more)
  {
    var s := Escaped(start, c) + tail;
    if c == '.' && start {
      assert s[1] != TERMINATOR[1];
      assert s[1..] == "." + tail && ("." + tail)[1..] == tail;
    } else {
      assert s[0] == c && s[1..] == tail;
    }
  }

  lemma ReadsFirst(client: Client, at: Position, start: bool, m: string, rest: string)
    requires m != "" && (at == AtLineStart ==> start)
    ensures var more := ReadReply(client, Next(client, at, m[0]), Tail(m[0] == '\n', m[1..], rest));
      ReadReply(client, at, Tail(start, m, rest)) ==
        if m[0] == '.' && start && at != AtLineStart then Prepended('.', Prepended('.', more)) else Prepended(m[0], more)
  {
    hide ReadReply, Tail, Escaped;
    TailFirst(start, m, rest);
    ReadsEscaped(client, at, start, m[0], Tail(m[0] == '\n', m[1..], rest));
  }

  /** The end of the reply is seen only from the start of a line; elsewhere it is read as more of the message. */
  lemma ReadsTerminator(client: Client, at: Position, start: bool, rest: string)
    ensures at == AtLineStart ==> ReadReply(client, at, Tail(start, "", rest)) == Some(("", rest))
    ensures at != AtLineStart ==>
      var reply := ReadReply(client, at, Tail(start, "", rest)); reply.Some? ==> |reply.value.0| >= 2
  {
    var s := Tail(start, "", rest);
    assert s == TERMINATOR + rest && TERMINATOR <= s;
    if at != AtLineStart {
      assert s[0] == '.' && s[1..][0] == '\r';
    }
  }

  /** The client never reads less than the message. */
  lemma {:induction false} NothingLost(client: Client, at: Position, start: bool, m: string, rest: string)
    requires at == AtLineStart ==> start
    ensures var reply := ReadReply(client, at, Tail(start, m, rest)); reply.Some? ==> |reply.value.0| >= |m|
    decreases |m|
  {
    hide ReadReply, Tail;
    if m != "" {
      ReadsFirst(client, at, start, m, rest);
      NothingLost(client, Next(client, at, m[0]), m[0] == '\n', m[1..], rest);
    }
  }

  lemma {:induction false} CleanExactly(client: Client, at: Position, start: bool, m: string, rest: string)
    requires at == AtLineStart ==> start
    ensures var reply := ReadReply(client, at, Tail(start, m, rest));
      && ((reply.Some? && reply.value.0 == m) <==> Clean(client, at, start, m))
      && (Clean(client, at, start, m) ==> reply.value.1 == rest)
    decreases |m|
  {
    hide ReadReply, Tail;
    if m == "" {
      ReadsTerminator(client, at, start, rest);
    } else {
      ReadsFirst(client, at, start, m, rest);
      CleanExactly(client, Next(client, at, m[0]), m[0] == '\n', m[1..], rest);
      NothingLost(client, Next(client, at, m[0]), m[0] == '\n', m[1..], rest);
      assert m == [m[0]] + m[1..];
    }
  }

  /** Having lost a leading dot, the client does not happen to read it back. */
  lemma {:induction false} DotStaysLost(client: Client, n: string, rest: string)
    ensures var reply := ReadReply(client, WithinLine, Tail(false, n, rest)); reply.Some? ==> reply.value.0 != "." + n
    decreases |n|
  {
    hide ReadReply, Tail;
    if n == "" {
      ReadsTerminator(client, WithinLine, false, rest);
    } else {
      ReadsFirst(client, WithinLine, false, n, rest);
      var more := ReadReply(client, WithinLine, Tail(false, n[1..], rest));
      assert ("." + n)[0] == '.' && ("." + n)[1..] == n;
      if n[0] == '.' {
        DotStaysLost(client, n[1..], rest);
        assert n == "." + n[1..] && (more.Some? ==> ("." + more.value.0)[1..] == more.value.0);
      }
    }
  }

  /** Clean and Faithful agree: `p` is what the server has written of the message p + m. */
  lemma {:induction false} CleanIsFaithful(client: Client, p: string, m: string)
    ensures Clean(client, After(client, p), LineStart(true, p), m) <==>
      After(client, p + m) == AtLineStart && forall i :: |p| <= i ==> !StrayDot(client, p + m, i)
    decreases |m|
  {
    if m == "" {
      assert p + m == p;
    } else {
      var p' := p + [m[0]];
      CleanIsFaithful(client, p', m[1..]);
      assert p' + m[1..] == p + m && (p + m)[..|p|] == p;
      assert p'[..|p|] == p;
      assert StrayDot(client, p + m, |p|) <==> m[0] == '.' && LineStart(true, p) && After(client, p) != AtLineStart;
    }
  }

  /** The client, at a line start, gets back exactly `m` if and only if `m` is Faithful. */
  lemma ReadsBackExactly(client: Client, start: bool, m: string, rest: string)
    ensures var reply := ReadReply(client, AtLineStart, Stuffed(start, m) + TERMINATOR + rest);
      && ((reply.Some? && reply.value.0 == m) <==> Faithful(client, start, m))
      && (Faithful(client, start, m) ==> reply.value.1 == rest)
  {
    assert "" + m == m;
    CleanIsFaithful(client, "", m);
    if start || m == "" || m[0] != '.' {
      assert Stuffed(start, m) == Stuffed(true, m);
      CleanExactly(client, AtLineStart, true, m, rest);
    } else {
      var s := Tail(start, m, rest);
      assert s[1..] == Tail(false, m[1..], rest);
      assert m == "." + m[1..];
      DotStaysLost(client, m[1..], rest);
    }
  }

  predicate DotAfterBareLF(m: string, i: int) {
    1 <= i < |m| && m[i] == '.' && m[i - 1] == '\n' && !(i >= 2 && m[i - 2] == '\r')
  }

  /**
    What that means for the client of RFC 1939: the message is empty, or it ends in CRLF, has no dot after a bare
    LF, and does not begin with a dot while the flag is unset.
   */
  lemma StrictFaithful(start: bool, m: string)
    ensures Faithful(Strict, start, m) <==>
      m == "" ||
      (&& |m| >= 2 && m[|m| - 2] == '\r' && m[|m| - 1] == '\n'
       && (start || m[0] != '.')
       && forall i :: !DotAfterBareLF(m, i))
  {
    assert forall i :: StrayDot(Strict, m, i) <==> DotAfterBareLF(m, i);
  }

  /** A client that takes a bare LF for a line end only needs the message to end in one. */
  lemma TolerantFaithful(start: bool, m: string)
    ensures Faithful(Tolerant, start, m) <==> m == "" || (m[|m| - 1] == '\n' && (start || m[0] != '.'))
  {
    assert forall i :: !StrayDot(Tolerant, m, i);
  }

  // ----- A whole session -----

  /** The message bodies written by one RETR after another. */
  function Transcript(start: bool, messages: seq<string>): string
    decreases |messages|
  {
    if messages == [] then ""
    else Stuffed(start, messages[0]) + TERMINATOR + Transcript(LineStart(start, messages[0]), messages[1..])
  }

  function ReadReplies(client: Client, n: nat, s: string): Option<seq<string>> {
    if n == 0 then Some([])
    else
      match ReadReply(client, AtLineStart, s)
      case None => None
      case Some((message, rest)) =>
        match ReadReplies(client, n - 1, rest)
        case None => None
        case Some(messages) => Some([message] + messages)
  }

  ghost predicate AllFaithful(client: Client, start: bool, messages: seq<string>)
    decreases |messages|
  {
    messages == [] ||
    (Faithful(client, start, messages[0]) && AllFaithful(client, LineStart(start, messages[0]), messages[1..]))
  }

  lemma {:induction false} SessionReadsBackExactly(client: Client, start: bool, messages: seq<string>)
    ensures ReadReplies(client, |messages|, Transcript(start, messages)) == Some(messages)
        <==> AllFaithful(client, start, messages)
    decreases |messages|
  {
    hide Faithful, ReadReply, Stuffed;
    if messages != [] {
      var next := LineStart(start, messages[0]);
      ReadsBackExactly(client, start, messages[0], Transcript(next, messages[1..]));
      SessionReadsBackExactly(client, next, messages[1..]);
      assert messages == [messages[0]] + messages[1..];
    }
  }

  ghost predicate Tidy(m: string) {
    && (m == "" || (|m| >= 2 && m[|m| - 2] == '\r' && m[|m| - 1] == '\n'))
    && forall i :: !DotAfterBareLF(m, i)
  }

  /** With the flag set at the start, as the tests set it, messages that end in CRLF and have no dot after a bare LF come through. */
  lemma {:induction false} FlagSetSuffices(messages: seq<string>)
    requires forall m <- messages :: Tidy(m)
    ensures AllFaithful(Strict, true, messages)
  {
    if messages != [] {
      var m := messages[0];
      assert m in messages;
      StrictFaithful(true, m);
      FlagSetSuffices(messages[1..]);
    }
  }

  /** As `handle` starts out, the flag is unset and a first message with a leading dot arrives damaged. */
  lemma FlagUnsetDamages(client: Client)
    ensures !AllFaithful(client, false, [".signature\r\n"])
    ensures Faithful(client, true, ".signature\r\n")
  {
    StrictFaithful(true, ".signature\r\n");
    TolerantFaithful(true, ".signature\r\n");
  }

  /**
    Bare line feeds, which the store accepts, do not survive, whatever the flag: the terminator after one is no line
    of its own, and a dot after one arrives doubled.
   */
  lemma BareLineFeedsDamage(start: bool)
    ensures !Faithful(Strict, start, "a\n") && !Faithful(Strict, start, "\n.\r\n")
    ensures Faithful(Tolerant, start, "a\n") && Faithful(Tolerant, start, "\n.\r\n")
  {
    assert StrayDot(Strict, "\n.\r\n", 1);
    TolerantFaithful(start, "a\n");
    TolerantFaithful(start, "\n.\r\n");
  }
}
