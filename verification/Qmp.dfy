/** The QMP client (`suspend.py`): newline-delimited JSON over a stream socket, with asynchronous events between
    the replies (QEMU Machine Protocol Specification, sections 2.2 to 2.5). JSON decoding is a parameter. */
module Qmp {
  import opened Streams
  import opened Text

  const NEWLINE: Byte := 10

  predicate IsBlank(b: Byte) {
    b == 32 || 9 <= b <= 13
  }

  /** `bytes.strip()`. */
  function StripBytes(s: Bytes): Bytes {
    if s != [] && IsBlank(s[0]) then StripBytes(s[1..])
    else if s != [] && IsBlank(s[|s| - 1]) then StripBytes(s[..|s| - 1])
    else s
  }

  /** A decoded message: whether it has the keys `QMP` and `event`, and what else it says. */
  datatype Message = Message(greeting: bool, event: bool, body: string)

  /** `json.loads` of a decoded line; None when it raises. */
  type Decoder = Bytes -> Option<Message>

  datatype Error = Closed | Malformed | NoGreeting

  /** Stripping takes blanks off both ends and nothing else. */
  lemma {:induction false} StripBytesFacts(s: Bytes) returns (i: nat, j: nat)
    ensures i <= j <= |s| && StripBytes(s) == s[i..j]
    ensures forall k | 0 <= k < i || j <= k < |s| :: s[k] == 32 || 9 <= s[k] <= 13
    ensures i < j ==> !(s[i] == 32 || 9 <= s[i] <= 13) && !(s[j - 1] == 32 || 9 <= s[j - 1] <= 13)
    decreases |s|
  {
    if s != [] && IsBlank(s[0]) {
      i, j := StripBytesFacts(s[1..]);
      assert forall k | 0 < k < |s| :: s[k] == s[1..][k - 1];
      assert s[1..][i..j] == s[i + 1..j + 1];
      i, j := i + 1, j + 1;
    } else if s != [] && IsBlank(s[|s| - 1]) {
      i, j := StripBytesFacts(s[..|s| - 1]);
      assert s[..|s| - 1][i..j] == s[i..j];
    } else {
      i, j := 0, |s|;
      assert s[0..|s|] == s;
    }
  }

  // ----- what a stream says, whatever its chunks -----

  /** Index of the first `b`, or `|s|` when there is none. */
  function Find(s: Bytes, b: Byte): (i: nat)
    ensures i <= |s| && (i < |s| ==> s[i] == b)
  {
    if s == [] || s[0] == b then 0 else Find(s[1..], b) + 1
  }

  lemma {:induction false} FindNone(s: Bytes, b: Byte)
    ensures Find(s, b) == |s| <==> b !in s
  {
    if s == [] {
    } else {
      FindNone(s[1..], b);
      assert s == [s[0]] + s[1..];
    }
  }

  datatype Taken<T> = Taken(item: T, rest: Bytes)

  lemma StripNothing(s: Bytes)
    requires StripBytes(s) != []
    ensures s != []
  {
  }

  /** The next line of a stream that ends after these bytes. */
  function TakeLine(s: Bytes): (t: Option<Taken<Bytes>>)
    ensures t.Some? ==> |t.value.rest| < |s|
  {
    var i := Find(s, NEWLINE);
    if i < |s| then Some(Taken(s[..i], s[i + 1..]))
    else if StripBytes(s) != [] then StripNothing(s); Some(Taken(s, []))
    else None
  }

  /** All the messages of a stream: one for each line that is not blank, None where decoding fails. */
  function Messages(decode: Decoder, s: Bytes): seq<Option<Message>>
    decreases |s|
  {
    match TakeLine(s)
    case None => []
    case Some(t) => (if StripBytes(t.item) == [] then [] else [decode(StripBytes(t.item))]) + Messages(decode, t.rest)
  }

  function WithoutEvents(msgs: seq<Option<Message>>): seq<Option<Message>> {
    if msgs == [] then []
    else (if msgs[0].Some? && msgs[0].value.event then [] else [msgs[0]]) + WithoutEvents(msgs[1..])
  }

  /** The first `n` of these messages, unless one of them fails to decode or there are fewer. */
  function FirstOf(msgs: seq<Option<Message>>, n: nat): Result<seq<Message>, Error> {
    if n == 0 then Ok([])
    else if msgs == [] then Err(Closed)
    else if msgs[0].None? then Err(Malformed)
    else
      match FirstOf(msgs[1..], n - 1)
      case Err(e) => Err(e)
      case Ok(more) => Ok([msgs[0].value] + more)
  }

  /** What `qmp_command` answers: after the greeting, the replies that are not events, without the reply to the
      capabilities negotiation, one for each command. */
  function Answer(msgs: seq<Option<Message>>, commands: nat): Result<seq<Message>, Error> {
    if msgs == [] then Err(Closed)
    else if msgs[0].None? then Err(Malformed)
    else if !msgs[0].value.greeting then Err(NoGreeting)
    else
      match FirstOf(WithoutEvents(msgs[1..]), commands + 1)
      case Err(e) => Err(e)
      case Ok(replies) => Ok(replies[1..])
  }

  lemma {:induction false} FirstOfFacts(msgs: seq<Option<Message>>, n: nat)
    ensures var r := FirstOf(msgs, n);
            && (r.Ok? <==> n <= |msgs| && forall i | 0 <= i < n :: msgs[i].Some?)
            && (r.Ok? ==> |r.value| == n && forall i | 0 <= i < n :: r.value[i] == msgs[i].value)
  {
    if n > 0 && msgs != [] && msgs[0].Some? {
      FirstOfFacts(msgs[1..], n - 1);
      if n <= |msgs| {
        assert forall i | 0 <= i < n - 1 :: msgs[1..][i] == msgs[i + 1];
        if forall i | 0 <= i < n - 1 :: msgs[1..][i].Some? {
          assert forall i | 0 <= i < n :: i == 0 || msgs[i] == msgs[1..][i - 1];
        } else {
          var i :| 0 <= i < n - 1 && msgs[1..][i].None?;
          assert msgs[i + 1].None?;
        }
      }
    }
  }

  /** Exactly when there is an answer: a greeting comes first, and then, events aside, at least one message more
      than commands, all decoded so far. The answer is those messages in order, without the negotiation reply. */
  lemma AnswerFacts(msgs: seq<Option<Message>>, commands: nat)
    ensures var r := Answer(msgs, commands);
            && (r.Ok? <==>
                  && msgs != [] && msgs[0].Some? && msgs[0].value.greeting
                  && commands < |WithoutEvents(msgs[1..])|
                  && forall i | 0 <= i <= commands :: WithoutEvents(msgs[1..])[i].Some?)
            && (r.Ok? ==>
                  && |r.value| == commands
                  && forall i | 0 <= i < commands :: WithoutEvents(msgs[1..])[i + 1] == Some(r.value[i]))
  {
    if msgs != [] {
      FirstOfFacts(WithoutEvents(msgs[1..]), commands + 1);
    }
  }

  lemma {:induction false} NoEventLeft(msgs: seq<Option<Message>>)
    ensures forall m | m in WithoutEvents(msgs) :: m.None? || !m.value.event
  {
    if msgs == [] {
    } else {
      NoEventLeft(msgs[1..]);
    }
  }

  // ----- lines of a stream -----

  lemma {:induction false} FindInFront(a: Bytes, b: Bytes)
    requires NEWLINE in a
    ensures Find(a, NEWLINE) < |a| && Find(a + b, NEWLINE) == Find(a, NEWLINE)
  {
    if a[0] == NEWLINE {
    } else {
      assert (a + b)[1..] == a[1..] + b;
      FindInFront(a[1..], b);
    }
  }

  lemma CutInFront(a: Bytes, b: Bytes, i: nat)
    requires i < |a|
    ensures (a + b)[..i] == a[..i] && (a + b)[i + 1..] == a[i + 1..] + b
  {
  }

  /** A line that is complete in the buffer is the line of the whole stream. */
  lemma LineInFront(a: Bytes, b: Bytes)
    requires NEWLINE in a
    ensures var i := Find(a, NEWLINE);
            i < |a| && TakeLine(a + b) == Some(Taken(a[..i], a[i + 1..] + b))
  {
    hide Find, StripBytes;
    FindInFront(a, b);
    CutInFront(a, b, Find(a, NEWLINE));
  }

  lemma EndOfStream(buf: Bytes, chunks: seq<Bytes>)
    requires chunks == [] && NEWLINE !in buf
    ensures Flat(chunks) == [] && buf + Flat(chunks) == buf && [] + Flat(chunks) == []
    ensures TakeLine(buf) == if StripBytes(buf) != [] then Some(Taken(buf, [])) else None
  {
    hide StripBytes;
    assert buf + [] == buf;
    FindNone(buf, NEWLINE);
  }

  /** A part of a stream that ends where a line ends. */
  predicate WholeLines(a: Bytes) {
    a == [] || a[|a| - 1] == NEWLINE
  }

  /** What one line of a stream says. */
  function Said(decode: Decoder, line: Bytes): seq<Option<Message>> {
    if StripBytes(line) == [] then [] else [decode(StripBytes(line))]
  }

  lemma MessagesStep(decode: Decoder, s: Bytes)
    requires TakeLine(s).Some?
    ensures Messages(decode, s) == Said(decode, TakeLine(s).value.item) + Messages(decode, TakeLine(s).value.rest)
  {
    hide TakeLine, StripBytes;
  }

  lemma Associate(a: seq<Option<Message>>, b: seq<Option<Message>>, c: seq<Option<Message>>)
    ensures a + (b + c) == a + b + c
  {
  }

  lemma NothingSaid(decode: Decoder)
    ensures Messages(decode, []) == []
  {
  }

  /** Whole lines say the same whatever follows them. */
  lemma {:induction false} MessagesConcat(decode: Decoder, a: Bytes, b: Bytes)
    requires WholeLines(a)
    ensures Messages(decode, a + b) == Messages(decode, a) + Messages(decode, b)
    decreases |a|
  {
    hide Find, TakeLine, Messages, Said;
    if a == [] {
      assert a + b == b;
      NothingSaid(decode);
      assert [] + Messages(decode, b) == Messages(decode, b);
    } else {
      assert NEWLINE in a;
      var i := Find(a, NEWLINE);
      LineInFront(a, b);
      LineInFront(a, []);
      assert a + [] == a && a[i + 1..] + [] == a[i + 1..];
      MessagesStep(decode, a);
      MessagesStep(decode, a + b);
      MessagesConcat(decode, a[i + 1..], b);
      Associate(Said(decode, a[..i]), Messages(decode, a[i + 1..]), Messages(decode, b));
    }
  }

  lemma {:induction false} FindNewline(line: Bytes)
    requires NEWLINE !in line
    ensures Find(line + [NEWLINE], NEWLINE) == |line|
  {
    if line == [] {
    } else {
      assert (line + [NEWLINE])[1..] == line[1..] + [NEWLINE];
      FindNewline(line[1..]);
    }
  }

  lemma OneLine(decode: Decoder, line: Bytes)
    requires NEWLINE !in line
    ensures Messages(decode, line + [NEWLINE]) == Said(decode, line)
  {
    NothingSaid(decode);
    FindNone(line, NEWLINE);
    var s := line + [NEWLINE];
    FindNewline(line);
    hide StripBytes, Find;
    assert s[..|line|] == line && s[|line| + 1..] == [];
  }

  /** A line put between whole lines adds what it says by itself. */
  lemma LineBetween(decode: Decoder, a: Bytes, line: Bytes, b: Bytes)
    requires WholeLines(a) && NEWLINE !in line
    ensures Messages(decode, a + line + [NEWLINE] + b)
         == Messages(decode, a) + Said(decode, line) + Messages(decode, b)
  {
    hide Messages, StripBytes;
    OneLine(decode, line);
    assert a + line + [NEWLINE] == a + (line + [NEWLINE]);
    MessagesConcat(decode, a + (line + [NEWLINE]), b);
    MessagesConcat(decode, a, line + [NEWLINE]);
  }

  /** A blank line anywhere between the lines of a stream changes nothing. */
  lemma BlankLineIgnored(decode: Decoder, a: Bytes, line: Bytes, b: Bytes)
    requires WholeLines(a) && NEWLINE !in line && StripBytes(line) == []
    ensures Messages(decode, a + line + [NEWLINE] + b) == Messages(decode, a + b)
  {
    hide Messages;
    LineBetween(decode, a, line, b);
    MessagesConcat(decode, a, b);
    assert Messages(decode, a) + [] == Messages(decode, a);
  }

  lemma {:induction false} EventsDropOut(a: seq<Option<Message>>, b: seq<Option<Message>>)
    ensures WithoutEvents(a + b) == WithoutEvents(a) + WithoutEvents(b)
  {
    if a == [] {
      assert a + b == b;
    } else {
      assert (a + b)[1..] == a[1..] + b;
      EventsDropOut(a[1..], b);
      Associate(if a[0].Some? && a[0].value.event then [] else [a[0]], WithoutEvents(a[1..]), WithoutEvents(b));
    }
  }

  /** An event between the lines after the greeting changes no answer. */
  lemma EventIgnored(decode: Decoder, a: Bytes, line: Bytes, b: Bytes, commands: nat)
    requires WholeLines(a) && NEWLINE !in line && Messages(decode, a) != []
    requires StripBytes(line) != [] && decode(StripBytes(line)).Some? && decode(StripBytes(line)).value.event
    ensures Answer(Messages(decode, a + line + [NEWLINE] + b), commands) == Answer(Messages(decode, a + b), commands)
  {
    hide Messages, FirstOf, StripBytes;
    LineBetween(decode, a, line, b);
    MessagesConcat(decode, a, b);
    var m, n, e := Messages(decode, a), Messages(decode, b), [decode(StripBytes(line))];
    assert (m + e + n)[1..] == m[1..] + e + n && (m + n)[1..] == m[1..] + n;
    EventsDropOut(m[1..] + e, n);
    EventsDropOut(m[1..], e);
    EventsDropOut(m[1..], n);
    assert e[1..] == [] && WithoutEvents(e) == [];
    assert WithoutEvents(m[1..]) + [] == WithoutEvents(m[1..]);
  }

  /** Any other line that is not blank counts, at its place: it is a reply, or a message that fails to decode. */
  lemma ReplyStays(decode: Decoder, a: Bytes, line: Bytes, b: Bytes)
    requires WholeLines(a) && NEWLINE !in line && StripBytes(line) != []
    requires decode(StripBytes(line)).None? || !decode(StripBytes(line)).value.event
    ensures WithoutEvents(Messages(decode, a + line + [NEWLINE] + b))
         == WithoutEvents(Messages(decode, a)) + [decode(StripBytes(line))] + WithoutEvents(Messages(decode, b))
  {
    hide Messages, StripBytes;
    LineBetween(decode, a, line, b);
    var m, n, e := Messages(decode, a), Messages(decode, b), [decode(StripBytes(line))];
    EventsDropOut(m + e, n);
    EventsDropOut(m, e);
    assert e[1..] == [] && WithoutEvents(e) == e;
  }

  // ----- the reader -----

  function Head(msgs: seq<Option<Message>>): Result<Message, Error> {
    if msgs == [] then Err(Closed) else if msgs[0].None? then Err(Malformed) else Ok(msgs[0].value)
  }

  /** The first message that is missing or fails to decode decides the error. */
  lemma {:induction false} FailedAt(msgs: seq<Option<Message>>, k: nat, n: nat)
    requires k < n && k <= |msgs| && forall i | 0 <= i < k :: msgs[i].Some?
    requires Head(msgs[k..]).Err?
    ensures FirstOf(msgs, n) == Err(Head(msgs[k..]).error)
  {
    if k == 0 {
      assert msgs[0..] == msgs;
    } else {
      assert msgs[1..][k - 1..] == msgs[k..];
      FailedAt(msgs[1..], k - 1, n - 1);
    }
  }

  lemma CutAt(buf: Bytes, i: nat, b: Byte)
    requires i < |buf| && buf[i] == b
    ensures buf == (buf[..i] + [b]) + buf[i + 1..]
  {
  }

  lemma StillIn(buf: Bytes, later: Bytes, i: nat, b: Byte)
    requires i < |buf| && buf[i] == b
    ensures b in buf + later
  {
    assert (buf + later)[i] == b;
  }

  lemma CutAtNewline(buf: Bytes, later: Bytes)
    requires NEWLINE in buf
    ensures var i := Find(buf, NEWLINE); i < |buf| && buf == (buf[..i] + [NEWLINE]) + buf[i + 1..]
    ensures NEWLINE in buf + later
  {
    FindNone(buf, NEWLINE);
    hide Find;
    CutAt(buf, Find(buf, NEWLINE), NEWLINE);
    StillIn(buf, later, Find(buf, NEWLINE), NEWLINE);
  }

  lemma NoChunks(chunks: seq<Bytes>)
    requires chunks == []
    ensures Flat(chunks) == []
  {
  }

  class LineReader {
    const decode: Decoder
    var buf: Bytes
    /** What the socket will still return from `recv`; an exhausted list is end of stream. */
    var chunks: seq<Bytes>
    ghost var received: Bytes
    ghost var delivered: Bytes

    /** Lines delivered, with their newlines, plus the buffer are the bytes received. */
    ghost predicate Valid()
      reads this
    {
      delivered + buf == received && forall c | c in chunks :: c != []
    }

    /** The bytes not delivered yet. */
    ghost function Pending(): Bytes
      reads this
    {
      buf + Flat(chunks)
    }

    constructor (decode: Decoder, chunks: seq<Bytes>)
      requires forall c | c in chunks :: c != []
      ensures Valid() && this.decode == decode && Pending() == Flat(chunks) && received == []
    {
      this.decode, buf, this.chunks, received, delivered := decode, [], chunks, [], [];
    }

    method Recv() returns (chunk: Bytes)
      requires Valid()
      modifies this`chunks
      ensures Valid() && Flat(old(chunks)) == chunk + Flat(chunks)
      ensures chunk == [] <==> old(chunks) == []
      ensures |chunks| == |old(chunks)| - if chunk == [] then 0 else 1
    {
      if chunks == [] {
        chunk := [];
      } else {
        assert chunks[0] in chunks && forall c | c in chunks[1..] :: c in chunks;
        chunk := chunks[0];
        chunks := chunks[1..];
      }
    }

    /** `_next_line`; None when the socket closes before a complete message. */
    method NextLine() returns (line: Option<Bytes>)
      requires Valid()
      modifies this
      ensures Valid()
      ensures match TakeLine(old(Pending()))
              case None => line == None && StripBytes(Pending()) == []
              case Some(t) => line == Some(t.item) && Pending() == t.rest
      // every byte taken from the socket is received, and the line is delivered with the newline that ended it
      ensures received + Flat(chunks) == old(received + Flat(chunks))
      ensures delivered == old(delivered) + match line
                                            case None => []
                                            case Some(l) => if NEWLINE in old(Pending()) then l + [NEWLINE] else l
    {
      hide StripBytes, Flat, Find;
      ghost var all := Pending();
      while NEWLINE !in buf
        invariant Valid() && Pending() == all && delivered == old(delivered)
        invariant received + Flat(chunks) == old(received + Flat(chunks))
        decreases |chunks|
      {
        var chunk := Recv();
        if chunk == [] {
          EndOfStream(buf, chunks);
          assert Flat(chunks) == [] && all == buf by { NoChunks(chunks); }
          if StripBytes(buf) != [] {
            line := Some(buf);
            delivered := delivered + buf;
            buf := [];
          } else {
            line := None;
          }
          return;
        }
        assert received + (chunk + Flat(chunks)) == received + chunk + Flat(chunks);
        assert buf + (chunk + Flat(chunks)) == buf + chunk + Flat(chunks);
        buf := buf + chunk;
        received := received + chunk;
      }
      var i := Find(buf, NEWLINE);
      LineInFront(buf, Flat(chunks));
      line := Some(buf[..i]);
      CutAtNewline(buf, Flat(chunks));
      ghost var whole := buf[..i] + [NEWLINE];
      assert delivered + buf == delivered + whole + buf[i + 1..];
      delivered := delivered + whole;
      buf := buf[i + 1..];
    }

    /** `next_json`. */
    method NextJson() returns (r: Result<Message, Error>)
      requires Valid()
      modifies this
      ensures Valid() && r == Head(Messages(decode, old(Pending())))
      ensures r.Ok? ==> Messages(decode, Pending()) == Messages(decode, old(Pending()))[1..] && |Pending()| < |old(Pending())|
      ensures received + Flat(chunks) == old(received + Flat(chunks)) && old(delivered) <= delivered
    {
      while true
        invariant received + Flat(chunks) == old(received + Flat(chunks)) && old(delivered) <= delivered
        invariant Valid() && Messages(decode, Pending()) == Messages(decode, old(Pending())) && |Pending()| <= |old(Pending())|
        decreases |Pending()|
      {
        var line := NextLine();
        if line.None? {
          return Err(Closed);
        }
        var text := StripBytes(line.value);
        if text != [] {
          var m := decode(text);
          return if m.None? then Err(Malformed) else Ok(m.value);
        }
      }
    }

    /** `next_reply`. */
    method NextReply() returns (r: Result<Message, Error>)
      requires Valid()
      modifies this
      ensures Valid() && r == Head(WithoutEvents(Messages(decode, old(Pending()))))
      ensures r.Ok? ==> WithoutEvents(Messages(decode, Pending())) == WithoutEvents(Messages(decode, old(Pending())))[1..]
      ensures received + Flat(chunks) == old(received + Flat(chunks)) && old(delivered) <= delivered
    {
      while true
        invariant received + Flat(chunks) == old(received + Flat(chunks)) && old(delivered) <= delivered
        invariant Valid() && WithoutEvents(Messages(decode, Pending())) == WithoutEvents(Messages(decode, old(Pending())))
        decreases |Pending()|
      {
        ghost var msgs := Messages(decode, Pending());
        r := NextJson();
        hide Messages;
        if r.Err? || !r.value.event {
          return;
        }
      }
    }
  }

  const CAPABILITIES := "qmp_capabilities"

  /** The command loop: one reply for each command sent. */
  method RunCommands(reader: LineReader, commands: seq<string>) returns (r: Result<seq<Message>, Error>, sent: seq<string>)
    requires reader.Valid()
    modifies reader
    ensures r == FirstOf(WithoutEvents(Messages(reader.decode, old(reader.Pending()))), |commands|)
    ensures sent <= commands && (r.Ok? ==> sent == commands)
  {
    hide Messages, WithoutEvents, FirstOf;
    ghost var replies := WithoutEvents(Messages(reader.decode, reader.Pending()));
    var got: seq<Message> := [];
    sent := [];
    for i := 0 to |commands|
      invariant reader.Valid()
      invariant sent == commands[..i]
      invariant |got| == i <= |replies|
      invariant WithoutEvents(Messages(reader.decode, reader.Pending())) == replies[i..]
      invariant forall j | 0 <= j < i :: replies[j] == Some(got[j])
    {
      sent := sent + [commands[i]];
      var reply := reader.NextReply();
      if reply.Err? {
        FailedAt(replies, i, |commands|);
        return Err(reply.error), sent;
      }
      got := got + [reply.value];
    }
    FirstOfFacts(replies, |commands|);
    assert FirstOf(replies, |commands|).value == got;
    r := Ok(got);
  }

  /** `qmp_command`: the answer depends on the bytes the server sends, never on how they are cut into chunks. */
  method QmpCommand(decode: Decoder, chunks: seq<Bytes>, commands: seq<string>) returns (r: Result<seq<Message>, Error>, sent: seq<string>)
    requires forall c | c in chunks :: c != []
    ensures r == Answer(Messages(decode, Flat(chunks)), |commands|)
    ensures sent <= [CAPABILITIES] + commands && (r.Ok? ==> sent == [CAPABILITIES] + commands)
  {
    hide Messages, WithoutEvents;
    var reader := new LineReader(decode, chunks);
    sent := [];
    var greeting := reader.NextJson();
    if greeting.Err? {
      return Err(greeting.error), sent;
    }
    if !greeting.value.greeting {
      return Err(NoGreeting), sent;
    }
    sent := [CAPABILITIES];
    var negotiated := reader.NextReply();
    if negotiated.Err? {
      return Err(negotiated.error), sent;
    }
    var more;
    r, more := RunCommands(reader, commands);
    sent := sent + more;
  }
}
