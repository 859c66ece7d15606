/** The TCP chat relay (`handle_client`), run as a sequential state machine:
    each step is one event observed by the handler of one connection. */
module ChatServer {
  import opened ChatProtocol

  /** A connected socket, identified by a number. */
  type Conn = nat

  datatype Event = Frame(text: string) | EndOfStream

  /** One `sendall` of `text` to connection `to`. */
  datatype Delivery = Delivery(to: Conn, text: string)

  /** The text the relay forwards for a non-handshake frame. */
  function Relayed(frame: string): (r: string)
    ensures r == (if ':' in frame then frame else frame + ":")
    ensures r != InitMsg
  {
    var (nick, payload) := Split(frame);
    FormatSplit(frame);
    FormatIsNotInit(nick, payload);
    Format(nick, payload)
  }

  /** Only the whole-frame literal is the handshake: `nick:INIT` is chat and
      is relayed as it is. */
  lemma EmbeddedInitIsChat(nick: string)
    ensures Format(nick, InitMsg) != InitMsg
    ensures Relayed(Format(nick, InitMsg)) == Format(nick, InitMsg)
  {
    FormatIsNotInit(nick, InitMsg);
  }

  /** The frames `client.recv(MAX_BUF_SIZE)` yields for `data` written in
      one piece, when every receive takes as much as is waiting: pieces of
      `MaxBufSize` characters, then the rest. */
  function Chunks(data: string): (r: seq<string>)
    ensures forall k :: 0 <= k < |r| ==> 1 <= |r[k]| <= MaxBufSize
    ensures data != [] && |data| <= MaxBufSize ==> r == [data]
    decreases |data|
  {
    if data == [] then []
    else if |data| <= MaxBufSize then [data]
    else [data[..MaxBufSize]] + Chunks(data[MaxBufSize..])
  }

  function Concat(parts: seq<string>): string {
    if parts == [] then [] else parts[0] + Concat(parts[1..])
  }

  /** Nothing is lost or reordered by the cut: the frames spell out the data. */
  lemma {:induction false} ChunksConcat(data: string)
    ensures Concat(Chunks(data)) == data
    decreases |data|
  {
    if |data| > MaxBufSize {
      var r := Chunks(data);
      assert r[1..] == Chunks(data[MaxBufSize..]);
      ChunksConcat(data[MaxBufSize..]);
      assert data[..MaxBufSize] + data[MaxBufSize..] == data;
    }
  }

  /** `sent` is one copy of `text` to every member except `sender`, each once. */
  predicate IsBroadcast(sent: seq<Delivery>, members: set<Conn>, sender: Conn, text: string) {
    && (forall i :: 0 <= i < |sent| ==> sent[i].text == text && sent[i].to in members && sent[i].to != sender)
    && (forall x :: x in members && x != sender ==> exists i :: 0 <= i < |sent| && sent[i].to == x)
    && (forall i, j :: 0 <= i < j < |sent| ==> sent[i].to != sent[j].to)
  }

  /** Effect of one event on the membership set. */
  function Apply(members: set<Conn>, c: Conn, e: Event): set<Conn> {
    match e
    case Frame(text) => if text == InitMsg then members + {c} else members
    case EndOfStream => members - {c}
  }

  /** Membership after a whole trace of events. */
  function Members(members: set<Conn>, trace: seq<(Conn, Event)>): set<Conn>
    decreases |trace|
  {
    if trace == [] then members
    else Members(Apply(members, trace[0].0, trace[0].1), trace[1..])
  }

  /** Membership after a trace, seen from its last event. */
  lemma {:induction false} MembersAppend(members: set<Conn>, trace: seq<(Conn, Event)>, c: Conn, e: Event)
    ensures Members(members, trace + [(c, e)]) == Apply(Members(members, trace), c, e)
    decreases |trace|
  {
    if trace != [] {
      assert (trace + [(c, e)])[1..] == trace[1..] + [(c, e)];
      MembersAppend(Apply(members, trace[0].0, trace[0].1), trace[1..], c, e);
    }
  }

  /** No end-of-stream for `c` at or after position `from`. */
  predicate NoEndFrom(trace: seq<(Conn, Event)>, c: Conn, from: nat) {
    forall j :: from <= j < |trace| ==> trace[j] != (c, EndOfStream)
  }

  /** `c` sent the handshake at some point and did not close afterwards. */
  predicate RegisteredLast(trace: seq<(Conn, Event)>, c: Conn) {
    exists i :: 0 <= i < |trace| && trace[i] == (c, Frame(InitMsg)) && NoEndFrom(trace, c, i + 1)
  }

  /** A connection is a member after a trace exactly when it either was a
      member before and never closed, or sent `INIT` and did not close after
      its last `INIT`. */
  lemma {:induction false} MembersCharacterised(members: set<Conn>, trace: seq<(Conn, Event)>, c: Conn)
    ensures c in Members(members, trace) <==>
              (c in members && NoEndFrom(trace, c, 0)) || RegisteredLast(trace, c)
    decreases |trace|
  {
    if trace != [] {
      var t, rest := trace[0], trace[1..];
      var m' := Apply(members, t.0, t.1);
      MembersCharacterised(m', rest, c);
      assert forall j :: 1 <= j < |trace| ==> trace[j] == rest[j - 1];
      assert NoEndFrom(trace, c, 0) <==> t != (c, EndOfStream) && NoEndFrom(rest, c, 0) by {
        if t != (c, EndOfStream) && NoEndFrom(rest, c, 0) {
          forall j | 0 <= j < |trace| ensures trace[j] != (c, EndOfStream) {
            if j > 0 { assert trace[j] == rest[j - 1]; }
          }
        }
        if NoEndFrom(trace, c, 0) {
          forall j | 0 <= j < |rest| ensures rest[j] != (c, EndOfStream) {
            assert rest[j] == trace[j + 1];
          }
        }
      }
      assert RegisteredLast(trace, c) <==>
               (t == (c, Frame(InitMsg)) && NoEndFrom(rest, c, 0)) || RegisteredLast(rest, c) by {
        if RegisteredLast(trace, c) {
          var i :| 0 <= i < |trace| && trace[i] == (c, Frame(InitMsg)) && NoEndFrom(trace, c, i + 1);
          if i == 0 {
            forall j | 0 <= j < |rest| ensures rest[j] != (c, EndOfStream) {
              assert rest[j] == trace[j + 1];
            }
          } else {
            assert rest[i - 1] == trace[i];
            forall j | i <= j < |rest| ensures rest[j] != (c, EndOfStream) {
              assert rest[j] == trace[j + 1];
            }
            assert NoEndFrom(rest, c, i);
          }
        }
        if t == (c, Frame(InitMsg)) && NoEndFrom(rest, c, 0) {
          forall j | 1 <= j < |trace| ensures trace[j] != (c, EndOfStream) {
            assert trace[j] == rest[j - 1];
          }
          assert NoEndFrom(trace, c, 1);
        }
        if RegisteredLast(rest, c) {
          var i :| 0 <= i < |rest| && rest[i] == (c, Frame(InitMsg)) && NoEndFrom(rest, c, i + 1);
          assert trace[i + 1] == rest[i];
          forall j | i + 2 <= j < |trace| ensures trace[j] != (c, EndOfStream) {
            assert trace[j] == rest[j - 1];
          }
          assert NoEndFrom(trace, c, i + 2);
        }
      }
    }
  }

  /** Serving one more member keeps a broadcast a broadcast: it gets one
      copy unless it is the sender. */
  lemma BroadcastExtends(sent: seq<Delivery>, done: set<Conn>, sender: Conn, text: string, x: Conn)
    requires IsBroadcast(sent, done, sender, text) && x !in done
    ensures IsBroadcast(if x != sender then sent + [Delivery(x, text)] else sent, done + {x}, sender, text)
  {
    var next := if x != sender then sent + [Delivery(x, text)] else sent;
    forall y | y in done + {x} && y != sender
      ensures exists i :: 0 <= i < |next| && next[i].to == y
    {
      if y == x {
        assert next[|next| - 1].to == x;
      } else {
        var i :| 0 <= i < |sent| && sent[i].to == y;
        assert next[i] == sent[i];
      }
    }
  }

  /** The `for c in clients: if c != client: c.sendall(...)` loop. */
  method Broadcast(members: set<Conn>, sender: Conn, text: string) returns (sent: seq<Delivery>)
    ensures IsBroadcast(sent, members, sender, text)
  {
    sent := [];
    var pending := members;
    ghost var done: set<Conn> := {};
    while pending != {}
      invariant done + pending == members && done !! pending
      invariant IsBroadcast(sent, done, sender, text)
      decreases pending
    {
      var x :| x in pending;
      BroadcastExtends(sent, done, sender, text, x);
      if x != sender {
        sent := sent + [Delivery(x, text)];
      }
      pending := pending - {x};
      done := done + {x};
    }
  }

  /** `log` is what the relay sends over a trace that started from
      `members`: for each chat frame in turn, a broadcast of its relayed text
      to the members at that moment other than its sender. */
  predicate RelayLog(log: seq<Delivery>, members: set<Conn>, trace: seq<(Conn, Event)>)
    decreases |trace|
  {
    if trace == [] then log == []
    else
      var before := trace[..|trace| - 1];
      var (c, e) := trace[|trace| - 1];
      if e.Frame? && e.text != InitMsg then
        exists k :: 0 <= k <= |log| && RelayLog(log[..k], members, before) &&
                    IsBroadcast(log[k..], Members(members, before), c, Relayed(e.text))
      else RelayLog(log, members, before)
  }

  /** One more chat frame appends its broadcast to the log. */
  lemma RelayLogFrame(log: seq<Delivery>, sent: seq<Delivery>, members: set<Conn>,
                      trace: seq<(Conn, Event)>, c: Conn, text: string)
    requires RelayLog(log, members, trace) && text != InitMsg
    requires IsBroadcast(sent, Members(members, trace), c, Relayed(text))
    ensures RelayLog(log + sent, members, trace + [(c, Frame(text))])
  {
    var t := trace + [(c, Frame(text))];
    assert t[..|t| - 1] == trace;
    assert (log + sent)[..|log|] == log && (log + sent)[|log|..] == sent;
  }

  /** A handshake or an end of stream sends nothing. */
  lemma RelayLogQuiet(log: seq<Delivery>, members: set<Conn>, trace: seq<(Conn, Event)>, c: Conn, e: Event)
    requires RelayLog(log, members, trace) && !(e.Frame? && e.text != InitMsg)
    ensures RelayLog(log, members, trace + [(c, e)])
  {
    var t := trace + [(c, e)];
    assert t[..|t| - 1] == trace;
  }

  /** The relay never sends the handshake and never sends a frame back to
      the connection it came from. */
  lemma {:induction false} RelayLogNeverInit(log: seq<Delivery>, members: set<Conn>, trace: seq<(Conn, Event)>)
    requires RelayLog(log, members, trace)
    ensures forall i :: 0 <= i < |log| ==> log[i].text != InitMsg && ':' in log[i].text
    decreases |trace|
  {
    if trace != [] {
      var before := trace[..|trace| - 1];
      var (c, e) := trace[|trace| - 1];
      if e.Frame? && e.text != InitMsg {
        var k :| 0 <= k <= |log| && RelayLog(log[..k], members, before) &&
                 IsBroadcast(log[k..], Members(members, before), c, Relayed(e.text));
        RelayLogNeverInit(log[..k], members, before);
        forall i | 0 <= i < |log| ensures log[i].text != InitMsg && ':' in log[i].text {
          if i < k {
            assert log[i] == log[..k][i];
          } else {
            assert log[i] == log[k..][i - k];
          }
        }
      } else {
        RelayLogNeverInit(log, members, before);
      }
    }
  }

  /** The connections whose `clients.remove` raises `KeyError`, in trace
      order: each end of stream from a connection that is not a member then. */
  function KeyErrors(members: set<Conn>, trace: seq<(Conn, Event)>): (r: seq<Conn>)
    ensures |r| <= |trace|
    decreases |trace|
  {
    if trace == [] then []
    else
      var before := trace[..|trace| - 1];
      var (c, e) := trace[|trace| - 1];
      KeyErrors(members, before) + (if e == EndOfStream && c !in Members(members, before) then [c] else [])
  }

  /** One more event adds at most the one `KeyError` it raises. */
  lemma KeyErrorsStep(members: set<Conn>, trace: seq<(Conn, Event)>, c: Conn, e: Event)
    ensures KeyErrors(members, trace + [(c, e)]) ==
              KeyErrors(members, trace) + (if e == EndOfStream && c !in Members(members, trace) then [c] else [])
  {
    var t := trace + [(c, e)];
    assert t[..|t| - 1] == trace;
  }

  /** `c` closes its stream somewhere in `trace`. */
  predicate ClosesIn(trace: seq<(Conn, Event)>, c: Conn) {
    exists i :: 0 <= i < |trace| && trace[i] == (c, EndOfStream)
  }

  /** Every reported `KeyError` comes from an end of stream in the trace. */
  lemma {:induction false} KeyErrorsFromEnds(members: set<Conn>, trace: seq<(Conn, Event)>)
    ensures forall k :: 0 <= k < |KeyErrors(members, trace)| ==> ClosesIn(trace, KeyErrors(members, trace)[k])
    decreases |trace|
  {
    if trace != [] {
      var before := trace[..|trace| - 1];
      KeyErrorsFromEnds(members, before);
      var r := KeyErrors(members, trace);
      var prev := KeyErrors(members, before);
      var (c, e) := trace[|trace| - 1];
      assert r == prev + (if e == EndOfStream && c !in Members(members, before) then [c] else []);
      forall k | 0 <= k < |r| ensures ClosesIn(trace, r[k]) {
        if k < |prev| {
          assert r[k] == prev[k] && ClosesIn(before, prev[k]);
          var i :| 0 <= i < |before| && before[i] == (prev[k], EndOfStream);
          assert trace[i] == before[i];
        } else {
          assert r[k] == c && e == EndOfStream;
          assert trace[|trace| - 1] == (r[k], EndOfStream);
        }
      }
    }
  }

  /** A connection that registers and later closes raises no `KeyError`
      for that close. */
  lemma RegisteredCloseIsClean(members: set<Conn>, trace: seq<(Conn, Event)>, c: Conn)
    ensures KeyErrors(members, trace + [(c, Frame(InitMsg)), (c, EndOfStream)]) == KeyErrors(members, trace)
  {
    var t1 := trace + [(c, Frame(InitMsg))];
    var t2 := t1 + [(c, EndOfStream)];
    assert trace + [(c, Frame(InitMsg)), (c, EndOfStream)] == t2;
    assert t2[..|t2| - 1] == t1;
    assert t1[..|t1| - 1] == trace;
    MembersAppend(members, trace, c, Frame(InitMsg));
  }

  /** The server's global `clients` set and the per-connection handler logic. */
  class Relay {
    var clients: set<Conn>

    constructor ()
      ensures clients == {}
    {
      clients := {};
    }

    /** One frame read by the handler of connection `c`: the exact frame
        `INIT` registers `c` and sends nothing; any other frame is relayed to
        every registered connection except `c`, whether or not `c` itself
        ever registered. */
    method HandleFrame(c: Conn, frame: string) returns (sent: seq<Delivery>)
      modifies this
      ensures clients == Apply(old(clients), c, Frame(frame))
      ensures frame == InitMsg ==> sent == [] && c in clients
      ensures frame == InitMsg && c in old(clients) ==> clients == old(clients)
      ensures frame != InitMsg ==> IsBroadcast(sent, clients, c, Relayed(frame))
    {
      sent := [];
      if frame == InitMsg {
        clients := clients + {c};
      } else {
        sent := Broadcast(clients, c, Relayed(frame));
      }
    }

    /** End of stream on `c`: `clients.remove(c)`.  `ok` is false when `c`
        was never registered, where Python raises KeyError and the handler
        ends; the set is then unchanged. */
    method HandleEndOfStream(c: Conn) returns (ok: bool)
      modifies this
      ensures ok <==> c in old(clients)
      ensures clients == Apply(old(clients), c, EndOfStream)
      ensures clients == old(clients) - {c}
    {
      ok := c in clients;
      clients := clients - {c};
    }

    /** Feed a trace of (connection, event) pairs through the handlers.
        `log` holds every send, `keyErrors` every connection whose removal
        failed. */
    method Run(trace: seq<(Conn, Event)>) returns (log: seq<Delivery>, keyErrors: seq<Conn>)
      modifies this
      ensures clients == Members(old(clients), trace)
      ensures RelayLog(log, old(clients), trace)
      ensures keyErrors == KeyErrors(old(clients), trace)
      ensures forall k :: 0 <= k < |keyErrors| ==> ClosesIn(trace, keyErrors[k])
    {
      log, keyErrors := [], [];
      var i := 0;
      while i < |trace|
        invariant 0 <= i <= |trace|
        invariant clients == Members(old(clients), trace[..i])
        invariant RelayLog(log, old(clients), trace[..i])
        invariant keyErrors == KeyErrors(old(clients), trace[..i])
      {
        var (c, e) := trace[i];
        assert trace[..i + 1] == trace[..i] + [(c, e)];
        MembersAppend(old(clients), trace[..i], c, e);
        KeyErrorsStep(old(clients), trace[..i], c, e);
        match e {
          case Frame(text) =>
            var sent := HandleFrame(c, text);
            if text != InitMsg {
              RelayLogFrame(log, sent, old(clients), trace[..i], c, text);
            } else {
              RelayLogQuiet(log, old(clients), trace[..i], c, e);
              assert log + sent == log;
            }
            log := log + sent;
          case EndOfStream =>
            RelayLogQuiet(log, old(clients), trace[..i], c, e);
            var ok := HandleEndOfStream(c);
            if !ok {
              keyErrors := keyErrors + [c];
            }
        }
        i := i + 1;
      }
      assert trace[..|trace|] == trace;
      KeyErrorsFromEnds(old(clients), trace);
    }
  }
}
