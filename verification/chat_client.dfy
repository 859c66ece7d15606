/** The chat client: handshake, then one envelope per input line that fits
    the length limit; received frames are split back into nick and message. */
module ChatClient {
  import opened Wrappers
  import opened ChatProtocol
  import ChatServer

  /** The notice printed for a line over the limit. */
  const TooLongNotice: string := "Message too long, maximum 1024 characters."

  /** What the input loop sends for one line: its envelope when the line
      has at most `MaxBufSize` characters (the nick is not counted), else
      nothing. */
  function Outgoing(nick: string, line: string): (r: Option<string>)
    ensures r.Some? <==> |line| <= MaxBufSize
    ensures r.Some? ==> |r.value| == |nick| + 1 + |line| && r.value != InitMsg
    ensures r.Some? && ':' !in nick ==> Split(r.value) == (nick, line)
  {
    if |line| <= MaxBufSize then
      FormatIsNotInit(nick, line);
      SplitFormat(nick, line);
      Some(Format(nick, line))
    else None
  }

  /** The envelopes sent for a sequence of input lines, in order. */
  function Sends(nick: string, lines: seq<string>): (r: seq<string>)
    ensures |r| <= |lines|
    ensures forall k :: 0 <= k < |r| ==> r[k] != InitMsg
  {
    if lines == [] then []
    else
      var last := Outgoing(nick, lines[|lines| - 1]);
      Sends(nick, lines[..|lines| - 1]) + (if last.Some? then [last.value] else [])
  }

  /** Number of lines rejected as too long. */
  function TooLong(lines: seq<string>): nat {
    if lines == [] then 0
    else TooLong(lines[..|lines| - 1]) + (if |lines[|lines| - 1]| > MaxBufSize then 1 else 0)
  }

  /** Every line is either sent or rejected, never both. */
  lemma {:induction false} SendsAndRejectsPartition(nick: string, lines: seq<string>)
    ensures |Sends(nick, lines)| + TooLong(lines) == |lines|
  {
    if lines != [] {
      SendsAndRejectsPartition(nick, lines[..|lines| - 1]);
    }
  }

  /** When every line fits, the k-th envelope is exactly the k-th line under the nick. */
  lemma {:induction false} SendsAllFit(nick: string, lines: seq<string>)
    requires forall k :: 0 <= k < |lines| ==> |lines[k]| <= MaxBufSize
    ensures |Sends(nick, lines)| == |lines|
    ensures forall k :: 0 <= k < |lines| ==> Sends(nick, lines)[k] == Format(nick, lines[k])
  {
    if lines != [] {
      SendsAllFit(nick, lines[..|lines| - 1]);
    }
  }

  /** The client's main sequence: `INIT`, then the input loop. */
  method Session(nick: string, lines: seq<string>) returns (sent: seq<string>, notices: seq<string>)
    ensures sent == [InitMsg] + Sends(nick, lines)
    ensures |notices| == TooLong(lines)
    ensures forall k :: 0 <= k < |notices| ==> notices[k] == TooLongNotice
  {
    sent := [InitMsg];
    notices := [];
    var i := 0;
    while i < |lines|
      invariant 0 <= i <= |lines|
      invariant sent == [InitMsg] + Sends(nick, lines[..i])
      invariant |notices| == TooLong(lines[..i])
      invariant forall k :: 0 <= k < |notices| ==> notices[k] == TooLongNotice
    {
      var line := lines[i];
      assert lines[..i + 1][..i] == lines[..i];
      if |line| <= MaxBufSize {
        sent := sent + [Format(nick, line)];
      } else {
        notices := notices + [TooLongNotice];
      }
      i := i + 1;
    }
    assert lines[..|lines|] == lines;
  }

  /** `INIT` is sent exactly once, and before any chat message. */
  lemma InitSentOnce(nick: string, lines: seq<string>, sent: seq<string>)
    requires sent == [InitMsg] + Sends(nick, lines)
    ensures sent[0] == InitMsg
    ensures forall k :: 0 < k < |sent| ==> sent[k] != InitMsg
  {
    forall k | 0 < k < |sent| ensures sent[k] != InitMsg {
      assert sent[k] == Sends(nick, lines)[k - 1];
    }
  }

  /** A line of exactly 1024 characters is sent; one of 1025 is not,
      whatever the nick. */
  lemma LengthBoundary(nick: string, line: string)
    ensures |line| == 1024 ==> Outgoing(nick, line) == Some(Format(nick, line))
    ensures |line| == 1025 ==> Outgoing(nick, line) == None
  {
  }

  /** The receiver thread's loop: each received frame is shown as (nick, message). */
  method ReceiveLoop(frames: seq<string>) returns (shown: seq<(string, string)>)
    ensures |shown| == |frames|
    ensures forall k :: 0 <= k < |frames| ==> ':' !in shown[k].0
    ensures forall k :: 0 <= k < |frames| && ':' in frames[k] ==>
              frames[k] == shown[k].0 + ":" + shown[k].1
    ensures forall k :: 0 <= k < |frames| && ':' !in frames[k] ==> shown[k] == (frames[k], "")
  {
    shown := [];
    for i := 0 to |frames|
      invariant |shown| == i
      invariant forall k :: 0 <= k < i ==> shown[k] == Split(frames[k])
    {
      shown := shown + [Split(frames[i])];
    }
  }

  /** End to end: when the whole envelope fits in one receive, the server
      reads it as one frame and relays it unchanged, and every other
      member's receiver shows exactly (nick, line). */
  lemma RelayedToOthers(nick: string, line: string)
    requires ':' !in nick && |nick| + 1 + |line| <= MaxBufSize
    ensures Outgoing(nick, line).Some?
    ensures ChatServer.Chunks(Outgoing(nick, line).value) == [Outgoing(nick, line).value]
    ensures ChatServer.Relayed(Outgoing(nick, line).value) == Outgoing(nick, line).value
    ensures Split(ChatServer.Relayed(Outgoing(nick, line).value)) == (nick, line)
  {
    FormatIsNotInit(nick, line);
  }

  /** The gate counts the line but not the nick, so a line that passes it
      can make an envelope longer than one receive: the server then reads
      it as two or more frames, the first cut after `MaxBufSize` characters,
      and relays each of them separately. */
  lemma LongEnvelopeIsCut(nick: string, line: string)
    requires |line| <= MaxBufSize && |nick| + 1 + |line| > MaxBufSize
    ensures Outgoing(nick, line).Some?
    ensures var frames := ChatServer.Chunks(Outgoing(nick, line).value);
            |frames| >= 2 && frames[0] == Outgoing(nick, line).value[..MaxBufSize]
  {
  }
}
