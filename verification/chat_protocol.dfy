/** The chat envelope shared by the relay server and its clients:
    `"<nick>:<message>"`, with the literal `INIT` as the handshake. */
module ChatProtocol {
  import opened Strings

  /** Largest number of bytes read per receive, and the client's line limit. */
  const MaxBufSize: nat := 1024
  /** The handshake frame. */
  const InitMsg: string := "INIT"

  /** `MESSAGE.format(nick=nick, message=message)` with `MESSAGE = "{nick}:{message}"`. */
  function Format(nick: string, message: string): string {
    nick + ":" + message
  }

  /** `nick, _, message = frame.partition(":")`. */
  function Split(frame: string): (r: (string, string))
    ensures ':' !in r.0
    ensures ':' in frame ==> frame == r.0 + ":" + r.1
    ensures ':' !in frame ==> r == (frame, "")
  {
    var (nick, sep, message) := Partition(frame, ":");
    ContainsChar(frame, ':');
    PartitionHeadHasNoSep(frame, ':');
    (nick, message)
  }

  /** Round trip: splitting an envelope gives back its nick and message
      exactly when the nick contains no colon. */
  lemma SplitFormat(nick: string, message: string)
    ensures Split(Format(nick, message)) == (nick, message) <==> ':' !in nick
  {
    if ':' !in nick {
      PartitionAtChar(nick, ':', message);
      assert Format(nick, message) == nick + [':'] + message;
    }
  }

  /** Re-formatting a split frame restores it when it had a colon, and
      appends one otherwise. */
  lemma FormatSplit(frame: string)
    ensures Format(Split(frame).0, Split(frame).1) == (if ':' in frame then frame else frame + ":")
  {
  }

  /** An envelope always carries a colon, so it is never the handshake. */
  lemma FormatIsNotInit(nick: string, message: string)
    ensures ':' in Format(nick, message)
    ensures Format(nick, message) != InitMsg
  {
    assert Format(nick, message)[|nick|] == ':';
  }
}
