/** The UDP ping server: classifies each message with `partition` on
    `"JAVA: "` and then `"PYTHON: "`, and raises ValueError when neither
    leaves any text after the separator. */
module PingPong {
  import opened Wrappers
  import opened Strings

  const JavaSep: string := "JAVA: "
  const PythonSep: string := "PYTHON: "
  const PongJava: string := "Pong Java"
  const PongPython: string := "Pong Python"
  const WrongStructure: string := "Wrong message structure; should be: <JAVA>/<PYTHON>: <message>"

  /** `msg.partition(sep)[2]`: the text after the first occurrence of `sep`
      at or after `from`, or "" when there is none (`AfterIsPartitionTail`). */
  function AfterFrom(msg: string, sep: string, from: nat): string
    requires from <= |msg|
    decreases |msg| - from
  {
    if OccursAt(msg, sep, from) then msg[from + |sep|..]
    else if from == |msg| then ""
    else AfterFrom(msg, sep, from + 1)
  }

  function After(msg: string, sep: string): string {
    AfterFrom(msg, sep, 0)
  }

  lemma {:induction false} AfterFromFind(msg: string, sep: string, from: nat)
    requires from <= |msg|
    ensures AfterFrom(msg, sep, from) ==
              match FindFrom(msg, sep, from)
              case Some(k) => msg[k + |sep|..]
              case None => ""
    decreases |msg| - from
  {
    if !OccursAt(msg, sep, from) && from < |msg| {
      AfterFromFind(msg, sep, from + 1);
    }
  }

  /** `After` is the third part of Python's `partition`. */
  lemma AfterIsPartitionTail(msg: string, sep: string)
    requires sep != ""
    ensures After(msg, sep) == Partition(msg, sep).2
  {
    AfterFromFind(msg, sep, 0);
  }

  /** The text after the separator is non-empty exactly when the first
      occurrence of `sep` does not end the message. */
  lemma AfterNonEmpty(msg: string, sep: string)
    requires sep != ""
    ensures After(msg, sep) != "" <==>
              exists k :: OccursAt(msg, sep, k) && (forall j :: 0 <= j < k ==> !OccursAt(msg, sep, j)) && k + |sep| < |msg|
  {
    AfterIsPartitionTail(msg, sep);
    var (head, found, tail) := Partition(msg, sep);
    if tail != "" {
      assert found == sep;
      assert OccursAt(msg, sep, |head|);
    }
  }

  /** The reply for one message, or the ValueError that ends the loop. */
  function Classify(msg: string): (r: Result<string, string>)
    ensures r == Ok(PongJava) <==> After(msg, JavaSep) != ""
    ensures r == Ok(PongPython) <==> After(msg, JavaSep) == "" && After(msg, PythonSep) != ""
    ensures r.Err? <==> After(msg, JavaSep) == "" && After(msg, PythonSep) == ""
    ensures r.Err? ==> r.error == WrongStructure
  {
    if After(msg, JavaSep) != "" then Ok(PongJava)
    else if After(msg, PythonSep) != "" then Ok(PongPython)
    else Err(WrongStructure)
  }

  /** A separator with a character the message lacks cannot occur in it. */
  lemma NotContained(msg: string, sep: string, c: char)
    requires c in sep && c !in msg
    ensures !Contains(msg, sep)
  {
  }

  /** `JAVA: ` anywhere in the message, with text after it, gives `Pong Java`,
      whatever else the message holds. */
  lemma JavaAnywhere(msg: string, k: nat)
    requires OccursAt(msg, JavaSep, k) && k + |JavaSep| < |msg|
    ensures Classify(msg) == Ok(PongJava)
  {
    AfterIsPartitionTail(msg, JavaSep);
    var (head, found, tail) := Partition(msg, JavaSep);
    assert Contains(msg, JavaSep);
    assert |head| <= k;
  }

  /** The client's `PYTHON: Ping` is answered with `Pong Python`. */
  lemma PythonPing()
    ensures Classify("PYTHON: Ping") == Ok(PongPython)
  {
    NotContained("PYTHON: Ping", JavaSep, 'J');
    assert OccursAt("PYTHON: Ping", PythonSep, 0);
  }

  /** Without the space, neither separator matches and ValueError is raised. */
  lemma NoSpaceRejected()
    ensures Classify("JAVA:Ping") == Err(WrongStructure)
  {
    NotContained("JAVA:Ping", JavaSep, ' ');
    NotContained("JAVA:Ping", PythonSep, ' ');
  }

  /** Skipping positions where `sep` does not occur. */
  lemma {:induction false} AfterFromSkips(msg: string, sep: string, from: nat, k: nat)
    requires from <= k && OccursAt(msg, sep, k)
    requires forall j :: from <= j < k ==> !OccursAt(msg, sep, j)
    ensures AfterFrom(msg, sep, from) == msg[k + |sep|..]
    decreases k - from
  {
    if from < k {
      AfterFromSkips(msg, sep, from + 1, k);
    }
  }

  /** In `PYTHON: ` + a + `JAVA: `, with no `JAVA: ` inside `a`, the only
      `JAVA: ` is the final one. */
  lemma NoJavaSepBefore(a: string, j: nat)
    requires !Contains(a, JavaSep) && j < |PythonSep| + |a|
    ensures !OccursAt(PythonSep + a + JavaSep, JavaSep, j)
  {
    var msg := PythonSep + a + JavaSep;
    var k := |PythonSep| + |a|;
    if j + |JavaSep| <= |PythonSep| {
      NotContained(PythonSep, JavaSep, 'J');
      assert msg[j..j + |JavaSep|] == PythonSep[j..j + |JavaSep|];
      assert !OccursAt(PythonSep, JavaSep, j);
    } else if j < |PythonSep| {
      assert msg[j..j + |JavaSep|][|PythonSep| - 1 - j] == msg[|PythonSep| - 1] == ' ';
      assert JavaSep[|PythonSep| - 1 - j] != ' ';
    } else if j + |JavaSep| > k {
      assert msg[j..j + |JavaSep|][k - j] == msg[k] == 'J';
      assert JavaSep[k - j] != 'J';
    } else {
      assert msg[j..j + |JavaSep|] == a[j - |PythonSep|..j - |PythonSep| + |JavaSep|];
      assert !OccursAt(a, JavaSep, j - |PythonSep|);
    }
  }

  /** A message whose only `JAVA: ` ends it falls through to the PYTHON test. */
  lemma EmptyJavaTextFallsThrough(a: string)
    requires !Contains(a, JavaSep) && a != ""
    ensures Classify(PythonSep + a + JavaSep) == Ok(PongPython)
  {
    var msg := PythonSep + a + JavaSep;
    var k := |PythonSep| + |a|;
    assert msg[k..] == JavaSep;
    forall j | 0 <= j < k
      ensures !OccursAt(msg, JavaSep, j)
    {
      NoJavaSepBefore(a, j);
    }
    AfterFromSkips(msg, JavaSep, 0, k);
    assert After(msg, JavaSep) == "";
    assert OccursAt(msg, PythonSep, 0);
    assert After(msg, PythonSep) == a + JavaSep;
  }

  /** What the receive loop has done after a sequence of datagrams: the
      replies sent, and whether a message has raised (after which nothing
      more is received). */
  datatype Session = Session(replies: seq<string>, raised: bool)

  function Run(datagrams: seq<string>): Session {
    if datagrams == [] then Session([], false)
    else
      var before := Run(datagrams[..|datagrams| - 1]);
      if before.raised then before
      else match Classify(datagrams[|datagrams| - 1])
        case Ok(reply) => Session(before.replies + [reply], false)
        case Err(_) => Session(before.replies, true)
  }

  /** Once a message has raised, later datagrams change nothing. */
  lemma {:induction false} RaisedStays(datagrams: seq<string>, j: nat)
    requires j <= |datagrams| && Run(datagrams[..j]).raised
    ensures Run(datagrams) == Run(datagrams[..j])
    decreases |datagrams| - j
  {
    if j < |datagrams| {
      assert datagrams[..j + 1][..j] == datagrams[..j];
      RaisedStays(datagrams, j + 1);
    } else {
      assert datagrams[..j] == datagrams;
    }
  }

  /** The loop answers the datagrams in order, each with its classification,
      until the first one that raises, and stops there. */
  lemma {:induction false} RunAnswersInOrder(datagrams: seq<string>)
    ensures |Run(datagrams).replies| <= |datagrams|
    ensures forall k :: 0 <= k < |Run(datagrams).replies| ==> Classify(datagrams[k]) == Ok(Run(datagrams).replies[k])
    ensures Run(datagrams).raised <==> |Run(datagrams).replies| < |datagrams|
    ensures Run(datagrams).raised ==> Classify(datagrams[|Run(datagrams).replies|]).Err?
  {
    if datagrams != [] {
      var init := datagrams[..|datagrams| - 1];
      RunAnswersInOrder(init);
      assert forall k :: 0 <= k < |init| ==> init[k] == datagrams[k];
    }
  }

  /** The `while True` receive loop: replies in order until the first
      message that raises. */
  method Serve(datagrams: seq<string>) returns (replies: seq<string>, raised: bool)
    ensures Session(replies, raised) == Run(datagrams)
  {
    replies, raised := [], false;
    var i := 0;
    while i < |datagrams|
      invariant 0 <= i <= |datagrams|
      invariant Run(datagrams[..i]) == Session(replies, false)
    {
      assert datagrams[..i + 1][..i] == datagrams[..i];
      var reply := Classify(datagrams[i]);
      if reply.Err? {
        raised := true;
        RaisedStays(datagrams, i + 1);
        return;
      }
      replies := replies + [reply.value];
      i := i + 1;
    }
    assert datagrams[..i] == datagrams;
  }
}
