/** The ZooKeeper demo's text menu: choosing an action by number, the exit
    entry, the extra name prompt for the child-creating action, and the
    dispatch of the chosen action with or without that name. */
module Menu {
  import opened Wrappers
  import opened Strings

  // ----- Python's int() on a line of input -----

  /** ASCII characters Python's `str.isspace` accepts. */
  predicate IsSpace(c: char) {
    c == ' ' || 9 <= c as int <= 13 || 28 <= c as int <= 31
  }

  predicate IsDigit(c: char) {
    '0' <= c <= '9'
  }

  predicate AllDigits(s: string) {
    forall i :: 0 <= i < |s| ==> IsDigit(s[i])
  }

  predicate AllSpace(s: string) {
    forall i :: 0 <= i < |s| ==> IsSpace(s[i])
  }

  /** `s` with its leading whitespace removed (`TrimLeftFacts` says so). */
  function TrimLeft(s: string): string {
    if s == [] || !IsSpace(s[0]) then s else TrimLeft(s[1..])
  }

  /** `s` with its trailing whitespace removed (`TrimRightFacts` says so). */
  function TrimRight(s: string): string {
    if s == [] || !IsSpace(s[|s| - 1]) then s else TrimRight(s[..|s| - 1])
  }

  lemma {:induction false} TrimLeftFacts(s: string)
    ensures var r := TrimLeft(s);
      |r| <= |s| && r == s[|s| - |r|..] && AllSpace(s[..|s| - |r|]) && (r == [] || !IsSpace(r[0]))
  {
    if s != [] && IsSpace(s[0]) {
      TrimLeftFacts(s[1..]);
      var r := TrimLeft(s[1..]);
      assert s[..|s| - |r|] == [s[0]] + s[1..][..|s| - 1 - |r|];
    }
  }

  lemma {:induction false} TrimRightFacts(s: string)
    ensures var r := TrimRight(s);
      |r| <= |s| && r == s[..|r|] && AllSpace(s[|r|..]) && (r == [] || !IsSpace(r[|r| - 1]))
  {
    if s != [] && IsSpace(s[|s| - 1]) {
      TrimRightFacts(s[..|s| - 1]);
      var r := TrimRight(s[..|s| - 1]);
      assert s[|r|..] == s[..|s| - 1][|r|..] + [s[|s| - 1]];
      assert s[..|r|] == s[..|s| - 1][..|r|];
    }
  }

  /** `str.strip()`: surrounding whitespace removed. */
  function Strip(s: string): string {
    TrimRight(TrimLeft(s))
  }

  /** The value of a non-empty run of decimal digits; `None` for anything else. */
  function ReadDigits(s: string): Option<nat> {
    if s == [] || !IsDigit(s[|s| - 1]) then None
    else
      var d := s[|s| - 1] as int - '0' as int;
      if |s| == 1 then Some(d)
      else
        var high := ReadDigits(s[..|s| - 1]);
        if high.None? then None else Some(10 * high.value + d)
  }

  lemma {:induction false} ReadDigitsFacts(s: string)
    ensures ReadDigits(s).Some? <==> s != [] && AllDigits(s)
    ensures ReadDigits(s).Some? ==> ReadDigits(s).value == DigitsValue(s)
  {
    if s != [] && IsDigit(s[|s| - 1]) && |s| > 1 {
      var p := s[..|s| - 1];
      ReadDigitsFacts(p);
      if !AllDigits(p) {
        var k :| 0 <= k < |p| && !IsDigit(p[k]);
        assert s[k] == p[k];
      }
      assert AllDigits(s) ==> AllDigits(p);
      assert s[..|s| - 1] == p;
    }
  }

  /** `int(line)`: optional surrounding whitespace, an optional sign, and
      one or more decimal digits; anything else is a `ValueError` (`None`). */
  function ParseInt(line: string): Option<int> {
    ParseStripped(Strip(line))
  }

  function ParseStripped(u: string): Option<int> {
    if |u| >= 1 && (u[0] == '+' || u[0] == '-') then
      var magnitude := ReadDigits(u[1..]);
      if magnitude.None? then None
      else Some(if u[0] == '-' then -(magnitude.value as int) else magnitude.value)
    else
      var magnitude := ReadDigits(u);
      if magnitude.None? then None else Some(magnitude.value)
  }

  /** A line `int` accepts holds nothing but whitespace, digits and signs,
      and at least one digit. */
  lemma ParseIntCharacters(line: string)
    requires ParseInt(line).Some?
    ensures forall i :: 0 <= i < |line| ==>
              IsSpace(line[i]) || IsDigit(line[i]) || line[i] == '+' || line[i] == '-'
    ensures exists i :: 0 <= i < |line| && IsDigit(line[i])
  {
    var t := TrimLeft(line);
    var u := TrimRight(t);
    TrimLeftFacts(line);
    TrimRightFacts(t);
    var off := |line| - |t|;
    var signed := |u| >= 1 && (u[0] == '+' || u[0] == '-');
    var digits := if signed then u[1..] else u;
    ReadDigitsFacts(digits);
    assert u[|u| - 1] == digits[|digits| - 1];
    assert u[|u| - 1] == line[off + |u| - 1];
    forall i | 0 <= i < |line|
      ensures IsSpace(line[i]) || IsDigit(line[i]) || line[i] == '+' || line[i] == '-'
    {
      if i < off {
        assert IsSpace(line[..off][i]);
      } else if i < off + |u| {
        assert line[i] == u[i - off];
        if i > off || !signed {
          assert u[i - off] == digits[i - off - (if signed then 1 else 0)];
        }
      } else {
        assert line[i] == t[|u|..][i - off - |u|];
      }
    }
  }

  /** Stripping a string made of whitespace, a core that neither starts nor
      ends with whitespace, and whitespace again leaves the core. */
  lemma {:induction false} StripSurrounded(w1: string, core: string, w2: string)
    requires AllSpace(w1) && AllSpace(w2)
    requires core != [] && !IsSpace(core[0]) && !IsSpace(core[|core| - 1])
    ensures Strip(w1 + core + w2) == core
  {
    TrimLeftSpaces(w1, core + w2);
    assert w1 + core + w2 == w1 + (core + w2);
    TrimRightSpaces(core, w2);
  }

  lemma {:induction false} TrimLeftSpaces(w: string, s: string)
    requires AllSpace(w) && s != [] && !IsSpace(s[0])
    ensures TrimLeft(w + s) == s
  {
    if w != [] {
      assert (w + s)[1..] == w[1..] + s;
      TrimLeftSpaces(w[1..], s);
    } else {
      assert w + s == s;
    }
  }

  lemma {:induction false} TrimRightSpaces(s: string, w: string)
    requires AllSpace(w) && s != [] && !IsSpace(s[|s| - 1])
    ensures TrimRight(s + w) == s
  {
    if w != [] {
      assert (s + w)[..|s + w| - 1] == s + w[..|w| - 1];
      TrimRightSpaces(s, w[..|w| - 1]);
    } else {
      assert s + w == s;
    }
  }

  /** `int` reads back what `str(n)` prints, even with whitespace around it. */
  lemma ParseIntOfIntToString(w1: string, x: int, w2: string)
    requires AllSpace(w1) && AllSpace(w2)
    ensures ParseInt(w1 + IntToString(x) + w2) == Some(x)
  {
    var s := IntToString(x);
    assert !IsSpace(s[0]) && !IsSpace(s[|s| - 1]) by {
      var n: nat := if x < 0 then -x else x;
      assert s[|s| - 1] == NatToString(n)[|NatToString(n)| - 1];
    }
    StripSurrounded(w1, s, w2);
    ParseStrippedOfIntToString(x);
  }

  lemma ParseStrippedOfIntToString(x: int)
    ensures ParseStripped(IntToString(x)) == Some(x)
  {
    var s := IntToString(x);
    var n: nat := if x < 0 then -x else x;
    var digits := NatToString(n);
    DigitsValueOfNatToString(n);
    ReadDigitsFacts(digits);
    if x < 0 {
      assert s[1..] == digits;
    } else {
      assert s == digits;
    }
  }

  // ----- The menu -----

  /** An action of the menu: its function name and how many positional
      arguments it requires and how many more it accepts. */
  datatype Action = Action(name: string, required: nat, optional: nat)

  const ChildSuffix: string := "child"

  /** `create_z_znode`, `delete_z_znode`, `create_znode_child(child_name)`,
      `print_all_znodes(curr_znode="/z")`, in menu order. */
  const ZnodeActions: seq<Action> := [
    Action("create_z_znode", 0, 0),
    Action("delete_z_znode", 0, 0),
    Action("create_znode_child", 1, 0),
    Action("print_all_znodes", 0, 1)
  ]

  predicate IsChildAction(a: Action) {
    EndsWith(a.name, ChildSuffix)
  }

  /** The last index whose action name ends with `child`, or -1. */
  function LastChildIndex(actions: seq<Action>): (r: int)
    ensures -1 <= r < |actions|
    ensures r >= 0 ==> IsChildAction(actions[r])
    ensures forall k :: r < k < |actions| ==> !IsChildAction(actions[k])
  {
    if actions == [] then -1
    else if IsChildAction(actions[|actions| - 1]) then |actions| - 1
    else LastChildIndex(actions[..|actions| - 1])
  }

  /** The `for i, a in enumerate(actions)` loop that sets `create_child_idx`. */
  method CreateChildIndex(actions: seq<Action>) returns (idx: int)
    ensures idx == LastChildIndex(actions)
  {
    idx := -1;
    for i := 0 to |actions|
      invariant idx == LastChildIndex(actions[..i])
    {
      assert actions[..i + 1][..i] == actions[..i];
      if IsChildAction(actions[i]) {
        idx := i;
      }
    }
    assert actions[..|actions|] == actions;
  }

  lemma ZnodeChildIndex()
    ensures LastChildIndex(ZnodeActions) == 2
  {
    assert EndsWith(ZnodeActions[2].name, ChildSuffix);
    assert !EndsWith(ZnodeActions[3].name, ChildSuffix) by {
      assert ZnodeActions[3].name[|ZnodeActions[3].name| - 5..] == "nodes";
    }
  }

  /** What `get_action` returns: `(None, None)`, an action with or without a
      child name, or `EOFError` when input runs out. */
  datatype Choice = Exit | Run(index: nat, childName: Option<string>) | EndOfInput

  /** A line `get_action` does not re-prompt on: an integer from 0 to the
      exit entry `len(actions)`. */
  predicate Accepted(actions: seq<Action>, line: string) {
    ParseInt(line).Some? && 0 <= ParseInt(line).value <= |actions|
  }

  /** The position of the first accepted line, or `|inputs|`. */
  function FirstAccepted(actions: seq<Action>, inputs: seq<string>): (r: nat)
    ensures r <= |inputs|
    ensures forall k :: 0 <= k < r ==> !Accepted(actions, inputs[k])
    ensures r < |inputs| ==> Accepted(actions, inputs[r])
  {
    if inputs == [] then 0
    else if Accepted(actions, inputs[0]) then 0
    else 1 + FirstAccepted(actions, inputs[1..])
  }

  /** What `get_action` returns for the lines still to be read, and how many
      of them it reads. */
  function NextChoice(actions: seq<Action>, inputs: seq<string>): (r: (Choice, nat))
    ensures r.1 <= |inputs|
    ensures r.0.Run? ==> 1 <= r.1 && r.0.index < |actions|
    ensures r.0.Run? && r.0.childName.Some? ==> r.0.index as int == LastChildIndex(actions)
    ensures r.0 == Exit ==> 1 <= r.1 && ParseInt(inputs[r.1 - 1]) == Some(|actions|)
  {
    var i := FirstAccepted(actions, inputs);
    if i == |inputs| then (EndOfInput, |inputs|)
    else
      var n := ParseInt(inputs[i]).value;
      if n == |actions| then (Exit, i + 1)
      else if n != LastChildIndex(actions) then (Run(n as nat, None), i + 1)
      else if i + 1 < |inputs| then (Run(n as nat, Some(inputs[i + 1])), i + 2)
      else (EndOfInput, |inputs|)
  }

  /** `get_action`.  `choiceLine` is the index of the accepted line (or
      `|inputs|`), `consumed` how many lines were read. */
  method GetAction(actions: seq<Action>, inputs: seq<string>)
    returns (choice: Choice, choiceLine: nat, consumed: nat)
    ensures choiceLine <= |inputs| && consumed <= |inputs|
    ensures forall k :: 0 <= k < choiceLine ==> !Accepted(actions, inputs[k])
    ensures choiceLine == |inputs| ==> choice == EndOfInput
    ensures choiceLine < |inputs| ==> Accepted(actions, inputs[choiceLine])
    ensures choiceLine < |inputs| && ParseInt(inputs[choiceLine]).value == |actions| ==>
              choice == Exit && consumed == choiceLine + 1
    ensures choiceLine < |inputs| && ParseInt(inputs[choiceLine]).value < |actions| &&
            ParseInt(inputs[choiceLine]).value != LastChildIndex(actions) ==>
              choice == Run(ParseInt(inputs[choiceLine]).value as nat, None) && consumed == choiceLine + 1
    ensures choiceLine + 1 < |inputs| && ParseInt(inputs[choiceLine]).value == LastChildIndex(actions) ==>
              choice == Run(LastChildIndex(actions) as nat, Some(inputs[choiceLine + 1])) && consumed == choiceLine + 2
    ensures choiceLine + 1 == |inputs| && ParseInt(inputs[choiceLine]).value == LastChildIndex(actions) ==>
              choice == EndOfInput && consumed == |inputs|
    ensures choiceLine == |inputs| ==> consumed == |inputs|
    ensures choiceLine == FirstAccepted(actions, inputs) && (choice, consumed) == NextChoice(actions, inputs)
  {
    var createChildIdx := CreateChildIndex(actions);
    var i := 0;
    while i < |inputs|
      invariant i <= |inputs|
      invariant forall k :: 0 <= k < i ==> !Accepted(actions, inputs[k])
    {
      var action := ParseInt(inputs[i]);
      if action.Some? && action.value == |actions| {
        return Exit, i, i + 1;
      }
      if action.None? || !(0 <= action.value < |actions|) {
        // "You must pick a number between 0 and len(actions) - 1"
        i := i + 1;
        continue;
      }
      if action.value == createChildIdx {
        if i + 1 < |inputs| {
          return Run(action.value, Some(inputs[i + 1])), i, i + 2;
        }
        return EndOfInput, i, |inputs|;
      }
      return Run(action.value, None), i, i + 1;
    }
    return EndOfInput, |inputs|, |inputs|;
  }

  /** An action invoked with `arg` as its only argument, or with none. */
  datatype Call = Call(index: nat, arg: Option<string>)

  datatype PyError = TypeError

  /** `if child_name:` — an empty name counts as no name. */
  function Passed(childName: Option<string>): (r: Option<string>)
    ensures r.Some? <==> childName.Some? && childName.value != ""
    ensures r.Some? ==> r == childName
  {
    if childName.Some? && childName.value != "" then childName else None
  }

  function ArgCount(arg: Option<string>): nat {
    if arg.Some? then 1 else 0
  }

  predicate AcceptsArgs(a: Action, argc: nat) {
    a.required <= argc <= a.required + a.optional
  }

  /** The body of the dispatch loop: `action(child_name)` or `action()`;
      Python raises `TypeError` when the count does not fit the signature. */
  function Dispatch(actions: seq<Action>, index: nat, childName: Option<string>): (r: Result<Call, PyError>)
    requires index < |actions|
    ensures r.Ok? <==> AcceptsArgs(actions[index], ArgCount(Passed(childName)))
    ensures r.Ok? ==> r.value.index == index && r.value.arg == Passed(childName)
  {
    var arg := Passed(childName);
    if AcceptsArgs(actions[index], ArgCount(arg)) then Ok(Call(index, arg)) else Err(TypeError)
  }

  /** A non-empty child name reaches `create_znode_child`. */
  lemma ChildNamePassed(name: string)
    requires name != ""
    ensures Dispatch(ZnodeActions, 2, Some(name)) == Ok(Call(2, Some(name)))
  {
  }

  /** An empty child name makes the loop call `create_znode_child()`,
      which raises `TypeError`. */
  lemma EmptyChildNameRaises()
    ensures Dispatch(ZnodeActions, 2, Some("")) == Err(TypeError)
  {
  }

  /** The other three actions are called with no argument and never raise. */
  lemma OtherActionsTakeNoName(index: nat)
    requires index < |ZnodeActions| && index != 2
    ensures Dispatch(ZnodeActions, index, None) == Ok(Call(index, None))
  {
  }

  datatype Outcome = Exited | InputExhausted | Raised(error: PyError)

  /** The calls `main` makes and how its loop ends: each accepted choice in
      turn is dispatched, until the exit entry, an error or the end of input. */
  function Dialogue(actions: seq<Action>, inputs: seq<string>): (r: (seq<Call>, Outcome))
    decreases |inputs|
  {
    var (choice, consumed) := NextChoice(actions, inputs);
    match choice
    case Exit => ([], Exited)
    case EndOfInput => ([], InputExhausted)
    case Run(index, childName) =>
      match Dispatch(actions, index, childName)
      case Err(e) => ([], Raised(e))
      case Ok(call) =>
        var (calls, outcome) := Dialogue(actions, inputs[consumed..]);
        ([call] + calls, outcome)
  }

  /** A call to a menu action that fits its signature; only the child action
      gets an argument, and only a non-empty one. */
  predicate CallFits(actions: seq<Action>, call: Call) {
    && call.index < |actions|
    && AcceptsArgs(actions[call.index], ArgCount(call.arg))
    && (call.arg.Some? ==> call.index as int == LastChildIndex(actions) && call.arg.value != "")
  }

  /** Some line reads `len(actions)`, the exit entry. */
  predicate ExitLineIn(actions: seq<Action>, inputs: seq<string>) {
    exists k :: 0 <= k < |inputs| && ParseInt(inputs[k]) == Some(|actions|)
  }

  /** A session makes at most one call per line, and every call fits. */
  lemma {:induction false} DialogueCallsFit(actions: seq<Action>, inputs: seq<string>)
    ensures |Dialogue(actions, inputs).0| <= |inputs|
    ensures forall k :: 0 <= k < |Dialogue(actions, inputs).0| ==> CallFits(actions, Dialogue(actions, inputs).0[k])
    decreases |inputs|
  {
    var next := NextChoice(actions, inputs);
    if next.0.Run? && Dispatch(actions, next.0.index, next.0.childName).Ok? {
      var call := Dispatch(actions, next.0.index, next.0.childName).value;
      DialogueStep(actions, inputs, next.1, call);
      DialogueCallsFit(actions, inputs[next.1..]);
      var calls := Dialogue(actions, inputs[next.1..]).0;
      assert CallFits(actions, call);
      forall k | 0 <= k < |[call] + calls|
        ensures CallFits(actions, ([call] + calls)[k])
      {
        if k > 0 { assert ([call] + calls)[k] == calls[k - 1]; }
      }
    } else {
      DialogueStop(actions, inputs);
    }
  }

  /** A session exits only after a line reading `len(actions)`. */
  lemma {:induction false} DialogueExitsOnExitLine(actions: seq<Action>, inputs: seq<string>)
    ensures Dialogue(actions, inputs).1 == Exited ==> ExitLineIn(actions, inputs)
    decreases |inputs|
  {
    var next := NextChoice(actions, inputs);
    if next.0.Run? && Dispatch(actions, next.0.index, next.0.childName).Ok? {
      var call := Dispatch(actions, next.0.index, next.0.childName).value;
      DialogueStep(actions, inputs, next.1, call);
      var rest := inputs[next.1..];
      DialogueExitsOnExitLine(actions, rest);
      if Dialogue(actions, rest).1 == Exited {
        var k :| 0 <= k < |rest| && ParseInt(rest[k]) == Some(|actions|);
        assert inputs[next.1 + k] == rest[k];
      }
    } else {
      DialogueStop(actions, inputs);
      if next.0 == Exit {
        assert ParseInt(inputs[next.1 - 1]) == Some(|actions|);
      }
    }
  }

  /** Every call of a session is to a menu action and fits its signature;
      only the child action gets an argument, and only a non-empty one; the
      session exits only after a line reading `len(actions)`. */
  lemma DialogueFacts(actions: seq<Action>, inputs: seq<string>)
    ensures var (calls, outcome) := Dialogue(actions, inputs);
      && |calls| <= |inputs|
      && (forall k :: 0 <= k < |calls| ==> calls[k].index < |actions|)
      && (forall k :: 0 <= k < |calls| ==> calls[k].arg.Some? ==>
            calls[k].index as int == LastChildIndex(actions) && calls[k].arg.value != "")
      && (forall k :: 0 <= k < |calls| ==> AcceptsArgs(actions[calls[k].index], ArgCount(calls[k].arg)))
      && (outcome == Exited ==> exists k :: 0 <= k < |inputs| && ParseInt(inputs[k]) == Some(|actions|))
  {
    DialogueCallsFit(actions, inputs);
    DialogueExitsOnExitLine(actions, inputs);
  }

  /** One dispatched choice: its call comes first, then the session on the
      lines after it. */
  lemma DialogueStep(actions: seq<Action>, inputs: seq<string>, consumed: nat, call: Call)
    requires NextChoice(actions, inputs).1 == consumed && NextChoice(actions, inputs).0.Run?
    requires Dispatch(actions, NextChoice(actions, inputs).0.index, NextChoice(actions, inputs).0.childName) == Ok(call)
    ensures Dialogue(actions, inputs).0 == [call] + Dialogue(actions, inputs[consumed..]).0
    ensures Dialogue(actions, inputs).1 == Dialogue(actions, inputs[consumed..]).1
  {
  }

  /** The loop's bookkeeping: the calls made so far, followed by the session
      still to come, are the whole session — before and after one dispatch. */
  lemma DialogueAdvance(actions: seq<Action>, inputs: seq<string>, pos: nat, consumed: nat, call: Call, calls: seq<Call>)
    requires pos <= |inputs|
    requires NextChoice(actions, inputs[pos..]).1 == consumed && NextChoice(actions, inputs[pos..]).0.Run?
    requires Dispatch(actions, NextChoice(actions, inputs[pos..]).0.index, NextChoice(actions, inputs[pos..]).0.childName) == Ok(call)
    requires Dialogue(actions, inputs).0 == calls + Dialogue(actions, inputs[pos..]).0
    requires Dialogue(actions, inputs).1 == Dialogue(actions, inputs[pos..]).1
    ensures pos + consumed <= |inputs|
    ensures Dialogue(actions, inputs).0 == (calls + [call]) + Dialogue(actions, inputs[pos + consumed..]).0
    ensures Dialogue(actions, inputs).1 == Dialogue(actions, inputs[pos + consumed..]).1
  {
    var rest := inputs[pos..];
    DialogueStep(actions, rest, consumed, call);
    assert rest[consumed..] == inputs[pos + consumed..];
    var tail := Dialogue(actions, inputs[pos + consumed..]).0;
    assert calls + ([call] + tail) == (calls + [call]) + tail;
  }

  /** A choice that ends the session: no further call. */
  lemma DialogueStop(actions: seq<Action>, inputs: seq<string>)
    requires !NextChoice(actions, inputs).0.Run? ||
             Dispatch(actions, NextChoice(actions, inputs).0.index, NextChoice(actions, inputs).0.childName).Err?
    ensures Dialogue(actions, inputs).0 == []
    ensures NextChoice(actions, inputs).0 == Exit ==> Dialogue(actions, inputs).1 == Exited
    ensures NextChoice(actions, inputs).0 == EndOfInput ==> Dialogue(actions, inputs).1 == InputExhausted
    ensures NextChoice(actions, inputs).0.Run? ==>
              Dialogue(actions, inputs).1 ==
              Raised(Dispatch(actions, NextChoice(actions, inputs).0.index, NextChoice(actions, inputs).0.childName).error)
  {
  }

  /** A first line reading `len(actions)` ends the session at once, with no call. */
  lemma {:induction false} ExitEndsDialogue(actions: seq<Action>, inputs: seq<string>)
    requires |inputs| >= 1 && ParseInt(inputs[0]) == Some(|actions|)
    ensures Dialogue(actions, inputs) == ([], Exited)
  {
    assert Accepted(actions, inputs[0]);
    assert FirstAccepted(actions, inputs) == 0;
  }

  /** The `while True` loop of `main`: ask for an action, stop on the exit
      entry, otherwise invoke it. */
  method MainLoop(actions: seq<Action>, inputs: seq<string>) returns (calls: seq<Call>, outcome: Outcome)
    ensures |calls| <= |inputs|
    ensures forall k :: 0 <= k < |calls| ==> calls[k].index < |actions|
    ensures forall k :: 0 <= k < |calls| ==> calls[k].arg.Some? ==>
              calls[k].index as int == LastChildIndex(actions) && calls[k].arg.value != ""
    ensures forall k :: 0 <= k < |calls| ==> AcceptsArgs(actions[calls[k].index], ArgCount(calls[k].arg))
    ensures outcome == Exited ==> exists k :: 0 <= k < |inputs| && ParseInt(inputs[k]) == Some(|actions|)
    ensures calls == Dialogue(actions, inputs).0 && outcome == Dialogue(actions, inputs).1
  {
    calls := [];
    var pos := 0;
    assert inputs[0..] == inputs;
    while true
      invariant pos <= |inputs|
      invariant Dialogue(actions, inputs).0 == calls + Dialogue(actions, inputs[pos..]).0
      invariant Dialogue(actions, inputs).1 == Dialogue(actions, inputs[pos..]).1
      decreases |inputs| - pos
    {
      var rest := inputs[pos..];
      var choice, line, consumed := GetAction(actions, rest);
      if choice == Exit {
        DialogueStop(actions, rest);
        outcome := Exited;
        break;
      } else if choice == EndOfInput {
        DialogueStop(actions, rest);
        outcome := InputExhausted;
        break;
      }
      var r := Dispatch(actions, choice.index, choice.childName);
      if r.Err? {
        DialogueStop(actions, rest);
        outcome := Raised(r.error);
        break;
      }
      DialogueAdvance(actions, inputs, pos, consumed, r.value, calls);
      ghost var next := inputs[pos + consumed..];
      calls := calls + [r.value];
      pos := pos + consumed;
      assert inputs[pos..] == next;
    }
    assert calls + [] == calls;
    DialogueFacts(actions, inputs);
  }
}
