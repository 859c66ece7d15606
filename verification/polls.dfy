/** The poll/vote store: a module-level list of polls, each with a list of
    answer counters, changed in place by the HTTP handlers.  Only the
    handler bodies are modelled, as list operations. */
module Polls {
  import opened Wrappers
  import opened PyList

  datatype Answer = Answer(answer: string, cnt: int)

  datatype Poll = Poll(question: string, answers: seq<Answer>)

  /** `Answer(text)`: the counter defaults to 0. */
  function NewAnswer(text: string): (a: Answer)
    ensures a.answer == text && a.cnt == 0
  {
    Answer(text, 0)
  }

  const InitialPolls: seq<Poll> := [
    Poll("Kiedy piwo?", [NewAnswer("Dziś"), NewAnswer("Jutro")]),
    Poll("Kiedy jedzenie?", [NewAnswer("Pojutrze"), NewAnswer("Popojutrze"), NewAnswer("Nigdy :(")])
  ]

  /** The answer list of poll `pid`, or IndexError. */
  function AnswersOf(polls: seq<Poll>, pid: int): (r: Result<seq<Answer>, PyError>)
    ensures r.Ok? <==> -|polls| <= pid < |polls|
    ensures r.Ok? ==> r.value == polls[Resolve(|polls|, pid).value].answers
  {
    match At(polls, pid)
    case Ok(p) => Ok(p.answers)
    case Err(e) => Err(e)
  }

  /** Both indices are valid Python indices. */
  predicate ValidVote(polls: seq<Poll>, pid: int, vid: int) {
    -|polls| <= pid < |polls| &&
    var answers := polls[Resolve(|polls|, pid).value].answers;
    -|answers| <= vid < |answers|
  }

  /** `polls[pid].answers.append(answer)`: the new list and the poll's new answers.
      Only that poll changes, and only by one answer at the end. */
  function AppendAnswer(polls: seq<Poll>, pid: int, answer: Answer): (r: Result<(seq<Poll>, seq<Answer>), PyError>)
    ensures r.Ok? <==> -|polls| <= pid < |polls|
    ensures r.Ok? ==> var k := Resolve(|polls|, pid).value;
              && |r.value.0| == |polls|
              && (forall j :: 0 <= j < |polls| && j != k ==> r.value.0[j] == polls[j])
              && r.value.0[k].question == polls[k].question
              && r.value.0[k].answers == polls[k].answers + [answer]
              && r.value.1 == r.value.0[k].answers
  {
    match Resolve(|polls|, pid)
    case Some(k) =>
      var p := polls[k];
      var answers := p.answers + [answer];
      Ok((polls[k := Poll(p.question, answers)], answers))
    case None => Err(IndexError)
  }

  /** `polls[pid].answers[vid].cnt += delta`: the new list and the new count.
      Exactly one counter changes, by exactly `delta`, with no bound. */
  function Recount(polls: seq<Poll>, pid: int, vid: int, delta: int): (r: Result<(seq<Poll>, int), PyError>)
    ensures r.Ok? <==> ValidVote(polls, pid, vid)
    ensures r.Ok? ==>
              var k := Resolve(|polls|, pid).value;
              var answers := polls[k].answers;
              var v := Resolve(|answers|, vid).value;
              && |r.value.0| == |polls|
              && (forall j :: 0 <= j < |polls| && j != k ==> r.value.0[j] == polls[j])
              && r.value.0[k].question == polls[k].question
              && |r.value.0[k].answers| == |answers|
              && (forall j :: 0 <= j < |answers| && j != v ==> r.value.0[k].answers[j] == answers[j])
              && r.value.0[k].answers[v].answer == answers[v].answer
              && r.value.0[k].answers[v].cnt == answers[v].cnt + delta
              && r.value.1 == answers[v].cnt + delta
  {
    match Resolve(|polls|, pid)
    case None => Err(IndexError)
    case Some(k) =>
      var p := polls[k];
      match Resolve(|p.answers|, vid)
      case None => Err(IndexError)
      case Some(v) =>
        var a := p.answers[v];
        var cnt := a.cnt + delta;
        Ok((polls[k := Poll(p.question, p.answers[v := Answer(a.answer, cnt)])], cnt))
  }

  /** A vote followed by an unvote of the same answer restores the store. */
  lemma VoteThenUnvote(polls: seq<Poll>, pid: int, vid: int)
    requires ValidVote(polls, pid, vid)
    ensures Recount(polls, pid, vid, 1).Ok?
    ensures ValidVote(Recount(polls, pid, vid, 1).value.0, pid, vid)
    ensures Recount(Recount(polls, pid, vid, 1).value.0, pid, vid, -1).value.0 == polls
  {
    var k := Resolve(|polls|, pid).value;
    var v := Resolve(|polls[k].answers|, vid).value;
    var mid := Recount(polls, pid, vid, 1).value.0;
    var back := Recount(mid, pid, vid, -1).value.0;
    assert back[k].answers == polls[k].answers;
    assert back[k] == polls[k];
  }

  /** The store: the module-level `polls` list and the handler bodies. */
  class PollStore {
    var polls: seq<Poll>

    constructor ()
      ensures polls == InitialPolls
    {
      polls := InitialPolls;
    }

    /** `get_poll`. */
    method GetPolls() returns (r: seq<Poll>)
      ensures r == polls
    {
      r := polls;
    }

    /** `post_poll`: appended at the end, earlier entries unchanged. */
    method PostPoll(poll: Poll) returns (r: Poll)
      modifies this
      ensures polls == old(polls) + [poll]
      ensures |polls| == |old(polls)| + 1 && polls[..|old(polls)|] == old(polls)
      ensures r == poll
    {
      polls := polls + [poll];
      r := poll;
    }

    /** `get_poll_id`. */
    method GetPoll(pid: int) returns (r: Result<Poll, PyError>)
      ensures r == At(polls, pid)
      ensures r.Err? <==> !(-|polls| <= pid < |polls|)
    {
      r := At(polls, pid);
    }

    /** `put_poll_id`: replaces only the addressed poll and returns it. */
    method PutPoll(pid: int, poll: Poll) returns (r: Result<Poll, PyError>)
      modifies this
      ensures r.Ok? <==> -|old(polls)| <= pid < |old(polls)|
      ensures r.Ok? ==> Assign(old(polls), pid, poll) == Ok(polls) && r.value == poll
      ensures r.Err? ==> polls == old(polls)
    {
      match Assign(polls, pid, poll) {
        case Ok(s) =>
          polls := s;
          r := At(polls, pid);
        case Err(e) =>
          r := Err(e);
      }
    }

    /** `delete_poll_id`: `polls.pop(pid)`. */
    method DeletePoll(pid: int) returns (r: Result<Poll, PyError>)
      modifies this
      ensures r.Ok? <==> -|old(polls)| <= pid < |old(polls)|
      ensures r.Ok? ==> Pop(old(polls), pid) == Ok((r.value, polls))
      ensures r.Err? ==> polls == old(polls)
    {
      match Pop(polls, pid) {
        case Ok((p, rest)) =>
          polls := rest;
          r := Ok(p);
        case Err(e) =>
          r := Err(e);
      }
    }

    /** `get_poll_id_vote`. */
    method GetVotes(pid: int) returns (r: Result<seq<Answer>, PyError>)
      ensures r == AnswersOf(polls, pid)
    {
      r := AnswersOf(polls, pid);
    }

    /** `post_poll_id_vote`: appends to that poll only. */
    method PostVote(pid: int, answer: Answer) returns (r: Result<seq<Answer>, PyError>)
      modifies this
      ensures r.Ok? <==> -|old(polls)| <= pid < |old(polls)|
      ensures r.Ok? ==> AppendAnswer(old(polls), pid, answer) == Ok((polls, r.value))
      ensures r.Err? ==> polls == old(polls)
    {
      match AppendAnswer(polls, pid, answer) {
        case Ok((s, answers)) =>
          polls := s;
          r := Ok(answers);
        case Err(e) =>
          r := Err(e);
      }
    }

    /** `get_poll_id_vote_id`. */
    method GetVote(pid: int, vid: int) returns (r: Result<int, PyError>)
      ensures r.Ok? <==> ValidVote(polls, pid, vid)
      ensures r.Ok? ==> var answers := polls[Resolve(|polls|, pid).value].answers;
                        r.value == answers[Resolve(|answers|, vid).value].cnt
    {
      match AnswersOf(polls, pid) {
        case Ok(answers) =>
          match At(answers, vid) {
            case Ok(a) => r := Ok(a.cnt);
            case Err(e) => r := Err(e);
          }
        case Err(e) =>
          r := Err(e);
      }
    }

    /** `put_poll_id_vote_id`: one more vote. */
    method PutVote(pid: int, vid: int) returns (r: Result<int, PyError>)
      modifies this
      ensures r.Ok? <==> ValidVote(old(polls), pid, vid)
      ensures r.Ok? ==> Recount(old(polls), pid, vid, 1) == Ok((polls, r.value))
      ensures r.Err? ==> polls == old(polls)
    {
      r := ChangeCount(pid, vid, 1);
    }

    /** `delete_poll_id_vote_id`: one vote less, possibly below zero. */
    method DeleteVote(pid: int, vid: int) returns (r: Result<int, PyError>)
      modifies this
      ensures r.Ok? <==> ValidVote(old(polls), pid, vid)
      ensures r.Ok? ==> Recount(old(polls), pid, vid, -1) == Ok((polls, r.value))
      ensures r.Err? ==> polls == old(polls)
    {
      r := ChangeCount(pid, vid, -1);
    }

    method ChangeCount(pid: int, vid: int, delta: int) returns (r: Result<int, PyError>)
      modifies this
      ensures r.Ok? <==> ValidVote(old(polls), pid, vid)
      ensures r.Ok? ==> Recount(old(polls), pid, vid, delta) == Ok((polls, r.value))
      ensures r.Err? ==> polls == old(polls)
    {
      match Recount(polls, pid, vid, delta) {
        case Ok((s, cnt)) =>
          polls := s;
          r := Ok(cnt);
        case Err(e) =>
          r := Err(e);
      }
    }
  }
}
