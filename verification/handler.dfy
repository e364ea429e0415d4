/**
 A handler's interaction with a writer, as the sequence of calls it makes, followed
 by `finish`. The lemmas here are about whole runs: what ends up in the body, which
 status is committed, and that nothing done after the commit reaches the response.
 */
module Handler {
  import opened Wrappers
  import opened Headers
  import opened ResponseWriter
  import Base64

  /** One call a handler makes on the writer. */
  datatype Action =
    | SetHeaderAction(name: string, values: seq<string>)
    | DelHeaderAction(name: string)
    | WriteAction(bytes: seq<byte>)
    | WriteHeaderAction(status: int)
  {
    /** Does the call commit the response when nothing is committed yet? */
    predicate Commits() {
      WriteAction? || WriteHeaderAction?
    }

    /** The status an uncommitted writer commits on this call. */
    function CommitStatus(): int
      requires Commits()
    {
      if WriteAction? then StatusOK else status
    }
  }

  /** Applies one call. */
  function Step(w: Writer, a: Action): Writer {
    match a
    case SetHeaderAction(name, values) => SetHeader(w, name, values)
    case DelHeaderAction(name) => DelHeader(w, name)
    case WriteAction(bytes) => Write(w, bytes).0
    case WriteHeaderAction(status) => WriteHeader(w, status)
  }

  /** Applies the calls in order. */
  function Run(w: Writer, actions: seq<Action>): Writer
    decreases |actions|
  {
    if |actions| == 0 then w else Run(Step(w, actions[0]), actions[1..])
  }

  /** Everything the calls write, in order. */
  function Written(actions: seq<Action>): seq<byte>
    decreases |actions|
  {
    if |actions| == 0 then []
    else Appended(actions[0]) + Written(actions[1..])
  }

  /** Whether any call commits. */
  predicate AnyCommits(actions: seq<Action>) {
    exists i :: 0 <= i < |actions| && actions[i].Commits()
  }

  /** A whole invocation: a fresh writer, the handler's calls, then `finish`. */
  function Serve(v: Variant, actions: seq<Action>, isText: string -> bool): Response {
    Finish(Run(NewWriter(v), actions), isText).response
  }

  /** Running a call followed by more calls. */
  lemma RunStep(w: Writer, a: Action, rest: seq<Action>)
    ensures Run(w, [a] + rest) == Run(Step(w, a), rest)
  {
    assert ([a] + rest)[1..] == rest;
  }

  /** Running a single call. */
  lemma RunOne(w: Writer, a: Action)
    ensures Run(w, [a]) == Step(w, a)
  {
    RunStep(w, a, []);
    assert [a] + [] == [a];
  }

  /** Running a concatenation is running one part after the other. */
  lemma {:induction false} RunAppend(w: Writer, xs: seq<Action>, ys: seq<Action>)
    ensures Run(w, xs + ys) == Run(Run(w, xs), ys)
    decreases |xs|
  {
    if |xs| == 0 {
      assert xs + ys == ys;
    } else {
      assert (xs + ys)[1..] == xs[1..] + ys;
      RunAppend(Step(w, xs[0]), xs[1..], ys);
    }
  }

  /** The bytes one call appends to the output. */
  function Appended(a: Action): seq<byte> {
    if a.WriteAction? then a.bytes else []
  }

  /** One call appends what it writes and nothing else. */
  lemma StepOutput(w: Writer, a: Action)
    ensures Step(w, a).output == w.output + Appended(a)
  {
  }

  /** The output buffer ends up holding everything written, in order, after what it held. */
  lemma {:induction false} RunOutput(w: Writer, actions: seq<Action>)
    ensures Run(w, actions).output == w.output + Written(actions)
    decreases |actions|
  {
    if |actions| > 0 {
      var w' := Step(w, actions[0]);
      StepOutput(w, actions[0]);
      RunOutput(w', actions[1..]);
      assert Written(actions) == Appended(actions[0]) + Written(actions[1..]);
      assert w.output + Appended(actions[0]) + Written(actions[1..]) == w.output + Written(actions);
    }
  }

  /**
   Once committed, no later call changes the response: not a second status, not a
   write, not an edit to the header table.
   */
  lemma {:induction false} RunAfterCommit(w: Writer, actions: seq<Action>)
    requires w.headersWritten
    ensures Run(w, actions).headersWritten
    ensures Run(w, actions).response == w.response
    decreases |actions|
  {
    if |actions| > 0 {
      RunAfterCommit(Step(w, actions[0]), actions[1..]);
    }
  }

  /** Calls that only edit the header table leave the response as it is and commit nothing. */
  lemma {:induction false} RunWithoutCommit(w: Writer, actions: seq<Action>)
    requires !AnyCommits(actions)
    ensures Run(w, actions).response == w.response
    ensures Run(w, actions).headersWritten == w.headersWritten
    decreases |actions|
  {
    if |actions| > 0 {
      assert !actions[0].Commits();
      assert forall i :: 0 <= i < |actions[1..]| ==> actions[1..][i] == actions[i + 1];
      RunWithoutCommit(Step(w, actions[0]), actions[1..]);
    }
  }

  /**
   The first committing call decides the response: its status, and the header table
   as it stood just before it, collapsed.
   */
  lemma FirstCommitWins(w: Writer, actions: seq<Action>, i: int)
    requires !w.headersWritten
    requires 0 <= i < |actions| && actions[i].Commits()
    requires forall k :: 0 <= k < i ==> !actions[k].Commits()
    ensures Run(w, actions).headersWritten
    ensures Run(w, actions).response == WriteHeader(Run(w, actions[..i]), actions[i].CommitStatus()).response
    ensures Run(w, actions).response.statusCode == actions[i].CommitStatus()
    ensures Run(w, actions).response.headers == Commit(Contents(Run(w, actions[..i])))
  {
    var before := Run(w, actions[..i]);
    assert !AnyCommits(actions[..i]);
    RunWithoutCommit(w, actions[..i]);
    var committed := Step(before, actions[i]);
    assert committed.response == WriteHeader(before, actions[i].CommitStatus()).response;
    assert actions == actions[..i] + ([actions[i]] + actions[i + 1..]);
    RunAppend(w, actions[..i], [actions[i]] + actions[i + 1..]);
    RunAppend(before, [actions[i]], actions[i + 1..]);
    assert Run(before, [actions[i]]) == committed;
    RunAfterCommit(committed, actions[i + 1..]);
  }

  /** A run without any committing call never commits: the response keeps status 0. */
  lemma NoCommitKeepsZeroStatus(v: Variant, actions: seq<Action>)
    requires !AnyCommits(actions)
    ensures !Run(NewWriter(v), actions).headersWritten
    ensures Run(NewWriter(v), actions).response.statusCode == 0
    ensures Run(NewWriter(v), actions).response.headers == map[]
  {
    RunWithoutCommit(NewWriter(v), actions);
  }

  /** Every call keeps the writer invariant. */
  lemma StepPreservesValid(w: Writer, a: Action)
    requires Valid(w)
    ensures Valid(Step(w, a))
  {
  }

  /** Every run from a valid writer ends valid. */
  lemma {:induction false} RunPreservesValid(w: Writer, actions: seq<Action>)
    requires Valid(w)
    ensures Valid(Run(w, actions))
    decreases |actions|
  {
    if |actions| > 0 {
      StepPreservesValid(w, actions[0]);
      RunPreservesValid(Step(w, actions[0]), actions[1..]);
    }
  }

  /**
   The finished body carries exactly what the handler wrote: verbatim for a text
   Content-Type, otherwise as base64 that decodes back to it.
   */
  lemma ServeBody(v: Variant, actions: seq<Action>, isText: string -> bool)
    ensures var r := Serve(v, actions, isText);
      && (r.isBase64Encoded ==> Base64.Decode(r.body) == Some(Written(actions)))
      && (!r.isBase64Encoded ==> r.body == Written(actions))
  {
    var w := Run(NewWriter(v), actions);
    RunOutput(NewWriter(v), actions);
    assert w.output == Written(actions);
    var f := Finish(w, isText);
    assert Serve(v, actions, isText) == f.response;
  }

  /**
   After any run that commits, the response has a non-empty Content-Type, and the
   load-balancer description matches the committed status.
   */
  lemma ServeCommittedHeaders(v: Variant, actions: seq<Action>, isText: string -> bool)
    requires AnyCommits(actions)
    ensures var r := Serve(v, actions, isText);
      && ContentType in r.headers && r.headers[ContentType] != ""
      && (r.ALBResponse? ==> r.statusDescription == Description(r.statusCode))
  {
    var i :| 0 <= i < |actions| && actions[i].Commits();
    var first := FirstCommitting(actions, i);
    FirstCommitWins(NewWriter(v), actions, first);
    RunPreservesValid(NewWriter(v), actions);
  }

  /** The index of the first committing call, given that the call at `i` commits. */
  function FirstCommitting(actions: seq<Action>, i: int): (first: int)
    requires 0 <= i < |actions| && actions[i].Commits()
    ensures 0 <= first <= i && actions[first].Commits()
    ensures forall k :: 0 <= k < first ==> !actions[k].Commits()
    decreases i
  {
    if exists k :: 0 <= k < i && actions[k].Commits() then
      var k :| 0 <= k < i && actions[k].Commits();
      FirstCommitting(actions, k)
    else i
  }
}
