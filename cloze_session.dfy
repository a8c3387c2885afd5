/** The cloze exercise's `Question` component state (cloze.mjs:9-77): the fetched document,
    the learner's answers keyed by blank name, the loading flag, the error message and the
    server's feedback. The document's shape is a type parameter; the network is reduced to
    its outcome. */
module ClozeSession {
  import opened Wrappers

  /** `{ ...prevAnswer, [name]: value }`: the updater `handleChange` passes to `setAnswer`. */
  function SetAnswer(prev: map<string, string>, name: string, value: string): (next: map<string, string>)
    ensures name in next && next[name] == value
    ensures forall k :: k in prev && k != name ==> k in next && next[k] == prev[k]
    ensures next.Keys == prev.Keys + {name}
  {
    prev[name := value]
  }

  /** Typing the same value into the same blank twice changes nothing more than once. */
  lemma SetAnswerIdempotent(m: map<string, string>, name: string, value: string)
    ensures SetAnswer(SetAnswer(m, name, value), name, value) == SetAnswer(m, name, value)
  {
  }

  /** A later change to a blank overrides an earlier one. */
  lemma SetAnswerLastWins(m: map<string, string>, name: string, v1: string, v2: string)
    ensures SetAnswer(SetAnswer(m, name, v1), name, v2) == SetAnswer(m, name, v2)
  {
  }

  /** Changes to different blanks do not interfere, whatever their order. */
  lemma SetAnswerCommutes(m: map<string, string>, n1: string, v1: string, n2: string, v2: string)
    requires n1 != n2
    ensures SetAnswer(SetAnswer(m, n1, v1), n2, v2) == SetAnswer(SetAnswer(m, n2, v2), n1, v1)
  {
  }

  /** A run of change events, each a `(name, value)` pair, applied in order. */
  function ApplyChanges(m: map<string, string>, changes: seq<(string, string)>): (r: map<string, string>)
    ensures m.Keys <= r.Keys
    decreases |changes|
  {
    if changes == [] then m
    else ApplyChanges(SetAnswer(m, changes[0].0, changes[0].1), changes[1..])
  }

  /** The value `name` holds after `changes`: its last change, or what it held before. */
  function LastValue(m: map<string, string>, changes: seq<(string, string)>, name: string): Option<string>
    decreases |changes|
  {
    if changes == [] then (if name in m then Some(m[name]) else None)
    else if changes[|changes| - 1].0 == name then Some(changes[|changes| - 1].1)
    else LastValue(m, changes[..|changes| - 1], name)
  }

  /** After a run of changes every blank holds the value of its latest change, and a blank no
      change names keeps its earlier value (or stays absent). */
  lemma {:induction false} ApplyChangesLatest(m: map<string, string>, changes: seq<(string, string)>, name: string)
    ensures name in ApplyChanges(m, changes) <==> LastValue(m, changes, name).Some?
    ensures name in ApplyChanges(m, changes) ==> ApplyChanges(m, changes)[name] == LastValue(m, changes, name).value
    decreases |changes|
  {
    if changes != [] {
      var init := changes[..|changes| - 1];
      var last := changes[|changes| - 1];
      ApplyChangesSnoc(m, init, last);
      assert init + [last] == changes;
      ApplyChangesLatest(m, init, name);
    }
  }

  /** Applying one more change after a run is applying it to the run's result. */
  lemma {:induction false} ApplyChangesSnoc(m: map<string, string>, changes: seq<(string, string)>, c: (string, string))
    ensures ApplyChanges(m, changes + [c]) == SetAnswer(ApplyChanges(m, changes), c.0, c.1)
    decreases |changes|
  {
    if changes == [] {
      assert changes + [c] == [c];
    } else {
      assert (changes + [c])[1..] == changes[1..] + [c];
      ApplyChangesSnoc(SetAnswer(m, changes[0].0, changes[0].1), changes[1..], c);
    }
  }

  /** What the component renders: `if (loading)`, then `if (error)`. The file ends after the
      `if (error)` block, with no further `return` and no closing brace, so `FormView` only names
      the remaining case; the file never defines what it renders. */
  datatype View = LoadingView | ErrorView(message: string) | FormView

  function Render(loading: bool, error: Option<string>): (v: View)
    ensures v.LoadingView? <==> loading
    ensures v.ErrorView? <==> !loading && Truthy(error)
    ensures v.ErrorView? ==> v.message == error.value
    ensures v.FormView? <==> !loading && !Truthy(error)
  {
    if loading then LoadingView
    else if Truthy(error) then ErrorView(error.value)
    else FormView
  }

  class ClozeQuestion<Document> {
    var question: Option<Document>
    var answer: map<string, string>
    var loading: bool
    var error: Option<string>
    var feedback: Option<string>

    /** The initial state: no document, no answers, loading, no error, no feedback. */
    constructor ()
      ensures question == None && answer == map[] && loading && error == None && feedback == None
      ensures Render(loading, error) == LoadingView
    {
      question := None;
      answer := map[];
      loading := true;
      error := None;
      feedback := None;
    }

    /** `fetchQuestion`: the loading flag drops on both paths; a response sets the document, a
        failure records its message. Answers and feedback are untouched. */
    method FetchQuestion(response: Result<Document, string>)
      modifies this
      ensures !loading
      ensures response.Success? ==> question == Some(response.value) && error == old(error)
      ensures response.Failure? ==> error == Some(response.error) && question == old(question)
      ensures answer == old(answer) && feedback == old(feedback)
      ensures response.Failure? && response.error != "" ==> Render(loading, error) == ErrorView(response.error)
    {
      match response
      case Success(data) =>
        question := Some(data);
        loading := false;
      case Failure(message) =>
        error := Some(message);
        loading := false;
    }

    /** `handleChange`: the changed blank takes the input's value; every other field and every
        other blank keeps its value. */
    method HandleChange(name: string, value: string)
      modifies this
      ensures answer == SetAnswer(old(answer), name, value)
      ensures answer[name] == value
      ensures forall k :: k in old(answer) && k != name ==> k in answer && answer[k] == old(answer)[k]
      ensures question == old(question) && loading == old(loading)
      ensures error == old(error) && feedback == old(feedback)
    {
      answer := SetAnswer(answer, name, value);
    }

    /** `handleSubmit`: posts the current answers; a response's `message` becomes the feedback,
        a failure records its message. Answers and document are left as they were. */
    method HandleSubmit(response: Result<string, string>) returns (sent: map<string, string>)
      modifies this
      ensures sent == old(answer)
      ensures answer == old(answer) && question == old(question) && loading == old(loading)
      ensures response.Success? ==> feedback == Some(response.value) && error == old(error)
      ensures response.Failure? ==> error == Some(response.error) && feedback == old(feedback)
    {
      sent := answer;
      match response
      case Success(message) =>
        feedback := Some(message);
      case Failure(message) =>
        error := Some(message);
    }
  }
}
