/** The categorization exercise's `Question` component state (categorize.jsx:124-221): the
    fetched document, the loading flag and the error message, changed only by the outcomes of
    the two network calls. The network is reduced to its outcome: the response document, or
    the failed request's error message. */
module CategorizeSession {
  import opened Wrappers
  import opened Quiz
  import DragDrop

  /** What the component renders. */
  datatype View = LoadingView | ErrorView(message: string) | ExerciseView(question: Exercise) | Blank

  /** The render rule: `if (loading)`, then `if (error)`, then `if (question)`, else `null`. */
  function Render(loading: bool, error: Option<string>, question: Option<Exercise>): (v: View)
    ensures v.LoadingView? <==> loading
    ensures v.ErrorView? <==> !loading && Truthy(error)
    ensures v.ErrorView? ==> v.message == error.value
    ensures v.ExerciseView? <==> !loading && !Truthy(error) && question.Some?
    ensures v.ExerciseView? ==> v.question == question.value
    ensures v.Blank? <==> !loading && !Truthy(error) && question.None?
  {
    if loading then LoadingView
    else if Truthy(error) then ErrorView(error.value)
    else if question.Some? then ExerciseView(question.value)
    else Blank
  }

  /** The request body of `PUT /api/question`. */
  datatype MoveRequest = MoveRequest(itemId: ItemId, categoryName: string)

  class CategorizeQuestion {
    var question: Option<Exercise>
    var loading: bool
    var error: Option<string>

    /** The initial state: no document, loading, no error. */
    constructor ()
      ensures question == None && loading && error == None
      ensures Render(loading, error, question) == LoadingView
    {
      question := None;
      loading := true;
      error := None;
    }

    /** `fetchQuestion`: the loading flag drops on both paths; a response replaces the document,
        a failure records its message and leaves the document as it was. */
    method FetchQuestion(response: Result<Exercise, string>)
      modifies this
      ensures !loading
      ensures response.Success? ==> question == Some(response.value) && error == old(error)
      ensures response.Failure? ==> error == Some(response.error) && question == old(question)
      ensures response.Success? && !Truthy(old(error)) ==> Render(loading, error, question) == ExerciseView(response.value)
      ensures response.Failure? && response.error != "" ==> Render(loading, error, question) == ErrorView(response.error)
    {
      match response
      case Success(data) =>
        question := Some(data);
        loading := false;
      case Failure(message) =>
        error := Some(message);
        loading := false;
    }

    /** `moveItem`: sends `{ itemId, categoryName }`; the store's response replaces the document
        wholesale (no local patch), a failure records its message and leaves the document as it
        was. The loading flag is not touched. */
    method MoveItem(itemId: ItemId, categoryName: string, response: Result<Exercise, string>) returns (request: MoveRequest)
      modifies this
      ensures request == MoveRequest(itemId, categoryName)
      ensures loading == old(loading)
      ensures response.Success? ==> question == Some(response.value) && error == old(error)
      ensures response.Failure? ==> error == Some(response.error) && question == old(question)
    {
      request := MoveRequest(itemId, categoryName);
      match response
      case Success(data) =>
        question := Some(data);
      case Failure(message) =>
        error := Some(message);
    }

    /** The `end` handler of an item-column copy wired to this component: a drag that ends in a
        move intent is forwarded to `moveItem`; any other outcome (no drop, or the `TypeError`
        of a missing callback) leaves the state alone and sends nothing. */
    method EndDrag(outcome: DragDrop.DragOutcome, response: Result<Exercise, string>) returns (request: Option<MoveRequest>)
      modifies this
      ensures outcome.Move? ==> request == Some(MoveRequest(outcome.intent.itemId, outcome.intent.categoryName))
      ensures !outcome.Move? ==> request == None && question == old(question) && error == old(error)
      ensures loading == old(loading)
      ensures outcome.Move? && response.Success? ==> question == Some(response.value) && error == old(error)
      ensures outcome.Move? && response.Failure? ==> error == Some(response.error) && question == old(question)
    {
      if outcome.Move? {
        var sent := MoveItem(outcome.intent.itemId, outcome.intent.categoryName, response);
        request := Some(sent);
      } else {
        request := None;
      }
    }
  }
}
