/** The language-model gateway `HKBU_ChatGPT.submit`, reduced to its case-insensitive dispatch
    on the model name: the HTTP exchange behind each backend is a parameter. */
module Gateway {
  import opened Wrappers
  import opened Strings

  datatype Backend = ChatGPT | Gemini

  /** The lower-case names the gateway and the `/model` command both accept. */
  const SupportedNames: set<string> := {"chatgpt", "gemini"}

  /** The model used when none has been selected. */
  const DefaultModel: string := "gemini"

  function Name(b: Backend): string {
    match b
    case ChatGPT => "chatgpt"
    case Gemini => "gemini"
  }

  /** The `if model.lower() == "chatgpt" ... elif model.lower() == "gemini"` dispatch. */
  function Dispatch(model: string): (r: Option<Backend>)
    ensures r.Some? <==> Lower(model) in SupportedNames
    ensures r.Some? ==> Name(r.value) == Lower(model)
  {
    var m := Lower(model);
    if m == "chatgpt" then Some(ChatGPT)
    else if m == "gemini" then Some(Gemini)
    else None
  }

  /** The text of the `ValueError` raised for any other model name; it quotes the name as
      given, not lower-cased. */
  function UnsupportedError(model: string): (r: string)
    ensures |r| > 24 + |model| && r[24..24 + |model|] == model
  {
    "Unsupported model type: " + model + ". Supported types are 'chatgpt' and 'gemini'."
  }

  /** `submit(message, model)`: the reply of the selected backend, or the `ValueError`.
      `complete` stands for the whole HTTP exchange of a backend, error strings included. */
  function Submit(complete: (Backend, string) -> string, message: string, model: string): (r: Result<string, string>)
    ensures r.Success? <==> Lower(model) in SupportedNames
    ensures r.Failure? ==> r.error == UnsupportedError(model)
    ensures forall b: Backend :: Lower(model) == Name(b) ==> r == Success(complete(b, message))
  {
    match Dispatch(model)
    case Some(b) => Success(complete(b, message))
    case None => Failure(UnsupportedError(model))
  }

  /** Every backend is reached by its own name, whatever its capitalisation, and by no other. */
  lemma DispatchName(b: Backend, model: string)
    ensures Dispatch(model) == Some(b) <==> Lower(model) == Name(b)
  {
  }

  /** The supported names are already lower-case. */
  lemma SupportedNamesLower()
    ensures forall name :: name in SupportedNames ==> Lower(name) == name
  {
    assert Lower("chatgpt") == "chatgpt";
    assert Lower("gemini") == "gemini";
  }

  /** The names the `/model` command stores are the ones `submit` accepts, and storing them
      lower-cased changes nothing about dispatch. */
  lemma SupportedNamesDispatch(name: string)
    requires name in SupportedNames
    ensures Lower(name) == name
    ensures Dispatch(name).Some? && Name(Dispatch(name).value) == name
  {
    SupportedNamesLower();
  }

  /** Dispatch ignores capitalisation. */
  lemma DispatchIgnoresCase(model: string)
    ensures Dispatch(Lower(model)) == Dispatch(model)
  {
    LowerIdempotent(model);
  }

  lemma DispatchExamples()
    ensures Dispatch("ChatGPT") == Some(ChatGPT)
    ensures Dispatch("GEMINI") == Some(Gemini)
    ensures Dispatch("gpt-4") == None
  {
    assert Lower("ChatGPT") == "chatgpt";
    assert Lower("GEMINI") == "gemini";
    assert Lower("gpt-4") == "gpt-4";
  }
}
