/** The `/facts` request handler: check the category, ask the fact service
    for the category's prompt, and turn its reply into a list of facts or an
    error message. The fact service is a parameter: the handler's only view
    of it is the reply it gives for a prompt. */
module Endpoint {
  import opened Prompts
  import opened Facts

  /** What asking the fact service can give: an HTTP status and the reply
      text, or an exception with its message. */
  datatype ServiceReply = Http(status: int, text: string) | Raised(message: string)

  /** The JSON object the handler returns: `{"facts": [...]}` or
      `{"error": "..."}`. */
  datatype Reply = FactList(facts: seq<string>) | Error(message: string)

  datatype Option<T> = None | Some(value: T)

  const GenerationFailed: string := "AI failed to generate facts"
  const FetchFailedPrefix: string := "Failed to fetch facts: "

  /** `get_facts(category)`. `request` is the prompt sent to the service,
      or `None` when nothing is sent. An unknown category is rejected before
      any request; a reply with a status other than 200 and an exception
      each give their own error; otherwise the facts are the first five
      plausible cleaned lines of the reply text. */
  method GetFacts(category: string, service: string -> ServiceReply) returns (reply: Reply, request: Option<string>)
    ensures category !in Categories ==> reply == Error(InvalidCategory) && request == None
    ensures category in Categories ==> request == Some(Table[category])
    ensures request.Some? && service(request.value).Raised? ==>
      reply == Error(FetchFailedPrefix + service(request.value).message)
    ensures request.Some? && service(request.value).Http? && service(request.value).status != 200 ==>
      reply == Error(GenerationFailed)
    ensures reply.FactList? <==>
      request.Some? && service(request.value).Http? && service(request.value).status == 200
    ensures reply.FactList? ==> reply.facts == FactsOf(service(request.value).text)
    ensures reply.FactList? ==> |reply.facts| <= MaxFacts && forall f :: f in reply.facts ==> Plausible(f)
  {
    var lookup := PromptFor(category);
    if lookup.Rejected? {
      return Error(lookup.message), None;
    }
    request := Some(lookup.prompt);
    var answer := service(lookup.prompt);
    match answer {
      case Raised(message) =>
        reply := Error(FetchFailedPrefix + message);
      case Http(status, text) =>
        if status != 200 {
          reply := Error(GenerationFailed);
        } else {
          var facts := ExtractFacts(text);
          reply := FactList(facts);
        }
    }
  }
}
