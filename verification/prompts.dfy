/** The fixed table of fact categories and the prompt each one sends to the
    fact service, and the category check that `get_facts` does before any
    request is made. */
module Prompts {

  /** `PROMPTS`: category name to the prompt asking for five facts. */
  const Table: map<string, string> := map[
    "science" := "Give me 5 short surprising science facts. One sentence each, under 15 words.",
    "successful_person" := "Give me 5 short inspiring facts about successful people. One sentence each, under 15 words.",
    "unsolved_mystery" := "Give me 5 short unsolved mysteries. One sentence each, under 15 words.",
    "history" := "Give me 5 short memorable history facts. One sentence each, under 15 words.",
    "sports" := "Give me 5 short legendary sports facts. One sentence each, under 15 words."
  ]

  /** The five category names a client may ask for. */
  const Categories: set<string> := {"science", "successful_person", "unsolved_mystery", "history", "sports"}

  const InvalidCategory: string := "Invalid category"

  datatype Lookup = Found(prompt: string) | Rejected(message: string)

  /** `PROMPTS.get(category)` followed by `if not prompt`: a missing key and
      an empty prompt are both rejected. Since every prompt in the table is
      non-empty, exactly the five known categories are accepted, each with
      its own table entry. */
  function PromptFor(category: string): (r: Lookup)
    ensures r.Found? <==> category in Categories
    ensures r.Found? ==> category in Table && r.prompt == Table[category] && r.prompt != []
    ensures r.Rejected? ==> r.message == InvalidCategory
  {
    if category in Table && Table[category] != [] then Found(Table[category])
    else Rejected(InvalidCategory)
  }
}
