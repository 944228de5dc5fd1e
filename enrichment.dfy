/**
 * The synopsis-enrichment stage: every row's synopsis is sent to a chat
 * model, and the reply (stripped of surrounding whitespace) becomes the
 * row's enriched synopsis; a failed call keeps the original synopsis.
 * The chat service is an oracle: `replies[i]` is what the call for row `i`
 * returned, so the stage is deterministic given those replies.
 */
module Enrichment {
  import opened Wrappers
  import opened Text
  import opened Dataset

  const ModelName := "gpt-4o-mini"
  const UserPrefix := "Sinopse original: "

  /** The sampling temperature of every enrichment request. */
  const Temperature: real := 0.7

  /** The system prompt: a screenwriter's brief asking for a richer synopsis of at most four sentences, in Portuguese. */
  const SystemPrompt: string :=
    "Você é um roteirista de Hollywood. Sua tarefa é pegar uma sinopse de filme curta e, "
    + "sem alterar o enredo principal ou o final, reescrevê-la em Português para torná-la "
    + "mais rica, dramática e envolvente, com uma linguagem de trailer. "
    + "Mantenha o texto com até 4 frases. Retorne APENAS a sinopse reescrita, sem introduções ou comentários."

  /** One chat-completion request: model, system message, user message, temperature. */
  datatype Request = Request(model: string, system: string, user: string, temperature: real)

  /**
   * What a chat-completion call came back with: the content of the first
   * choice (absent when the message has no content), or a failure of any
   * kind (network, API error, no choices).
   */
  datatype Reply = Completed(content: Option<string>) | Failed

  /** The request sent for one synopsis; its user message carries the synopsis after a fixed label. */
  function RequestFor(original: string): Request {
    Request(ModelName, SystemPrompt, UserPrefix + original, Temperature)
  }

  /** The synopsis can be read back from its request, so distinct synopses give distinct requests. */
  lemma RequestCarriesSynopsis(original: string)
    ensures StartsWith(RequestFor(original).user, UserPrefix)
    ensures RequestFor(original).user[|UserPrefix|..] == original
  {
  }

  /**
   * `get_enriched_synopsis`: the stripped reply content, or the original
   * synopsis when the call fails or the content is missing (stripping
   * `None` raises, and that is caught like a failed call).
   */
  function EnrichedSynopsis(original: string, reply: Reply): (r: string)
    ensures reply.Failed? || reply.content.None? ==> r == original
    ensures reply.Completed? && reply.content.Some? ==> IsStripOf(r, reply.content.value)
  {
    match reply
    case Completed(Some(content)) => Strip(content)
    case _ => original
  }

  /** A completed reply determines the enriched synopsis: it is the one strip of the content, whatever the original was. */
  lemma EnrichedSynopsisIgnoresOriginal(a: string, b: string, content: string)
    ensures EnrichedSynopsis(a, Completed(Some(content))) == EnrichedSynopsis(b, Completed(Some(content)))
    ensures EnrichedSynopsis(a, Completed(Some(content))) == [] <==> AllSpace(content)
  {
  }

  /** An all-whitespace reply yields an empty enriched synopsis, not the original one. */
  lemma BlankReplyGivesEmptySynopsis(original: string)
    ensures EnrichedSynopsis(original, Completed(Some(" \n"))) == ""
  {
    assert AllSpace(" \n");
  }

  /**
   * `enrich_data`: `None` when the input table is missing. Otherwise the
   * enriched column starts as a copy of the synopses and is overwritten
   * row by row with the result for that row's reply; one request per row,
   * in row order.
   */
  method EnrichData(input: Option<seq<Film>>, replies: seq<Reply>)
    returns (output: Option<seq<EnrichedFilm>>, requests: seq<Request>)
    requires input.Some? ==> |replies| == |input.value|
    ensures input.None? <==> output.None?
    ensures input.None? ==> requests == []
    ensures input.Some? ==> |output.value| == |input.value| && |requests| == |input.value|
    ensures input.Some? ==> forall i :: 0 <= i < |input.value| ==>
              && output.value[i].film == input.value[i]
              && output.value[i].synopsisEnriched == EnrichedSynopsis(input.value[i].synopsis, replies[i])
              && requests[i] == RequestFor(input.value[i].synopsis)
  {
    if input.None? {
      return None, [];
    }
    var films := input.value;
    var column := new string[|films|](i requires 0 <= i < |films| => films[i].synopsis);
    requests := [];
    var i := 0;
    while i < |films|
      invariant 0 <= i <= |films|
      invariant |requests| == i
      invariant forall k :: 0 <= k < i ==> requests[k] == RequestFor(films[k].synopsis)
      invariant forall k :: 0 <= k < i ==> column[k] == EnrichedSynopsis(films[k].synopsis, replies[k])
    {
      var request := RequestFor(films[i].synopsis);
      var enriched := EnrichedSynopsis(films[i].synopsis, replies[i]);
      requests := requests + [request];
      column[i] := enriched;
      i := i + 1;
    }
    var rows: seq<EnrichedFilm> := [];
    var j := 0;
    while j < |films|
      invariant 0 <= j <= |films|
      invariant |rows| == j
      invariant forall k :: 0 <= k < j ==> rows[k] == EnrichedFilm(films[k], column[k])
    {
      rows := rows + [EnrichedFilm(films[j], column[j])];
      j := j + 1;
    }
    output := Some(rows);
  }

  /** When every call fails the enriched column equals the original synopses. */
  lemma {:induction false} AllFailuresKeepSynopses(films: seq<Film>, replies: seq<Reply>, rows: seq<EnrichedFilm>)
    requires |replies| == |films| == |rows|
    requires forall i :: 0 <= i < |replies| ==> replies[i] == Failed
    requires forall i :: 0 <= i < |rows| ==> rows[i] == EnrichedFilm(films[i], EnrichedSynopsis(films[i].synopsis, replies[i]))
    ensures forall i :: 0 <= i < |rows| ==> rows[i].synopsisEnriched == rows[i].film.synopsis
  {
  }
}
