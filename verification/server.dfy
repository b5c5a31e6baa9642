/**
 * The two HTTP handlers of `ai_twitter_bot.py`. The posting service is an
 * oracle `publish`: `publish(text)` is what `post_tweet(text)` returns, true
 * when the service accepted the post and false when it raised. A handler
 * run yields the response together with the texts handed to `post_tweet`,
 * in call order.
 */
module Server {
  import opened Options
  import opened Text
  import opened Generator

  /** The JSON object a handler returns, by shape. */
  datatype Payload =
    | Healthy
    | Posted(tweet: string)
    | Failed(message: string)

  datatype Response = Response(statusCode: int, payload: Payload)

  /** One run of a handler: its response and every text it asked the
      posting service to publish. */
  datatype Exchange = Exchange(response: Response, posted: seq<string>)

  const GenerateFailedMessage: string := "Failed to generate tweet text"
  const PostFailedMessage: string := "Failed to post tweet"

  /** The key/value pairs of the JSON object, in the order they are written. */
  function Fields(p: Payload): (kv: seq<(string, string)>)
    ensures |kv| >= 1 && kv[0].0 == "status"
    ensures kv[0].1 == "success" <==> p.Posted?
    ensures kv[0].1 == "error" <==> p.Failed?
  {
    match p
    case Healthy => [("status", "healthy")]
    case Posted(t) => [("status", "success"), ("tweet", t)]
    case Failed(m) => [("status", "error"), ("message", m)]
  }

  /** Python's truth test on the generator's result: `None` and the empty
      string are false. */
  predicate Truthy(generated: Option<string>)
    ensures generated.None? ==> !Truthy(generated)
    ensures generated == Some("") ==> !Truthy(generated)
    ensures generated.Some? && generated.value != "" ==> Truthy(generated)
    ensures Truthy(generated) ==> generated.Some? && |generated.value| > 0
  {
    generated.Some? && generated.value != ""
  }

  /** `health_check`: the liveness route answers the same whatever the
      state of the external services. */
  function HealthCheck(): (r: Response)
    ensures r.statusCode == 200
    ensures Fields(r.payload) == [("status", "healthy")]
  {
    Response(200, Healthy)
  }

  /** The decision of `create_tweet` once the generator has answered:
      a false result stops before posting; otherwise the text is posted
      once and the outcome of the post decides the response. */
  function Respond(generated: Option<string>, publish: string -> bool): (e: Exchange)
    ensures |e.posted| <= 1
    ensures e.posted == [] <==> !Truthy(generated)
    ensures e.posted != [] ==> e.posted == [generated.value]
    ensures e.response.statusCode == 200 || e.response.statusCode == 500
    ensures e.response.statusCode == 200 <==> Truthy(generated) && publish(generated.value)
    ensures e.response.statusCode == 200 <==> e.response.payload.Posted?
    ensures e.response.payload == Failed(GenerateFailedMessage) <==> !Truthy(generated)
    ensures e.response.payload == Failed(PostFailedMessage)
      <==> Truthy(generated) && !publish(generated.value)
    ensures e.response.payload.Posted? ==> e.posted == [e.response.payload.tweet]
  {
    if !Truthy(generated) then
      Exchange(Response(500, Failed(GenerateFailedMessage)), [])
    else
      var text := generated.value;
      if !publish(text) then
        Exchange(Response(500, Failed(PostFailedMessage)), [text])
      else
        Exchange(Response(200, Posted(text)), [text])
  }

  /** `create_tweet`: generate from the completion service's answer, then
      decide. Whatever is posted is a non-empty, trimmed piece of the
      completion, and a success echoes exactly the posted text. */
  function CreateTweet(completion: Option<string>, publish: string -> bool): (e: Exchange)
    ensures completion.None? ==> e == Exchange(Response(500, Failed(GenerateFailedMessage)), [])
    ensures forall t :: t in e.posted ==> t != "" && Trimmed(t) && IsInfix(t, completion.value)
    ensures e.response.payload.Posted? ==> e.posted == [e.response.payload.tweet]
    ensures e.response.payload.Posted? ==> Fields(e.response.payload) == [("status", "success"), ("tweet", e.posted[0])]
  {
    Respond(GenerateResponse(completion), publish)
  }

  /** A completion made only of whitespace cleans to the empty string, so
      the run fails before anything is posted. */
  lemma BlankCompletionPostsNothing(content: string, publish: string -> bool)
    requires SpaceBetween(content, 0, |content|)
    ensures CreateTweet(Some(content), publish)
      == Exchange(Response(500, Failed(GenerateFailedMessage)), [])
  {
    var m := Strip(content);
    assert m == [] by {
      var lo, hi :| 0 <= lo <= hi <= |content| && m == content[lo..hi] && Trimmed(m);
      if lo < hi {
        TrimmedSliceEnds(content, lo, hi);
      }
    }
    assert !Contains(m, ThinkOpen);
  }

  /** Whether a run succeeds depends only on the cleaned text and the
      posting service's answer for it. */
  lemma SuccessIff(completion: Option<string>, publish: string -> bool)
    ensures CreateTweet(completion, publish).response.statusCode == 200
      <==> completion.Some?
           && CleanCompletion(completion.value) != ""
           && publish(CleanCompletion(completion.value))
  {
  }
}
