/** The two AJAX handlers of the post editor: `aiseo_reprocess_post`, which
    rewrites a post through OpenAI and appends the FAQ block at most once,
    and `aiseo_add_internal_links_ajax`, which turns a linking result into a
    JSON reply. Nonce and capability checks are not modelled. */
module Reprocessor {
  import opened Wrappers
  import opened Text
  import opened Json
  import opened OpenAi
  import Faq

  /** `wp_send_json_success($data)` or `wp_send_json_error($data)`. */
  datatype Reply = JsonSuccess(data: Value) | JsonError(data: Value)

  function ErrorReply(message: string): Reply
  {
    JsonError(Obj([Member("message", Str(message))]))
  }

  // ---------------------------------------------------------------------
  // the FAQ guard
  // ---------------------------------------------------------------------

  /** Appends the FAQ block to the processed content only when the content
      does not already mention the FAQ heading and the reply's `faqs` is an
      array. */
  function FaqGuard(processed: string, faqs: Value, esc: string -> string): (r: string)
    ensures HasPrefix(r, processed)
    ensures r != processed ==> !Contains(processed, Faq.Marker) && IsArray(faqs) && r == processed + Faq.Block(faqs, esc)
    ensures IsArray(faqs) ==> Contains(r, Faq.Marker)
  {
    if Contains(processed, Faq.Marker) then
      assert processed[..|processed|] == processed;
      processed
    else if IsArray(faqs) then
      var r := processed + Faq.Block(faqs, esc);
      assert r[..|processed|] == processed;
      ContainsAppendRight(processed, Faq.Block(faqs, esc), Faq.Marker);
      r
    else
      assert processed[..|processed|] == processed;
      processed
  }

  /** At most one block is ever appended: guarding guarded content again,
      with any FAQ list, changes nothing once a block is present. */
  lemma FaqGuardOnce(processed: string, faqs: Value, faqs2: Value, esc: string -> string, esc2: string -> string)
    requires IsArray(faqs)
    ensures FaqGuard(FaqGuard(processed, faqs, esc), faqs2, esc2) == FaqGuard(processed, faqs, esc)
  {
  }

  /** Content that already carries the heading is left as it is. */
  lemma FaqGuardSkipsMarked(processed: string, faqs: Value, esc: string -> string)
    requires Contains(processed, Faq.Marker)
    ensures FaqGuard(processed, faqs, esc) == processed
  {
  }

  // ---------------------------------------------------------------------
  // reprocessing
  // ---------------------------------------------------------------------

  /** The request argument: the post's content and the editor's extra prompt. */
  function ReprocessArgument(content: string, additional: string): Value
  {
    Obj([Member("content", Str(content)), Member("additional_prompt", Str(additional))])
  }

  /** What a reprocess call does: the prompt it sends, the content it writes
      to the post (if any), and its reply. */
  datatype Reprocessed = Reprocessed(request: Prompt, update: Option<string>, reply: Reply)

  /** `aiseo_reprocess_post` for a post whose sanitised content and extra
      prompt are given; `respond` answers the request it sends. */
  function Reprocess(content: string, additional: string, respond: Prompt -> Result<string, string>,
                     markdown: string -> string, esc: string -> string): (r: Reprocessed)
    ensures r.request == ReprocessPrompt(content, additional, KeywordInstruction([]))
    ensures r.update.Some? <==> RequestContent(respond(r.request)).Success? && IsSet(RequestContent(respond(r.request)).value, "content")
    ensures r.update.Some? ==>
              var generated := RequestContent(respond(r.request)).value;
              r.update.value == FaqGuard(ProcessContent(markdown, ToText(Get(generated, "content"))), Get(generated, "faqs"), esc)
    ensures r.update.Some? ==> r.reply == JsonSuccess(Obj([Member("content", Str(r.update.value))]))
    ensures RequestContent(respond(r.request)).Failure? ==> r.reply == ErrorReply(RequestContent(respond(r.request)).error)
    ensures RequestContent(respond(r.request)).Success? && !IsSet(RequestContent(respond(r.request)).value, "content")
            ==> r.reply == ErrorReply("Invalid response from OpenAI.")
  {
    ReprocessArgumentSelectsReprocess(content, additional, []);
    var request := SelectPrompt(ReprocessArgument(content, additional), "", "", "", []);
    match RequestContent(respond(request))
    case Failure(message) => Reprocessed(request, None, ErrorReply(message))
    case Success(generated) =>
      if IsSet(generated, "content") then
        var processed := ProcessContent(markdown, ToText(Get(generated, "content")));
        var final := FaqGuard(processed, Get(generated, "faqs"), esc);
        Reprocessed(request, Some(final), JsonSuccess(Obj([Member("content", Str(final))])))
      else
        Reprocessed(request, None, ErrorReply("Invalid response from OpenAI."))
  }

  /** A transport failure reaches the editor as an error reply carrying the
      exception's message, and the post is left alone. */
  lemma TransportFailureReply(content: string, additional: string, respond: Prompt -> Result<string, string>,
                              markdown: string -> string, esc: string -> string)
    requires respond(ReprocessPrompt(content, additional, KeywordInstruction([]))).Failure?
    ensures var r := Reprocess(content, additional, respond, markdown, esc);
            r.update == None &&
            r.reply == ErrorReply("Error sending request to OpenAI API: " +
                                  respond(ReprocessPrompt(content, additional, KeywordInstruction([]))).error)
  {
  }

  /** The post written by a reprocess gains the FAQ block only if the
      rewritten content does not already carry the heading, and then carries
      the heading whenever the reply lists FAQs. */
  lemma ReprocessFaqAtMostOnce(content: string, additional: string, respond: Prompt -> Result<string, string>,
                               markdown: string -> string, esc: string -> string)
    requires Reprocess(content, additional, respond, markdown, esc).update.Some?
    ensures var r := Reprocess(content, additional, respond, markdown, esc);
            var generated := RequestContent(respond(r.request)).value;
            var processed := ProcessContent(markdown, ToText(Get(generated, "content")));
            HasPrefix(r.update.value, processed) &&
            (Contains(processed, Faq.Marker) ==> r.update.value == processed) &&
            (IsArray(Get(generated, "faqs")) ==> Contains(r.update.value, Faq.Marker))
  {
    var r := Reprocess(content, additional, respond, markdown, esc);
    var generated := RequestContent(respond(r.request)).value;
    var processed := ProcessContent(markdown, ToText(Get(generated, "content")));
    if Contains(processed, Faq.Marker) {
      FaqGuardSkipsMarked(processed, Get(generated, "faqs"), esc);
    }
  }

  // ---------------------------------------------------------------------
  // status dispatch
  // ---------------------------------------------------------------------

  /** `aiseo_add_internal_links_ajax`: a `success` result is passed on with
      its content and message, an `info` result with its message only, and
      anything else becomes an error carrying the message. The comparison is
      strict, so only the strings themselves match. */
  function StatusReply(result: Value): (r: Reply)
    ensures r.JsonSuccess? <==> Get(result, "status") == Str("success") || Get(result, "status") == Str("info")
    ensures Get(r.data, "message") == Get(result, "message")
    ensures IsSet(r.data, "content") <==> Get(result, "status") == Str("success") && IsSet(result, "content")
    ensures Get(result, "status") == Str("success") ==> Get(r.data, "content") == Get(result, "content")
    ensures Get(result, "status") != Str("success") ==> Get(r.data, "content") == Null
  {
    var status := Get(result, "status");
    var message := Member("message", Get(result, "message"));
    if status == Str("success") then
      var data := Obj([Member("content", Get(result, "content")), message]);
      assert data.members[..1] == [Member("content", Get(result, "content"))];
      assert "message"[0] != "content"[0];
      assert Get(data, "content") == LastValue(data.members[..1], "content") == Get(result, "content");
      JsonSuccess(data)
    else
      var data := Obj([message]);
      assert [message][..0] == [];
      assert "message"[0] != "content"[0];
      assert Get(data, "content") == LastValue([], "content") == Null;
      if status == Str("info") then JsonSuccess(data) else JsonError(data)
  }
}
