/**
 The fail-open translation wrapper `translate_text`
 (ebook-translator.py:7-24). The remote chat-completion call is abstract: a
 `Service` maps the ordinal of the call within the run, the text and the two
 language names to a `Reply`. The ordinal lets the service answer two
 identical requests differently, as a remote model may.
 */
module TranslationClient {
  import opened Text

  /** What the remote call yields: the content of the first choice, or
      `Failure` when the call raises (network or service error, a reply
      without content). */
  datatype Reply = Success(content: string) | Failure

  /** The remote service: (call ordinal, text, source language, target
      language) to reply. */
  type Service = (nat, string, string, string) -> Reply

  /** A service whose every call fails. */
  ghost predicate AlwaysFails(service: Service) {
    forall call, text, src, tgt :: service(call, text, src, tgt).Failure?
  }

  /** `translate_text`: the stripped reply on success, the input unchanged
      on failure. The languages reach the service unmodified. */
  function TranslateText(service: Service, call: nat, text: string, src: string, tgt: string): (r: string)
    ensures service(call, text, src, tgt).Failure? ==> r == text
    ensures service(call, text, src, tgt).Success? ==>
      IsStripped(r) && |r| <= |service(call, text, src, tgt).content|
    ensures IsStripped(text) ==> IsStripped(r)
  {
    match service(call, text, src, tgt)
    case Success(content) => Strip(content)
    case Failure => text
  }

  /** A successful reply is returned stripped of surrounding whitespace: a
      reply that is all whitespace yields the empty string, not the input. */
  lemma {:induction false} SuccessIsStrippedReply(service: Service, call: nat, text: string, src: string, tgt: string)
    requires service(call, text, src, tgt).Success?
    ensures var content := service(call, text, src, tgt).content;
      TranslateText(service, call, text, src, tgt) == Strip(content)
      && (TranslateText(service, call, text, src, tgt) == [] <==> forall i :: 0 <= i < |content| ==> IsSpace(content[i]))
  {
    StripEmptyIff(service(call, text, src, tgt).content);
  }

  /** With a service that always fails, translating is the identity. */
  lemma FailOpen(service: Service, call: nat, text: string, src: string, tgt: string)
    requires AlwaysFails(service)
    ensures TranslateText(service, call, text, src, tgt) == text
  {
  }
}
