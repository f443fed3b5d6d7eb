/** The two decisions the web handlers take with the pipeline's data: the
    home page's choice between showing questions and producing the proposal,
    and the answer handler, which goes straight to the proposal. The pages
    themselves, and the proposal text, are not part of this model: a page
    records what it would be rendered from. */
module Routing {
  import opened Wrappers
  import opened Records
  import opened Questions
  import opened Questionnaire

  datatype Page =
    | ProposalPage(info: Dict)
    | QuestionsPage(questions: Dict, info: Dict)
    | ErrorPage(cause: Error)

  /** The check of line 397: the proposal is produced only when the question
      dictionary maps "result" to exactly the completeness text. */
  function Route(questions: Dict, info: Dict): (p: Page)
    ensures p.ProposalPage? <==>
              exists i :: 0 <= i < |questions| && questions[i] == Entry(ResultKey, NoQuestionsNeeded)
    ensures p.ProposalPage? ==> p.info == info
    ensures !p.ProposalPage? ==> p == QuestionsPage(questions, info)
  {
    if Lookup(questions, ResultKey) == Some(NoQuestionsNeeded) then ProposalPage(info)
    else QuestionsPage(questions, info)
  }

  /** Fed the deterministic questions, the check proposes exactly when no
      field holds the sentinel. */
  lemma RouteProposesWhenComplete(info: Dict)
    ensures Route(QuestionsFor(info), info).ProposalPage? <==>
              forall i :: 0 <= i < |info| ==> info[i].value != NotProvided
  {
    QuestionsForComplete(info);
    QuestionsNeverMixed(info);
  }

  const ProposalFailurePrefix: string := "Error in generating proposal: "

  /** `submit_answers`: a failed merge shows its error; after a successful
      merge the proposal is requested at once, whatever the merged record
      still lacks. `proposal` is the outcome of that request: a failure is
      wrapped as RuntimeError by `generate_proposal` and shown on the error
      page. */
  method SubmitAnswers(form: Dict, parse: string -> Option<Dict>, proposal: Result<string, string>)
    returns (p: Page)
    ensures Lookup(form, ExtractedInfoKey).None? ==> p == ErrorPage(KeyError(ExtractedInfoKey))
    ensures (Lookup(form, ExtractedInfoKey).Some? &&
             parse(ReplaceQuotes(Lookup(form, ExtractedInfoKey).value)).None?) ==> p == ErrorPage(DecodeError)
    ensures (Lookup(form, ExtractedInfoKey).Some? &&
             parse(ReplaceQuotes(Lookup(form, ExtractedInfoKey).value)).Some? &&
             proposal.Failure?) ==>
              p == ErrorPage(RuntimeError(ProposalFailurePrefix + proposal.error))
    ensures (Lookup(form, ExtractedInfoKey).Some? &&
             parse(ReplaceQuotes(Lookup(form, ExtractedInfoKey).value)).Some? &&
             proposal.Success?) ==>
              p == ProposalPage(MergedRecord(parse(ReplaceQuotes(Lookup(form, ExtractedInfoKey).value)).value, form))
  {
    var r := GenerateQuestionnaire(form, parse);
    match r
    case Failure(e) =>
      p := ErrorPage(e);
    case Success((_, merged)) =>
      match proposal
      case Failure(msg) =>
        p := ErrorPage(RuntimeError(ProposalFailurePrefix + msg));
      case Success(_) =>
        p := ProposalPage(merged);
  }

  /** There is no second check after the merge: when a sentinel field got no
      answer, the check of line 397 would ask again, yet the answer handler
      proposes from that record. */
  lemma SubmitSkipsRecheck(info: Dict, form: Dict, i: nat)
    requires i < |info| && info[i].value == NotProvided && Lookup(form, info[i].key).None?
    ensures MergedRecord(info, form)[i].value == NotProvided
    ensures Route(QuestionsFor(MergedRecord(info, form)), MergedRecord(info, form)).QuestionsPage?
  {
    var merged := MergedRecord(info, form);
    RouteProposesWhenComplete(merged);
  }
}
