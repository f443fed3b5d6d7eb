/** Folding submitted answers into the information record
    (`generate_questionnaire`). The submitted form is a dictionary that holds
    the serialized record under "extracted_info" and the answers under the
    fields' own keys. */
module Questionnaire {
  import opened Wrappers
  import opened Records
  import opened Questions

  const ExtractedInfoKey: string := "extracted_info"

  /** `s.replace("'", '"')`: every single quote becomes a double quote and
      nothing else changes. */
  function ReplaceQuotes(s: string): (r: string)
    ensures |r| == |s|
    ensures forall i :: 0 <= i < |s| ==> r[i] == if s[i] == '\'' then '"' else s[i]
    ensures '\'' !in r
    ensures '\'' !in s ==> r == s
  {
    if s == [] then []
    else [if s[0] == '\'' then '"' else s[0]] + ReplaceQuotes(s[1..])
  }

  /** The audit line for one field: `f"Q: {key}\nA: {answer}"`. */
  function AuditEntry(key: string, answer: string): string {
    "Q: " + key + "\nA: " + answer
  }

  /** One entry after the merge: a sentinel value is replaced by the
      submitted answer when the form holds one. */
  function MergeEntry(e: Entry, form: Dict): Entry {
    if e.value == NotProvided then
      match Lookup(form, e.key)
      case Some(answer) => Entry(e.key, answer)
      case None => e
    else e
  }

  /** The record after the merge: same keys in the same order; only
      sentinel values change, and only to the answer submitted for them. */
  function MergedRecord(info: Dict, form: Dict): (merged: Dict)
    ensures Keys(merged) == Keys(info)
    ensures forall i :: 0 <= i < |info| && info[i].value != NotProvided ==> merged[i] == info[i]
    ensures forall i :: 0 <= i < |info| && info[i].value == NotProvided ==>
              merged[i].value == Lookup(form, info[i].key).GetOr(NotProvided)
  {
    var merged := seq(|info|, i requires 0 <= i < |info| => MergeEntry(info[i], form));
    assert Keys(merged) == Keys(info);
    merged
  }

  /** The audit log: one line per sentinel-valued field, in record order,
      with the submitted answer or an empty one. */
  function AuditLog(info: seq<Entry>, form: Dict): seq<string> {
    if info == [] then []
    else
      var last := info[|info| - 1];
      AuditLog(info[..|info| - 1], form) +
        (if last.value == NotProvided then [AuditEntry(last.key, Lookup(form, last.key).GetOr(""))] else [])
  }

  /** The audit log has exactly one line per key the questioner would ask
      about, in the same order. */
  lemma {:induction false} AuditLogFollowsMissingKeys(info: seq<Entry>, form: Dict)
    ensures |AuditLog(info, form)| == |MissingKeys(info)|
    ensures forall t :: 0 <= t < |MissingKeys(info)| ==>
              AuditLog(info, form)[t] == AuditEntry(MissingKeys(info)[t], Lookup(form, MissingKeys(info)[t]).GetOr(""))
  {
    if info != [] {
      AuditLogFollowsMissingKeys(info[..|info| - 1], form);
    }
  }

  /** After the merge, a field is still missing exactly when it was missing
      before and the form gave it no answer, or gave the sentinel itself. */
  lemma MergeLeavesUnanswered(info: Dict, form: Dict, k: string)
    ensures k in MissingKeys(MergedRecord(info, form)) <==>
              Lookup(info, k) == Some(NotProvided) && Lookup(form, k).GetOr(NotProvided) == NotProvided
  {
    var merged := MergedRecord(info, form);
    MissingKeysMembers(info, k);
    MissingKeysMembers(merged, k);
    assert forall i :: 0 <= i < |info| ==> merged[i].key == Keys(merged)[i] == Keys(info)[i] == info[i].key;
    if Lookup(info, k).Some? {
      var i :| 0 <= i < |info| && info[i] == Entry(k, Lookup(info, k).value);
      LookupAt(info, i);
      LookupAt(merged, i);
    }
    if k in MissingKeys(merged) {
      var i :| 0 <= i < |merged| && merged[i].key == k && merged[i].value == NotProvided;
      LookupAt(info, i);
    }
  }

  /** The loop of lines 424-430: each sentinel field is overwritten in place
      by its answer when the form has one, and gets an audit line either way. */
  method MergeAnswers(info: Dict, form: Dict) returns (log: seq<string>, merged: Dict)
    ensures merged == MergedRecord(info, form)
    ensures log == AuditLog(info, form)
  {
    merged, log := info, [];
    var i := 0;
    while i < |merged|
      invariant |merged| == |info| && i <= |info|
      invariant forall j :: 0 <= j < i ==> merged[j] == MergeEntry(info[j], form)
      invariant forall j :: i <= j < |info| ==> merged[j] == info[j]
      invariant log == AuditLog(info[..i], form)
    {
      var e := merged[i];
      assert info[..i + 1][..i] == info[..i];
      if e.value == NotProvided {
        match Lookup(form, e.key)
        case Some(answer) =>
          PutExisting(merged, i, answer);
          merged := Put(merged, e.key, answer);
          log := log + [AuditEntry(e.key, answer)];
        case None =>
          log := log + [AuditEntry(e.key, "")];
      }
      i := i + 1;
    }
    assert info[..|info|] == info;
  }

  /** `generate_questionnaire`: a form without "extracted_info" raises
      KeyError, a record text the parser rejects after the quote rewrite
      raises the decode error, and otherwise the audit log and the merged
      record are returned. */
  method GenerateQuestionnaire(form: Dict, parse: string -> Option<Dict>)
    returns (r: Result<(seq<string>, Dict), Error>)
    ensures Lookup(form, ExtractedInfoKey).None? ==> r == Failure(KeyError(ExtractedInfoKey))
    ensures (Lookup(form, ExtractedInfoKey).Some? &&
             parse(ReplaceQuotes(Lookup(form, ExtractedInfoKey).value)).None?) ==> r == Failure(DecodeError)
    ensures r.Success? <==>
              Lookup(form, ExtractedInfoKey).Some? && parse(ReplaceQuotes(Lookup(form, ExtractedInfoKey).value)).Some?
    ensures r.Success? ==>
              var info := parse(ReplaceQuotes(Lookup(form, ExtractedInfoKey).value)).value;
              r.value == (AuditLog(info, form), MergedRecord(info, form))
  {
    match Lookup(form, ExtractedInfoKey)
    case None =>
      r := Failure(KeyError(ExtractedInfoKey));
    case Some(serialized) =>
      match parse(ReplaceQuotes(serialized))
      case None =>
        r := Failure(DecodeError);
      case Some(info) =>
        var log, merged := MergeAnswers(info, form);
        r := Success((log, merged));
  }

  /** A field answered in the form takes the answer; a field left out keeps
      the sentinel and gets an empty answer in the log. */
  lemma FillExample()
    ensures var info: Dict := [Entry("a", NotProvided), Entry("b", "x")];
            var form: Dict := [Entry("a", "answer-a")];
            MergedRecord(info, form) == [Entry("a", "answer-a"), Entry("b", "x")] &&
            AuditLog(info, form) == ["Q: a\nA: answer-a"]
  {
    var info: Dict := [Entry("a", NotProvided), Entry("b", "x")];
    var form: Dict := [Entry("a", "answer-a")];
    LookupAt(form, 0);
    assert info[..1] == [info[0]] && info[..1][..0] == [];
    assert info[1].value != NotProvided;
    assert AuditLog(info[..1], form) == [AuditEntry("a", "answer-a")];
    assert AuditEntry("a", "answer-a") == "Q: a\nA: answer-a";
  }
}
