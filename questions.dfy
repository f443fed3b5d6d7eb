/** The deterministic missing-information questioner
    (`generate_questions_for_missing_info`): one question per field still
    holding the "Not provided" sentinel, or the completeness record when no
    field does. */
module Questions {
  import opened Wrappers
  import opened Records

  const NotProvided: string := "Not provided"
  const ResultKey: string := "result"
  const NoQuestionsNeeded: string := "No additional questions needed."
  const QuestionPrefix: string := "Please provide information for: "

  /** The completeness record `{"result": "No additional questions needed."}`. */
  const Complete: Dict := [Entry(ResultKey, NoQuestionsNeeded)]

  function Question(key: string): string {
    QuestionPrefix + key
  }

  /** The keys whose value is the sentinel, in the record's order. */
  function MissingKeys(info: seq<Entry>): seq<string> {
    if info == [] then []
    else
      var last := info[|info| - 1];
      MissingKeys(info[..|info| - 1]) + (if last.value == NotProvided then [last.key] else [])
  }

  /** One question entry per key, in the keys' order. */
  function QuestionEntries(keys: seq<string>): seq<Entry> {
    seq(|keys|, i requires 0 <= i < |keys| => Entry(keys[i], Question(keys[i])))
  }

  /** What the questioner returns for `info`. */
  function QuestionsFor(info: Dict): Dict {
    MissingKeysOrdered(info);
    var questions := QuestionEntries(MissingKeys(info));
    if |questions| > 0 then questions else Complete
  }

  /** A key is reported missing exactly when some entry holds it with the
      sentinel value. */
  lemma {:induction false} MissingKeysMembers(info: seq<Entry>, k: string)
    ensures k in MissingKeys(info) <==>
              exists i :: 0 <= i < |info| && info[i].key == k && info[i].value == NotProvided
  {
    if info != [] {
      var init := info[..|info| - 1];
      MissingKeysMembers(init, k);
      if k in MissingKeys(info) && k in MissingKeys(init) {
        var i :| 0 <= i < |init| && init[i].key == k && init[i].value == NotProvided;
        assert info[i] == init[i];
      }
      if exists i :: 0 <= i < |info| && info[i].key == k && info[i].value == NotProvided {
        var i :| 0 <= i < |info| && info[i].key == k && info[i].value == NotProvided;
        if i < |init| {
          assert init[i] == info[i];
        }
      }
    }
  }

  /** Missing keys appear in the order of their entries in the record; in
      particular none appears twice. */
  lemma {:induction false} MissingKeysOrdered(info: Dict)
    ensures forall a, b :: 0 <= a < b < |MissingKeys(info)| ==>
              && IndexOf(info, MissingKeys(info)[a]).Some?
              && IndexOf(info, MissingKeys(info)[b]).Some?
              && IndexOf(info, MissingKeys(info)[a]).value < IndexOf(info, MissingKeys(info)[b]).value
    ensures DistinctKeys(QuestionEntries(MissingKeys(info)))
  {
    if info != [] {
      var n := |info| - 1;
      var init: Dict := info[..n];
      MissingKeysOrdered(init);
      var mk, mk0 := MissingKeys(info), MissingKeys(init);
      forall k | k in mk0
        ensures IndexOf(info, k) == IndexOf(init, k) && IndexOf(info, k).Some? && IndexOf(info, k).value < n
      {
        MissingKeysMembers(init, k);
        var i :| 0 <= i < |init| && init[i].key == k && init[i].value == NotProvided;
        LookupAt(init, i);
        LookupAt(info, i);
      }
      if info[n].value == NotProvided {
        LookupAt(info, n);
        assert mk == mk0 + [info[n].key];
      } else {
        assert mk == mk0;
      }
      forall a, b | 0 <= a < b < |mk|
        ensures && IndexOf(info, mk[a]).Some? && IndexOf(info, mk[b]).Some?
                && IndexOf(info, mk[a]).value < IndexOf(info, mk[b]).value
      {
        assert mk[a] == mk0[a] && mk[a] in mk0;
        if b < |mk0| {
          assert mk[b] == mk0[b] && mk[b] in mk0;
        }
      }
      assert mk == MissingKeys(info);
    } else {
      assert MissingKeys(info) == [];
    }
  }

  /** `generate_questions_for_missing_info`: the loop fills a fresh
      dictionary with one question per sentinel-valued field. */
  method MissingInfoQuestions(info: Dict) returns (questions: Dict)
    ensures questions == QuestionsFor(info)
  {
    var asked: Dict := [];
    for i := 0 to |info|
      invariant asked == QuestionEntries(MissingKeys(info[..i]))
    {
      var e := info[i];
      assert info[..i + 1][..i] == info[..i];
      if e.value == NotProvided {
        forall k | k in Keys(asked) ensures k != e.key {
          MissingKeysMembers(info[..i], k);
        }
        PutFresh(asked, e.key, Question(e.key));
        asked := Put(asked, e.key, Question(e.key));
      }
    }
    assert info[..|info|] == info;
    if |asked| > 0 {
      questions := asked;
    } else {
      questions := Complete;
    }
  }

  /** When some field is missing, the questions are keyed by exactly the
      sentinel-valued fields, each asking for its own field. */
  lemma QuestionsForLookup(info: Dict, k: string)
    requires MissingKeys(info) != []
    ensures Keys(QuestionsFor(info)) == MissingKeys(info)
    ensures Lookup(QuestionsFor(info), k) ==
              if Lookup(info, k) == Some(NotProvided) then Some(Question(k)) else None
  {
    var q := QuestionsFor(info);
    var mk := MissingKeys(info);
    MissingKeysMembers(info, k);
    if k in mk {
      var a :| 0 <= a < |mk| && mk[a] == k;
      LookupAt(q, a);
      var i :| 0 <= i < |info| && info[i].key == k && info[i].value == NotProvided;
      LookupAt(info, i);
    } else {
      assert forall a :: 0 <= a < |q| ==> q[a].key == mk[a];
      if Lookup(info, k).Some? {
        var i :| 0 <= i < |info| && info[i] == Entry(k, Lookup(info, k).value);
        LookupAt(info, i);
      }
    }
  }

  /** The completeness record is returned exactly when no field holds the
      sentinel. */
  lemma QuestionsForComplete(info: Dict)
    ensures QuestionsFor(info) == Complete <==>
              forall i :: 0 <= i < |info| ==> info[i].value != NotProvided
  {
    var mk := MissingKeys(info);
    if mk == [] {
      forall i | 0 <= i < |info| ensures info[i].value != NotProvided {
        MissingKeysMembers(info, info[i].key);
      }
    } else {
      MissingKeysMembers(info, mk[0]);
      assert QuestionsFor(info)[0].value[0] == 'P';
    }
  }

  /** The result is never empty, and the completeness entry never sits
      beside a question. */
  lemma QuestionsNeverMixed(info: Dict)
    ensures |QuestionsFor(info)| > 0
    ensures forall i :: 0 <= i < |QuestionsFor(info)| && QuestionsFor(info)[i].value == NoQuestionsNeeded ==>
              QuestionsFor(info) == Complete
  {
  }

  /** A record with one unanswered field and one answered field yields one
      question, for the unanswered field. */
  lemma OneMissingFieldExample()
    ensures QuestionsFor([Entry("a", NotProvided), Entry("b", "bar")]) ==
              [Entry("a", "Please provide information for: a")]
  {
    var info: Dict := [Entry("a", NotProvided), Entry("b", "bar")];
    var first := [Entry("a", NotProvided)];
    assert info[..1] == first && first[..0] == [];
    assert MissingKeys(first) == ["a"];
    assert info[1].value != NotProvided;
    assert MissingKeys(info) == ["a"];
    assert Question("a") == "Please provide information for: a";
    assert QuestionEntries(["a"]) == [Entry("a", Question("a"))];
  }
}
