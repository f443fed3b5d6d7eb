/** Locating and decoding the JSON object embedded in a completion's text
    (`extract_information`). The completion service and `json.loads` are not
    part of this model: the completion arrives as its outcome, and the parser
    is a parameter, a partial function from text to a dictionary. */
module Extractor {
  import opened Wrappers
  import opened Records

  const ExtractFailurePrefix: string := "Error in extracting information: "
  const NoJsonMessage: string := "Failed to parse JSON from extraction result"
  const DecodeMessage: string := "Error decoding JSON from the extraction result"

  /** `s.find(c)`: the index of the first `c`, or -1 when there is none. */
  function Find(s: string, c: char): (r: int)
    ensures r == -1 <==> c !in s
    ensures r != -1 ==> 0 <= r < |s| && s[r] == c && c !in s[..r]
  {
    if s == [] then -1
    else if s[0] == c then 0
    else
      var t := Find(s[1..], c);
      assert s == [s[0]] + s[1..];
      if t == -1 then -1
      else
        assert s[..t + 1] == [s[0]] + s[1..][..t];
        t + 1
  }

  /** `s.rfind(c)`: the index of the last `c`, or -1 when there is none. */
  function RFind(s: string, c: char): (r: int)
    ensures r == -1 <==> c !in s
    ensures r != -1 ==> 0 <= r < |s| && s[r] == c && c !in s[r + 1..]
  {
    if s == [] then -1
    else if s[|s| - 1] == c then |s| - 1
    else
      var t := RFind(s[..|s| - 1], c);
      assert s == s[..|s| - 1] + [s[|s| - 1]];
      assert t != -1 ==> s[t + 1..] == s[..|s| - 1][t + 1..] + [s[|s| - 1]];
      t
  }

  /** Python's `s[lo:hi]` for non-negative bounds: `hi` is clipped to the
      length, and a slice whose start is not below its end is empty. */
  function PySlice(s: string, lo: nat, hi: nat): (r: string)
    ensures |r| == if lo < hi && lo < |s| then (if hi <= |s| then hi else |s|) - lo else 0
    ensures forall k :: 0 <= k < |r| ==> r[k] == s[lo + k]
  {
    var end := if hi <= |s| then hi else |s|;
    if lo < end then s[lo..end] else []
  }

  /** The text handed to the parser: from the first `{` through the last `}`
      (lines 233-237), or None when either brace is missing. */
  function Locate(raw: string): (r: Option<string>)
    ensures r.None? <==> '{' !in raw || '}' !in raw
    ensures r.Some? && r.value != [] ==> r.value[0] == '{' && r.value[|r.value| - 1] == '}'
  {
    var start := Find(raw, '{');
    var end := RFind(raw, '}');
    if start == -1 || end == -1 then None
    else Some(PySlice(raw, start, end + 1))
  }

  /** `extract_information`: a failed completion and a text without braces
      both surface as RuntimeError; a slice the parser rejects surfaces as
      ValueError. */
  function ExtractInformation(completion: Result<string, string>, parse: string -> Option<Dict>)
    : (r: Result<Dict, Error>)
    ensures completion.Failure? ==> r == Failure(RuntimeError(ExtractFailurePrefix + completion.error))
    ensures completion.Success? && ('{' !in completion.value || '}' !in completion.value) ==>
              r == Failure(RuntimeError(ExtractFailurePrefix + NoJsonMessage))
    ensures r == Failure(ValueError(DecodeMessage)) <==>
              completion.Success? && Locate(completion.value).Some? && parse(Locate(completion.value).value).None?
    ensures r.Success? <==> completion.Success? && Locate(completion.value).Some? && parse(Locate(completion.value).value).Some?
    ensures r.Success? ==> r.value == parse(Locate(completion.value).value).value
  {
    match completion
    case Failure(msg) => Failure(RuntimeError(ExtractFailurePrefix + msg))
    case Success(raw) =>
      match Locate(raw)
      case None => Failure(RuntimeError(ExtractFailurePrefix + NoJsonMessage))
      case Some(body) =>
        match parse(body)
        case None => Failure(ValueError(DecodeMessage))
        case Some(info) => Success(info)
  }

  /** The slice starts at the first `{` and ends at the last `}`, both
      included; when that `}` comes before that `{` the slice is empty. */
  lemma {:induction false} LocateBetween(raw: string, i: nat, j: nat)
    requires i < |raw| && raw[i] == '{' && '{' !in raw[..i]
    requires j < |raw| && raw[j] == '}' && '}' !in raw[j + 1..]
    ensures Locate(raw) == Some(if i <= j then raw[i..j + 1] else [])
  {
  }

  /** An object framed by text that holds no `{` before it and no `}` after
      it is located exactly. */
  lemma FramedObjectLocated(prefix: string, body: string, suffix: string)
    requires '{' !in prefix && '}' !in suffix
    requires |body| > 0 && body[0] == '{' && body[|body| - 1] == '}'
    ensures Locate(prefix + body + suffix) == Some(body)
  {
    var raw := prefix + body + suffix;
    var i, j := |prefix|, |prefix| + |body| - 1;
    assert raw[..i] == prefix;
    assert raw[j + 1..] == suffix;
    LocateBetween(raw, i, j);
    assert raw[i..j + 1] == body;
  }

  /** Extraction recovers whatever the parser makes of a framed object, and
      fails only with the decode error when the parser rejects it. */
  lemma FramedObjectExtracted(prefix: string, body: string, suffix: string, parse: string -> Option<Dict>)
    requires '{' !in prefix && '}' !in suffix
    requires |body| > 0 && body[0] == '{' && body[|body| - 1] == '}'
    ensures ExtractInformation(Success(prefix + body + suffix), parse) ==
              match parse(body)
              case Some(info) => Success(info)
              case None => Failure(ValueError(DecodeMessage))
  {
    FramedObjectLocated(prefix, body, suffix);
  }

  /** When every `}` comes before every `{`, both braces are present but the
      parser is handed the empty text, so a parser that rejects empty text
      makes extraction fail with the decode error, not the missing-brace one. */
  lemma CrossedBracesDecodeError(raw: string, parse: string -> Option<Dict>)
    requires '{' in raw && '}' in raw
    requires forall i, j :: 0 <= i < j < |raw| && raw[i] == '{' ==> raw[j] != '}'
    requires parse([]).None?
    ensures Locate(raw) == Some([])
    ensures ExtractInformation(Success(raw), parse) == Failure(ValueError(DecodeMessage))
  {
  }
}
