/** Interpretation of the model's reply: `extract_json` and the try/except
    around the model call and `json.loads` in `scan_path`. */
module Interpreter {
  import opened Types

  /** Some '{' is followed, somewhere later, by a '}': the pattern
      `\{[\s\S]*\}` has a match. */
  predicate HasBracePair(s: string) {
    exists i, j :: 0 <= i < j < |s| && s[i] == '{' && s[j] == '}'
  }

  /** `piece` sits in `text` at position `a`. */
  predicate OccursAt(piece: string, text: string, a: int) {
    0 <= a && a + |piece| <= |text| && text[a..a + |piece|] == piece
  }

  /** `extract_json`: the greedy match of `\{[\s\S]*\}`, which runs from the
      first '{' to the last '}', or the whole text when there is no match. */
  function ExtractJson(text: string): (r: string)
    ensures !HasBracePair(text) ==> r == text
    ensures HasBracePair(text) ==>
      2 <= |r| && r[0] == '{' && r[|r| - 1] == '}' &&
      exists a :: OccursAt(r, text, a) &&
        (forall k :: 0 <= k < a ==> text[k] != '{') &&
        (forall k :: a + |r| <= k < |text| ==> text[k] != '}')
  {
    var open := FirstIndexOf(text, '{');
    var close := LastIndexOf(text, '}');
    if 0 <= open < close then
      assert OccursAt(text[open..close + 1], text, open);
      text[open..close + 1]
    else
      text
  }

  /** The extracted text is always a contiguous piece of the reply. */
  lemma ExtractJsonIsSubstring(text: string)
    ensures exists a :: OccursAt(ExtractJson(text), text, a)
  {
    if !HasBracePair(text) {
      assert ExtractJson(text) == text;
      assert OccursAt(text, text, 0);
    } else {
      var r := ExtractJson(text);
      var a :| OccursAt(r, text, a);
    }
  }

  /** Extracting from an extracted reply changes nothing. */
  lemma ExtractJsonIdempotent(text: string)
    ensures ExtractJson(ExtractJson(text)) == ExtractJson(text)
  {
    var r := ExtractJson(text);
    if HasBracePair(text) {
      assert HasBracePair(r) by { assert r[0] == '{' && r[|r| - 1] == '}'; }
      assert FirstIndexOf(r, '{') == 0;
      assert LastIndexOf(r, '}') == |r| - 1;
      assert r[0..|r| - 1 + 1] == r;
    }
  }

  /** An object between text without '{' and text without '}' is extracted
      exactly, whatever braces the object itself contains. */
  lemma ExtractJsonSurrounded(before: string, obj: string, after: string)
    requires forall k :: 0 <= k < |before| ==> before[k] != '{'
    requires forall k :: 0 <= k < |after| ==> after[k] != '}'
    requires 2 <= |obj| && obj[0] == '{' && obj[|obj| - 1] == '}'
    ensures ExtractJson(before + obj + after) == obj
  {
    var t := before + obj + after;
    var open, close := |before|, |before| + |obj| - 1;
    assert t[open] == '{' && t[close] == '}';
    forall k | 0 <= k < open ensures t[k] != '{' {
      assert t[k] == before[k];
    }
    forall k | close < k < |t| ensures t[k] != '}' {
      assert t[k] == after[k - close - 1];
    }
    assert FirstIndexOf(t, '{') == open;
    assert LastIndexOf(t, '}') == close;
    assert t[open..close + 1] == obj;
  }

  /** The body of the `try` in `scan_path` with its two handlers: call the
      model on the (already truncated) code, extract and decode the reply.
      A failed call and an undecodable reply both become a non-malicious
      dictionary with a fixed reason (fail-open); a decoded reply is passed
      on as it is. */
  function Interpret(code: string, classify: string -> CallResult, parse: string -> ParseOutcome): (reply: Reply)
    ensures classify(code).CallFailed? ==>
      reply == Object(Verdict(Some(CallFailedPrefix + classify(code).error), false))
    ensures classify(code).Replied? && parse(ExtractJson(classify(code).text)).DecodeError? ==>
      reply == Object(Verdict(Some(ParseFailedReason), false))
    ensures classify(code).Replied? && parse(ExtractJson(classify(code).text)).Decoded? ==>
      reply == parse(ExtractJson(classify(code).text)).reply
    ensures (reply.NonObject? || reply.verdict.isMalicious) ==>
      classify(code).Replied? && parse(ExtractJson(classify(code).text)) == Decoded(reply)
  {
    match classify(code)
    case CallFailed(e) => Object(Verdict(Some(CallFailedPrefix + e), false))
    case Replied(text) =>
      match parse(ExtractJson(text))
      case DecodeError => Object(Verdict(Some(ParseFailedReason), false))
      case Decoded(r) => r
  }

  /** A reply without braces that does not decode gives the fixed fallback. */
  lemma NoBracesFallsBack(code: string, classify: string -> CallResult, parse: string -> ParseOutcome)
    requires classify(code).Replied?
    requires forall k :: 0 <= k < |classify(code).text| ==> classify(code).text[k] != '{'
    requires parse(classify(code).text) == DecodeError
    ensures Interpret(code, classify, parse) == Object(Verdict(Some(ParseFailedReason), false))
  {
  }
}
