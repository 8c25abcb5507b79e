/**
 * The pure logic of the AI service module: error classification, extraction
 * of JSON from a possibly fenced reply, the shape check on data-flow steps,
 * the row cap on chart prompts, and the markdown clean-up of explanations.
 *
 * The network call is an input: the reply text, or the value it threw.
 * `JSON.parse` is the parameter `parse`, a partial function from text to a
 * JSON value (`None` where it would throw).
 */
module GeminiService {
  import opened JsText

  datatype Option<T> = None | Some(value: T)
  datatype Result<T, E> = Ok(value: T) | Err(error: E)

  /** A JSON value as `JSON.parse` yields it; numbers are kept to integers. */
  datatype Json =
    | JNull
    | JBool(b: bool)
    | JNumber(n: int)
    | JString(s: string)
    | JArray(items: seq<Json>)
    | JObject(fields: seq<(string, Json)>)

  /** A thrown value: an `Error` (of any subclass) with its message, or anything else. */
  datatype Thrown = Error(message: string) | NonError

  const InvalidKeyMessage := "The provided API key is invalid. Please check your configuration."
  const QuotaMessage := "API quota exceeded. Please check your usage limits."
  const GenericMessage := "Failed to communicate with the AI due to an API error."
  // The two messages below are thrown by the service itself; they are split
  // so that the verifier can inspect their characters piece by piece.
  const InvalidStructureMessage := "The AI returned " + "an invalid data " + "structure. Please " + "try again."
  const UnexpectedFormatMessage := "AI response was " + "not in the " + "expected format."
  const KeyPhrase := "API key not valid"
  const QuotaPhrase := "quota"

  // ---------------------------------------------------------------------------
  // handleApiError

  /** `m` is one of the three messages `handleApiError` can give. */
  predicate IsHandlerMessage(m: string) {
    m == InvalidKeyMessage || m == QuotaMessage || m == GenericMessage
  }

  /** `handleApiError`: the user-facing error for whatever was thrown. */
  function HandleApiError(e: Thrown): (m: string)
    ensures IsHandlerMessage(m)
  {
    if e.Error? && Includes(e.message, KeyPhrase) then InvalidKeyMessage
    else if e.Error? && Includes(e.message, QuotaPhrase) then QuotaMessage
    else GenericMessage
  }

  /**
   * The classification, stated by where the phrases occur: the key phrase
   * wins even when "quota" occurs too; "quota" alone gives the quota message;
   * everything else, and every non-`Error`, gives the generic message.
   */
  lemma HandleApiErrorClassifies(e: Thrown)
    ensures HandleApiError(e) == InvalidKeyMessage <==>
      e.Error? && exists i :: OccursAt(e.message, KeyPhrase, i)
    ensures HandleApiError(e) == QuotaMessage <==>
      e.Error? && (forall i :: !OccursAt(e.message, KeyPhrase, i)) && exists i :: OccursAt(e.message, QuotaPhrase, i)
    ensures HandleApiError(e) == GenericMessage <==>
      e.NonError? || ((forall i :: !OccursAt(e.message, KeyPhrase, i)) && forall i :: !OccursAt(e.message, QuotaPhrase, i))
  {
  }

  /** A message with neither a `k` nor a `q` holds neither phrase. */
  lemma WithoutPhraseLetters(m: string)
    requires 'k' !in m && 'q' !in m
    ensures HandleApiError(Error(m)) == GenericMessage
  {
    assert KeyPhrase[4] == 'k' && QuotaPhrase[0] == 'q';
    MissingCharExcludes(m, KeyPhrase, 4);
    MissingCharExcludes(m, QuotaPhrase, 0);
  }

  /** The messages the service itself throws are reported as the generic message. */
  lemma InternalMessagesAreGeneric()
    ensures HandleApiError(Error(InvalidStructureMessage)) == GenericMessage
    ensures HandleApiError(Error(UnexpectedFormatMessage)) == GenericMessage
  {
    InvalidStructureLacksPhraseLetters();
    WithoutPhraseLetters(InvalidStructureMessage);
    UnexpectedFormatLacksPhraseLetters();
    WithoutPhraseLetters(UnexpectedFormatMessage);
  }

  lemma InvalidStructureLacksPhraseLetters()
    ensures 'k' !in InvalidStructureMessage && 'q' !in InvalidStructureMessage
  {
  }

  lemma UnexpectedFormatLacksPhraseLetters()
    ensures 'k' !in UnexpectedFormatMessage && 'q' !in UnexpectedFormatMessage
  {
  }

  // ---------------------------------------------------------------------------
  // parseJsonResponse

  const Fence := "```"

  /** The part of the text between the fences that follows the optional `json` tag. */
  function Untag(body: string): string {
    if StartsWith(body, "json") then body[4..] else body
  }

  /**
   * The capture group of the anchored, dot-all pattern
   * ^```(?:json)?\s*\n?(.*?)\n?\s*```$ on `s`, or `None` when it does not
   * match. The engine takes `json` whenever it can, lets the leading `\s*`
   * take all white space and keeps the lazy group as short as the trailing
   * white space allows: the group is the trimmed text between the fences.
   */
  function FenceCapture(s: string): (r: Option<string>)
    ensures r.Some? ==> IsTrimmed(r.value) && |r.value| + 6 <= |s|
  {
    if |s| < 6 || s[..3] != Fence || s[|s| - 3..] != Fence then None
    else Some(Trim(Untag(s[3..|s| - 3])))
  }

  /** One way the pattern can match `s`, with capture group `g`. */
  ghost predicate FenceSplit(s: string, tag: string, w1: string, g: string, w2: string) {
    s == Fence + (tag + w1 + g + w2) + Fence &&
    (tag == "" || tag == "json") && AllSpace(w1) && AllSpace(w2)
  }

  /** A text between fences is captured as its untagged, trimmed self. */
  lemma FenceCaptureOfFenced(body: string)
    ensures FenceCapture(Fence + body + Fence) == Some(Trim(Untag(body)))
  {
    var s := Fence + body + Fence;
    assert s[..3] == Fence;
    assert s[|s| - 3..] == Fence;
    assert s[3..|s| - 3] == body;
  }

  lemma Regroup(a: string, b: string, c: string, d: string)
    ensures a + b + c + d == a + (b + c + d)
  {
  }

  /** A capture is always a real match of the pattern, and it is trimmed. */
  lemma FenceCaptureSound(s: string)
    requires FenceCapture(s).Some?
    ensures IsTrimmed(FenceCapture(s).value)
    ensures exists tag, w1, w2 :: FenceSplit(s, tag, w1, FenceCapture(s).value, w2)
  {
    var body := Unfenced(s);
    var tag := TagOf(body);
    var rest := Untag(body);
    var g := Trim(rest);
    var w1, w2 := TrimSplits(rest);
    Regroup(tag, w1, g, w2);
    assert FenceSplit(s, tag, w1, g, w2);
  }

  /** A text the pattern can match is its inner part between two fences. */
  lemma Unfenced(s: string) returns (body: string)
    requires FenceCapture(s).Some?
    ensures s == Fence + body + Fence && FenceCapture(s).value == Trim(Untag(body))
  {
    body := s[3..|s| - 3];
    assert s == s[..3] + body + s[|s| - 3..];
  }

  /** The optional tag that `Untag` removes. */
  lemma TagOf(body: string) returns (tag: string)
    ensures (tag == "" || tag == "json") && body == tag + Untag(body)
  {
    tag := if StartsWith(body, "json") then "json" else "";
    if tag == "json" {
      assert body == body[..4] + body[4..];
    }
  }

  /** Whenever the pattern can match, `FenceCapture` reports a capture. */
  lemma FenceCaptureComplete(s: string, tag: string, w1: string, g: string, w2: string)
    requires FenceSplit(s, tag, w1, g, w2)
    ensures FenceCapture(s).Some?
  {
    FenceCaptureOfFenced(tag + w1 + g + w2);
  }

  /**
   * Fencing a trimmed text and capturing gives the text back, as long as the
   * optional `json` tag is not left to be read as the start of the text.
   */
  lemma FenceRoundTrip(tag: string, w1: string, g: string, w2: string)
    requires tag == "" || tag == "json"
    requires AllSpace(w1) && IsTrimmed(g) && AllSpace(w2)
    requires tag == "" ==> !StartsWith(w1 + g + w2, "json")
    ensures FenceCapture(Fence + (tag + w1 + g + w2) + Fence) == Some(g)
  {
    var inner := w1 + g + w2;
    Regroup(tag, w1, g, w2);
    UntagTagged(tag, inner);
    FenceCaptureOfFenced(tag + inner);
    TrimUnpads(w1, g, w2);
  }

  /** `Untag` removes exactly the tag a text was given. */
  lemma UntagTagged(tag: string, inner: string)
    requires tag == "" || tag == "json"
    requires tag == "" ==> !StartsWith(inner, "json")
    ensures Untag(tag + inner) == inner
  {
    if tag == "json" {
      assert (tag + inner)[..4] == "json" && (tag + inner)[4..] == inner;
    } else {
      assert tag + inner == inner;
    }
  }

  /**
   * The text `parseJsonResponse` hands to `JSON.parse`: the non-empty capture
   * of the fence around the trimmed reply when there is one, and otherwise
   * the trimmed reply itself. Either way it never starts or ends with white
   * space.
   */
  function JsonPayload(text: string): (p: string)
    ensures IsTrimmed(p)
    ensures FenceCapture(Trim(text)).Some? && FenceCapture(Trim(text)).value != [] ==>
      p == FenceCapture(Trim(text)).value
    ensures FenceCapture(Trim(text)).None? || FenceCapture(Trim(text)).value == [] ==> p == Trim(text)
  {
    var t := Trim(text);
    match FenceCapture(t)
    case Some(g) =>
      TrimIdentity(g);
      if g != [] then Trim(g) else t
    case None => t
  }

  /**
   * A reply wrapped in a fence, tagged `json` or not, with any white space
   * inside the fences and any padding outside them, yields exactly its body.
   */
  lemma FencedReplyYieldsBody(w: string, tag: string, w1: string, body: string, w2: string, w': string)
    requires AllSpace(w) && AllSpace(w') && (tag == "" || tag == "json")
    requires AllSpace(w1) && IsTrimmed(body) && AllSpace(w2) && body != []
    requires tag == "" ==> !StartsWith(w1 + body + w2, "json")
    ensures JsonPayload(w + (Fence + (tag + w1 + body + w2) + Fence) + w') == body
  {
    var fenced := Fence + (tag + w1 + body + w2) + Fence;
    FenceTrimmed(tag + w1 + body + w2);
    TrimUnpads(w, fenced, w');
    FenceRoundTrip(tag, w1, body, w2);
  }

  lemma FenceTrimmed(inner: string)
    ensures IsTrimmed(Fence + inner + Fence)
  {
    var s := Fence + inner + Fence;
    assert s[0] == '`' && s[|s| - 1] == '`';
  }

  /** A reply that does not start with a fence is handed on only trimmed. */
  lemma UnfencedReplyOnlyTrimmed(text: string)
    requires !StartsWith(Trim(text), Fence)
    ensures JsonPayload(text) == Trim(text)
  {
  }

  /** A fence with nothing captured inside is handed on as the trimmed reply, fences and all. */
  lemma EmptyFenceOnlyTrimmed(tag: string, w: string)
    requires tag == "" || tag == "json"
    requires AllSpace(w)
    ensures JsonPayload(Fence + (tag + w) + Fence) == Fence + (tag + w) + Fence
  {
    var s := Fence + (tag + w) + Fence;
    assert tag + w == tag + w + [] + [];
    assert !StartsWith(w, "json") by {
      if |w| >= 4 {
        assert IsJsSpace(w[0]);
      }
    }
    FenceRoundTrip(tag, w, [], []);
    FenceTrimmed(tag + w);
    TrimIdentity(s);
  }

  /** `parseJsonResponse`: the parsed value, or the invalid-structure error. */
  function ParseJsonResponse(text: string, parse: string -> Option<Json>): (r: Result<Json, Thrown>)
    ensures r.Ok? <==> parse(JsonPayload(text)).Some?
    ensures r.Ok? ==> parse(JsonPayload(text)) == Some(r.value)
    ensures r.Err? ==> r.error == Error(InvalidStructureMessage)
  {
    match parse(JsonPayload(text))
    case Some(v) => Ok(v)
    case None => Err(Error(InvalidStructureMessage))
  }

  // ---------------------------------------------------------------------------
  // visualizeDataFlow

  /** The keys of an object's fields. */
  function Keys(fields: seq<(string, Json)>): set<string> {
    set k | 0 <= k < |fields| :: fields[k].0
  }

  /** An element of the shape a data-flow step must have. */
  predicate IsStep(item: Json) {
    item.JObject? && "description" in Keys(item.fields) && "code" in Keys(item.fields) &&
    "data" in Keys(item.fields)
  }

  /** The text JavaScript gives a primitive value when it turns it into a string. */
  function PrimitiveText(v: Json): string {
    match v
    case JNull => "null"
    case JBool(b) => if b then "true" else "false"
    case JNumber(n) => if n < 0 then "-" + NatText(-n) else NatText(n)
    case JString(s) => s
    case JArray(_) => ""
    case JObject(_) => ""
  }

  /** The decimal digits of `n`. */
  function NatText(n: nat): (t: string)
    ensures |t| > 0
  {
    var d := "0123456789"[n % 10];
    if n < 10 then [d] else NatText(n / 10) + [d]
  }

  /** The engine's `TypeError` message for `key in v` on a primitive `v`. */
  function InOperatorMessage(key: string, v: Json): string {
    "Cannot use 'in' operator " + "to search for '" + key + "' in " + PrimitiveText(v)
  }

  /**
   * The `every` callback, `'description' in item && 'code' in item &&
   * 'data' in item`: an object answers by its keys, an array has none of the
   * three, and on any other value the first `in` throws a `TypeError`.
   */
  function StepKeysPresent(item: Json): (r: Result<bool, Thrown>)
    ensures r == Ok(true) <==> IsStep(item)
    ensures r.Err? <==> !item.JObject? && !item.JArray?
  {
    match item
    case JObject(fields) => Ok(IsStep(item))
    case JArray(_) => Ok(false)
    case _ => Err(Error(InOperatorMessage("description", item)))
  }

  /**
   * `items.every(callback)`: stops at the first `false` or the first throw.
   * It holds exactly when every element is a step; the empty array passes.
   */
  function EveryStep(items: seq<Json>): (r: Result<bool, Thrown>)
    ensures r == Ok(true) <==> forall k :: 0 <= k < |items| ==> IsStep(items[k])
  {
    if items == [] then Ok(true)
    else match StepKeysPresent(items[0])
      case Err(e) => Err(e)
      case Ok(b) =>
        if b then
          assert forall k :: 1 <= k < |items| ==> items[k] == items[1..][k - 1];
          EveryStep(items[1..])
        else Ok(false)
  }

  /** `every` throws only at an element that is neither an object nor an array. */
  lemma {:induction false} EveryStepThrows(items: seq<Json>) returns (k: nat)
    requires EveryStep(items).Err?
    ensures k < |items| && !items[k].JObject? && !items[k].JArray?
    ensures forall m :: 0 <= m < k ==> IsStep(items[m])
    ensures EveryStep(items).error == Error(InOperatorMessage("description", items[k]))
  {
    if StepKeysPresent(items[0]).Err? {
      k := 0;
    } else {
      var j := EveryStepThrows(items[1..]);
      k := j + 1;
    }
  }

  /**
   * Conversely, when the first element that is not a step is neither an
   * object nor an array, `every` throws the `in` error for that element.
   */
  lemma {:induction false} EveryStepThrowsAt(items: seq<Json>, k: nat)
    requires k < |items| && !items[k].JObject? && !items[k].JArray?
    requires forall m :: 0 <= m < k ==> IsStep(items[m])
    ensures EveryStep(items) == Err(Error(InOperatorMessage("description", items[k])))
    decreases k
  {
    if k > 0 {
      EveryStepThrowsAt(items[1..], k - 1);
    }
  }


  /**
   * `visualizeDataFlow` after the network call: the reply is parsed and
   * shape-checked, and everything thrown on the way, including by the
   * network call, reaches the caller through `handleApiError`.
   */
  function VisualizeDataFlow(reply: Result<string, Thrown>, parse: string -> Option<Json>): (r: Result<seq<Json>, string>)
    ensures r.Ok? ==> reply.Ok? && forall k :: 0 <= k < |r.value| ==> IsStep(r.value[k])
    ensures r.Err? ==> IsHandlerMessage(r.error)
    ensures reply.Err? ==> r == Err(HandleApiError(reply.error))
  {
    match reply
    case Err(e) => Err(HandleApiError(e))
    case Ok(text) =>
      match ParseJsonResponse(text, parse)
      case Err(e) => Err(HandleApiError(e))
      case Ok(v) =>
        if !v.JArray? then Err(HandleApiError(Error(UnexpectedFormatMessage)))
        else match EveryStep(v.items)
          case Err(e) => Err(HandleApiError(e))
          case Ok(b) => if b then Ok(v.items) else Err(HandleApiError(Error(UnexpectedFormatMessage)))
  }

  /** A reply is accepted exactly when it parses to an array of steps, which is returned. */
  lemma VisualizeDataFlowAccepts(text: string, parse: string -> Option<Json>)
    ensures VisualizeDataFlow(Ok(text), parse).Ok? <==>
      exists items :: parse(JsonPayload(text)) == Some(JArray(items)) &&
        forall k :: 0 <= k < |items| ==> IsStep(items[k])
    ensures VisualizeDataFlow(Ok(text), parse).Ok? ==>
      parse(JsonPayload(text)) == Some(JArray(VisualizeDataFlow(Ok(text), parse).value))
  {
    var p := parse(JsonPayload(text));
    var r := VisualizeDataFlow(Ok(text), parse);
    if p.Some? && p.value.JArray? {
      var items := p.value.items;
      assert ParseJsonResponse(text, parse) == Ok(JArray(items));
      if forall k :: 0 <= k < |items| ==> IsStep(items[k]) {
        assert r == Ok(items);
      } else {
        assert EveryStep(items) != Ok(true);
        assert r.Err?;
      }
    } else {
      assert r.Err?;
    }
  }

  /**
   * Every failure reaches the caller as one of the three handler messages, and
   * a reply that does not parse, is no array, or holds an object or array
   * lacking a key is reported as the generic message. Only the `TypeError` of
   * `in` can be reported otherwise, and then its message decided.
   */
  lemma VisualizeDataFlowFailures(text: string, parse: string -> Option<Json>)
    requires VisualizeDataFlow(Ok(text), parse).Err?
    ensures IsHandlerMessage(VisualizeDataFlow(Ok(text), parse).error)
    ensures var m := VisualizeDataFlow(Ok(text), parse).error;
      var p := parse(JsonPayload(text));
      m == GenericMessage ||
      (p.Some? && p.value.JArray? &&
       exists k :: 0 <= k < |p.value.items| && !p.value.items[k].JObject? && !p.value.items[k].JArray? &&
         (forall j :: 0 <= j < k ==> IsStep(p.value.items[j])) &&
         m == HandleApiError(Error(InOperatorMessage("description", p.value.items[k]))))
  {
    var p := parse(JsonPayload(text));
    if p.Some? && p.value.JArray? && EveryStep(p.value.items).Err? {
      var k := EveryStepThrows(p.value.items);
    } else {
      OtherDataFlowFailuresAreGeneric(text, parse);
    }
  }

  lemma OtherDataFlowFailuresAreGeneric(text: string, parse: string -> Option<Json>)
    requires VisualizeDataFlow(Ok(text), parse).Err?
    requires var p := parse(JsonPayload(text)); !(p.Some? && p.value.JArray? && EveryStep(p.value.items).Err?)
    ensures VisualizeDataFlow(Ok(text), parse).error == GenericMessage
  {
    InternalMessagesAreGeneric();
  }

  /**
   * A reply parsing to an array whose first element that is not a step is a
   * primitive reaches the caller as `handleApiError` of that element's `in`
   * error.
   */
  lemma FirstPrimitiveDecides(text: string, parse: string -> Option<Json>, k: nat)
    requires parse(JsonPayload(text)).Some? && parse(JsonPayload(text)).value.JArray?
    requires var items := parse(JsonPayload(text)).value.items;
      k < |items| && !items[k].JObject? && !items[k].JArray? && forall m :: 0 <= m < k ==> IsStep(items[m])
    ensures VisualizeDataFlow(Ok(text), parse) ==
      Err(HandleApiError(Error(InOperatorMessage("description", parse(JsonPayload(text)).value.items[k]))))
  {
    var items := parse(JsonPayload(text)).value.items;
    EveryStepThrowsAt(items, k);
    assert ParseJsonResponse(text, parse) == Ok(JArray(items));
  }

  /** A message with no `k` that holds "quota" reads as an exceeded quota. */
  lemma QuotaWithoutKeyLetter(m: string, i: int)
    requires 'k' !in m && OccursAt(m, QuotaPhrase, i)
    ensures HandleApiError(Error(m)) == QuotaMessage
  {
    assert KeyPhrase[4] == 'k';
    MissingCharExcludes(m, KeyPhrase, 4);
    OccurrenceIsIncluded(m, QuotaPhrase, i);
  }

  /** The `TypeError` raised for `'description' in "quota"` reads as an exceeded quota. */
  lemma QuotaTypeError()
    ensures HandleApiError(Error(InOperatorMessage("description", JString("quota")))) == QuotaMessage
  {
    var head := "Cannot use 'in' operator " + "to search for '" + "description" + "' in ";
    var m := head + QuotaPhrase;
    assert InOperatorMessage("description", JString("quota")) == m;
    assert 'k' !in head && 'k' !in QuotaPhrase;
    assert m[|head|..|head| + 5] == QuotaPhrase;
    QuotaWithoutKeyLetter(m, |head|);
  }

  /** A trimmed reply that does not open with a backtick is handed to `JSON.parse` as it is. */
  lemma PlainReplyUnchanged(text: string)
    requires IsTrimmed(text) && text != [] && text[0] != '`'
    ensures JsonPayload(text) == text
  {
    TrimIdentity(text);
    UnfencedReplyOnlyTrimmed(text);
  }

  /**
   * As written, a reply `["quota"]` is reported as an exceeded quota: the
   * `TypeError` for `'description' in "quota"` carries the word in its message.
   */
  lemma QuotaElementMisreported(parse: string -> Option<Json>)
    requires parse("[\"quota\"]") == Some(JArray([JString("quota")]))
    ensures VisualizeDataFlow(Ok("[\"quota\"]"), parse) == Err(QuotaMessage)
  {
    var text := "[\"quota\"]";
    assert text[0] == '[' && text[|text| - 1] == ']';
    PlainReplyUnchanged(text);
    var items := [JString("quota")];
    assert EveryStep(items) == Err(Error(InOperatorMessage("description", JString("quota"))));
    QuotaTypeError();
  }

  /**
   * As written, a reply `["API key not valid"]` is reported as an invalid
   * key: the `TypeError` for that string carries the key phrase.
   */
  lemma KeyElementMisreported(parse: string -> Option<Json>)
    requires parse("[\"API key not valid\"]") == Some(JArray([JString(KeyPhrase)]))
    ensures VisualizeDataFlow(Ok("[\"API key not valid\"]"), parse) == Err(InvalidKeyMessage)
  {
    var text := "[\"API key not valid\"]";
    assert text[0] == '[' && text[|text| - 1] == ']';
    PlainReplyUnchanged(text);
    FirstPrimitiveDecides(text, parse, 0);
    var head := "Cannot use 'in' operator " + "to search for '" + "description" + "' in ";
    var m := head + KeyPhrase;
    assert InOperatorMessage("description", JString(KeyPhrase)) == m;
    assert m[|head|..|head| + |KeyPhrase|] == KeyPhrase;
    OccurrenceIsIncluded(m, KeyPhrase, |head|);
  }

  /**
   * Order decides: in `[{}, "quota"]` the object lacking the keys stops
   * `every` before the primitive is reached, so the generic message results.
   */
  lemma ObjectBeforePrimitiveIsGeneric(parse: string -> Option<Json>)
    requires parse("[{}, \"quota\"]") == Some(JArray([JObject([]), JString("quota")]))
    ensures VisualizeDataFlow(Ok("[{}, \"quota\"]"), parse) == Err(GenericMessage)
  {
    var text := "[{}, \"quota\"]";
    assert text[0] == '[' && text[|text| - 1] == ']';
    PlainReplyUnchanged(text);
    assert Keys([]) == {};
    assert EveryStep([JObject([]), JString("quota")]) == Ok(false);
    InternalMessagesAreGeneric();
  }

  /**
   * The shape check without the throw: an element that is not an object
   * fails the check instead of raising a `TypeError`.
   */
  function AllSteps(items: seq<Json>): (b: bool)
    ensures EveryStep(items).Ok? ==> (b <==> EveryStep(items).value)
    ensures EveryStep(items).Err? ==> !b
  {
    forall k :: 0 <= k < |items| ==> IsStep(items[k])
  }

  /** `visualizeDataFlow` with the shape check that does not throw. */
  function VisualizeDataFlowChecked(reply: Result<string, Thrown>, parse: string -> Option<Json>): Result<seq<Json>, string> {
    match reply
    case Err(e) => Err(HandleApiError(e))
    case Ok(text) =>
      match ParseJsonResponse(text, parse)
      case Err(e) => Err(HandleApiError(e))
      case Ok(v) =>
        if v.JArray? && AllSteps(v.items) then Ok(v.items)
        else Err(HandleApiError(Error(UnexpectedFormatMessage)))
  }

  /**
   * With the checked shape test, no malformed reply reaches the caller as
   * anything but the generic message; accepted replies are the same as before.
   */
  lemma CheckedFailuresAreGeneric(reply: Result<string, Thrown>, parse: string -> Option<Json>)
    ensures reply.Ok? && VisualizeDataFlowChecked(reply, parse).Err? ==>
      VisualizeDataFlowChecked(reply, parse).error == GenericMessage
    ensures reply.Err? ==> VisualizeDataFlowChecked(reply, parse) == VisualizeDataFlow(reply, parse)
    ensures VisualizeDataFlowChecked(reply, parse).Ok? <==> VisualizeDataFlow(reply, parse).Ok?
    ensures VisualizeDataFlow(reply, parse).Ok? ==> VisualizeDataFlowChecked(reply, parse) == VisualizeDataFlow(reply, parse)
  {
    InternalMessagesAreGeneric();
    if reply.Ok? {
      var p := parse(JsonPayload(reply.value));
      var c := VisualizeDataFlowChecked(reply, parse);
      if p.Some? && p.value.JArray? {
        var items := p.value.items;
        assert ParseJsonResponse(reply.value, parse) == Ok(JArray(items));
        if AllSteps(items) {
          assert EveryStep(items) == Ok(true);
          assert c == Ok(items) == VisualizeDataFlow(reply, parse);
        } else {
          assert EveryStep(items) != Ok(true);
          assert c == Err(GenericMessage);
        }
      } else {
        assert c.Err? && VisualizeDataFlow(reply, parse).Err?;
      }
    }
  }

  // ---------------------------------------------------------------------------
  // generateChartConfig

  /** `data.slice(0, 20)`: the rows embedded in the chart prompt. */
  function ChartRows(data: seq<Json>): (rows: seq<Json>)
    ensures |rows| == if |data| < 20 then |data| else 20
    ensures rows == data[..|rows|]
  {
    if |data| <= 20 then data else data[..20]
  }

  /**
   * `generateChartConfig` with the network call as `ask`, which sees the rows
   * embedded in the prompt and the user's request.
   */
  function GenerateChartConfig(data: seq<Json>, prompt: string, ask: (seq<Json>, string) -> Result<string, Thrown>,
                               parse: string -> Option<Json>): (r: Result<Json, string>)
    ensures r.Ok? <==>
      ask(ChartRows(data), prompt).Ok? && parse(JsonPayload(ask(ChartRows(data), prompt).value)).Some?
    ensures r.Ok? ==> parse(JsonPayload(ask(ChartRows(data), prompt).value)) == Some(r.value)
    ensures r.Err? ==> IsHandlerMessage(r.error)
    ensures ask(ChartRows(data), prompt).Err? ==> r == Err(HandleApiError(ask(ChartRows(data), prompt).error))
  {
    match ask(ChartRows(data), prompt)
    case Err(e) => Err(HandleApiError(e))
    case Ok(text) =>
      match ParseJsonResponse(text, parse)
      case Ok(v) => Ok(v)
      case Err(e) => Err(HandleApiError(e))
  }

  /** Rows past the twentieth never influence the chart. */
  lemma ChartIgnoresRowsPastTwenty(data: seq<Json>, more: seq<Json>, prompt: string,
                                   ask: (seq<Json>, string) -> Result<string, Thrown>, parse: string -> Option<Json>)
    requires |data| >= 20
    ensures GenerateChartConfig(data + more, prompt, ask, parse) == GenerateChartConfig(data, prompt, ask, parse)
  {
    assert (data + more)[..20] == data[..20];
  }

  /** A reply that does not parse reaches the caller as the generic message. */
  lemma ChartParseFailureIsGeneric(data: seq<Json>, prompt: string,
                                   ask: (seq<Json>, string) -> Result<string, Thrown>, parse: string -> Option<Json>)
    requires ask(ChartRows(data), prompt).Ok?
    requires parse(JsonPayload(ask(ChartRows(data), prompt).value)).None?
    ensures GenerateChartConfig(data, prompt, ask, parse) == Err(GenericMessage)
  {
    InternalMessagesAreGeneric();
  }

  // ---------------------------------------------------------------------------
  // explainCode

  /**
   * `explainCode` after the network call: headings made plain, then bullets
   * made dashes. A reply always gives an explanation, never longer than the
   * reply and without any `"* "`; a failed call gives the handler's message
   * for what was thrown.
   */
  function ExplainCode(reply: Result<string, Thrown>): (r: Result<string, string>)
    ensures r.Ok? <==> reply.Ok?
    ensures reply.Ok? ==> r == Ok(ReplaceBullets(RewriteHeadings(reply.value)))
    ensures r.Ok? ==> |r.value| <= |reply.value| && forall i :: !OccursAt(r.value, "* ", i)
    ensures reply.Err? ==> r == Err(HandleApiError(reply.error))
    ensures r.Err? ==> IsHandlerMessage(r.error)
  {
    match reply
    case Err(e) => Err(HandleApiError(e))
    case Ok(text) =>
      NoBulletLeft(RewriteHeadings(text));
      Ok(ReplaceBullets(RewriteHeadings(text)))
  }

  /** A lone heading line `### X\n` is explained as `X\n\n` when `X` has no `*`. */
  lemma ExplainsHeadingLine(x: string)
    requires forall i :: 0 <= i < |x| ==> !IsLineTerminator(x[i]) && x[i] != '*'
    ensures ExplainCode(Ok("### " + x + "\n")) == Ok(x + "\n\n")
  {
    assert "### " + x + "\n" == "### " + x + "\n" + [];
    HeadingLineRewritten(x, []);
    assert x + "\n\n" + [] == x + "\n\n";
    var h := x + "\n\n";
    ReplaceBulletsPointwise(h);
    assert ReplaceBullets(h) == h;
  }
}
