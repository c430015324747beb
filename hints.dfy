/** The advice `main` of image-gen/generate.ts prints after a failed model call. The error
    message is tested for marker substrings in a fixed priority: an API-key problem first,
    then a missing model (`404` or `not found`), then a safety block (`SAFETY` or
    `blocked`). At most one hint is given, and none when no marker occurs. */
module Hints {
  import opened Wrappers
  import opened Text

  /** The model the not-found advice suggests instead (`--model gemini-2.5-flash-image`). */
  const FallbackModel: string := "gemini-2.5-flash-image"

  datatype Hint = CheckApiKey | ModelUnavailable | SafetyBlocked

  /** The `if` / `else if` chain of the catch block. A hint is given only when one of its
      markers occurs and none of a higher category's; none is given when no marker occurs. */
  function ClassifyHint(message: string): (r: Option<Hint>)
    ensures r.Some? ==> Mentions(message, r.value)
    ensures r == Some(ModelUnavailable) ==> !Mentions(message, CheckApiKey)
    ensures r == Some(SafetyBlocked) ==> !Mentions(message, CheckApiKey) && !Mentions(message, ModelUnavailable)
    ensures r.None? <==>
      !Mentions(message, CheckApiKey) && !Mentions(message, ModelUnavailable) && !Mentions(message, SafetyBlocked)
  {
    MentionsMarkers(message);
    if Contains(message, "API_KEY") then Some(CheckApiKey)
    else if Contains(message, "404") || Contains(message, "not found") then Some(ModelUnavailable)
    else if Contains(message, "SAFETY") || Contains(message, "blocked") then Some(SafetyBlocked)
    else None
  }

  // ----- An independent reference: marker table and priority list -----

  function Markers(h: Hint): seq<string> {
    match h
    case CheckApiKey => ["API_KEY"]
    case ModelUnavailable => ["404", "not found"]
    case SafetyBlocked => ["SAFETY", "blocked"]
  }

  const Priority: seq<Hint> := [CheckApiKey, ModelUnavailable, SafetyBlocked]

  predicate Mentions(message: string, h: Hint) {
    exists i :: 0 <= i < |Markers(h)| && Contains(message, Markers(h)[i])
  }

  /** The first hint of `hs` whose markers occur in the message. */
  function FirstMentioned(hs: seq<Hint>, message: string): Option<Hint>
    decreases |hs|
  {
    if |hs| == 0 then None
    else if Mentions(message, hs[0]) then Some(hs[0])
    else FirstMentioned(hs[1..], message)
  }

  lemma MentionsMarkers(message: string)
    ensures Mentions(message, CheckApiKey) <==> Contains(message, "API_KEY")
    ensures Mentions(message, ModelUnavailable) <==> Contains(message, "404") || Contains(message, "not found")
    ensures Mentions(message, SafetyBlocked) <==> Contains(message, "SAFETY") || Contains(message, "blocked")
  {
    assert Markers(CheckApiKey)[0] == "API_KEY";
    assert Markers(ModelUnavailable)[0] == "404" && Markers(ModelUnavailable)[1] == "not found";
    assert Markers(SafetyBlocked)[0] == "SAFETY" && Markers(SafetyBlocked)[1] == "blocked";
  }

  /** The hint is the first category, in priority order, whose markers occur in the message. */
  lemma ClassifyHintFollowsPriority(message: string)
    ensures ClassifyHint(message) == FirstMentioned(Priority, message)
  {
    MentionsMarkers(message);
    assert Priority[1..] == [ModelUnavailable, SafetyBlocked];
    assert Priority[1..][1..] == [SafetyBlocked];
    assert Priority[1..][1..][1..] == [];
  }

  /** A hint is given only when one of its markers occurs, and none of a higher-priority
      category does; no hint is given exactly when no marker occurs at all. */
  lemma ClassifyHintSound(message: string)
    ensures ClassifyHint(message) == Some(CheckApiKey) <==> Mentions(message, CheckApiKey)
    ensures ClassifyHint(message) == Some(ModelUnavailable) <==>
      !Mentions(message, CheckApiKey) && Mentions(message, ModelUnavailable)
    ensures ClassifyHint(message) == Some(SafetyBlocked) <==>
      !Mentions(message, CheckApiKey) && !Mentions(message, ModelUnavailable) && Mentions(message, SafetyBlocked)
    ensures ClassifyHint(message).None? <==> forall h: Hint :: !Mentions(message, h)
  {
    MentionsMarkers(message);
    if ClassifyHint(message).None? {
      forall h: Hint ensures !Mentions(message, h) {
        match h
        case CheckApiKey =>
        case ModelUnavailable =>
        case SafetyBlocked =>
      }
    }
  }

  /** Every message that mentions `404` but no API key gets the model-availability hint. */
  lemma NotFoundHint(message: string, i: nat)
    requires OccursAt(message, "404", i)
    requires !Contains(message, "API_KEY")
    ensures ClassifyHint(message) == Some(ModelUnavailable)
  {
  }
}
