/**
 * The two command handlers that drive the core: `reXt.annotate` and
 * `reXt.showCodeReview`. Both clear the tracked decorations before anything
 * else, read the visible lines and, when a chat model is available, consume
 * its reply. Choosing the model and sending the request are host calls: the
 * model's availability and the reply's fragments are parameters.
 */
module Commands {
  import opened Wrappers
  import opened JsValues
  import opened VisibleCode
  import opened Decorations
  import opened AnnotationParser
  import opened ErrorCollector
  import opened ReviewPanel

  /**
   * `reXt.annotate`: every decoration tracked before is disposed once, the
   * host then holds exactly the decoration types this pass created, and
   * afterwards exactly the decorations this pass applied are tracked. When
   * reading the visible lines throws, or no model is available, none are.
   */
  method Annotate(registry: Registry, doc: seq<string>, start: nat, end: nat, modelAvailable: bool,
                  decode: string -> Option<JsonObject>, reply: seq<string>)
    requires registry.Valid()
    modifies registry
    ensures registry.Valid() && |old(registry.created)| <= |registry.created|
    ensures registry.created ==
      Cleared(old(registry.created), old(registry.active))
      + (if Readable(doc, start, end) && modelAvailable then NewTypes(Stream(doc, decode, "", reply).outcomes) else [])
    ensures forall i :: 0 <= i < |old(registry.active)| ==> registry.created[old(registry.active)[i]].disposals == 1
    ensures registry.active ==
      if Readable(doc, start, end) && modelAvailable
      then PlacedHandles(|old(registry.created)|, Stream(doc, decode, "", reply).outcomes)
      else []
  {
    registry.ClearAllDecorations();
    ghost var cleared := registry.created;
    var code := GetVisibleCodeWithLineNumbers(doc, start, end);
    if code.None? || !modelAvailable {
      assert cleared + [] == cleared;
      return;
    }
    ParseChatResponse(registry, doc, decode, reply);
    assert registry.created[..|cleared|] == cleared;
  }

  /**
   * `reXt.showCodeReview`: every tracked decoration is disposed once and no
   * longer tracked, and the panel shows the table of the errors collected
   * from the whole reply; no panel opens when reading the visible lines
   * throws or no model is available.
   */
  method ShowCodeReview(registry: Registry, doc: seq<string>, start: nat, end: nat, modelAvailable: bool,
                        decode: string -> Option<JsonObject>, reply: seq<string>)
    returns (panel: Option<string>)
    requires registry.Valid()
    modifies registry
    ensures registry.Valid() && registry.active == []
    ensures registry.created == Cleared(old(registry.created), old(registry.active))
    ensures panel ==
      if Readable(doc, start, end) && modelAvailable then Some(TableBody(Collect(decode, reply).errors)) else None
  {
    registry.ClearAllDecorations();
    var code := GetVisibleCodeWithLineNumbers(doc, start, end);
    if code.None? || !modelAvailable {
      return None;
    }
    var errors, errorSet := CollectErrors(decode, reply);
    panel := Some(TableBody(errors));
  }
}
