/**
 * The decoration lifecycle: `applyDecoration` (the trailing grey label at the
 * end of a line, with the full suggestion as hover text) and
 * `clearAllDecorations` over the global `activeDecorations` array.
 *
 * The editor host is modelled by the decoration types it has handed out
 * (`Registry.created`, indexed by handle), each with where it was attached
 * and how many times it was disposed.
 */
module Decorations {
  import opened Wrappers
  import opened Text
  import opened JsValues

  /** A zero-width range at (`line`, `character`), both 0-based, with its hover text. */
  datatype Placement = Placement(line: nat, character: nat, hover: string)

  /** A decoration type held by the host; `placement` is `None` until `setDecorations` attaches it. */
  datatype DecorationType = DecorationType(contentText: string, placement: Option<Placement>, disposals: nat)

  /** How one call of `applyDecoration` ends. */
  datatype ApplyOutcome =
    | NoSuggestion                          // `suggestion.substring` threw; nothing was created
    | LineOutOfRange(contentText: string)         // a type with this label was created, then `lineAt` threw
    | Placed(contentText: string, at: Placement)  // created, attached and returned

  /** The number of suggestion characters the label previews. */
  const PreviewLength: nat := 25

  /** The `after` content text: a space, the first 25 characters of the suggestion, and "...". */
  function ContentText(suggestion: string): (contentText: string)
    ensures |contentText| == 4 + (if |suggestion| < PreviewLength then |suggestion| else PreviewLength)
    ensures contentText[0] == ' ' && contentText[|contentText| - 3..] == "..."
    ensures contentText[1..|contentText| - 3] <= suggestion
    ensures |suggestion| <= PreviewLength ==> contentText[1..|contentText| - 3] == suggestion
  {
    " " + Prefix(suggestion, PreviewLength) + "..."
  }

  /** The 0-based line `lineAt(line - 1)` reads, or `None` where `lineAt` throws. */
  function TargetLine(doc: seq<string>, line: Option<Json>): (r: Option<nat>)
    ensures r.Some? <==> ToNumber(line).Some? && 1 <= ToNumber(line).value <= |doc|
    ensures r.Some? ==> r.value < |doc| && r.value + 1 == ToNumber(line).value
  {
    match ToNumber(line)
    case Some(n) => if 1 <= n <= |doc| then Some(n - 1) else None
    case None => None
  }

  /** What `applyDecoration(editor, line, suggestion)` does with the document `doc`. */
  function Apply(doc: seq<string>, line: Option<Json>, suggestion: Option<Json>): (r: ApplyOutcome)
    ensures r.NoSuggestion? <==> !(suggestion.Some? && suggestion.value.Str?)
    ensures r.Placed? ==>
      && r.at.line < |doc|
      && ToNumber(line) == Some(r.at.line + 1)
      && r.at.character == |doc[r.at.line]|
      && r.at.hover == suggestion.value.s
      && r.contentText == ContentText(r.at.hover)
    ensures r.LineOutOfRange? ==>
      && r.contentText == ContentText(suggestion.value.s)
      && (ToNumber(line).None? || ToNumber(line).value < 1 || ToNumber(line).value > |doc|)
  {
    if suggestion.None? || !suggestion.value.Str? then NoSuggestion
    else
      var contentText := ContentText(suggestion.value.s);
      match TargetLine(doc, line)
      case None => LineOutOfRange(contentText)
      case Some(i) => Placed(contentText, Placement(i, |doc[i]|, suggestion.value.s))
  }

  /**
   * `line - 1` coerces a string line to a number, so the line given as the
   * string "n" addresses the same document line as the number n.
   */
  lemma StringLineSameTarget(doc: seq<string>, n: nat)
    ensures TargetLine(doc, Some(Str(NatToString(n)))) == TargetLine(doc, Some(Num(n)))
  {
    NumberOfNatString(n);
    assert ToNumber(Some(Str(NatToString(n)))) == Some(n);
    assert ToNumber(Some(Num(n))) == Some(n);
  }

  /** The decoration types one call of `applyDecoration` leaves with the host. */
  function CreatedBy(o: ApplyOutcome): seq<DecorationType>
  {
    match o
    case NoSuggestion => []
    case LineOutOfRange(contentText) => [DecorationType(contentText, None, 0)]
    case Placed(contentText, at) => [DecorationType(contentText, Some(at), 0)]
  }

  /** The decoration types after `clearAllDecorations`: each handle in `active` disposed once more. */
  function Cleared(created: seq<DecorationType>, active: seq<nat>): seq<DecorationType>
  {
    seq(|created|, h requires 0 <= h < |created| =>
      created[h].(disposals := created[h].disposals + (if h in active then 1 else 0)))
  }

  class Registry {
    /** Every decoration type the host has created, indexed by handle. */
    var created: seq<DecorationType>
    /** `activeDecorations`: the handles the extension tracks, in push order. */
    var active: seq<nat>

    /** Tracked handles are live, distinct and undisposed; no handle is ever disposed twice. */
    ghost predicate Valid()
      reads this
    {
      && (forall i :: 0 <= i < |active| ==> active[i] < |created| && created[active[i]].disposals == 0)
      && (forall i, j :: 0 <= i < j < |active| ==> active[i] != active[j])
      && (forall h :: 0 <= h < |created| ==> created[h].disposals <= 1)
    }

    constructor ()
      ensures Valid() && created == [] && active == []
    {
      created, active := [], [];
    }

    /**
     * `applyDecoration`: builds the label (which throws unless the suggestion
     * is a string), creates the decoration type, reads the target line (which
     * throws when it does not exist) and attaches the type at its end.
     */
    method ApplyDecoration(doc: seq<string>, line: Option<Json>, suggestion: Option<Json>) returns (handle: Option<nat>)
      requires Valid()
      modifies this
      ensures Valid()
      ensures created == old(created) + CreatedBy(Apply(doc, line, suggestion))
      ensures active == old(active)
      ensures handle.Some? <==> Apply(doc, line, suggestion).Placed?
      ensures handle.Some? ==> handle.value == |old(created)|
    {
      if suggestion.None? || !suggestion.value.Str? {
        return None;
      }
      var contentText := ContentText(suggestion.value.s);
      var h := |created|;
      created := created + [DecorationType(contentText, None, 0)];
      var target := TargetLine(doc, line);
      if target.None? {
        return None;
      }
      var lineLength := |doc[target.value]|;
      created := created[h := created[h].(placement := Some(Placement(target.value, lineLength, suggestion.value.s)))];
      handle := Some(h);
    }

    /** `activeDecorations.push(decoration)` for a handle just returned by `ApplyDecoration`. */
    method Track(h: nat)
      requires Valid()
      requires h < |created| && created[h].disposals == 0 && h !in active
      modifies this
      ensures Valid()
      ensures created == old(created) && active == old(active) + [h]
    {
      active := active + [h];
    }

    /**
     * `clearAllDecorations`: disposes every tracked handle once, then empties
     * `activeDecorations`. Called again at once, it disposes nothing.
     */
    method ClearAllDecorations()
      requires Valid()
      modifies this
      ensures Valid() && active == []
      ensures created == Cleared(old(created), old(active))
    {
      var i := 0;
      while i < |active|
        invariant 0 <= i <= |active| && active == old(active)
        invariant |created| == |old(created)|
        invariant forall h :: 0 <= h < |created| ==>
          created[h] == old(created[h]).(disposals := old(created[h]).disposals + (if h in active[..i] then 1 else 0))
      {
        var h := active[i];
        assert h !in active[..i];
        assert forall g :: g in active[..i + 1] <==> g in active[..i] || g == h;
        created := created[h := created[h].(disposals := created[h].disposals + 1)];
        i := i + 1;
      }
      assert active[..i] == active;
      active := [];
      assert created == Cleared(old(created), old(active));
    }
  }
}
