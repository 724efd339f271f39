/**
 * The streaming annotation parser, `parseChatResponse`: fragments of the
 * model's reply are appended to a buffer; after each one, the prefix of the
 * buffer through its LAST '}' is decoded as one annotation record and, if the
 * decoration is applied, cut from the buffer. On any failure the buffer is
 * left as it is.
 */
module AnnotationParser {
  import opened Wrappers
  import opened Text
  import opened JsValues
  import opened Decorations

  /** One check of the buffer: the text cut from its front, what remains, and the `applyDecoration` call it made. */
  datatype Check = Check(consumed: string, buffer: string, outcome: Option<ApplyOutcome>)

  /** `potentialJson`: the buffer through its last '}', when it holds one. */
  function Candidate(buffer: string): (t: Option<string>)
    ensures t.None? <==> '}' !in buffer
    ensures t.Some? ==> 0 < |t.value| <= |buffer| && t.value == buffer[..|t.value|]
    ensures t.Some? ==> buffer[|t.value| - 1] == '}' && '}' !in buffer[|t.value|..]
  {
    var j := LastIndexOf(buffer, '}');
    if j == -1 then None else Some(buffer[..j + 1])
  }

  /**
   * The body of the fragment loop after `accumulatedResponse += fragment`:
   * `applyDecoration` is called exactly when the candidate decodes, with the
   * `line` and `suggestion` of the annotation it decodes to, and the
   * candidate is cut off exactly when that call placed the decoration.
   */
  function CheckBuffer(doc: seq<string>, decode: string -> Option<JsonObject>, buffer: string): (c: Check)
    ensures buffer == c.consumed + c.buffer
    ensures c.consumed != "" <==> (c.outcome.Some? && c.outcome.value.Placed?)
    ensures c.consumed != "" ==> IsRecord(decode, c.consumed) && '}' !in c.buffer
    ensures c.consumed != "" ==> c.consumed == Candidate(buffer).value && c.outcome == Some(ApplyRecord(doc, decode, c.consumed))
    ensures c.outcome.Some? <==> Candidate(buffer).Some? && decode(Candidate(buffer).value).Some?
    ensures c.outcome.Some? ==> c.outcome.value == ApplyRecord(doc, decode, Candidate(buffer).value)
    ensures '}' !in buffer ==> c == Check("", buffer, None)
  {
    match Candidate(buffer)
    case None => Check("", buffer, None)
    case Some(t) => CheckCandidate(doc, decode, buffer, |t| - 1)
  }

  /** The check of the candidate `buffer[..j + 1]`, where `j` is the last '}' of the buffer. */
  function CheckCandidate(doc: seq<string>, decode: string -> Option<JsonObject>, buffer: string, j: nat): (c: Check)
    requires j < |buffer| && buffer[j] == '}' && '}' !in buffer[j + 1..]
    ensures buffer == c.consumed + c.buffer
    ensures c.consumed != "" <==> (c.outcome.Some? && c.outcome.value.Placed?)
    ensures c.consumed != "" ==> IsRecord(decode, c.consumed) && '}' !in c.buffer && c.consumed == buffer[..j + 1]
    ensures c.outcome.Some? <==> decode(buffer[..j + 1]).Some?
    ensures c.outcome.Some? ==> c.outcome.value == ApplyRecord(doc, decode, buffer[..j + 1])
  {
    var candidate := buffer[..j + 1];
    assert buffer == candidate + buffer[j + 1..];
    match decode(candidate)
    case None => Check("", buffer, None)
    case Some(annotation) =>
      Cut(buffer, j, Apply(doc, Get(annotation, "line"), Get(annotation, "suggestion")))
  }

  /** A decoded candidate ending at `j`: cut off from the buffer exactly when its decoration was placed. */
  function Cut(buffer: string, j: nat, o: ApplyOutcome): (c: Check)
    requires j < |buffer|
    ensures c.outcome == Some(o)
  {
    if o.Placed? then Check(buffer[..j + 1], buffer[j + 1..], Some(o)) else Check("", buffer, Some(o))
  }

  /** The state after a run of fragments: the texts cut off, in order, the buffer, and every `applyDecoration` call. */
  datatype Pass = Pass(consumed: seq<string>, buffer: string, outcomes: seq<ApplyOutcome>)

  /**
   * The fragment loop started on `buffer`. Every fragment ends up, in arrival
   * order, either in a text that was cut off or in the remaining buffer; the
   * decorations placed are, in order, those of the annotations the cut-off
   * texts decode to.
   */
  function Stream(doc: seq<string>, decode: string -> Option<JsonObject>, buffer: string, fragments: seq<string>): (p: Pass)
    ensures Concat(p.consumed) + p.buffer == buffer + Concat(fragments)
    ensures forall i :: 0 <= i < |p.consumed| ==> IsRecord(decode, p.consumed[i])
    ensures PlacedOutcomes(p.outcomes) == AppliedRecords(doc, decode, p.consumed)
  {
    if fragments == [] then Pass([], buffer, [])
    else
      var p := Stream(doc, decode, buffer, fragments[..|fragments| - 1]);
      var c := CheckBuffer(doc, decode, p.buffer + fragments[|fragments| - 1]);
      var consumed := p.consumed + (if c.consumed == "" then [] else [c.consumed]);
      NextPass(decode, buffer, p.consumed, p.buffer, Concat(fragments[..|fragments| - 1]), fragments[|fragments| - 1],
               c.consumed, c.buffer);
      NextApplied(doc, decode, p.outcomes, c.outcome, p.consumed, c.consumed);
      Pass(consumed, c.buffer, Extend(p.outcomes, c.outcome))
  }

  /** One more check keeps the account of `Stream`: every character is cut off or still buffered, and every cut is a record. */
  lemma NextPass(decode: string -> Option<JsonObject>, start: string, before: seq<string>, buffer: string,
                 init: string, last: string, cut: string, rest: string)
    requires Concat(before) + buffer == start + init
    requires buffer + last == cut + rest
    requires forall i :: 0 <= i < |before| ==> IsRecord(decode, before[i])
    requires cut != "" ==> IsRecord(decode, cut)
    ensures var consumed := before + (if cut == "" then [] else [cut]);
      && Concat(consumed) + rest == start + (init + last)
      && forall i :: 0 <= i < |consumed| ==> IsRecord(decode, consumed[i])
  {
    var consumed := before + (if cut == "" then [] else [cut]);
    ConcatSnocIf(before, cut);
    RecordsSnoc(decode, before, cut);
    Account(Concat(consumed), Concat(before), buffer, init, last, init + last, cut, rest, start);
  }

  /** The `applyDecoration` calls among `outcomes` that placed their decoration, in order. */
  function PlacedOutcomes(outcomes: seq<ApplyOutcome>): seq<ApplyOutcome>
  {
    if outcomes == [] then []
    else
      var last := outcomes[|outcomes| - 1];
      PlacedOutcomes(outcomes[..|outcomes| - 1]) + (if last.Placed? then [last] else [])
  }

  /** The outcomes of applying, in order, the annotations the texts `records` decode to. */
  function AppliedRecords(doc: seq<string>, decode: string -> Option<JsonObject>, records: seq<string>): seq<ApplyOutcome>
  {
    if records == [] then []
    else
      var last := records[|records| - 1];
      AppliedRecords(doc, decode, records[..|records| - 1]) + (if decode(last).Some? then [ApplyRecord(doc, decode, last)] else [])
  }

  /** One more check keeps the placed decorations in step with the texts cut off. */
  lemma NextApplied(doc: seq<string>, decode: string -> Option<JsonObject>, outcomes: seq<ApplyOutcome>, o: Option<ApplyOutcome>,
                    before: seq<string>, cut: string)
    requires PlacedOutcomes(outcomes) == AppliedRecords(doc, decode, before)
    requires cut != "" <==> (o.Some? && o.value.Placed?)
    requires cut != "" ==> decode(cut).Some? && o == Some(ApplyRecord(doc, decode, cut))
    ensures PlacedOutcomes(Extend(outcomes, o)) == AppliedRecords(doc, decode, before + (if cut == "" then [] else [cut]))
  {
    if o.Some? {
      assert Extend(outcomes, o)[..|outcomes|] == outcomes;
    } else {
      assert Extend(outcomes, o) == outcomes;
    }
    if cut != "" {
      assert (before + [cut])[..|before|] == before;
    } else {
      assert before + [] == before;
    }
  }

  /** A text that was cut from the buffer: it ends with '}' and decodes. */
  predicate IsRecord(decode: string -> Option<JsonObject>, s: string)
  {
    s != "" && s[|s| - 1] == '}' && decode(s).Some?
  }

  lemma RecordsSnoc(decode: string -> Option<JsonObject>, xs: seq<string>, y: string)
    requires forall i :: 0 <= i < |xs| ==> IsRecord(decode, xs[i])
    requires y != "" ==> IsRecord(decode, y)
    ensures var ys := xs + (if y == "" then [] else [y]);
      forall i :: 0 <= i < |ys| ==> IsRecord(decode, ys[i])
  {
  }

  /** The bookkeeping step of `Stream`, over plain strings. */
  lemma Account(consumed: string, before: string, buffer: string, init: string, last: string, all: string,
                cut: string, rest: string, start: string)
    requires before + buffer == start + init
    requires buffer + last == cut + rest
    requires consumed == before + cut && all == init + last
    ensures consumed + rest == start + all
  {
    Regroup(before, buffer, cut, last, rest);
  }

  /** The decoration types a run of `applyDecoration` calls leaves with the host, in order. */
  function NewTypes(outcomes: seq<ApplyOutcome>): seq<DecorationType>
  {
    if outcomes == [] then []
    else NewTypes(outcomes[..|outcomes| - 1]) + CreatedBy(outcomes[|outcomes| - 1])
  }

  /** The handles pushed onto `activeDecorations` by a run of calls, the first new handle being `base`. */
  function PlacedHandles(base: nat, outcomes: seq<ApplyOutcome>): seq<nat>
  {
    if outcomes == [] then []
    else
      var init := outcomes[..|outcomes| - 1];
      var last := outcomes[|outcomes| - 1];
      PlacedHandles(base, init) + (if last.Placed? then [base + |NewTypes(init)|] else [])
  }

  /** The outcomes after one more check, which may or may not have called `applyDecoration`. */
  function Extend(outcomes: seq<ApplyOutcome>, o: Option<ApplyOutcome>): seq<ApplyOutcome>
  {
    outcomes + (if o.Some? then [o.value] else [])
  }

  lemma ExtendState(base: nat, outcomes: seq<ApplyOutcome>, o: Option<ApplyOutcome>)
    ensures o.None? ==> NewTypes(Extend(outcomes, o)) == NewTypes(outcomes)
    ensures o.None? ==> PlacedHandles(base, Extend(outcomes, o)) == PlacedHandles(base, outcomes)
    ensures o.Some? ==> NewTypes(Extend(outcomes, o)) == NewTypes(outcomes) + CreatedBy(o.value)
    ensures o.Some? ==>
      PlacedHandles(base, Extend(outcomes, o)) == PlacedHandles(base, outcomes) + (if o.value.Placed? then [base + |NewTypes(outcomes)|] else [])
  {
    if o.None? {
      assert Extend(outcomes, o) == outcomes;
    } else {
      assert Extend(outcomes, o)[..|outcomes|] == outcomes;
    }
  }

  /** The run over one more fragment is one more check. */
  lemma StreamStep(doc: seq<string>, decode: string -> Option<JsonObject>, fragments: seq<string>, i: nat)
    requires i < |fragments|
    ensures var before := Stream(doc, decode, "", fragments[..i]);
      var c := CheckBuffer(doc, decode, before.buffer + fragments[i]);
      && Stream(doc, decode, "", fragments[..i + 1]).buffer == c.buffer
      && Stream(doc, decode, "", fragments[..i + 1]).outcomes == Extend(before.outcomes, c.outcome)
  {
    var gs := fragments[..i + 1];
    assert gs[..|gs| - 1] == fragments[..i];
    StreamLast(doc, decode, "", gs);
  }

  /**
   * One check of the buffer with its effects: decode the candidate through
   * the last '}', apply it, track the handle and cut the buffer, or leave
   * everything as it is when decoding or applying fails.
   */
  method CheckAndApply(registry: Registry, doc: seq<string>, decode: string -> Option<JsonObject>, buffer: string)
    returns (rest: string)
    requires registry.Valid()
    modifies registry
    ensures registry.Valid()
    ensures rest == CheckBuffer(doc, decode, buffer).buffer
    ensures var o := CheckBuffer(doc, decode, buffer).outcome;
      && registry.created == old(registry.created) + (if o.Some? then CreatedBy(o.value) else [])
      && registry.active == old(registry.active) + (if o.Some? && o.value.Placed? then [|old(registry.created)|] else [])
  {
    rest := buffer;
    var j := LastIndexOf(buffer, '}');
    if j != -1 {
      CheckAt(doc, decode, buffer, j);
      match decode(buffer[..j + 1]) {
        case None =>
          CheckUndecoded(doc, decode, buffer, j);
        case Some(annotation) =>
          CheckDecoded(doc, decode, buffer, j, annotation);
          rest := ApplyCandidate(registry, doc, buffer, j, annotation);
      }
    }
  }

  /** With a '}' in the buffer, the check is that of the candidate through the last one. */
  lemma CheckAt(doc: seq<string>, decode: string -> Option<JsonObject>, buffer: string, j: int)
    requires j == LastIndexOf(buffer, '}') && j != -1
    ensures 0 <= j < |buffer| && buffer[j] == '}' && '}' !in buffer[j + 1..]
    ensures CheckBuffer(doc, decode, buffer) == CheckCandidate(doc, decode, buffer, j)
  {
  }

  /** A candidate that does not decode changes nothing. */
  lemma CheckUndecoded(doc: seq<string>, decode: string -> Option<JsonObject>, buffer: string, j: nat)
    requires j < |buffer| && buffer[j] == '}' && '}' !in buffer[j + 1..]
    requires decode(buffer[..j + 1]).None?
    ensures CheckCandidate(doc, decode, buffer, j) == Check("", buffer, None)
  {
  }

  /** Applies a decoded candidate, tracks its handle and cuts the buffer when it was placed. */
  method ApplyCandidate(registry: Registry, doc: seq<string>, buffer: string, j: nat, annotation: JsonObject)
    returns (rest: string)
    requires registry.Valid() && j < |buffer|
    modifies registry
    ensures registry.Valid()
    ensures var o := Apply(doc, Get(annotation, "line"), Get(annotation, "suggestion"));
      && rest == Cut(buffer, j, o).buffer
      && registry.created == old(registry.created) + CreatedBy(o)
      && registry.active == old(registry.active) + (if o.Placed? then [|old(registry.created)|] else [])
  {
    rest := buffer;
    var h := registry.ApplyDecoration(doc, Get(annotation, "line"), Get(annotation, "suggestion"));
    if h.Some? {
      registry.Track(h.value);
      rest := buffer[j + 1..];
    }
  }

  /** The check of a buffer whose candidate decodes to `annotation`. */
  lemma CheckDecoded(doc: seq<string>, decode: string -> Option<JsonObject>, buffer: string, j: nat, annotation: JsonObject)
    requires j < |buffer| && buffer[j] == '}' && '}' !in buffer[j + 1..]
    requires decode(buffer[..j + 1]) == Some(annotation)
    ensures CheckCandidate(doc, decode, buffer, j)
         == Cut(buffer, j, Apply(doc, Get(annotation, "line"), Get(annotation, "suggestion")))
  {
  }

  /**
   * `parseChatResponse` over the finite fragment stream: every decoration
   * type it creates and every handle it tracks is the one `Stream` predicts,
   * one handle per applied annotation, and nothing tracked before is touched.
   */
  method ParseChatResponse(registry: Registry, doc: seq<string>, decode: string -> Option<JsonObject>, fragments: seq<string>)
    requires registry.Valid()
    modifies registry
    ensures registry.Valid()
    ensures Effects(old(registry.created), old(registry.active), Stream(doc, decode, "", fragments).outcomes,
                    registry.created, registry.active)
  {
    var buffer := "";
    ghost var created0, active0 := registry.created, registry.active;
    ghost var outcomes: seq<ApplyOutcome> := [];
    for i := 0 to |fragments|
      invariant registry.Valid()
      invariant buffer == Stream(doc, decode, "", fragments[..i]).buffer
      invariant outcomes == Stream(doc, decode, "", fragments[..i]).outcomes
      invariant Effects(created0, active0, outcomes, registry.created, registry.active)
    {
      ghost var c := CheckBuffer(doc, decode, buffer + fragments[i]);
      ghost var created, active := registry.created, registry.active;
      StreamStep(doc, decode, fragments, i);
      buffer := buffer + fragments[i];
      buffer := CheckAndApply(registry, doc, decode, buffer);
      EffectsStep(created0, active0, outcomes, c.outcome, created, active, registry.created, registry.active);
      outcomes := Extend(outcomes, c.outcome);
    }
    assert fragments[..|fragments|] == fragments;
  }

  /** The host state after a run of `applyDecoration` calls that started from `created0` and `active0`. */
  ghost predicate Effects(created0: seq<DecorationType>, active0: seq<nat>, outcomes: seq<ApplyOutcome>,
                          created: seq<DecorationType>, active: seq<nat>)
  {
    && created == created0 + NewTypes(outcomes)
    && active == active0 + PlacedHandles(|created0|, outcomes)
  }

  /** One more check keeps the host state in step with the outcomes. */
  lemma EffectsStep(created0: seq<DecorationType>, active0: seq<nat>, outcomes: seq<ApplyOutcome>, o: Option<ApplyOutcome>,
                    created: seq<DecorationType>, active: seq<nat>, created': seq<DecorationType>, active': seq<nat>)
    requires Effects(created0, active0, outcomes, created, active)
    requires created' == created + (if o.Some? then CreatedBy(o.value) else [])
    requires active' == active + (if o.Some? && o.value.Placed? then [|created|] else [])
    ensures Effects(created0, active0, Extend(outcomes, o), created', active')
  {
    ExtendState(|created0|, outcomes, o);
    if o.Some? {
      SeqAssoc(created0, NewTypes(outcomes), CreatedBy(o.value));
      SeqAssoc(active0, PlacedHandles(|created0|, outcomes), if o.value.Placed? then [|created|] else []);
    }
  }

  /** Whether no text beginning with `c` decodes. */
  ghost predicate NeverDecodes(decode: string -> Option<JsonObject>, c: string)
  {
    forall t :: c <= t ==> decode(t).None?
  }

  /**
   * Once the candidate can no longer decode, the buffer is never cut again:
   * later '}'s only lengthen the candidate. This is what happens when one
   * check sees two complete records back to back, say "{...}{...}": a JSON
   * text holds a single value (section 2 of RFC 8259), so no text beginning
   * with both records decodes, and every later annotation is lost.
   */
  lemma {:induction false} StuckAfterUndecodable(doc: seq<string>, decode: string -> Option<JsonObject>,
                                                 c: string, buffer: string, fragments: seq<string>)
    requires c != "" && c[|c| - 1] == '}' && c <= buffer
    requires NeverDecodes(decode, c)
    ensures Stream(doc, decode, buffer, fragments) == Pass([], buffer + Concat(fragments), [])
    decreases |fragments|
  {
    if fragments != [] {
      var init := fragments[..|fragments| - 1];
      var last := fragments[|fragments| - 1];
      StuckAfterUndecodable(doc, decode, c, buffer, init);
      var b := buffer + Concat(init);
      PrefixGrows(c, b, last);
      CheckStuck(doc, decode, c, b + last);
      StreamQuiet(doc, decode, buffer, fragments);
    }
  }

  /**
   * A reply that reaches a stuck buffer part-way: from then on nothing is
   * cut and no decoration is applied, whatever the rest of the reply holds.
   */
  lemma StuckFromStart(doc: seq<string>, decode: string -> Option<JsonObject>, c: string,
                       xs: seq<string>, ys: seq<string>)
    requires var b := Stream(doc, decode, "", xs).buffer;
      c != "" && c[|c| - 1] == '}' && c <= b && NeverDecodes(decode, c)
    ensures var p := Stream(doc, decode, "", xs);
      Stream(doc, decode, "", xs + ys) == Pass(p.consumed, p.buffer + Concat(ys), p.outcomes)
  {
    var p := Stream(doc, decode, "", xs);
    StuckAfterUndecodable(doc, decode, c, p.buffer, ys);
    AppendQuiet(doc, decode, xs, ys);
  }

  /** A run over `ys` that changes nothing, after the run over `xs`, only lengthens the buffer. */
  lemma AppendQuiet(doc: seq<string>, decode: string -> Option<JsonObject>, xs: seq<string>, ys: seq<string>)
    requires var b := Stream(doc, decode, "", xs).buffer;
      Stream(doc, decode, b, ys) == Pass([], b + Concat(ys), [])
    ensures var p := Stream(doc, decode, "", xs);
      Stream(doc, decode, "", xs + ys) == Pass(p.consumed, p.buffer + Concat(ys), p.outcomes)
  {
    var p := Stream(doc, decode, "", xs);
    StreamAppend(doc, decode, "", xs, ys);
    assert p.consumed + [] == p.consumed && p.outcomes + [] == p.outcomes;
  }

  /** The run over `xs + ys` is the run over `ys` started where the run over `xs` left the buffer. */
  lemma {:induction false} StreamAppend(doc: seq<string>, decode: string -> Option<JsonObject>, buffer: string,
                                        xs: seq<string>, ys: seq<string>)
    ensures var p := Stream(doc, decode, buffer, xs);
      var q := Stream(doc, decode, p.buffer, ys);
      Stream(doc, decode, buffer, xs + ys) == Pass(p.consumed + q.consumed, q.buffer, p.outcomes + q.outcomes)
    decreases |ys|
  {
    var p := Stream(doc, decode, buffer, xs);
    if ys == [] {
      assert xs + ys == xs;
      assert p.consumed + [] == p.consumed && p.outcomes + [] == p.outcomes;
    } else {
      var init, last := ys[..|ys| - 1], ys[|ys| - 1];
      var zs := xs + ys;
      assert zs[..|zs| - 1] == xs + init && zs[|zs| - 1] == last;
      var q' := Stream(doc, decode, p.buffer, init);
      var r' := Stream(doc, decode, buffer, xs + init);
      assert r' == Pass(p.consumed + q'.consumed, q'.buffer, p.outcomes + q'.outcomes) by {
        StreamAppend(doc, decode, buffer, xs, init);
      }
      var c := CheckBuffer(doc, decode, q'.buffer + last);
      var cut := if c.consumed == "" then [] else [c.consumed];
      var o := if c.outcome.Some? then [c.outcome.value] else [];
      StreamLast(doc, decode, buffer, zs);
      StreamLast(doc, decode, p.buffer, ys);
      SeqAssoc(p.consumed, q'.consumed, cut);
      SeqAssoc(p.outcomes, q'.outcomes, o);
    }
  }

  /** `Stream` over a non-empty run is one more check after the run without its last fragment. */
  lemma StreamLast(doc: seq<string>, decode: string -> Option<JsonObject>, buffer: string, fragments: seq<string>)
    requires fragments != []
    ensures var before := Stream(doc, decode, buffer, fragments[..|fragments| - 1]);
      var c := CheckBuffer(doc, decode, before.buffer + fragments[|fragments| - 1]);
      Stream(doc, decode, buffer, fragments)
      == Pass(before.consumed + (if c.consumed == "" then [] else [c.consumed]), c.buffer, Extend(before.outcomes, c.outcome))
  {
  }

  /** A last fragment whose check changes nothing leaves a quiet stream quiet. */
  lemma StreamQuiet(doc: seq<string>, decode: string -> Option<JsonObject>, buffer: string, fragments: seq<string>)
    requires fragments != []
    requires var init := fragments[..|fragments| - 1];
      Stream(doc, decode, buffer, init) == Pass([], buffer + Concat(init), [])
    requires var b := buffer + Concat(fragments[..|fragments| - 1]) + fragments[|fragments| - 1];
      CheckBuffer(doc, decode, b) == Check("", b, None)
    ensures Stream(doc, decode, buffer, fragments) == Pass([], buffer + Concat(fragments), [])
  {
    var init, last := fragments[..|fragments| - 1], fragments[|fragments| - 1];
    Unsnoc(fragments);
    ConcatSnoc(init, last);
    SeqAssoc(buffer, Concat(init), last);
  }

  /** A check whose candidate begins with a never-decoding text changes nothing. */
  lemma CheckStuck(doc: seq<string>, decode: string -> Option<JsonObject>, c: string, b: string)
    requires c != "" && c[|c| - 1] == '}' && c <= b
    requires NeverDecodes(decode, c)
    ensures CheckBuffer(doc, decode, b) == Check("", b, None)
  {
    assert b[|c| - 1] == '}';
    LastIndexOfIsLast(b, '}', |c| - 1);
    var j := LastIndexOf(b, '}');
    CheckAt(doc, decode, b, j);
    UndecodedCandidate(decode, c, b, j + 1);
    CheckUndecoded(doc, decode, b, j);
  }

  /** Every candidate at least as long as a never-decoding prefix fails to decode. */
  lemma UndecodedCandidate(decode: string -> Option<JsonObject>, c: string, b: string, n: nat)
    requires NeverDecodes(decode, c)
    requires c <= b && |c| <= n <= |b|
    ensures decode(b[..n]).None?
  {
    assert c <= b[..n];
  }

  lemma PrefixGrows(c: string, b: string, x: string)
    requires c <= b
    ensures c <= b + x
  {
    assert (b + x)[..|b|] == b;
  }

  lemma {:induction false} ConcatPrefix(fragments: seq<string>, i: nat)
    requires i <= |fragments|
    ensures Concat(fragments[..i]) <= Concat(fragments)
    decreases |fragments|
  {
    if i < |fragments| {
      var init := fragments[..|fragments| - 1];
      assert fragments[..i] == init[..i];
      ConcatPrefix(init, i);
    } else {
      assert fragments[..i] == fragments;
    }
  }

  /**
   * A single record whose only '}' is its last character yields exactly one
   * applied annotation, however it is split into fragments, and leaves the
   * buffer empty.
   */
  lemma {:induction false} OneRecordAnySplit(doc: seq<string>, decode: string -> Option<JsonObject>, fragments: seq<string>)
    requires OneRecord(Concat(fragments))
    requires decode(Concat(fragments)).Some? && ApplyRecord(doc, decode, Concat(fragments)).Placed?
    ensures Stream(doc, decode, "", fragments) == Pass([Concat(fragments)], "", [ApplyRecord(doc, decode, Concat(fragments))])
  {
    PrefixRuns(doc, decode, fragments, |fragments|);
    assert fragments[..|fragments|] == fragments;
    var r := Concat(fragments);
    assert r[|r| - 1] == '}';
  }

  /** The outcome of applying the annotation `r` decodes to. */
  function ApplyRecord(doc: seq<string>, decode: string -> Option<JsonObject>, r: string): ApplyOutcome
    requires decode(r).Some?
  {
    Apply(doc, Get(decode(r).value, "line"), Get(decode(r).value, "suggestion"))
  }

  /** Where the run over the first `i` fragments stands, when they spell one record. */
  function RecordPrefixPass(doc: seq<string>, decode: string -> Option<JsonObject>, r: string, p: string): Pass
    requires decode(r).Some?
  {
    if '}' in p then Pass([r], "", [ApplyRecord(doc, decode, r)]) else Pass([], p, [])
  }

  lemma {:induction false} PrefixRuns(doc: seq<string>, decode: string -> Option<JsonObject>, fragments: seq<string>, i: nat)
    requires i <= |fragments|
    requires OneRecord(Concat(fragments))
    requires decode(Concat(fragments)).Some? && ApplyRecord(doc, decode, Concat(fragments)).Placed?
    ensures Stream(doc, decode, "", fragments[..i]) == RecordPrefixPass(doc, decode, Concat(fragments), Concat(fragments[..i]))
  {
    var r := Concat(fragments);
    if i > 0 {
      var gs := fragments[..i];
      var p := Concat(fragments[..i - 1]);
      assert gs[..|gs| - 1] == fragments[..i - 1];
      assert Stream(doc, decode, "", gs[..|gs| - 1]) == RecordPrefixPass(doc, decode, r, p) by {
        PrefixRuns(doc, decode, fragments, i - 1);
      }
      assert p <= r && p + gs[|gs| - 1] <= r && Concat(gs) == p + gs[|gs| - 1] by {
        ConcatPrefix(fragments, i);
        ConcatPrefix(fragments, i - 1);
      }
      PrefixStep(doc, decode, r, p, gs[|gs| - 1]);
      StreamLast(doc, decode, "", gs);
    } else {
      assert fragments[..0] == [];
    }
  }

  /** The record's only '}' is its last character. */
  predicate OneRecord(r: string)
  {
    r != [] && r[|r| - 1] == '}' && '}' !in r[..|r| - 1]
  }

  /** One more fragment of a record moves the run one step along `RecordPrefixPass`. */
  lemma PrefixStep(doc: seq<string>, decode: string -> Option<JsonObject>, r: string, p: string, f: string)
    requires OneRecord(r) && decode(r).Some? && ApplyRecord(doc, decode, r).Placed?
    requires p <= r && p + f <= r
    ensures var before := RecordPrefixPass(doc, decode, r, p);
      var c := CheckBuffer(doc, decode, before.buffer + f);
      Pass(before.consumed + (if c.consumed == "" then [] else [c.consumed]), c.buffer,
           before.outcomes + (if c.outcome.Some? then [c.outcome.value] else []))
      == RecordPrefixPass(doc, decode, r, p + f)
  {
    OnlyBraceAtEnd(r, p);
    OnlyBraceAtEnd(r, p + f);
    BraceStays(p, f);
    if '}' in p {
      assert |p + f| <= |r| == |p|;
      assert f == "" && "" + f == "";
    } else if '}' in p + f {
      assert p + f == r;
      CheckWholeRecord(doc, decode, r);
    }
  }

  lemma BraceStays(p: string, f: string)
    ensures '}' in p ==> '}' in p + f
  {
    assert forall k :: 0 <= k < |p| ==> (p + f)[k] == p[k];
  }

  /** A buffer holding exactly one record is cut down to nothing. */
  lemma CheckWholeRecord(doc: seq<string>, decode: string -> Option<JsonObject>, r: string)
    requires OneRecord(r) && decode(r).Some? && ApplyRecord(doc, decode, r).Placed?
    ensures CheckBuffer(doc, decode, r) == Check(r, "", Some(ApplyRecord(doc, decode, r)))
  {
    assert LastIndexOf(r, '}') == |r| - 1;
    assert r[..|r|] == r;
  }

  /** A prefix of the record that holds a '}' is the whole record. */
  lemma OnlyBraceAtEnd(r: string, t: string)
    requires OneRecord(r)
    requires t <= r
    ensures '}' in t ==> t == r
  {
    assert forall m :: 0 <= m < |t| && m < |r| - 1 ==> t[m] == r[..|r| - 1][m];
  }
}
