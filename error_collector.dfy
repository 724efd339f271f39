/**
 * The error collector of the `reXt.showCodeReview` command: after every
 * fragment of the reply, the whole accumulated text is split into lines and
 * every line that holds an error record is added to `errors`, unless a record
 * with the same `line:column:message` key was added before.
 */
module ErrorCollector {
  import opened Wrappers
  import opened Text
  import opened JsValues

  /**
   * The record a line contributes: its first character that is not
   * whitespace is '{', it decodes, and none of its `line`, `column` and
   * `message` is missing, `null`, `false`, `0` or empty.
   */
  function Record(decode: string -> Option<JsonObject>, line: string): (r: Option<JsonObject>)
    ensures r.Some? <==>
      && LeadsWith(line, '{') && decode(line).Some?
      && !Falsy(Get(decode(line).value, "line"))
      && !Falsy(Get(decode(line).value, "column"))
      && !Falsy(Get(decode(line).value, "message"))
    ensures r.Some? ==> r == decode(line)
  {
    TrimStartsWith(line, '{');
    if Trim(line) != "" && Trim(line)[0] == '{' then
      match decode(line)
      case None => None
      case Some(err) =>
        if Truthy(Get(err, "line")) && Truthy(Get(err, "column")) && Truthy(Get(err, "message")) then Some(err)
        else None
    else None
  }

  /** The deduplication key `${err.line}:${err.column}:${err.message}`. */
  function Key(err: JsonObject): string
  {
    Interpolate(Get(err, "line")) + ":" + Interpolate(Get(err, "column")) + ":" + Interpolate(Get(err, "message"))
  }

  /** The collector's state: the `errors` array and the `errorSet` of keys. */
  datatype Collected = Collected(errors: seq<JsonObject>, keys: set<string>)

  /** `errorSet` holds exactly the keys of `errors`, and no two errors share a key. */
  predicate Consistent(c: Collected)
  {
    var ks := Keys(c.errors);
    c.keys == (set k | k in ks) && Distinct(ks)
  }

  /** The keys of `errors`, in order. */
  function Keys(errors: seq<JsonObject>): seq<string>
  {
    seq(|errors|, i requires 0 <= i < |errors| => Key(errors[i]))
  }

  predicate Distinct(ks: seq<string>)
  {
    forall i, j :: 0 <= i < j < |ks| ==> ks[i] != ks[j]
  }

  lemma DistinctSnoc(ks: seq<string>, k: string)
    requires Distinct(ks) && k !in ks
    ensures Distinct(ks + [k]) && (set x | x in ks + [k]) == (set x | x in ks) + {k}
  {
  }

  /** The body of the inner loop for one line. */
  function ScanLine(decode: string -> Option<JsonObject>, c: Collected, line: string): Collected
  {
    match Record(decode, line)
    case None => c
    case Some(err) =>
      if Key(err) in c.keys then c else Collected(c.errors + [err], c.keys + {Key(err)})
  }

  /** The keys of the records among `lines`. */
  function LineKeys(decode: string -> Option<JsonObject>, lines: seq<string>): set<string>
  {
    if lines == [] then {}
    else
      var last := lines[|lines| - 1];
      LineKeys(decode, lines[..|lines| - 1]) + (if Record(decode, last).Some? then {Key(Record(decode, last).value)} else {})
  }

  /** The records among `lines`, in line order. */
  function LineRecords(decode: string -> Option<JsonObject>, lines: seq<string>): seq<JsonObject>
  {
    if lines == [] then []
    else
      var last := lines[|lines| - 1];
      LineRecords(decode, lines[..|lines| - 1]) + (if Record(decode, last).Some? then [Record(decode, last).value] else [])
  }

  /** Every record among `lines` is the record of one of them. */
  lemma {:induction false} LineRecordsFromLines(decode: string -> Option<JsonObject>, lines: seq<string>)
    ensures forall e :: e in LineRecords(decode, lines) ==> exists l :: l in lines && Record(decode, l) == Some(e)
  {
    if lines != [] {
      var init, last := lines[..|lines| - 1], lines[|lines| - 1];
      LineRecordsFromLines(decode, init);
      assert lines == init + [last];
    }
  }

  /**
   * The inner loop over `lines`: the key set grows by exactly the keys of the
   * records among the lines, the errors already collected stay, in order,
   * at the front, and the errors added are records of the lines, in line
   * order.
   */
  function ScanLines(decode: string -> Option<JsonObject>, c: Collected, lines: seq<string>): (r: Collected)
    ensures r.keys == c.keys + LineKeys(decode, lines)
    ensures c.errors <= r.errors
    ensures SubseqOf(r.errors[|c.errors|..], LineRecords(decode, lines))
    ensures Consistent(c) ==> Consistent(r)
  {
    if lines == [] then
      assert c.errors[|c.errors|..] == [];
      c
    else
      var init := lines[..|lines| - 1];
      var last := lines[|lines| - 1];
      var p := ScanLines(decode, c, init);
      var r := ScanLine(decode, p, last);
      ScanLineKeepsConsistent(decode, p, last);
      ScanLineAdds(decode, c, p, lines);
      r
  }

  /** Every error a scan adds is the record of one of the scanned lines. */
  lemma AddedFromLines(decode: string -> Option<JsonObject>, c: Collected, lines: seq<string>)
    ensures var r := ScanLines(decode, c, lines);
      forall e :: e in r.errors[|c.errors|..] ==> exists l :: l in lines && Record(decode, l) == Some(e)
  {
    var r := ScanLines(decode, c, lines);
    SubseqMembers(r.errors[|c.errors|..], LineRecords(decode, lines));
    LineRecordsFromLines(decode, lines);
  }

  /** The line scanned last adds its own record, if anything. */
  lemma ScanLineAdds(decode: string -> Option<JsonObject>, c: Collected, p: Collected, lines: seq<string>)
    requires lines != [] && c.errors <= p.errors
    requires SubseqOf(p.errors[|c.errors|..], LineRecords(decode, lines[..|lines| - 1]))
    ensures SubseqOf(ScanLine(decode, p, lines[|lines| - 1]).errors[|c.errors|..], LineRecords(decode, lines))
  {
    var last := lines[|lines| - 1];
    var before := LineRecords(decode, lines[..|lines| - 1]);
    var added := p.errors[|c.errors|..];
    var r := ScanLine(decode, p, last);
    var rec := Record(decode, last);
    assert LineRecords(decode, lines) == before + (if rec.Some? then [rec.value] else []);
    if rec.None? || Key(rec.value) in p.keys {
      assert r.errors[|c.errors|..] == added;
      if rec.None? {
        assert before + [] == before;
      } else {
        SubseqGrows(added, before, rec.value);
      }
    } else {
      assert r.errors == p.errors + [rec.value];
      DropSnoc(p.errors, |c.errors|, rec.value);
      SubseqSnoc(added, before, rec.value);
    }
  }

  lemma ScanLineKeepsConsistent(decode: string -> Option<JsonObject>, c: Collected, line: string)
    ensures Consistent(c) ==> Consistent(ScanLine(decode, c, line))
  {
    if Consistent(c) && Record(decode, line).Some? && Key(Record(decode, line).value) !in c.keys {
      AddKeepsConsistent(c, Record(decode, line).value);
    }
  }

  lemma AddKeepsConsistent(c: Collected, err: JsonObject)
    requires Consistent(c) && Key(err) !in c.keys
    ensures Consistent(Collected(c.errors + [err], c.keys + {Key(err)}))
  {
    var es := c.errors + [err];
    assert Keys(es) == Keys(c.errors) + [Key(err)];
    DistinctSnoc(Keys(c.errors), Key(err));
  }

  /**
   * The collector's state after every fragment of `fragments`, each of which
   * re-scans the whole text received so far.
   */
  function Collect(decode: string -> Option<JsonObject>, fragments: seq<string>): Collected
  {
    if fragments == [] then Collected([], {})
    else ScanLines(decode, Collect(decode, fragments[..|fragments| - 1]), Split(Concat(fragments), '\n'))
  }

  /**
   * The collection loop of `reXt.showCodeReview` (the reply stream is the
   * finite `fragments`; `decode` stands for `JSON.parse`).
   */
  method CollectErrors(decode: string -> Option<JsonObject>, fragments: seq<string>)
    returns (errors: seq<JsonObject>, errorSet: set<string>)
    ensures Collected(errors, errorSet) == Collect(decode, fragments)
    ensures Consistent(Collected(errors, errorSet))
  {
    errors, errorSet := [], {};
    var accumulated := "";
    for i := 0 to |fragments|
      invariant accumulated == Concat(fragments[..i])
      invariant Collected(errors, errorSet) == Collect(decode, fragments[..i])
    {
      CollectStep(decode, fragments, i);
      accumulated := accumulated + fragments[i];
      errors, errorSet := CollectLines(decode, errors, errorSet, Split(accumulated, '\n'));
    }
    assert fragments[..|fragments|] == fragments;
    CollectConsistent(decode, fragments);
  }

  /** One re-scan of the text received so far, line by line. */
  method CollectLines(decode: string -> Option<JsonObject>, errors: seq<JsonObject>, errorSet: set<string>, lines: seq<string>)
    returns (errors': seq<JsonObject>, errorSet': set<string>)
    ensures Collected(errors', errorSet') == ScanLines(decode, Collected(errors, errorSet), lines)
  {
    errors', errorSet' := errors, errorSet;
    for j := 0 to |lines|
      invariant Collected(errors', errorSet') == ScanLines(decode, Collected(errors, errorSet), lines[..j])
    {
      ScanLinesStep(decode, Collected(errors, errorSet), lines, j);
      errors', errorSet' := CollectLine(decode, errors', errorSet', lines[j]);
    }
    assert lines[..|lines|] == lines;
  }

  /** The `try` block for one line: keep the line's record unless its key is already known. */
  method CollectLine(decode: string -> Option<JsonObject>, errors: seq<JsonObject>, errorSet: set<string>, line: string)
    returns (errors': seq<JsonObject>, errorSet': set<string>)
    ensures Collected(errors', errorSet') == ScanLine(decode, Collected(errors, errorSet), line)
  {
    errors', errorSet' := errors, errorSet;
    if Trim(line) != "" && Trim(line)[0] == '{' {
      match decode(line) {
        case None =>
        case Some(err) =>
          if Truthy(Get(err, "line")) && Truthy(Get(err, "column")) && Truthy(Get(err, "message")) {
            var key := Key(err);
            if key !in errorSet {
              errors' := errors + [err];
              errorSet' := errorSet + {key};
            }
          }
      }
    }
  }

  lemma ScanLinesStep(decode: string -> Option<JsonObject>, c: Collected, lines: seq<string>, j: nat)
    requires j < |lines|
    ensures ScanLines(decode, c, lines[..j + 1]) == ScanLine(decode, ScanLines(decode, c, lines[..j]), lines[j])
  {
    assert lines[..j + 1][..j] == lines[..j];
  }

  lemma CollectStep(decode: string -> Option<JsonObject>, fragments: seq<string>, i: nat)
    requires i < |fragments|
    ensures Concat(fragments[..i + 1]) == Concat(fragments[..i]) + fragments[i]
    ensures Collect(decode, fragments[..i + 1])
         == ScanLines(decode, Collect(decode, fragments[..i]), Split(Concat(fragments[..i]) + fragments[i], '\n'))
  {
    assert fragments[..i + 1][..i] == fragments[..i];
  }

  /** After every fragment the collector is consistent. */
  lemma {:induction false} CollectConsistent(decode: string -> Option<JsonObject>, fragments: seq<string>)
    ensures Consistent(Collect(decode, fragments))
    decreases |fragments|
  {
    if fragments != [] {
      CollectConsistent(decode, fragments[..|fragments| - 1]);
    }
  }

  /** Earlier errors are never removed or reordered: the errors after a prefix of the reply lead the final ones. */
  lemma {:induction false} CollectGrows(decode: string -> Option<JsonObject>, fragments: seq<string>, i: nat)
    requires i <= |fragments|
    ensures Collect(decode, fragments[..i]).errors <= Collect(decode, fragments).errors
    decreases |fragments|
  {
    if i < |fragments| {
      var init := fragments[..|fragments| - 1];
      assert init[..i] == fragments[..i];
      CollectGrows(decode, init, i);
    } else {
      assert fragments[..i] == fragments;
    }
  }

  /** Lines whose records' keys are all known add nothing. */
  lemma {:induction false} ScanKnownLines(decode: string -> Option<JsonObject>, c: Collected, lines: seq<string>)
    requires LineKeys(decode, lines) <= c.keys
    ensures ScanLines(decode, c, lines) == c
    decreases |lines|
  {
    if lines != [] {
      ScanKnownLines(decode, c, lines[..|lines| - 1]);
    }
  }

  /** Re-scanning the same text adds nothing new. */
  lemma RescanAddsNothing(decode: string -> Option<JsonObject>, c: Collected, lines: seq<string>)
    ensures ScanLines(decode, ScanLines(decode, c, lines), lines) == ScanLines(decode, c, lines)
  {
    ScanKnownLines(decode, ScanLines(decode, c, lines), lines);
  }

  /**
   * When `line` and `column` are integers and `message` a string, equal keys
   * mean equal fields: the key's first two ':' are its separators.
   */
  lemma KeyInjective(a: JsonObject, b: JsonObject)
    requires "line" in a && a["line"].Num? && "column" in a && a["column"].Num? && "message" in a && a["message"].Str?
    requires "line" in b && b["line"].Num? && "column" in b && b["column"].Num? && "message" in b && b["message"].Str?
    ensures Key(a) == Key(b) <==> a["line"] == b["line"] && a["column"] == b["column"] && a["message"] == b["message"]
  {
    if Key(a) == Key(b) {
      var la, ca, ma := ToJsString(a["line"]), ToJsString(a["column"]), a["message"].s;
      var lb, cb, mb := ToJsString(b["line"]), ToJsString(b["column"]), b["message"].s;
      assert Key(a) == la + ":" + ca + ":" + ma && Key(b) == lb + ":" + cb + ":" + mb;
      NumStringHasNoColon(a["line"].n);
      NumStringHasNoColon(b["line"].n);
      NumStringHasNoColon(a["column"].n);
      NumStringHasNoColon(b["column"].n);
      SeqAssoc(la + ":", ca, ":");
      SeqAssoc(la + ":", ca + ":", ma);
      SeqAssoc(lb + ":", cb, ":");
      SeqAssoc(lb + ":", cb + ":", mb);
      SplitAtColon(la, ca + ":" + ma, lb, cb + ":" + mb);
      SplitAtColon(ca, ma, cb, mb);
      IntToStringInjective(a["line"].n, b["line"].n);
      IntToStringInjective(a["column"].n, b["column"].n);
    }
  }

  /** Two texts each led by a ':'-free part and a ':' split the same way. */
  lemma SplitAtColon(x: string, y: string, u: string, v: string)
    requires ':' !in x && ':' !in u
    requires x + ":" + y == u + ":" + v
    ensures x == u && y == v
  {
    var s := x + ":" + y;
    assert forall k :: 0 <= k < |x| ==> s[k] == x[k];
    assert forall k :: 0 <= k < |u| ==> s[k] == u[k];
    assert s[|x|] == ':' && s[|u|] == ':';
    assert |x| == |u|;
    assert x == s[..|x|] && u == s[..|u|];
    assert y == s[|x| + 1..] && v == s[|u| + 1..];
  }

  /** The key does not tell the number 3 from the string "3": the second record is dropped as a duplicate. */
  lemma KeyCollision()
    ensures var a := map["line" := Num(3), "column" := Num(1), "message" := Str("m")];
      var b := map["line" := Str("3"), "column" := Num(1), "message" := Str("m")];
      && a != b && Key(a) == Key(b)
      && ScanLine(line => if line == "{a}" then Some(a) else Some(b), Collected([a], {Key(a)}), "{b}") == Collected([a], {Key(a)})
  {
    var a := map["line" := Num(3), "column" := Num(1), "message" := Str("m")];
    assert a["line"] != Str("3");
    assert ToJsString(Num(3)) == "3";
    assert ToJsString(Num(1)) == "1";
  }
}
