/**
 * The error table of the code-review panel (`showReviewPanel`): one row per
 * collected error, its three cells holding `line`, `column` and `message` as
 * template-literal interpolation renders them, joined without separator and
 * placed inside the table's `<tbody>`.
 */
module ReviewPanel {
  import opened Wrappers
  import opened Text
  import opened JsValues

  /** The three cells of an error's row, in order: line, column, message. */
  function Cells(err: JsonObject): seq<string>
  {
    [Interpolate(Get(err, "line")), Interpolate(Get(err, "column")), Interpolate(Get(err, "message"))]
  }

  /** The fixed text of the row template before, between and after its cells. */
  const RowStart := "<tr>\n            <td>"
  const CellBreak := "</td>\n            <td>"
  const RowEnd := "</td>\n        </tr>"

  /** The row template of the `errors.map(...)` callback, cells inserted unescaped. */
  function Row(err: JsonObject): string
  {
    RowStart + Cells(err)[0] + CellBreak + Cells(err)[1] + CellBreak + Cells(err)[2] + RowEnd
  }

  function Rows(errors: seq<JsonObject>): seq<string>
  {
    seq(|errors|, i requires 0 <= i < |errors| => Row(errors[i]))
  }

  /** `errors.map(row).join('')`: empty exactly when there are no errors. */
  function ErrorRows(errors: seq<JsonObject>): (rows: string)
    ensures rows == "" <==> errors == []
  {
    var rs := Rows(errors);
    assert errors != [] ==> Concat(rs) == Concat(rs[..|rs| - 1]) + Row(errors[|errors| - 1]);
    Concat(rs)
  }

  /** The layout whitespace the panel's template puts after `<tbody>` and before `</tbody>`. */
  const Lead := "\n                    "
  const Trail := "\n                "

  /**
   * The `<tbody>` element of the panel's HTML: the rows appear verbatim
   * between its tags with only layout whitespace around them, so an empty
   * error list leaves the table body blank.
   */
  function TableBody(errors: seq<JsonObject>): (body: string)
    ensures |body| >= 15 && body[..7] == "<tbody>" && body[|body| - 8..] == "</tbody>"
    ensures Trim(body[7..|body| - 8]) == ErrorRows(errors)
  {
    var rows := ErrorRows(errors);
    Middle("<tbody>", Lead + rows + Trail, "</tbody>");
    PaddedRowsTrim(errors);
    "<tbody>" + (Lead + rows + Trail) + "</tbody>"
  }

  lemma Middle(x: string, m: string, y: string)
    ensures var s := x + m + y; s[..|x|] == x && s[|s| - |y|..] == y && s[|x|..|s| - |y|] == m
  {
  }

  lemma PaddedRowsTrim(errors: seq<JsonObject>)
    ensures Trim(Lead + ErrorRows(errors) + Trail) == ErrorRows(errors)
  {
    var rows := ErrorRows(errors);
    LayoutIsWhitespace();
    if rows == "" {
      BlankTrims(Lead, Trail);
      assert Lead + rows + Trail == Lead + Trail;
    } else {
      RowsAreTags(errors);
      TrimPadded(Lead, rows, Trail);
    }
  }

  lemma LayoutIsWhitespace()
    ensures forall i :: 0 <= i < |Lead| ==> IsWhitespace(Lead[i])
    ensures forall i :: 0 <= i < |Trail| ==> IsWhitespace(Trail[i])
  {
  }

  lemma BlankTrims(a: string, b: string)
    requires forall i :: 0 <= i < |a| ==> IsWhitespace(a[i])
    requires forall i :: 0 <= i < |b| ==> IsWhitespace(b[i])
    ensures Trim(a + b) == ""
  {
    assert forall i :: 0 <= i < |a + b| ==> IsWhitespace((a + b)[i]);
  }

  /** Joined rows start with '<' and end with '>'. */
  lemma RowsAreTags(errors: seq<JsonObject>)
    requires errors != []
    ensures var rows := ErrorRows(errors); rows[0] == '<' && rows[|rows| - 1] == '>'
  {
    var e := errors[0];
    ErrorRowsCons(errors);
    assert Row(e)[0] == '<';
    var last := errors[|errors| - 1];
    var rs := Rows(errors);
    assert ErrorRows(errors) == Concat(rs[..|rs| - 1]) + Row(last);
    assert Row(last)[|Row(last)| - 1] == '>';
  }

  /** The first row comes first. */
  lemma ErrorRowsCons(errors: seq<JsonObject>)
    requires errors != []
    ensures ErrorRows(errors) == Row(errors[0]) + ErrorRows(errors[1..])
  {
    assert Rows(errors) == [Row(errors[0])] + Rows(errors[1..]);
    ConcatCons(Row(errors[0]), Rows(errors[1..]));
  }

  /**
   * Reads one cell: the text up to the first '<', which must begin `after`;
   * gives the cell and what follows `after`.
   */
  function ReadCell(t: string, after: string): (r: Option<(string, string)>)
    ensures r.Some? ==> |r.value.1| <= |t|
  {
    if '<' !in t then None
    else
      var i := IndexOf(t, '<');
      if after <= t[i..] then Some((t[..i], t[i + |after|..])) else None
  }

  /** Reads text laid out as rows of the panel back into their cells; `None` when it is not such rows. */
  function ReadRows(html: string): Option<seq<seq<string>>>
    decreases |html|
  {
    if html == "" then Some([])
    else if !(RowStart <= html) then None
    else
      match ReadCell(html[|RowStart|..], CellBreak)
      case None => None
      case Some((line, t1)) =>
        match ReadCell(t1, CellBreak)
        case None => None
        case Some((column, t2)) =>
          match ReadCell(t2, RowEnd)
          case None => None
          case Some((message, rest)) =>
            match ReadRows(rest)
            case None => None
            case Some(rows) => Some([[line, column, message]] + rows)
  }

  /** No cell of any error holds a '<'. */
  predicate TagFree(errors: seq<JsonObject>)
  {
    forall i, k :: 0 <= i < |errors| && 0 <= k < 3 ==> '<' !in Cells(errors[i])[k]
  }

  /** The cells of every error, in the order of the list. */
  function AllCells(errors: seq<JsonObject>): seq<seq<string>>
  {
    if errors == [] then [] else [Cells(errors[0])] + AllCells(errors[1..])
  }

  /**
   * When no cell holds a '<', the rows read back as exactly one row per
   * error, in the order of the list, each with the three cells line, column
   * and message, the message verbatim.
   */
  lemma {:induction false} RowsReadBack(errors: seq<JsonObject>)
    requires TagFree(errors)
    ensures ReadRows(ErrorRows(errors)) == Some(AllCells(errors))
    decreases |errors|
  {
    if errors != [] {
      var e := errors[0];
      var rest := errors[1..];
      assert TagFree(rest) by {
        assert forall i :: 0 <= i < |rest| ==> rest[i] == errors[i + 1];
      }
      RowsReadBack(rest);
      ErrorRowsCons(errors);
      assert forall k :: 0 <= k < 3 ==> '<' !in Cells(e)[k] by {
        assert errors[0] == e;
      }
      ReadRow(e, ErrorRows(rest));
    }
  }

  /** One row followed by `rest` reads as its cells followed by whatever `rest` reads as. */
  lemma ReadRow(e: JsonObject, rest: string)
    requires forall k :: 0 <= k < 3 ==> '<' !in Cells(e)[k]
    ensures ReadRows(Row(e) + rest) ==
      match ReadRows(rest)
      case None => None
      case Some(rows) => Some([Cells(e)] + rows)
  {
    RowCells(e, rest);
  }

  /** The three cells of a row, each read up to the text that follows it in the template. */
  lemma RowCells(e: JsonObject, rest: string)
    requires forall k :: 0 <= k < 3 ==> '<' !in Cells(e)[k]
    ensures var c0, c1, c2 := Cells(e)[0], Cells(e)[1], Cells(e)[2];
      var html := Row(e) + rest;
      && html != "" && RowStart <= html
      && ReadCell(html[|RowStart|..], CellBreak) == Some((c0, c1 + CellBreak + (c2 + RowEnd + rest)))
      && ReadCell(c1 + CellBreak + (c2 + RowEnd + rest), CellBreak) == Some((c1, c2 + RowEnd + rest))
      && ReadCell(c2 + RowEnd + rest, RowEnd) == Some((c2, rest))
  {
    var c0, c1, c2 := Cells(e)[0], Cells(e)[1], Cells(e)[2];
    var t2 := c2 + RowEnd + rest;
    var t1 := c1 + CellBreak + t2;
    var t0 := c0 + CellBreak + t1;
    RowRegroup(c0, c1, c2, rest);
    PrefixDrop(RowStart, t0);
    LayoutMarks();
    ReadCellOf(c0, CellBreak, t1);
    ReadCellOf(c1, CellBreak, t2);
    ReadCellOf(c2, RowEnd, rest);
  }

  /** A row followed by more text, regrouped around its cells. */
  lemma RowRegroup(c0: string, c1: string, c2: string, rest: string)
    ensures RowStart + c0 + CellBreak + c1 + CellBreak + c2 + RowEnd + rest
         == RowStart + (c0 + CellBreak + (c1 + CellBreak + (c2 + RowEnd + rest)))
  {
    SeqAssoc(c2, RowEnd, rest);
    SeqAssoc(c1 + CellBreak, c2 + RowEnd, rest);
    SeqAssoc(c1, CellBreak, c2 + RowEnd + rest);
  }

  /** The second character of each tag break, which tells a closing tag from any other. */
  lemma LayoutMarks()
    ensures CellBreak[0] == '<' && CellBreak[1] == '/'
    ensures RowEnd[0] == '<' && RowEnd[1] == '/'
  {
  }

  lemma PrefixDrop(p: string, t: string)
    ensures p <= p + t && (p + t)[|p|..] == t
  {
  }

  lemma ReadCellOf(c: string, after: string, rest: string)
    requires '<' !in c && after != [] && after[0] == '<'
    ensures ReadCell(c + after + rest, after) == Some((c, rest))
  {
    var t := c + after + rest;
    assert t[|c|] == '<';
    assert forall j :: 0 <= j < |c| ==> t[j] == c[j];
    var i := IndexOf(t, '<');
    assert i == |c|;
    assert t[..i] == c;
    assert t[i..] == after + rest;
    PrefixDrop(after, rest);
    assert t[i + |after|..] == rest;
  }

  /**
   * A '<' in a message is markup, not text: with the message "<b>" the row
   * no longer reads back.
   */
  lemma MarkupInMessage(e: JsonObject)
    requires '<' !in Cells(e)[0] && '<' !in Cells(e)[1]
    requires Get(e, "message") == Some(Str("<b>"))
    ensures ReadRows(ErrorRows([e])) == None
  {
    ErrorRowsCons([e]);
    assert [e][1..] == [];
    assert Row(e) + "" == Row(e);
    assert Cells(e)[2] == "<b>";
    OpenTagCell();
    RowWithBadMessage(e, "");
  }

  /** A message cell "<b>" is not followed by the row's closing text. */
  lemma OpenTagCell()
    ensures ReadCell("<b>" + RowEnd + "", RowEnd) == None
  {
    var t := "<b>" + RowEnd + "";
    assert t[0] == '<' && t[1] == 'b';
    assert IndexOf(t, '<') == 0;
    LayoutMarks();
  }

  /** A row whose message cell does not read back does not read back. */
  lemma RowWithBadMessage(e: JsonObject, rest: string)
    requires '<' !in Cells(e)[0] && '<' !in Cells(e)[1]
    requires ReadCell(Cells(e)[2] + RowEnd + rest, RowEnd) == None
    ensures ReadRows(Row(e) + rest) == None
  {
    var c0, c1, c2 := Cells(e)[0], Cells(e)[1], Cells(e)[2];
    var t2 := c2 + RowEnd + rest;
    var t1 := c1 + CellBreak + t2;
    var t0 := c0 + CellBreak + t1;
    RowRegroup(c0, c1, c2, rest);
    PrefixDrop(RowStart, t0);
    LayoutMarks();
    ReadCellOf(c0, CellBreak, t1);
    ReadCellOf(c1, CellBreak, t2);
  }
}
