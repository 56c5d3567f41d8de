/**
 * `validate_and_process_data`: the blank-input guard, header normalisation,
 * schema completion and the recovered-only test. Parsing the CSV text into a
 * frame (`parse`) and the type coercions plus schema validation that follow
 * (`validate`) belong to a data-frame library and are parameters here; `None`
 * from either stands for the exception the code catches.
 */
module Process {
  import opened Wrappers
  import opened Text
  import opened Headers
  import opened Frame

  /** `df.columns = <normalised>` followed by `df.rename(...)`: names change, cells do not. */
  function NormalizeTable(t: Table): (r: Table)
    ensures r.rows == t.rows && |r.columns| == |t.columns|
    ensures Names(r) == NormalizeHeaders(Names(t))
    ensures forall i :: 0 <= i < |r.columns| ==> r.columns[i].cells == t.columns[i].cells
    ensures WellFormed(t) ==> WellFormed(r)
  {
    var columns := seq(|t.columns|, i requires 0 <= i < |t.columns| =>
      Column(NormalizeHeader(t.columns[i].name), t.columns[i].cells));
    Table(columns, t.rows)
  }

  /** The frame handed to coercion and validation: normalised, then completed. */
  function Prepare(t: Table): Table {
    CompleteColumns(NormalizeTable(t))
  }

  /** Every column name of a prepared frame, the file's own or appended, is in normal spelling. */
  lemma PrepareNamesNormal(t: Table)
    ensures forall i :: 0 <= i < |Names(Prepare(t))| ==> IsNormalSpelling(Names(Prepare(t))[i])
  {
    var n := NormalizeTable(t);
    var r := Prepare(t);
    forall i | 0 <= i < |Names(r)|
      ensures IsNormalSpelling(Names(r)[i])
    {
      if i < |n.columns| {
        assert r.columns[i] == r.columns[..|n.columns|][i];
        assert Names(r)[i] == Names(n)[i];
      } else {
        assert r.columns[i].name in SchemaColumns;
        SchemaColumnsAreNormal();
      }
    }
  }

  /** A prepared frame starts with the file's own columns, renamed, with their cells. */
  lemma PrepareKeepsFileColumns(t: Table)
    ensures |Prepare(t).columns| >= |t.columns|
    ensures forall i :: 0 <= i < |t.columns| ==>
      Prepare(t).columns[i] == Column(NormalizeHeader(t.columns[i].name), t.columns[i].cells)
  {
    var n := NormalizeTable(t);
    var r := Prepare(t);
    assert forall i :: 0 <= i < |t.columns| ==> r.columns[i] == r.columns[..|n.columns|][i];
  }

  /** The schema's own column names need no normalisation. */
  lemma SchemaColumnsAreNormal()
    ensures forall c :: c in SchemaColumns ==> IsNormalSpelling(c)
  {
    forall k | 0 <= k < |SchemaColumns|
      ensures IsNormalSpelling(SchemaColumns[k])
    {
      if k < 7 {
        SchemaColumnNormalLow(k);
      } else {
        SchemaColumnNormalHigh(k);
      }
    }
  }

  lemma SchemaColumnNormalLow(k: nat)
    requires k < 7
    ensures IsNormalSpelling(SchemaColumns[k])
  {
    if k == 0 {
      LowerSnakeIsNormal("fips");
    } else if k == 1 {
      LowerSnakeIsNormal("admin2");
    } else if k == 2 {
      LowerSnakeIsNormal("province_state");
    } else if k == 3 {
      LowerSnakeIsNormal("country_region");
    } else if k == 4 {
      LowerSnakeIsNormal("last_update");
    } else if k == 5 {
      LowerSnakeIsNormal("lat");
    } else {
      LowerSnakeIsNormal("long_");
    }
  }

  lemma SchemaColumnNormalHigh(k: nat)
    requires 7 <= k < 14
    ensures IsNormalSpelling(SchemaColumns[k])
  {
    if k == 7 {
      LowerSnakeIsNormal("confirmed");
    } else if k == 8 {
      LowerSnakeIsNormal("deaths");
    } else if k == 9 {
      LowerSnakeIsNormal("recovered");
    } else if k == 10 {
      LowerSnakeIsNormal("active");
    } else if k == 11 {
      LowerSnakeIsNormal("combined_key");
    } else if k == 12 {
      LowerSnakeIsNormal("incident_rate");
    } else {
      LowerSnakeIsNormal("case_fatality_ratio");
    }
  }

  /** Lower-case letters, digits and underscores are all normal spelling. */
  lemma LowerSnakeIsNormal(h: string)
    requires forall i :: 0 <= i < |h| ==> IsAsciiLower(h[i]) || IsDigit(h[i]) || h[i] == '_'
    ensures IsNormalSpelling(h)
  {
  }

  /** The whole step; `None` is the code's `return None`. */
  function ValidateAndProcess(
    raw: Option<string>,
    parse: string -> Option<Table>,
    validate: Table -> Option<Table>
  ): (r: Option<Table>)
    ensures raw.None? || IsBlank(raw.value) ==> r.None?
    ensures raw.Some? && !IsBlank(raw.value) && parse(raw.value).None? ==> r.None?
    ensures raw.Some? && !IsBlank(raw.value) && parse(raw.value).Some? ==>
      r == validate(Prepare(parse(raw.value).value))
  {
    if raw.None? || IsBlank(raw.value) then None
    else
      match parse(raw.value)
      case None => None
      case Some(df) =>
        var prepared := Prepare(df);
        CompletedIsNeverRecoveredOnly(NormalizeTable(df));
        if RecoveredOnly(prepared) then None else validate(prepared)
  }

  /** The blank-input guard fires before parsing: the parser is never consulted. */
  lemma BlankInputSkipsParsing(
    raw: Option<string>,
    parse1: string -> Option<Table>, parse2: string -> Option<Table>,
    validate1: Table -> Option<Table>, validate2: Table -> Option<Table>
  )
    requires raw.None? || IsBlank(raw.value)
    ensures ValidateAndProcess(raw, parse1, validate1) == ValidateAndProcess(raw, parse2, validate2) == None
  {
  }

  /** Examples of the guard: no input, the empty string and whitespace only. */
  lemma BlankExamples()
    ensures IsBlank("") && IsBlank(" \t\r\n")
    ensures !IsBlank(" a ")
  {
    var ws := " \t\r\n";
    assert ws[0] == ' ' && ws[1] == '\t' && ws[2] == '\r' && ws[3] == '\n';
    assert forall i :: 0 <= i < |ws| ==> IsSpace(ws[i]);
    assert !IsSpace(" a "[1]);
  }
}
