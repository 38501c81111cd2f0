/** The two attendance loaders, written once: a `FileSpec` names what tells
    the male and the female file apart, and one row normaliser, one batch
    step and one response check serve both. */
module AttendanceData {
  import opened Wrappers
  import opened JsStrings
  import opened JsNumbers
  import opened Seqs
  import opened Types

  /** What differs between the two files: where the file is, how messages
      name it, the roll-number header, the group of every record and whether
      the picture column is read. */
  datatype FileSpec = FileSpec(
    path: string,
    groupLabel: string,
    rollHeader: string,
    gender: Gender,
    readsProfileImage: bool)

  const MaleFile := FileSpec("/male_attendance.csv", "Male", "Roll no", Male, true)
  const FemaleFile := FileSpec("/ladies_attendance.csv", "Female", "Roll No", Female, false)

  const NameHeader := "Name"
  const PercentageHeader := "Percentage"
  const ProfileImageHeader := "profileImage"

  /** One tokenised data row: header -> cell text. A header the row has no
      cell for is absent, which JavaScript reads as `undefined`. */
  type Row = map<string, string>

  function Field(row: Row, header: string): Option<string> {
    if header in row then Some(row[header]) else None
  }

  /** A field as text: `undefined` becomes the string "undefined", which is
      what `parseInt` reads when handed it. */
  function AsText(v: Option<string>): string {
    match v
    case Some(s) => s
    case None => "undefined"
  }

  /** JavaScript truthiness of a field: present and not the empty string. */
  predicate Truthy(v: Option<string>) {
    v.Some? && v.value != ""
  }

  /** `s.replace(/%$/, '')`: drops one `%` if it is the very last character. */
  function StripTrailingPercent(s: string): (r: string)
    ensures if |s| > 0 && s[|s| - 1] == '%' then s == r + "%" else r == s
  {
    if |s| > 0 && s[|s| - 1] == '%' then s[..|s| - 1] else s
  }

  /** The percentage text that is handed to `parseFloat`: a missing or empty
      field stands for "0"; otherwise a final `%` is dropped and the rest
      trimmed. */
  function CleanPercentage(raw: Option<string>): (r: string)
    ensures !Truthy(raw) ==> r == "0"
    ensures Truthy(raw) ==>
              var v, e := raw.value, PercentEnd(raw.value);
              var i := LeadingWhitespace(v);
              && i + |r| <= e && r == v[i..i + |r|]
              && AllWhitespace(v[..i]) && AllWhitespace(v[i + |r|..e])
              && (|r| > 0 ==> !IsWhitespace(r[0]) && !IsWhitespace(r[|r| - 1]))
  {
    if Truthy(raw) then
      TrimOfPrefix(raw.value, PercentEnd(raw.value));
      Trim(StripTrailingPercent(raw.value))
    else "0"
  }

  /** Where the text of `v` ends once a final `%` is set aside: the end of
      `v` or its last position, which holds the `%`. */
  function PercentEnd(v: string): (e: nat)
    requires |v| > 0
    ensures e == |v| - 1 || e == |v|
    ensures e < |v| <==> v[|v| - 1] == '%'
    ensures StripTrailingPercent(v) == v[..e]
  {
    if v[|v| - 1] == '%' then |v| - 1 else |v|
  }

  /** Trimming `v[..e]`, where `e` is the end or a character that is not
      white space, gives the slice of `v` after its leading white space
      that only white space follows up to `e`. */
  lemma TrimOfPrefix(v: string, e: nat)
    requires e <= |v| && (e < |v| ==> !IsWhitespace(v[e]))
    ensures var r := Trim(v[..e]);
            var i := LeadingWhitespace(v);
            && i + |r| <= e && r == v[i..i + |r|]
            && AllWhitespace(v[..i]) && AllWhitespace(v[i + |r|..e])
  {
    var p := v[..e];
    LeadingWhitespaceOfPrefix(v, e);
    var i := LeadingWhitespace(v);
    var r := Trim(p);
    assert i + |r| <= e && r == p[i..i + |r|];
    assert p[i..i + |r|] == v[i..i + |r|];
    assert AllWhitespace(p[i + |r|..]);
    assert p[i + |r|..] == v[i + |r|..e];
  }

  /** Cutting `v` short just before a character that is not white space
      (such as a final `%`) leaves its leading white space as it was. */
  lemma {:induction false} LeadingWhitespaceOfPrefix(v: string, e: nat)
    requires e <= |v| && (e < |v| ==> !IsWhitespace(v[e]))
    ensures LeadingWhitespace(v[..e]) == LeadingWhitespace(v)
  {
    if e > 0 && IsWhitespace(v[0]) {
      assert v[..e][1..] == v[1..][..e - 1];
      LeadingWhitespaceOfPrefix(v[1..], e - 1);
    }
  }

  /** The row is dropped for want of a name: the field is missing, or it is
      empty or white space only. */
  predicate BlankName(v: Option<string>) {
    v.None? || AllWhitespace(v.value)
  }

  /** A console warning about one row, cited as row `index + 2`: the header
      counts as row 1 and the tokenizer skips blank lines, so this is not
      always the row's line in the file. */
  datatype Warning = Warning(rowNumber: nat, kind: WarningKind)

  datatype WarningKind =
    | InvalidRollNumber(raw: Option<string>)
    | MissingName
    | InvalidPercentage(raw: Option<string>)

  /** What the `map` callback produces for one row: the record, or `null`
      (None), and the warning it logs, if any. */
  datatype RowResult = RowResult(person: Option<Person>, warning: Option<Warning>)

  /** `row.profileImage?.trim() || undefined` in the male loader; the female
      loader never sets the field. */
  function ProfileImage(spec: FileSpec, row: Row): (r: Option<string>)
    ensures r.Some? ==> spec.readsProfileImage && ProfileImageHeader in row
                        && r.value == Trim(row[ProfileImageHeader]) && r.value != ""
    ensures (spec.readsProfileImage && ProfileImageHeader in row
             && !AllWhitespace(row[ProfileImageHeader])) ==> r.Some?
  {
    if !spec.readsProfileImage then None
    else
      match Field(row, ProfileImageHeader)
      case None => None
      case Some(v) =>
        TrimEmptyIffAllWhitespace(v);
        var t := Trim(v);
        if t == "" then None else Some(t)
  }

  /** The eligibility rule, on the unrounded parsed value: it parses and is
      at least 80. */
  predicate Eligible(attendance: Option<Number>) {
    attendance.Some? && AtLeast(attendance.value, 80.0)
  }

  /** The percentage that is stored: the rounded value, or 0 for `NaN`. */
  function StoredPercentage(attendance: Option<Number>): (r: Number)
    ensures IsWhole(r)
    ensures attendance.None? ==> r == Finite(0.0)
    ensures attendance.Some? && attendance.value.Infinite? ==> r == attendance.value
    ensures attendance.Some? && attendance.value.Finite? ==>
              r.Finite? && r.value - 0.5 <= attendance.value.value < r.value + 0.5
  {
    if attendance.Some? then Round(attendance.value) else Finite(0.0)
  }

  /** The threshold on the unrounded value and the stored, rounded value
      agree except in one window: an eligible value is stored as 80 or more,
      and a value stored as 80 or more but not eligible lies in [79.5, 80). */
  lemma EligibleVersusStored(attendance: Option<Number>)
    ensures Eligible(attendance) ==> AtLeast(StoredPercentage(attendance), 80.0)
    ensures AtLeast(StoredPercentage(attendance), 80.0) && !Eligible(attendance) ==>
              attendance.Some? && attendance.value.Finite?
              && 79.5 <= attendance.value.value < 80.0
  {
    if attendance.Some? && attendance.value.Finite? {
      var v := attendance.value.value;
      var n := StoredPercentage(attendance).value;
      assert n - 0.5 <= v < n + 0.5;
      assert n.Floor as real == n;
      if v >= 80.0 {
        assert n > 79.5;
        assert n >= 80.0 by {
          assert n.Floor >= 80;
        }
      }
    }
  }

  /** The `map` callback of both loaders, applied to data row `index`. */
  function NormaliseRow(spec: FileSpec, row: Row, index: nat): (r: RowResult)
    ensures r.warning.Some? ==> r.warning.value.rowNumber == index + 2
    ensures r.person.None? <==>
              ParseInt(AsText(Field(row, spec.rollHeader))).None?
              || BlankName(Field(row, NameHeader))
    ensures r.person.None? ==> r.warning.Some?
    ensures r.person.Some? ==>
              var p := r.person.value;
              var attendance := ParseFloat(CleanPercentage(Field(row, PercentageHeader)));
              && Some(p.id) == ParseInt(AsText(Field(row, spec.rollHeader)))
              && p.name == Trim(row[NameHeader]) && p.name != ""
              && p.gender == spec.gender
              && (p.isEligible <==> Eligible(attendance))
              && p.attendancePercentage == StoredPercentage(attendance)
              && p.profileImage == ProfileImage(spec, row)
              && (r.warning.Some? <==> attendance.None?)
  {
    var idStr := Field(row, spec.rollHeader);
    var nameStr := Field(row, NameHeader);
    var percentageStr := Field(row, PercentageHeader);
    var id := ParseInt(AsText(idStr));
    var cleaned := CleanPercentage(percentageStr);
    var attendance := ParseFloat(cleaned);
    var isEligible := attendance.Some? && AtLeast(attendance.value, 80.0);
    BlankNameIsFalsyOrTrimsEmpty(nameStr);
    if id.None? then
      RowResult(None, Some(Warning(index + 2, InvalidRollNumber(idStr))))
    else if !Truthy(nameStr) || Trim(nameStr.value) == "" then
      RowResult(None, Some(Warning(index + 2, MissingName)))
    else
      ZeroParses();
      var warning :=
        if attendance.None? && cleaned != "0"
        then Some(Warning(index + 2, InvalidPercentage(percentageStr)))
        else None;
      var person := Person(
        id.value,
        Trim(nameStr.value),
        if attendance.Some? then Round(attendance.value) else Finite(0.0),
        spec.gender,
        isEligible,
        ProfileImage(spec, row));
      RowResult(Some(person), warning)
  }

  /** The source's name test `!nameStr || nameStr.trim() === ''` is
      `BlankName`. */
  lemma BlankNameIsFalsyOrTrimsEmpty(v: Option<string>)
    ensures BlankName(v) <==> !Truthy(v) || Trim(v.value) == ""
  {
    if v.Some? {
      TrimEmptyIffAllWhitespace(v.value);
    }
  }

  /** `parseFloat('0')` is 0, so the text that stands for a missing
      percentage never counts as unparseable. */
  lemma ZeroParses()
    ensures ParseFloat("0") == Some(Finite(0.0))
  {
    ParseFloatInteger(0, "");
    assert ShowNat(0) + "" == "0";
  }

  /** The result of `results.data.map(...)`: one record or `null` per row. */
  function MapRows(spec: FileSpec, rows: seq<Row>): (r: seq<Option<Person>>)
    ensures |r| == |rows|
  {
    seq(|rows|, i requires 0 <= i < |rows| => NormaliseRow(spec, rows[i], i).person)
  }

  /** The records of a batch: the rows' records with the `null`s filtered out. */
  function Normalise(spec: FileSpec, rows: seq<Row>): (people: seq<Person>)
    ensures |people| <= |rows|
  {
    Present(MapRows(spec, rows))
  }

  /** The warnings a batch logs, in row order. */
  function RowWarnings(spec: FileSpec, rows: seq<Row>): (ws: seq<Warning>)
    ensures |ws| <= |rows|
  {
    Present(seq(|rows|, i requires 0 <= i < |rows| => NormaliseRow(spec, rows[i], i).warning))
  }

  /** One more row adds its warning, if it logs one, at the end of the
      batch's warnings: the batch logs the rows' warnings in row order. */
  lemma RowWarningsAppend(spec: FileSpec, rows: seq<Row>, row: Row)
    ensures var w := NormaliseRow(spec, row, |rows|).warning;
            RowWarnings(spec, rows + [row]) == RowWarnings(spec, rows) + (if w.Some? then [w.value] else [])
  {
    var init := seq(|rows|, i requires 0 <= i < |rows| => NormaliseRow(spec, rows[i], i).warning);
    var all := rows + [row];
    assert seq(|all|, i requires 0 <= i < |all| => NormaliseRow(spec, all[i], i).warning)
        == init + [NormaliseRow(spec, row, |rows|).warning];
    PresentAppend(init, NormaliseRow(spec, row, |rows|).warning);
  }

  /** The batch keeps the rows' records in their original order, minus the
      dropped rows: there is an increasing choice of row indices, one per
      record, such that record `k` is what row `rows[idx[k]]` normalises to,
      and a row's index is chosen exactly when that row is kept. */
  lemma NormaliseKeepsRowsInOrder(spec: FileSpec, rows: seq<Row>)
    ensures var people := Normalise(spec, rows);
            var idx := Kept(IsSome, MapRows(spec, rows));
            && |idx| == |people|
            && (forall k :: 0 <= k < |idx| ==>
                  idx[k] < |rows| && Some(people[k]) == NormaliseRow(spec, rows[idx[k]], idx[k]).person)
            && (forall j, k :: 0 <= j < k < |idx| ==> idx[j] < idx[k])
            && (forall i :: 0 <= i < |rows| ==>
                  (i in idx <==> NormaliseRow(spec, rows[i], i).person.Some?))
  {
    var mapped := MapRows(spec, rows);
    FilterIsSubsequence(IsSome, mapped);
  }

  /** A record as every loader builds it: a non-empty trimmed name, the
      file's group, a whole percentage, and no picture unless the file has
      that column. */
  predicate WellFormedRecord(spec: FileSpec, p: Person) {
    && p.name != ""
    && !IsWhitespace(p.name[0]) && !IsWhitespace(p.name[|p.name| - 1])
    && p.gender == spec.gender
    && IsWhole(p.attendancePercentage)
    && (!spec.readsProfileImage ==> p.profileImage.None?)
  }

  lemma RowRecordWellFormed(spec: FileSpec, row: Row, index: nat)
    requires NormaliseRow(spec, row, index).person.Some?
    ensures WellFormedRecord(spec, NormaliseRow(spec, row, index).person.value)
  {
  }

  /** Every record of a batch is well formed. */
  lemma NormaliseRecordsWellFormed(spec: FileSpec, rows: seq<Row>)
    ensures forall p :: p in Normalise(spec, rows) ==> WellFormedRecord(spec, p)
  {
    var people := Normalise(spec, rows);
    var idx := Kept(IsSome, MapRows(spec, rows));
    NormaliseKeepsRowsInOrder(spec, rows);
    forall p | p in people
      ensures WellFormedRecord(spec, p)
    {
      var k :| 0 <= k < |people| && people[k] == p;
      RowRecordWellFormed(spec, rows[idx[k]], idx[k]);
    }
  }

  /** Appending a row that is dropped leaves the batch's records unchanged;
      appending a row that is kept adds its record at the end. So the batch
      shrinks by exactly one record per dropped row. */
  lemma NormaliseAppendRow(spec: FileSpec, rows: seq<Row>, row: Row)
    ensures var r := NormaliseRow(spec, row, |rows|);
            Normalise(spec, rows + [row])
            == Normalise(spec, rows) + (if r.person.Some? then [r.person.value] else [])
  {
    var all := MapRows(spec, rows + [row]);
    assert all == MapRows(spec, rows) + [NormaliseRow(spec, row, |rows|).person];
    PresentAppend(MapRows(spec, rows), NormaliseRow(spec, row, |rows|).person);
  }

  // Row-level rules.

  /** A roll-number field that `parseInt` reads as `NaN` ("a1", "-", a
      missing field, which it reads as "undefined") drops the row, whatever
      its name or percentage, with a warning citing row `index + 2`. */
  lemma InvalidRollDropsRow(spec: FileSpec, row: Row, index: nat)
    requires ParseInt(AsText(Field(row, spec.rollHeader))).None?
    ensures NormaliseRow(spec, row, index)
            == RowResult(None, Some(Warning(index + 2, InvalidRollNumber(Field(row, spec.rollHeader)))))
  {
  }

  /** A missing roll-number field is `NaN`, so the row is dropped. */
  lemma MissingRollDropsRow(spec: FileSpec, row: Row, index: nat)
    requires spec.rollHeader !in row
    ensures NormaliseRow(spec, row, index)
            == RowResult(None, Some(Warning(index + 2, InvalidRollNumber(None))))
  {
    ParseIntNoDigit(AsText(Field(row, spec.rollHeader)));
    InvalidRollDropsRow(spec, row, index);
  }

  /** The two files' roll-number headers differ only in case, and a row
      shaped like the female file ("Roll No") has no roll number for the male
      loader ("Roll no"): it is dropped. */
  lemma FemaleRowIsDroppedByMaleLoader(row: Row, index: nat)
    requires FemaleFile.rollHeader in row && MaleFile.rollHeader !in row
    ensures NormaliseRow(MaleFile, row, index).person.None?
  {
    assert MaleFile.rollHeader != FemaleFile.rollHeader;
    MissingRollDropsRow(MaleFile, row, index);
  }

  /** A row with a valid roll number but a missing or blank name is
      dropped with a missing-name warning. */
  lemma BlankNameDropsRow(spec: FileSpec, row: Row, index: nat)
    requires ParseInt(AsText(Field(row, spec.rollHeader))).Some?
    requires BlankName(Field(row, NameHeader))
    ensures NormaliseRow(spec, row, index) == RowResult(None, Some(Warning(index + 2, MissingName)))
  {
    BlankNameIsFalsyOrTrimsEmpty(Field(row, NameHeader));
  }

  /** The row passes both checks: it has a roll number and a name. */
  predicate Keepable(spec: FileSpec, row: Row) {
    ParseInt(AsText(Field(row, spec.rollHeader))).Some? && !BlankName(Field(row, NameHeader))
  }

  /** A missing or empty percentage is read as "0": the record is kept with
      0, is not eligible, and no warning is logged. */
  lemma EmptyPercentageIsSilentZero(spec: FileSpec, row: Row, index: nat)
    requires Keepable(spec, row)
    requires !Truthy(Field(row, PercentageHeader))
    ensures var r := NormaliseRow(spec, row, index);
            && r.person.Some? && r.warning.None?
            && r.person.value.attendancePercentage == Finite(0.0)
            && !r.person.value.isEligible
  {
    ZeroParses();
  }

  /** A present percentage that does not parse keeps the record, with 0,
      not eligible, and logs an invalid-percentage warning. */
  lemma UnparseablePercentageWarns(spec: FileSpec, row: Row, index: nat)
    requires Keepable(spec, row)
    requires ParseFloat(CleanPercentage(Field(row, PercentageHeader))).None?
    ensures var r := NormaliseRow(spec, row, index);
            && r.person.Some?
            && r.person.value.attendancePercentage == Finite(0.0)
            && !r.person.value.isEligible
            && r.warning == Some(Warning(index + 2, InvalidPercentage(Field(row, PercentageHeader))))
  {
    ZeroParses();
  }

  /** Text with no white space at either end is its own trim. */
  lemma TrimOfUnpadded(s: string)
    requires |s| > 0 && !IsWhitespace(s[0]) && !IsWhitespace(s[|s| - 1])
    ensures Trim(s) == s
  {
    assert s[LeadingWhitespace(s)..] == s;
  }

  /** "abc" is such a percentage. */
  lemma AbcDoesNotParse()
    ensures ParseFloat(CleanPercentage(Some("abc"))) == None
  {
    TrimOfUnpadded("abc");
    ParseFloatNoDigit("abc");
  }

  /** "79.6%" is stored as 80 but is not eligible: the threshold is applied
      to the unrounded 79.6. */
  lemma RoundedToEightyIsNotEligible()
    ensures var attendance := ParseFloat(CleanPercentage(Some("79.6%")));
            StoredPercentage(attendance) == Finite(80.0) && !Eligible(attendance)
  {
    CleansTo("79.6%", "79.6");
    ParsesTo796();
    RoundUnique(79.6, 80);
  }

  lemma CleansTo(raw: string, cleaned: string)
    requires |raw| > 0 && raw[|raw| - 1] == '%' && raw[..|raw| - 1] == cleaned
    requires |cleaned| > 0 && !IsWhitespace(cleaned[0]) && !IsWhitespace(cleaned[|cleaned| - 1])
    ensures CleanPercentage(Some(raw)) == cleaned
  {
    TrimOfUnpadded(cleaned);
  }

  lemma ParsesTo796()
    ensures ParseFloat("79.6") == Some(Finite(79.6))
  {
    ParseFloatDecimal("79", "6", "");
    assert "79" + "." + "6" + "" == "79.6";
    MantissaOf796();
  }

  lemma MantissaOf796()
    ensures MantissaValue(Mantissa("79", "6", "")) == 79.6
  {
    assert DigitsValue("79") == 79 by {
      assert "79"[..1] == "7";
    }
    assert DigitsValue("6") == 6;
    assert Pow10(1) == 10;
  }

  /** "80" is exactly at the threshold: eligible, stored as 80. */
  lemma EightyIsEligible()
    ensures var attendance := ParseFloat(CleanPercentage(Some("80")));
            StoredPercentage(attendance) == Finite(80.0) && Eligible(attendance)
  {
    EightyCleans();
    EightyParses();
    RoundUnique(80.0, 80);
  }

  lemma EightyCleans()
    ensures CleanPercentage(Some("80")) == "80"
  {
    TrimOfUnpadded("80");
  }

  lemma EightyParses()
    ensures ParseFloat("80") == Some(Finite(80.0))
  {
    ParsesTo80("");
    assert "80" + "" == "80";
  }

  /** Only a `%` in the very last position is removed before trimming:
      "80% " keeps its `%`, which `parseFloat` then ignores. */
  lemma PercentBeforeSpaceIsKept()
    ensures CleanPercentage(Some("80% ")) == "80%"
    ensures ParseFloat(CleanPercentage(Some("80% "))) == Some(Finite(80.0))
  {
    PercentBeforeSpaceCleans();
    ParsesTo80("%");
    assert "80" + "%" == "80%";
  }

  lemma PercentBeforeSpaceCleans()
    ensures CleanPercentage(Some("80% ")) == "80%"
  {
    var raw := "80% ";
    assert StripTrailingPercent(raw) == raw;
    assert LeadingWhitespace(raw) == 0;
    assert TrailingWhitespace(raw) == 1 by {
      assert raw[..3] == "80%";
      assert TrailingWhitespace("80%") == 0;
    }
    assert raw[0..][..3] == "80%";
  }

  /** `parseFloat` reads "80" followed by `t` as 80. */
  lemma ParsesTo80(t: string)
    requires t == [] || !(IsDigit(t[0]) || t[0] == '.' || t[0] == 'e' || t[0] == 'E')
    ensures ParseFloat("80" + t) == Some(Finite(80.0))
  {
    assert AllDigits("80") && DigitsValue("80") == 80 by {
      assert "80"[..1] == "8";
    }
    ParseFloatDigits("80", t);
  }

  // The fetch response, the tokenizer's verdict and the whole load.

  /** What `fetch` reports: the success flag, the status code and the text. */
  datatype Response = Response(ok: bool, status: int, body: string)

  /** A tokenizer (Papa.parse) error: its message and, when it has one, its row. */
  datatype TokenError = TokenError(message: string, row: Option<int>)

  /** The tokenizer's result: header-keyed rows and the errors it found. */
  datatype Tokenized = Tokenized(data: seq<Row>, errors: seq<TokenError>)

  datatype LoadError =
    | FileNotFound(path: string)
    | HttpStatus(status: int)
    | EmptyFile(groupLabel: string)
    | ParseFailed(groupLabel: string, message: string, row: Option<int>)

  /** The response checks before tokenising: 404 is a missing file, any other
      failure an HTTP error, a white-space-only text an empty file. */
  function ReadResponse(spec: FileSpec, resp: Response): (r: Result<string, LoadError>)
    ensures r.Ok? <==> resp.ok && !AllWhitespace(resp.body)
    ensures r.Ok? ==> r.value == resp.body
    ensures !resp.ok ==>
              r == Err(if resp.status == 404 then FileNotFound(spec.path) else HttpStatus(resp.status))
    ensures resp.ok && AllWhitespace(resp.body) ==> r == Err(EmptyFile(spec.groupLabel))
  {
    TrimEmptyIffAllWhitespace(resp.body);
    if !resp.ok then
      if resp.status == 404 then Err(FileNotFound(spec.path)) else Err(HttpStatus(resp.status))
    else if Trim(resp.body) == "" then Err(EmptyFile(spec.groupLabel))
    else Ok(resp.body)
  }

  /** The `complete` callback: any tokenizer error rejects the whole file with
      the first error; a file with no data rows gives no records; otherwise
      the rows are normalised. */
  function ParseBatch(spec: FileSpec, t: Tokenized): (r: Result<seq<Person>, LoadError>)
    ensures |t.errors| > 0 ==>
              r == Err(ParseFailed(spec.groupLabel, t.errors[0].message, t.errors[0].row))
    ensures |t.errors| == 0 ==> r == Ok(Normalise(spec, t.data))
  {
    if |t.errors| > 0 then Err(ParseFailed(spec.groupLabel, t.errors[0].message, t.errors[0].row))
    else if |t.data| == 0 then Ok([])
    else Ok(Normalise(spec, t.data))
  }

  /** One loader: the response checks, then the tokenizer on the text, then
      the batch. The tokenizer is a parameter. */
  function Load(spec: FileSpec, resp: Response, tokenize: string -> Tokenized)
    : (r: Result<seq<Person>, LoadError>)
    ensures r.Ok? ==> resp.ok && !AllWhitespace(resp.body)
                      && tokenize(resp.body).errors == []
                      && r.value == Normalise(spec, tokenize(resp.body).data)
    ensures !resp.ok && resp.status == 404 ==> r == Err(FileNotFound(spec.path))
    ensures !resp.ok && resp.status != 404 ==> r == Err(HttpStatus(resp.status))
    ensures resp.ok && AllWhitespace(resp.body) ==> r == Err(EmptyFile(spec.groupLabel))
    ensures resp.ok && !AllWhitespace(resp.body) ==> r == ParseBatch(spec, tokenize(resp.body))
  {
    match ReadResponse(spec, resp)
    case Err(e) => Err(e)
    case Ok(text) => ParseBatch(spec, tokenize(text))
  }

  function ShowRow(row: Option<int>): string {
    match row
    case Some(n) => ShowInt(n)
    case None => "undefined"
  }

  /** The text of the error the loader rejects with. */
  function Message(e: LoadError): string {
    match e
    case FileNotFound(path) =>
      "File not found: " + path + ". Make sure it's in the 'public' directory."
    case HttpStatus(status) => HttpPrefix + ShowInt(status)
    case EmptyFile(groupLabel) => groupLabel + " CSV file is empty."
    case ParseFailed(groupLabel, message, row) =>
      "Error parsing " + groupLabel + " CSV file (e.g., " + message + " on row " + ShowRow(row) + ")"
  }

  const HttpPrefix := "HTTP error! status: "

  /** A missing file's message names the path the loader looked at. */
  lemma NotFoundMessageNamesPath(spec: FileSpec)
    ensures Includes(Message(FileNotFound(spec.path)), spec.path)
  {
    IncludesMiddle("File not found: ", spec.path, ". Make sure it's in the 'public' directory.");
  }

  /** An HTTP error's message ends with the status code, which reads back. */
  lemma HttpMessageNamesStatus(status: int)
    ensures |HttpPrefix| <= |Message(HttpStatus(status))|
    ensures ParseInt(Message(HttpStatus(status))[|HttpPrefix|..]) == Some(status)
  {
    var m := Message(HttpStatus(status));
    assert m[|HttpPrefix|..] == ShowInt(status) + "";
    ParseIntShowInt(status, "");
  }

  /** The empty-file message names the file's group. */
  lemma EmptyFileMessageNamesGroup(groupLabel: string)
    ensures Includes(Message(EmptyFile(groupLabel)), groupLabel)
  {
    IncludesMiddle("", groupLabel, " CSV file is empty.");
    assert "" + groupLabel + " CSV file is empty." == Message(EmptyFile(groupLabel));
  }

  /** The parse-failure message names the file's group and carries the
      tokenizer's own message. */
  lemma ParseFailedMessageNamesCause(groupLabel: string, message: string, row: Option<int>)
    ensures Includes(Message(ParseFailed(groupLabel, message, row)), groupLabel)
    ensures Includes(Message(ParseFailed(groupLabel, message, row)), message)
  {
    var head, middle, tail := "Error parsing ", " CSV file (e.g., ", " on row " + ShowRow(row) + ")";
    ConcatShape(head, groupLabel, middle, message, " on row ", ShowRow(row), ")");
    IncludesMiddle(head, groupLabel, middle + message + tail);
    IncludesMiddle(head + groupLabel + middle, message, tail);
  }

  /** The two groupings of the seven pieces of the parse-failure message
      that expose the group and the tokenizer's message. */
  lemma ConcatShape(a: string, b: string, c: string, d: string, e: string, f: string, g: string)
    ensures a + b + c + d + e + f + g == a + b + (c + d + (e + f + g))
    ensures a + b + c + d + e + f + g == a + b + c + d + (e + f + g)
  {
  }

  /** A file that tokenises to no rows and no errors loads as no records. */
  lemma HeaderOnlyFileLoadsEmpty(spec: FileSpec, resp: Response, tokenize: string -> Tokenized)
    requires resp.ok && !AllWhitespace(resp.body)
    requires tokenize(resp.body) == Tokenized([], [])
    ensures Load(spec, resp, tokenize) == Ok([])
  {
  }
}
