/**
 * The filename-format machinery of `FileUploadBehavior`: the `|field|` and
 * `|field:format|` placeholders a format may hold, the parser that maps
 * each placeholder to the row field it names, the default format derived
 * from the row type, and the replacement of placeholders by field values.
 */
module UploadFormat {
  import opened Basics
  import opened Strings

  /** A field of a row, with the upload editor attribute it carries, if any. */
  datatype Field = Field(
    name: string, propertyName: Option<string>, isString: bool, isTableField: bool,
    uploadEditor: Option<UploadEditor>)

  /**
   * An `IUploadEditor` attribute; `fileOptions` is present when it also
   * implements `IUploadFileOptions`.
   */
  datatype UploadEditor = UploadEditor(disableDefaultBehavior: bool, isMultiple: bool,
                                       fileOptions: Option<UploadFileOptions>)

  datatype UploadFileOptions = UploadFileOptions(
    originalNameProperty: Option<string>, filenameFormat: Option<string>, copyToHistory: bool)

  /**
   * A row type: its short and full type names, its table, whether it is an
   * `IIdRow`, and `FindFieldByPropertyName(n) ?? FindField(n)`.
   */
  datatype RowType = RowType(name: string, fullName: string, table: string, isIdRow: bool,
                             findField: string -> Option<Field>)

  datatype UploadError =
    | ArgumentNull(parameter: string)
    | NotStringField(property: string, rowType: string)
    | NotIdRow(property: string, rowType: string)
    | OriginalNameFieldNotFound(property: string, rowType: string, originalNameProperty: string)
    | OriginalNameFieldNotString(originalNameProperty: string)
    | InvalidFormat
    | FieldNotFound(name: string)
    | NotTemporary

  // ---------------------------------------------------------------------
  // The placeholder dictionary
  // ---------------------------------------------------------------------

  /** One `Dictionary<string, Field>` entry; the dictionary keeps insertion order. */
  datatype Entry = Entry(key: string, field: Field)

  type Dict = seq<Entry>

  function Keys(d: Dict): set<string> {
    if d == [] then {} else {d[0].key} + Keys(d[1..])
  }

  function Get(d: Dict, k: string): (r: Option<Field>)
    ensures r.Some? <==> k in Keys(d)
  {
    if d == [] then None else if d[0].key == k then Some(d[0].field) else Get(d[1..], k)
  }

  /** `d[k] = f`: an existing key keeps its place and takes the new value; a new key goes last. */
  function Put(d: Dict, k: string, f: Field): (r: Dict)
    ensures Keys(r) == Keys(d) + {k}
    ensures Get(r, k) == Some(f)
    ensures forall k' | k' != k :: Get(r, k') == Get(d, k')
  {
    if d == [] then [Entry(k, f)]
    else if d[0].key == k then [Entry(k, f)] + d[1..]
    else [d[0]] + Put(d[1..], k, f)
  }

  // ---------------------------------------------------------------------
  // Placeholders
  // ---------------------------------------------------------------------

  /** The field a placeholder names: the part before its first colon, or all of it. */
  function ActualName(placeholder: string): (r: string)
    ensures |r| <= |placeholder|
    ensures ':' !in r
    ensures ':' !in placeholder ==> r == placeholder
    ensures r == placeholder[..|r|]
  {
    var colon := IndexOf(placeholder, ':');
    if colon >= 0 then placeholder[..colon] else placeholder
  }

  /**
   * The fields a format's placeholders name, read off the pieces of
   * `format.Split('|')`: the odd pieces are the placeholders. An even number
   * of pieces means an unmatched final bar, an empty odd piece an empty
   * placeholder; the first placeholder whose field is missing is reported.
   */
  function FieldsOf(parts: seq<string>, row: RowType, acc: Dict): Result<Dict, UploadError>
    decreases |parts|
  {
    if |parts| <= 1 then Ok(acc)
    else if |parts| == 2 || parts[1] == [] then Err(InvalidFormat)
    else
      match row.findField(ActualName(parts[1]))
      case None => Err(FieldNotFound(ActualName(parts[1])))
      case Some(field) => FieldsOf(parts[2..], row, Put(acc, "|" + parts[1] + "|", field))
  }

  /** What `FieldsOf` reads off the pieces of `t`, with `d` filled so far. */
  function Parsed(t: string, row: RowType, d: Dict): Result<Dict, UploadError> {
    FieldsOf(Split(t, '|'), row, d)
  }

  /** What `ParseReplaceFields` produces: nothing for a format without a bar. */
  function ReplaceFieldsOf(format: string, row: RowType): Result<Option<Dict>, UploadError> {
    if '|' !in format then Ok(None)
    else
      match Parsed(format, row, [])
      case Ok(d) => Ok(Some(d))
      case Err(e) => Err(e)
  }

  /** Every placeholder is non-empty and names a field the row has. */
  predicate PlaceholdersResolve(parts: seq<string>, row: RowType) {
    forall i | 0 <= i < |parts| && i % 2 == 1 :: parts[i] != [] && row.findField(ActualName(parts[i])).Some?
  }

  lemma PlaceholdersResolveStep(parts: seq<string>, row: RowType)
    requires |parts| > 2
    ensures PlaceholdersResolve(parts, row) <==>
      parts[1] != [] && row.findField(ActualName(parts[1])).Some? && PlaceholdersResolve(parts[2..], row)
  {
    var rest := parts[2..];
    if PlaceholdersResolve(rest, row) && parts[1] != [] && row.findField(ActualName(parts[1])).Some? {
      forall i | 0 <= i < |parts| && i % 2 == 1
        ensures parts[i] != [] && row.findField(ActualName(parts[i])).Some?
      {
        if i >= 3 {
          assert parts[i] == rest[i - 2];
        }
      }
    }
    if PlaceholdersResolve(parts, row) {
      forall i | 0 <= i < |rest| && i % 2 == 1
        ensures rest[i] != [] && row.findField(ActualName(rest[i])).Some?
      {
        assert rest[i] == parts[i + 2];
      }
      assert 1 < |parts|;
    }
  }

  /** Parsing succeeds exactly when the bars pair up and every placeholder resolves. */
  lemma {:induction false} FieldsOfOkIff(parts: seq<string>, row: RowType, acc: Dict)
    requires |parts| >= 1
    ensures FieldsOf(parts, row, acc).Ok? <==> |parts| % 2 == 1 && PlaceholdersResolve(parts, row)
    decreases |parts|
  {
    if |parts| > 2 {
      PlaceholdersResolveStep(parts, row);
      var rest := parts[2..];
      assert |parts| % 2 == |rest| % 2 by { ParityStep(|rest|); }
      if parts[1] != [] && row.findField(ActualName(parts[1])).Some? {
        var field := row.findField(ActualName(parts[1])).value;
        FieldsOfOkIff(rest, row, Put(acc, "|" + parts[1] + "|", field));
      }
    }
  }

  lemma ParityStep(n: nat)
    ensures (n + 2) % 2 == n % 2
  {
  }

  /** A format with an odd number of bars is always rejected. */
  lemma OddBarsRejected(format: string, row: RowType)
    requires Count(format, '|') % 2 == 1
    ensures ReplaceFieldsOf(format, row).Err?
  {
    if '|' !in format {
      CountAbsent(format, '|');
    } else {
      var parts := Split(format, '|');
      SplitCount(format, '|');
      var k := Count(format, '|') / 2;
      assert Count(format, '|') == 2 * k + 1;
      EvenPartsRejected(parts, row, [], k);
    }
  }

  /** An even number of pieces means an unmatched final bar, whatever was read before. */
  lemma {:induction false} EvenPartsRejected(parts: seq<string>, row: RowType, acc: Dict, k: nat)
    requires |parts| == 2 * k + 2
    ensures FieldsOf(parts, row, acc).Err?
    decreases k
  {
    if k > 0 && parts[1] != [] && row.findField(ActualName(parts[1])).Some? {
      var field := row.findField(ActualName(parts[1])).value;
      EvenPartsRejected(parts[2..], row, Put(acc, "|" + parts[1] + "|", field), k - 1);
    }
  }

  /** The keys of the placeholders of the pieces of a format. */
  function PlaceholderKeys(parts: seq<string>): set<string> {
    set i | 0 <= i < |parts| && i % 2 == 1 :: "|" + parts[i] + "|"
  }

  lemma PlaceholderKeysStep(parts: seq<string>)
    requires |parts| > 2
    ensures PlaceholderKeys(parts) == {"|" + parts[1] + "|"} + PlaceholderKeys(parts[2..])
  {
    var rest := parts[2..];
    forall x | x in PlaceholderKeys(parts) ensures x in {"|" + parts[1] + "|"} + PlaceholderKeys(rest) {
      var i :| 0 <= i < |parts| && i % 2 == 1 && x == "|" + parts[i] + "|";
      if i >= 3 {
        assert x == "|" + rest[i - 2] + "|";
      }
    }
    forall x | x in PlaceholderKeys(rest) ensures x in PlaceholderKeys(parts) {
      var i :| 0 <= i < |rest| && i % 2 == 1 && x == "|" + rest[i] + "|";
      assert x == "|" + parts[i + 2] + "|";
    }
    assert 1 < |parts|;
  }

  /** The placeholder a key was made from. */
  function PlaceholderOf(key: string): string {
    if |key| >= 2 then key[1..|key| - 1] else key
  }

  /**
   * A successful parse adds the key `|p|` of every placeholder `p` and no
   * other, and maps it to the field `ActualName(p)` names; every other key
   * keeps what it had.
   */
  lemma {:induction false} FieldsOfGet(parts: seq<string>, row: RowType, acc: Dict, k: string)
    requires FieldsOf(parts, row, acc).Ok?
    ensures Get(FieldsOf(parts, row, acc).value, k) ==
      if k in PlaceholderKeys(parts) then row.findField(ActualName(PlaceholderOf(k))) else Get(acc, k)
    decreases |parts|
  {
    if |parts| > 1 {
      var key := "|" + parts[1] + "|";
      assert PlaceholderOf(key) == parts[1];
      var field := row.findField(ActualName(parts[1])).value;
      PlaceholderKeysStep(parts);
      FieldsOfGet(parts[2..], row, Put(acc, key, field), k);
    } else {
      assert PlaceholderKeys(parts) == {};
    }
  }

  lemma {:induction false} FieldsOfKeys(parts: seq<string>, row: RowType, acc: Dict)
    requires FieldsOf(parts, row, acc).Ok?
    ensures Keys(FieldsOf(parts, row, acc).value) == Keys(acc) + PlaceholderKeys(parts)
    decreases |parts|
  {
    if |parts| > 1 {
      var key := "|" + parts[1] + "|";
      var field := row.findField(ActualName(parts[1])).value;
      PlaceholderKeysStep(parts);
      FieldsOfKeys(parts[2..], row, Put(acc, key, field));
    } else {
      assert PlaceholderKeys(parts) == {};
    }
  }

  // ---------------------------------------------------------------------
  // The parser, as the source runs it
  // ---------------------------------------------------------------------

  /**
   * `ParseReplaceFields` gives nothing exactly for a format without a bar;
   * a dictionary it gives holds the key `|p|` of every placeholder `p` of
   * the format and no other, mapped to the field `p` names.
   */
  lemma ReplaceFieldsOfShape(format: string, row: RowType)
    ensures ReplaceFieldsOf(format, row) == Ok(None) <==> '|' !in format
    ensures ReplaceFieldsOf(format, row).Ok? && ReplaceFieldsOf(format, row).value.Some? ==>
      var d := ReplaceFieldsOf(format, row).value.value;
      && Keys(d) == PlaceholderKeys(Split(format, '|'))
      && forall k | k in Keys(d) :: Get(d, k) == row.findField(ActualName(PlaceholderOf(k)))
  {
    var parts := Split(format, '|');
    if '|' in format && FieldsOf(parts, row, []).Ok? {
      FieldsOfKeys(parts, row, []);
      forall k | k in PlaceholderKeys(parts)
        ensures Get(FieldsOf(parts, row, []).value, k) == row.findField(ActualName(PlaceholderOf(k)))
      {
        FieldsOfGet(parts, row, [], k);
      }
    }
  }

  lemma {:induction false} IndexOfFromShift(f: string, c: char, from: nat, k: nat)
    requires from + k <= |f|
    ensures IndexOfFrom(f, c, from + k) ==
      var r := IndexOfFrom(f[from..], c, k); if r < 0 then -1 else from + r
    decreases |f| - from - k
  {
    if from + k < |f| {
      assert f[from..][k] == f[from + k];
      if f[from + k] != c {
        IndexOfFromShift(f, c, from, k + 1);
      }
    }
  }

  /** `f.IndexOf(c, from)` is the position of the first `c` in `f[from..]`, shifted by `from`. */
  lemma IndexOfFromSuffix(f: string, c: char, from: nat)
    requires from <= |f|
    ensures IndexOfFrom(f, c, from) == var r := IndexOf(f[from..], c); if r < 0 then -1 else from + r
  {
    IndexOfFromShift(f, c, from, 0);
    assert f[from..][0..] == f[from..];
  }

  lemma SplitAt(t: string, c: char)
    requires IndexOf(t, c) >= 0
    ensures Split(t, c) == [t[..IndexOf(t, c)]] + Split(t[IndexOf(t, c) + 1..], c)
  {
  }

  /** The pieces of the rest of the format when no bar is left. */
  lemma StepNoBar(f: string, start: nat)
    requires start <= |f| && IndexOfFrom(f, '|', start) < 0
    ensures Split(f[start..], '|') == [f[start..]]
  {
    IndexOfFromSuffix(f, '|', start);
  }

  /** The pieces of the rest of the format when its next bar is at `s`. */
  lemma StepBar(f: string, start: nat, s: nat, next: nat)
    requires start <= s < |f| && s == IndexOfFrom(f, '|', start) && next == s + 1
    ensures Split(f[start..], '|') == [f[start..s]] + Split(f[next..], '|')
  {
    var t := f[start..];
    IndexOfFromSuffix(f, '|', start);
    assert IndexOf(t, '|') == s - start;
    SplitAt(t, '|');
    assert t[..s - start] == f[start..s];
    assert t[s - start + 1..] == f[next..];
  }

  /** The pieces of the rest of the format when the next bar is at `s` and the one after it at `end`. */
  lemma StepTwoBars(f: string, start: nat, s: nat, inner: nat, end: int, next: int)
    requires start <= s < |f| && s == IndexOfFrom(f, '|', start) && inner == s + 1
    requires end == IndexOfFrom(f, '|', inner) && next == end + 1
    ensures end < 0 ==> Split(f[start..], '|') == [f[start..s], f[inner..]]
    ensures end >= 0 ==> Split(f[start..], '|') == [f[start..s], f[inner..end]] + Split(f[next..], '|')
  {
    if end >= 0 {
      StepBarBar(f, start, s, inner, end, next);
    } else {
      StepBarNoBar(f, start, s, inner);
    }
  }

  lemma StepBarBar(f: string, start: nat, s: nat, inner: nat, end: nat, next: nat)
    requires start <= s < |f| && s == IndexOfFrom(f, '|', start) && inner == s + 1
    requires end == IndexOfFrom(f, '|', inner) && next == end + 1
    ensures Split(f[start..], '|') == [f[start..s], f[inner..end]] + Split(f[next..], '|')
  {
    StepBar(f, start, s, inner);
    StepBar(f, inner, end, next);
    var a, b, rest := f[start..s], f[inner..end], Split(f[next..], '|');
    assert [a] + ([b] + rest) == [a, b] + rest;
  }

  lemma StepBarNoBar(f: string, start: nat, s: nat, inner: nat)
    requires start <= s < |f| && s == IndexOfFrom(f, '|', start) && inner == s + 1
    requires IndexOfFrom(f, '|', inner) < 0
    ensures Split(f[start..], '|') == [f[start..s], f[inner..]]
  {
    StepBar(f, start, s, inner);
    StepNoBar(f, inner);
    var a := f[start..s];
    assert [a] + [f[inner..]] == [a, f[inner..]];
  }

  /** One placeholder's worth of `FieldsOf`. */
  lemma FieldsOfStep(a: string, b: string, rest: seq<string>, row: RowType, d: Dict)
    requires |rest| >= 1
    ensures b == [] ==> FieldsOf([a, b] + rest, row, d) == Err(InvalidFormat)
    ensures b != [] && row.findField(ActualName(b)).None? ==>
      FieldsOf([a, b] + rest, row, d) == Err(FieldNotFound(ActualName(b)))
  {
    var parts := [a, b] + rest;
    assert parts[1] == b && parts[2..] == rest;
  }

  lemma FieldsOfPlaceholder(a: string, b: string, rest: seq<string>, row: RowType, d: Dict, key: string, field: Field)
    requires |rest| >= 1 && b != [] && row.findField(ActualName(b)) == Some(field) && key == "|" + b + "|"
    ensures FieldsOf([a, b] + rest, row, d) == FieldsOf(rest, row, Put(d, key, field))
  {
    var parts := [a, b] + rest;
    assert parts[1] == b && parts[2..] == rest;
  }

  /** The pieces of `f[start..]` when no bar is left: nothing more to read. */
  lemma PiecesNoBar(f: string, start: nat, row: RowType, d: Dict)
    requires start <= |f| && IndexOfFrom(f, '|', start) < 0
    ensures Parsed(f[start..], row, d) == Ok(d)
  {
    StepNoBar(f, start);
  }

  /** The pieces of `f[start..]` when the next bar is not followed by a non-empty placeholder and a bar. */
  lemma PiecesBadEnd(f: string, start: nat, row: RowType, d: Dict, s: nat, end: int)
    requires start <= s < |f| && s == IndexOfFrom(f, '|', start)
    requires end == IndexOfFrom(f, '|', s + 1) && end <= s + 1
    ensures Parsed(f[start..], row, d) == Err(InvalidFormat)
  {
    StepTwoBars(f, start, s, s + 1, end, end + 1);
    if end == s + 1 {
      FieldsOfStep(f[start..s], [], Split(f[end + 1..], '|'), row, d);
    }
  }

  /** The pieces of `f[start..]` when the next placeholder names a missing field. */
  lemma PiecesMissing(f: string, start: nat, row: RowType, d: Dict, s: nat, end: int, name: string)
    requires start <= s < |f| && s == IndexOfFrom(f, '|', start)
    requires end == IndexOfFrom(f, '|', s + 1) && end > s + 1
    requires name == ActualName(f[s + 1..end]) && row.findField(name).None?
    ensures Parsed(f[start..], row, d) == Err(FieldNotFound(name))
  {
    var a, b, rest := f[start..s], f[s + 1..end], Split(f[end + 1..], '|');
    StepTwoBars(f, start, s, s + 1, end, end + 1);
    FieldsOfStep(a, b, rest, row, d);
  }

  /** The pieces of `f[start..]` when the next placeholder resolves: record it, go on after its closing bar. */
  lemma PiecesPlaceholder(f: string, start: nat, row: RowType, d: Dict, s: nat, end: int, key: string, field: Field, next: nat)
    requires start <= s < |f| && s == IndexOfFrom(f, '|', start)
    requires end == IndexOfFrom(f, '|', s + 1) && end > s + 1
    requires row.findField(ActualName(f[s + 1..end])) == Some(field)
    requires key == "|" + f[s + 1..end] + "|" && next == end + 1
    ensures next <= |f|
    ensures Parsed(f[start..], row, d) == Parsed(f[next..], row, Put(d, key, field))
  {
    var a, b, rest := f[start..s], f[s + 1..end], Split(f[next..], '|');
    StepTwoBars(f, start, s, s + 1, end, next);
    FieldsOfPlaceholder(a, b, rest, row, d, key, field);
  }

  /**
   * `ParseReplaceFields`: scan for the next bar, take the text up to the
   * following bar as a placeholder, look up its field, resume after the
   * closing bar.
   */
  method ParseReplaceFields(fileNameFormat: string, row: RowType) returns (r: Result<Option<Dict>, UploadError>)
    ensures r == ReplaceFieldsOf(fileNameFormat, row)
  {
    if IndexOf(fileNameFormat, '|') < 0 {
      return Ok(None);
    }
    assert fileNameFormat[0..] == fileNameFormat;
    var replaceFields: Dict := [];
    var start: nat := 0;
    while true
      invariant start <= |fileNameFormat|
      invariant Parsed(fileNameFormat, row, []) == Parsed(fileNameFormat[start..], row, replaceFields)
      decreases |fileNameFormat| - start
    {
      var s := IndexOfFrom(fileNameFormat, '|', start);
      if s < 0 {
        PiecesNoBar(fileNameFormat, start, row, replaceFields);
        return Ok(Some(replaceFields));
      }
      var end := IndexOfFrom(fileNameFormat, '|', s + 1);
      if end <= s + 1 {
        PiecesBadEnd(fileNameFormat, start, row, replaceFields, s, end);
        return Err(InvalidFormat);
      }
      var fieldName := fileNameFormat[s + 1..end];
      var actualName := ActualName(fieldName);
      var replaceField := row.findField(actualName);
      if replaceField.None? {
        PiecesMissing(fileNameFormat, start, row, replaceFields, s, end, actualName);
        return Err(FieldNotFound(actualName));
      }
      var key := "|" + fieldName + "|";
      var next := end + 1;
      PiecesPlaceholder(fileNameFormat, start, row, replaceFields, s, end, key, replaceField.value, next);
      replaceFields := Put(replaceFields, key, replaceField.value);
      start := next;
    }
  }


  // ---------------------------------------------------------------------
  // The default format
  // ---------------------------------------------------------------------

  const SplittedFormat: string := "{1:00000}/{0:00000000}_{2}"

  /** The row type's name without a trailing `Row`, then `/~`. */
  function DefaultFilenameFormat(rowTypeName: string): (r: string)
    ensures EndsWith(r, "/~")
  {
    var stem := if EndsWith(rowTypeName, "Row") then rowTypeName[..|rowTypeName| - 3] else rowTypeName;
    stem + "/~"
  }

  /** Every `~` of a format stands for the id-split pattern. */
  function ExpandFormat(format: string): string {
    Replace(format, "~", SplittedFormat)
  }

  /** The format an editor asks for, or the default for the row type, expanded. */
  function FileNameFormatOf(editor: UploadEditor, row: RowType): string {
    var format := if editor.fileOptions.Some? && editor.fileOptions.value.filenameFormat.Some?
                  then editor.fileOptions.value.filenameFormat.value
                  else DefaultFilenameFormat(row.name);
    ExpandFormat(format)
  }

  /** No `~` survives the expansion, and no bar is introduced by it. */
  lemma ExpandFormatProperties(format: string)
    ensures '~' !in ExpandFormat(format)
    ensures '|' !in format ==> '|' !in ExpandFormat(format)
  {
    ReplaceOneChar(format, '~', SplittedFormat);
    assert '~' !in SplittedFormat && '|' !in SplittedFormat;
    ReplaceCharRemovesAll(format, '~', SplittedFormat);
    if '|' !in format {
      ReplaceCharKeepsAbsent(format, '~', SplittedFormat, '|');
    }
  }

  /** A row type whose name has no bar gets a default format without placeholders. */
  lemma DefaultFormatHasNoPlaceholders(rowTypeName: string, row: RowType)
    requires '|' !in rowTypeName
    ensures ReplaceFieldsOf(ExpandFormat(DefaultFilenameFormat(rowTypeName)), row) == Ok(None)
  {
    var f := DefaultFilenameFormat(rowTypeName);
    var stem := if EndsWith(rowTypeName, "Row") then rowTypeName[..|rowTypeName| - 3] else rowTypeName;
    assert '|' !in stem;
    assert '|' !in f;
    ExpandFormatProperties(f);
  }

  /** Without a `~` in the row type's name, the default format is its stem, a slash and the id-split pattern. */
  lemma DefaultFormatExpanded(rowTypeName: string)
    requires '~' !in rowTypeName
    ensures ExpandFormat(DefaultFilenameFormat(rowTypeName)) ==
      (if EndsWith(rowTypeName, "Row") then rowTypeName[..|rowTypeName| - 3] else rowTypeName) + "/" + SplittedFormat
  {
    var stem := if EndsWith(rowTypeName, "Row") then rowTypeName[..|rowTypeName| - 3] else rowTypeName;
    assert '~' !in stem;
    assert stem + "/~" == (stem + "/") + "~";
    ReplaceOneChar(stem + "/~", '~', SplittedFormat);
    ReplaceCharAppend(stem + "/", "~", '~', SplittedFormat);
    ReplaceCharAbsent(stem + "/", '~', SplittedFormat);
    assert ReplaceChar("~", '~', SplittedFormat) == SplittedFormat + ReplaceChar([], '~', SplittedFormat);
  }

  /** `CustomerRow` splits its files by id under `Customer/`. */
  lemma DefaultFormatOfCustomerRow()
    ensures ExpandFormat(DefaultFilenameFormat("CustomerRow")) == "Customer/" + SplittedFormat
  {
    assert "CustomerRow"[|"CustomerRow"| - 3..] == "Row";
    assert "CustomerRow"[..|"CustomerRow"| - 3] == "Customer";
    DefaultFormatExpanded("CustomerRow");
  }

  // ---------------------------------------------------------------------
  // Replacing placeholders
  // ---------------------------------------------------------------------

  /** A key as the parser makes them: a bar, a bar-free placeholder, a bar. */
  predicate IsPlaceholderKey(key: string) {
    |key| >= 2 && key[0] == '|' && key[|key| - 1] == '|' && '|' !in key[1..|key| - 1]
  }

  predicate WellFormedKeys(d: Dict) {
    forall i | 0 <= i < |d| :: IsPlaceholderKey(d[i].key)
  }

  /** The placeholder name the sanitizer is told about: `key[1..colon]`, or `key[1..^1]` without a colon. */
  function StripKey(key: string): string
    requires IsPlaceholderKey(key)
  {
    var colon := IndexOf(key, ':');
    if colon >= 0 then key[1..colon] else key[1..|key| - 1]
  }

  /** The format applied to the value: what follows the colon, up to the closing bar. */
  function FormatSpec(key: string): Option<string>
    requires IsPlaceholderKey(key)
  {
    var colon := IndexOf(key, ':');
    if colon >= 0 then Some(key[colon + 1..|key| - 1]) else None
  }

  /** Stripping the key of placeholder `p` gives the field name it was parsed for. */
  lemma StripKeyOfPlaceholder(p: string)
    requires '|' !in p
    ensures IsPlaceholderKey("|" + p + "|")
    ensures StripKey("|" + p + "|") == ActualName(p)
    ensures FormatSpec("|" + p + "|") ==
      var colon := IndexOf(p, ':'); if colon >= 0 then Some(p[colon + 1..]) else None
  {
    var key := "|" + p + "|";
    assert key[1..|key| - 1] == p;
    var colon := IndexOf(p, ':');
    assert key == ['|'] + (p + "|");
    IndexOfCons('|', p + "|", ':');
    IndexOfAppendBar(p);
    if colon >= 0 {
      assert key[1..colon + 1] == p[..colon];
      assert key[colon + 2..|key| - 1] == p[colon + 1..];
    }
  }

  lemma IndexOfCons(x: char, s: string, c: char)
    requires x != c
    ensures IndexOf([x] + s, c) == if IndexOf(s, c) < 0 then -1 else IndexOf(s, c) + 1
  {
    IndexOfFromSuffix([x] + s, c, 1);
    assert ([x] + s)[1..] == s;
  }

  lemma {:induction false} IndexOfAppend(a: string, b: string, c: char)
    ensures IndexOf(a + b, c) ==
      if IndexOf(a, c) >= 0 then IndexOf(a, c) else if IndexOf(b, c) < 0 then -1 else |a| + IndexOf(b, c)
  {
    if a == [] {
      assert a + b == b;
    } else if a[0] != c {
      assert a + b == [a[0]] + (a[1..] + b);
      assert a == [a[0]] + a[1..];
      IndexOfCons(a[0], a[1..] + b, c);
      IndexOfCons(a[0], a[1..], c);
      IndexOfAppend(a[1..], b, c);
    }
  }

  lemma IndexOfAppendBar(p: string)
    ensures IndexOf(p + "|", ':') == IndexOf(p, ':')
  {
    IndexOfAppend(p, "|", ':');
  }

  /** The parser only makes keys of that shape. */
  lemma {:induction false} FieldsOfWellFormed(parts: seq<string>, row: RowType, acc: Dict)
    requires forall i | 0 <= i < |parts| :: '|' !in parts[i]
    requires WellFormedKeys(acc)
    requires FieldsOf(parts, row, acc).Ok?
    ensures WellFormedKeys(FieldsOf(parts, row, acc).value)
    decreases |parts|
  {
    if |parts| > 1 {
      var key := "|" + parts[1] + "|";
      StripKeyOfPlaceholder(parts[1]);
      var acc' := Put(acc, key, row.findField(ActualName(parts[1])).value);
      PutWellFormed(acc, key, row.findField(ActualName(parts[1])).value);
      FieldsOfWellFormed(parts[2..], row, acc');
    }
  }

  lemma {:induction false} PutWellFormed(d: Dict, k: string, f: Field)
    requires WellFormedKeys(d) && IsPlaceholderKey(k)
    ensures WellFormedKeys(Put(d, k, f))
  {
    if d != [] && d[0].key != k {
      PutWellFormed(d[1..], k, f);
    }
  }

  /** Every dictionary `ParseReplaceFields` returns has parser-shaped keys. */
  lemma ReplaceFieldsWellFormed(format: string, row: RowType)
    requires ReplaceFieldsOf(format, row).Ok? && ReplaceFieldsOf(format, row).value.Some?
    ensures WellFormedKeys(ReplaceFieldsOf(format, row).value.value)
  {
    FieldsOfWellFormed(Split(format, '|'), row, []);
  }

  /** `IFilenameFormatSanitizer`. */
  datatype Sanitizer = Sanitizer(sanitizePlaceholder: (string, string) -> string, sanitizeResult: string -> string)

  /**
   * The text an entry's placeholder becomes: the field's value, formatted by
   * the key's format when it has one, then sanitised under the stripped key.
   * `formatValue` stands for `string.Format` / `Convert.ToString` of the
   * field's value in the row.
   */
  function ValueFor(e: Entry, formatValue: (Field, Option<string>) -> string, sanitizer: Sanitizer): string
    requires IsPlaceholderKey(e.key)
  {
    sanitizer.sanitizePlaceholder(StripKey(e.key), formatValue(e.field, FormatSpec(e.key)))
  }

  /** Each entry's key replaced, in dictionary order, by its value. */
  function ReplaceAll(s: string, d: Dict, formatValue: (Field, Option<string>) -> string, sanitizer: Sanitizer): string
    requires WellFormedKeys(d)
  {
    if d == [] then s
    else
      var last := d[|d| - 1];
      Replace(ReplaceAll(s, d[..|d| - 1], formatValue, sanitizer), last.key, ValueFor(last, formatValue, sanitizer))
  }

  lemma ReplaceAllSnoc(s: string, d: Dict, i: nat, next: nat, formatValue: (Field, Option<string>) -> string,
                       sanitizer: Sanitizer)
    requires WellFormedKeys(d) && i < |d| && next == i + 1
    ensures WellFormedKeys(d[..i]) && WellFormedKeys(d[..next])
    ensures ReplaceAll(s, d[..next], formatValue, sanitizer) ==
      Replace(ReplaceAll(s, d[..i], formatValue, sanitizer), d[i].key, ValueFor(d[i], formatValue, sanitizer))
  {
    assert d[..next][..i] == d[..i];
  }

  /** A text in which no key occurs is changed by nothing but the final sanitising. */
  lemma {:induction false} ReplaceAllAbsent(s: string, d: Dict, formatValue: (Field, Option<string>) -> string,
                                            sanitizer: Sanitizer)
    requires WellFormedKeys(d)
    requires forall i | 0 <= i < |d| :: !Contains(s, d[i].key)
    ensures ReplaceAll(s, d, formatValue, sanitizer) == s
  {
    if d != [] {
      var init := d[..|d| - 1];
      ReplaceAllAbsent(s, init, formatValue, sanitizer);
      ReplaceAbsent(s, d[|d| - 1].key, ValueFor(d[|d| - 1], formatValue, sanitizer));
    }
  }

  /**
   * `ProcessReplaceFields` (the placeholder loop; reloading the row from the
   * database is not modelled): without a dictionary the text is returned as
   * it is; a missing sanitizer is rejected; otherwise every key is replaced
   * in dictionary order and the result sanitised once.
   */
  method ProcessReplaceFields(s: string, replaceFields: Option<Dict>,
                              formatValue: (Field, Option<string>) -> string, formatSanitizer: Option<Sanitizer>)
    returns (r: Result<string, UploadError>)
    requires replaceFields.Some? ==> WellFormedKeys(replaceFields.value)
    ensures replaceFields.None? ==> r == Ok(s)
    ensures replaceFields.Some? && formatSanitizer.None? ==> r == Err(ArgumentNull("formatSanitizer"))
    ensures replaceFields.Some? && formatSanitizer.Some? ==>
      r == Ok(formatSanitizer.value.sanitizeResult(ReplaceAll(s, replaceFields.value, formatValue, formatSanitizer.value)))
  {
    var result := s;
    if replaceFields.None? {
      return Ok(result);
    }
    if formatSanitizer.None? {
      return Err(ArgumentNull("formatSanitizer"));
    }
    var d := replaceFields.value;
    var sanitizer := formatSanitizer.value;
    var i := 0;
    while i < |d|
      invariant 0 <= i <= |d|
      invariant result == ReplaceAll(s, d[..i], formatValue, sanitizer)
    {
      var p := d[i];
      var key := p.key;
      var colon := IndexOf(key, ':');
      var value: string;
      var name: string;
      if colon >= 0 {
        name := key[1..colon];
        value := formatValue(p.field, Some(key[colon + 1..|key| - 1]));
      } else {
        name := key[1..|key| - 1];
        value := formatValue(p.field, None);
      }
      value := sanitizer.sanitizePlaceholder(name, value);
      assert value == ValueFor(p, formatValue, sanitizer);
      var next := i + 1;
      ReplaceAllSnoc(s, d, i, next, formatValue, sanitizer);
      result := Replace(result, key, value);
      i := next;
    }
    assert d[..|d|] == d;
    result := sanitizer.sanitizeResult(result);
    r := Ok(result);
  }
}
