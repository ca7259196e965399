/**
 * `FileUploadBehavior`: how it activates for an upload field of a row type,
 * and what it decides, field value by field value, when a row is saved or
 * deleted. The upload storage, the files-to-delete list and the request
 * handlers are objects whose state these operations change.
 */
module FileUploads {
  import opened Basics
  import opened Strings
  import opened UploadFormat

  // ---------------------------------------------------------------------
  // Collaborators
  // ---------------------------------------------------------------------

  /**
   * The part of `IUploadStorage` the behavior uses: which files exist, the
   * files copied to history by `ArchiveFile`, and the original-name
   * metadata `GetOriginalName` reads.
   */
  class UploadStorage {
    var files: set<string>
    var archived: seq<string>
    const originalNames: map<string, string>

    constructor (files: set<string>, originalNames: map<string, string>)
      ensures this.files == files && this.archived == [] && this.originalNames == originalNames
    {
      this.files := files;
      this.archived := [];
      this.originalNames := originalNames;
    }

    function FileExists(path: string): (r: bool)
      reads this
      ensures r <==> path in files
    {
      path in files
    }

    function GetOriginalName(path: string): (r: Option<string>)
      ensures r.Some? <==> path in originalNames
      ensures r.Some? ==> r.value == originalNames[path]
    {
      if path in originalNames then Some(originalNames[path]) else None
    }

    /** Copies a file to the history folder; the file itself stays. */
    method ArchiveFile(path: string)
      modifies this
      ensures archived == old(archived) + [path] && files == old(files)
    {
      archived := archived + [path];
    }
  }

  /** `FilesToDelete`: the old files to delete once the unit of work commits. */
  class FilesToDelete {
    const storage: UploadStorage
    var oldFiles: seq<string>

    constructor (storage: UploadStorage)
      ensures this.storage == storage && oldFiles == []
    {
      this.storage := storage;
      oldFiles := [];
    }

    method RegisterOldFile(path: string)
      modifies this
      ensures oldFiles == old(oldFiles) + [path]
    {
      oldFiles := oldFiles + [path];
    }
  }

  /**
   * What `OnBeforeSave` sees of an `ISaveRequestHandler`: whether the save
   * creates, the upload field's value in the old row, its value and the
   * original-name field's value in the row being saved, the files-to-delete
   * lists registered with the unit of work, and the state bag.
   */
  class SaveHandler {
    const isCreate: bool
    const oldFilename: Option<string>
    var filename: Option<string>
    var originalName: Option<string>
    var registeredFilesToDelete: seq<FilesToDelete>
    var stateBag: map<string, FilesToDelete>

    constructor (isCreate: bool, oldFilename: Option<string>, filename: Option<string>, originalName: Option<string>)
      ensures this.isCreate == isCreate && this.oldFilename == oldFilename
      ensures this.filename == filename && this.originalName == originalName
      ensures registeredFilesToDelete == [] && stateBag == map[]
    {
      this.isCreate := isCreate;
      this.oldFilename := oldFilename;
      this.filename := filename;
      this.originalName := originalName;
      registeredFilesToDelete := [];
      stateBag := map[];
    }
  }

  /**
   * What `OnAfterDelete` sees of an `IDeleteRequestHandler`: whether the row
   * is only marked deleted (`IIsActiveDeletedRow`, `IIsDeletedRow` or
   * `IDeleteLogRow`), the upload field's value, and the files-to-delete lists
   * registered with the unit of work.
   */
  class DeleteHandler {
    const softDelete: bool
    const filename: Option<string>
    var registeredFilesToDelete: seq<FilesToDelete>

    constructor (softDelete: bool, filename: Option<string>)
      ensures this.softDelete == softDelete && this.filename == filename && registeredFilesToDelete == []
    {
      this.softDelete := softDelete;
      this.filename := filename;
      registeredFilesToDelete := [];
    }
  }

  // ---------------------------------------------------------------------
  // Activation
  // ---------------------------------------------------------------------

  /** `Target.PropertyName ?? Target.Name`. */
  function PropertyOf(t: Field): string {
    if t.propertyName.Some? then t.propertyName.value else t.name
  }

  /** The target carries an upload editor that asks for the default single-file behavior. */
  predicate Handles(t: Field) {
    t.uploadEditor.Some? && !t.uploadEditor.value.disableDefaultBehavior && !t.uploadEditor.value.isMultiple
  }

  /** A handled target that is a string field on an `IIdRow`. */
  predicate Eligible(t: Field, row: RowType) {
    Handles(t) && t.isString && row.isIdRow
  }

  function OriginalNamePropertyOf(e: UploadEditor): Option<string> {
    if e.fileOptions.Some? then e.fileOptions.value.originalNameProperty else None
  }

  /**
   * The field that receives the uploaded file's original name: none when
   * the editor names no such property; a named field that is missing, or is
   * not a string field, is an error.
   */
  function OriginalNameFieldOf(t: Field, row: RowType): (r: Result<Option<Field>, UploadError>)
    requires Handles(t)
    ensures r == Ok(None) <==> IsNullOrEmpty(OriginalNamePropertyOf(t.uploadEditor.value))
    ensures r.Ok? && r.value.Some? ==>
      r.value.value.isString && row.findField(OriginalNamePropertyOf(t.uploadEditor.value).value) == r.value
  {
    var p := OriginalNamePropertyOf(t.uploadEditor.value);
    if IsNullOrEmpty(p) then Ok(None)
    else
      match row.findField(p.value)
      case None => Err(OriginalNameFieldNotFound(PropertyOf(t), row.fullName, p.value))
      case Some(f) => if f.isString then Ok(Some(f)) else Err(OriginalNameFieldNotString(p.value))
  }

  /** The fields `ActivateFor` assigns. */
  datatype Settings = Settings(
    editorAttr: Option<UploadEditor>, entityField: string, entityProperty: string,
    entityType: string, entityTable: string, originalNameField: Option<Field>,
    fileNameFormat: string, replaceFields: Option<Dict>)

  /**
   * What `ActivateFor` answers, and the settings it leaves, from the target,
   * the row type and the settings before: each check in the source's order,
   * each assignment made before the check that may stop it.
   */
  function Activate(target: Option<Field>, row: RowType, s: Settings): (Result<bool, UploadError>, Settings) {
    if target.None? then (Ok(false), s)
    else
      var t := target.value;
      var s1 := s.(editorAttr := t.uploadEditor);
      if !Handles(t) then (Ok(false), s1)
      else
        var s2 := s1.(entityField := t.name, entityProperty := PropertyOf(t));
        if !t.isString then (Err(NotStringField(PropertyOf(t), row.fullName)), s2)
        else if !row.isIdRow then (Err(NotIdRow(PropertyOf(t), row.fullName)), s2)
        else
          var s3 := s2.(entityType := row.fullName, entityTable := row.table);
          match OriginalNameFieldOf(t, row)
          case Err(e) => (Err(e), s3)
          case Ok(nameField) =>
            var s4 := s3.(originalNameField := if nameField.Some? then nameField else s3.originalNameField,
                          fileNameFormat := FileNameFormatOf(t.uploadEditor.value, row));
            match ReplaceFieldsOf(s4.fileNameFormat, row)
            case Err(e) => (Err(e), s4)
            case Ok(d) => (Ok(true), s4.(replaceFields := d))
  }

  /**
   * The behavior activates exactly for an eligible target whose original-name
   * field and filename format are both sound; it declines exactly a target
   * without a default upload editor. An activation records the target's
   * names, the row's table and type, the expanded format (which holds no
   * `~`) and the placeholders parsed from it; any other outcome leaves the
   * placeholders as they were.
   */
  lemma ActivationIff(t: Field, row: RowType, s: Settings)
    ensures Activate(Some(t), row, s).0 == Ok(true) <==>
      && Eligible(t, row)
      && OriginalNameFieldOf(t, row).Ok?
      && ReplaceFieldsOf(FileNameFormatOf(t.uploadEditor.value, row), row).Ok?
    ensures Activate(Some(t), row, s).0 == Ok(false) <==> !Handles(t)
    ensures Activate(Some(t), row, s).0 != Ok(true) ==> Activate(Some(t), row, s).1.replaceFields == s.replaceFields
    ensures Activate(Some(t), row, s).0 == Ok(true) ==>
      var a := Activate(Some(t), row, s).1;
      && a.editorAttr == t.uploadEditor && a.entityField == t.name && a.entityProperty == PropertyOf(t)
      && a.entityType == row.fullName && a.entityTable == row.table
      && a.fileNameFormat == FileNameFormatOf(t.uploadEditor.value, row) && '~' !in a.fileNameFormat
      && Ok(a.replaceFields) == ReplaceFieldsOf(a.fileNameFormat, row)
  {
    if Handles(t) {
      var e := t.uploadEditor.value;
      var format := if e.fileOptions.Some? && e.fileOptions.value.filenameFormat.Some?
                    then e.fileOptions.value.filenameFormat.value
                    else DefaultFilenameFormat(row.name);
      ExpandFormatProperties(format);
    }
  }

  /**
   * An eligible string field with no filename format and no original-name
   * property, on a row type whose name has no bar, activates with the
   * default format and no placeholders.
   */
  lemma DefaultActivation(t: Field, row: RowType, s: Settings)
    requires Eligible(t, row) && '|' !in row.name
    requires t.uploadEditor.value.fileOptions.None?
    ensures Activate(Some(t), row, s).0 == Ok(true)
    ensures FileNameFormatOf(t.uploadEditor.value, row) == ExpandFormat(DefaultFilenameFormat(row.name))
    ensures ReplaceFieldsOf(FileNameFormatOf(t.uploadEditor.value, row), row) == Ok(None)
  {
    DefaultFormatHasNoPlaceholders(row.name, row);
  }

  /** A filename format with an odd number of bars makes activation fail. */
  lemma OddBarsFailActivation(t: Field, row: RowType, s: Settings)
    requires Eligible(t, row) && OriginalNameFieldOf(t, row).Ok?
    requires Count(FileNameFormatOf(t.uploadEditor.value, row), '|') % 2 == 1
    ensures Activate(Some(t), row, s).0.Err?
  {
    OddBarsRejected(FileNameFormatOf(t.uploadEditor.value, row), row);
  }

  // ---------------------------------------------------------------------
  // Saving
  // ---------------------------------------------------------------------

  const TemporaryPrefix: string := "temporary/"

  /** What `OnBeforeSave` does with the field, from the old value and the trimmed new one. */
  datatype SaveDecision = KeepOld | ClearFile | RejectNotTemporary | AcceptTemporary(newFilename: string)

  function DecideSave(oldFilename: Option<string>, newFilename: Option<string>): SaveDecision {
    if IsTrimmedSame(oldFilename, newFilename) then KeepOld
    else if newFilename.None? then ClearFile
    else if !StartsWithIgnoreCase(newFilename.value, TemporaryPrefix) then RejectNotTemporary
    else AcceptTemporary(newFilename.value)
  }

  /** The old value is kept exactly when old and new agree once trimmed to null. */
  lemma KeepOldIff(oldFilename: Option<string>, filename: Option<string>)
    ensures DecideSave(oldFilename, TrimToNull(filename)) == KeepOld <==> TrimToNull(oldFilename) == TrimToNull(filename)
  {
    var n := TrimToNull(filename);
    TrimmedSameIffTrimToNullEqual(oldFilename, n);
    if n.Some? {
      TrimIdempotent(filename.value);
    }
  }

  /**
   * A filename is only ever cleared when there was a non-blank old one, so
   * clearing always registers that old file for deletion (and the early
   * return for a blank old filename in the clearing branch never runs).
   */
  lemma ClearingHasOldFile(oldFilename: Option<string>, filename: Option<string>)
    requires DecideSave(oldFilename, TrimToNull(filename)) == ClearFile
    ensures !IsNullOrWhiteSpace(oldFilename) && !IsNullOrEmpty(oldFilename)
  {
    if oldFilename.Some? {
      TrimEmptyIffWhiteSpace(oldFilename.value);
    }
  }

  /** An accepted new filename is a trimmed, non-blank name under `temporary/`, unlike the old one. */
  lemma AcceptedIsTemporary(oldFilename: Option<string>, filename: Option<string>)
    requires DecideSave(oldFilename, TrimToNull(filename)).AcceptTemporary?
    ensures var n := DecideSave(oldFilename, TrimToNull(filename)).newFilename;
      && StartsWithIgnoreCase(n, TemporaryPrefix) && n == Trim(filename.value) && n != []
      && TrimToNull(oldFilename) != Some(n)
  {
    KeepOldIff(oldFilename, filename);
  }

  /**
   * The state bag key under which `OnBeforeSave` leaves its files-to-delete
   * list for `OnAfterSave`. The source builds it from the behaviour's
   * run-time type name; the model fixes the name of the behaviour itself,
   * so a subclass is not modelled.
   */
  const BehaviorTypeName: string := "Serenity.Services.FileUploadBehavior"

  function FilesToDeleteKey(targetName: string): string {
    BehaviorTypeName + "_" + targetName + "_FilesToDelete"
  }

  /** The upload field's value before the save: none for a create. */
  function OldFilenameOf(h: SaveHandler): Option<string> {
    if h.isCreate then None else h.oldFilename
  }

  /** The old files `DeleteOldFile` registers: the old filename, unless it is null or empty. */
  function OldFilesOf(oldFilename: Option<string>): (r: seq<string>)
    ensures |r| <= 1
    ensures r != [] <==> !IsNullOrEmpty(oldFilename)
  {
    if IsNullOrEmpty(oldFilename) then [] else [oldFilename.value]
  }

  // ---------------------------------------------------------------------
  // The behavior
  // ---------------------------------------------------------------------

  class FileUploadBehavior {
    var target: Option<Field>
    var editorAttr: Option<UploadEditor>
    var fileNameFormat: string
    var originalNameField: Option<Field>
    var replaceFields: Option<Dict>
    var entityTable: string
    var entityType: string
    var entityProperty: string
    var entityField: string
    const storage: UploadStorage
    const uploadProcessor: object
    const formatSanitizer: Sanitizer

    constructor (storage: UploadStorage, uploadProcessor: object, formatSanitizer: Sanitizer)
      ensures this.storage == storage && this.uploadProcessor == uploadProcessor
      ensures this.formatSanitizer == formatSanitizer
      ensures target == None && editorAttr == None && originalNameField == None && replaceFields == None
      ensures fileNameFormat == [] && entityTable == [] && entityType == [] && entityProperty == [] && entityField == []
    {
      this.storage := storage;
      this.uploadProcessor := uploadProcessor;
      this.formatSanitizer := formatSanitizer;
      target := None;
      editorAttr := None;
      fileNameFormat := [];
      originalNameField := None;
      replaceFields := None;
      entityTable := [];
      entityType := [];
      entityProperty := [];
      entityField := [];
    }

    /**
     * The primary constructor: a null storage or upload processor is
     * rejected, in that order; a missing sanitizer falls back to the default.
     */
    static method Create(storage: UploadStorage?, uploadProcessor: object?, formatSanitizer: Option<Sanitizer>,
                         defaultSanitizer: Sanitizer)
      returns (r: Result<FileUploadBehavior, UploadError>)
      ensures storage == null ==> r == Err(ArgumentNull("storage"))
      ensures storage != null && uploadProcessor == null ==> r == Err(ArgumentNull("uploadProcessor"))
      ensures storage != null && uploadProcessor != null ==>
        && r.Ok? && fresh(r.value) && r.value.storage == storage && r.value.target == None
        && r.value.formatSanitizer == (if formatSanitizer.Some? then formatSanitizer.value else defaultSanitizer)
    {
      if storage == null {
        return Err(ArgumentNull("storage"));
      }
      if uploadProcessor == null {
        return Err(ArgumentNull("uploadProcessor"));
      }
      var sanitizer := if formatSanitizer.Some? then formatSanitizer.value else defaultSanitizer;
      var b := new FileUploadBehavior(storage, uploadProcessor, sanitizer);
      r := Ok(b);
    }

    /** `editorAttr is IUploadFileOptions { CopyToHistory: true }`. */
    predicate CopyToHistory()
      reads this
    {
      editorAttr.Some? && editorAttr.value.fileOptions.Some? && editorAttr.value.fileOptions.value.copyToHistory
    }

    /** The fields `ActivateFor` assigns, as they stand. */
    function Current(): Settings
      reads this
    {
      Settings(editorAttr, entityField, entityProperty, entityType, entityTable, originalNameField,
               fileNameFormat, replaceFields)
    }

    /** `ActivateFor`, step by step as `Activate` describes it. */
    method ActivateFor(row: RowType) returns (r: Result<bool, UploadError>)
      modifies this`editorAttr, this`entityField, this`entityProperty, this`entityType, this`entityTable,
               this`originalNameField, this`fileNameFormat, this`replaceFields
      ensures (r, Current()) == Activate(target, row, old(Current()))
    {
      if target.None? {
        return Ok(false);
      }
      var t := target.value;
      editorAttr := t.uploadEditor;
      if editorAttr.None? || editorAttr.value.disableDefaultBehavior || editorAttr.value.isMultiple {
        return Ok(false);
      }
      var editor := editorAttr.value;
      entityField := t.name;
      entityProperty := if t.propertyName.Some? then t.propertyName.value else entityField;
      if !t.isString {
        return Err(NotStringField(entityProperty, row.fullName));
      }
      if !row.isIdRow {
        return Err(NotIdRow(entityProperty, row.fullName));
      }
      entityType := row.fullName;
      entityTable := row.table;
      ghost var checked := Current();
      assert checked == old(Current()).(editorAttr := t.uploadEditor, entityField := t.name,
        entityProperty := PropertyOf(t), entityType := row.fullName, entityTable := row.table);
      var originalNameProperty := if editor.fileOptions.Some? then editor.fileOptions.value.originalNameProperty else None;
      if !IsNullOrEmpty(originalNameProperty) {
        var nameField := row.findField(originalNameProperty.value);
        if nameField.None? {
          return Err(OriginalNameFieldNotFound(PropertyOf(t), row.fullName, originalNameProperty.value));
        }
        if !nameField.value.isString {
          return Err(OriginalNameFieldNotString(originalNameProperty.value));
        }
        originalNameField := nameField;
      }
      assert OriginalNameFieldOf(t, row).Ok?;
      fileNameFormat := FileNameFormatOf(editor, row);
      ghost var formatted := Current();
      assert formatted == checked.(originalNameField := formatted.originalNameField, fileNameFormat := fileNameFormat);
      var parsed := ParseReplaceFields(fileNameFormat, row);
      if parsed.Err? {
        return Err(parsed.error);
      }
      replaceFields := parsed.value;
      return Ok(true);
    }

    /**
     * `DeleteOldFile`: a non-empty old filename is registered for deletion
     * and, when asked to copy to history, archived if it exists.
     */
    static method DeleteOldFile(storage: UploadStorage, filesToDelete: FilesToDelete, oldFilename: Option<string>,
                                copyToHistory: bool)
      modifies storage, filesToDelete
      ensures filesToDelete.oldFiles == old(filesToDelete.oldFiles) + OldFilesOf(oldFilename)
      ensures storage.files == old(storage.files)
      ensures storage.archived == old(storage.archived) +
        if !IsNullOrEmpty(oldFilename) && copyToHistory && oldFilename.value in old(storage.files)
        then [oldFilename.value] else []
    {
      if !IsNullOrEmpty(oldFilename) {
        filesToDelete.RegisterOldFile(oldFilename.value);
        if copyToHistory {
          if storage.FileExists(oldFilename.value) {
            storage.ArchiveFile(oldFilename.value);
          }
        }
      }
    }

    /**
     * `OnBeforeSave`: registers a fresh files-to-delete list with the unit of
     * work and the state bag, then acts as `DecideSave` says. Unless the old
     * value is kept, the old file goes to `DeleteOldFile`. On an update an
     * accepted temporary file is copied to its final place, whose path
     * `copiedPath` stands for.
     */
    method OnBeforeSave(handler: SaveHandler, copiedPath: string)
      returns (r: Outcome<UploadError>, filesToDelete: FilesToDelete)
      requires target.Some?
      modifies handler, storage
      ensures fresh(filesToDelete) && filesToDelete.storage == storage
      ensures handler.registeredFilesToDelete == old(handler.registeredFilesToDelete) + [filesToDelete]
      ensures handler.stateBag == old(handler.stateBag)[FilesToDeleteKey(target.value.name) := filesToDelete]
      ensures filesToDelete.oldFiles ==
        if DecideSave(OldFilenameOf(handler), TrimToNull(old(handler.filename))) == KeepOld then []
        else OldFilesOf(OldFilenameOf(handler))
      ensures storage.files == old(storage.files)
      ensures
        var oldFilename := OldFilenameOf(handler);
        storage.archived == old(storage.archived) +
          if DecideSave(oldFilename, TrimToNull(old(handler.filename))) != KeepOld && !IsNullOrEmpty(oldFilename)
             && CopyToHistory() && oldFilename.value in old(storage.files)
          then [oldFilename.value] else []
      ensures
        match DecideSave(OldFilenameOf(handler), TrimToNull(old(handler.filename)))
        case KeepOld =>
          r == Pass && handler.filename == OldFilenameOf(handler) && handler.originalName == old(handler.originalName)
        case ClearFile =>
          && r == Pass && handler.filename == None
          && handler.originalName == (if originalNameField.Some? then None else old(handler.originalName))
        case RejectNotTemporary =>
          && r == Fail(NotTemporary) && handler.filename == TrimToNull(old(handler.filename))
          && handler.originalName == old(handler.originalName)
        case AcceptTemporary(name) =>
          && r == Pass
          && handler.filename == (if handler.isCreate then Some(name) else Some(copiedPath))
          && handler.originalName ==
               if originalNameField.Some? then TrimToNull(storage.GetOriginalName(name)) else old(handler.originalName)
    {
      filesToDelete := new FilesToDelete(storage);
      handler.registeredFilesToDelete := handler.registeredFilesToDelete + [filesToDelete];
      handler.stateBag := handler.stateBag[FilesToDeleteKey(target.value.name) := filesToDelete];

      var oldFilename := if handler.isCreate then None else handler.oldFilename;
      assert oldFilename == OldFilenameOf(handler);
      var newFilename := TrimToNull(handler.filename);
      handler.filename := newFilename;

      if IsTrimmedSame(oldFilename, newFilename) {
        handler.filename := oldFilename;
        return Pass, filesToDelete;
      }

      DeleteOldFile(storage, filesToDelete, oldFilename, CopyToHistory());

      if newFilename.None? {
        ClearingHasOldFile(oldFilename, old(handler.filename));
        // the source returns here for a blank old filename; that cannot happen
        assert !IsNullOrWhiteSpace(oldFilename);
        handler.filename := None;
        if originalNameField.Some? {
          handler.originalName := None;
        }
        return Pass, filesToDelete;
      }

      if !StartsWithIgnoreCase(newFilename.value, TemporaryPrefix) {
        return Fail(NotTemporary), filesToDelete;
      }

      if originalNameField.Some? {
        handler.originalName := TrimToNull(storage.GetOriginalName(newFilename.value));
      }

      if !handler.isCreate {
        handler.filename := Some(copiedPath);
      }
      return Pass, filesToDelete;
    }

    /**
     * `OnAfterDelete`: nothing for a row that is only marked deleted;
     * otherwise a fresh files-to-delete list is registered and the row's
     * file goes to `DeleteOldFile`.
     */
    method OnAfterDelete(handler: DeleteHandler)
      modifies handler, storage
      ensures handler.softDelete ==>
        handler.registeredFilesToDelete == old(handler.registeredFilesToDelete) && storage.archived == old(storage.archived)
      ensures storage.files == old(storage.files)
      ensures !handler.softDelete ==>
        var n := |old(handler.registeredFilesToDelete)|;
        && |handler.registeredFilesToDelete| == n + 1
        && handler.registeredFilesToDelete[..n] == old(handler.registeredFilesToDelete)
        && var f := handler.registeredFilesToDelete[n];
        && fresh(f) && f.storage == storage && f.oldFiles == OldFilesOf(handler.filename)
        && storage.archived == old(storage.archived) +
             (if !IsNullOrEmpty(handler.filename) && CopyToHistory() && handler.filename.value in old(storage.files)
              then [handler.filename.value] else [])
    {
      if handler.softDelete {
        return;
      }
      var oldFilename := handler.filename;
      var filesToDelete := new FilesToDelete(storage);
      handler.registeredFilesToDelete := handler.registeredFilesToDelete + [filesToDelete];
      DeleteOldFile(storage, filesToDelete, oldFilename, CopyToHistory());
    }
  }
}
