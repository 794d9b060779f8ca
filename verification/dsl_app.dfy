/** The application state of the schema-language snapshot (`src/app.rs`):
    the empty selection built from a schema, cycling through the files of
    the working directory, assembling the new name of the active file, and
    recording a rename. Paths are strings; the random file id, the file
    extension and the rename target are supplied by the caller. */
module DslApp {
  import opened Wrappers
  import opened Strings
  import opened DslSyntax
  import opened DslFilename

  datatype AppConfig = AppConfig(
    workingDir: string,
    schema: Schema,
    active: nat,
    fileId: string,
    uiState: State,
    files: seq<string>)

  /** Every keyword paired with "not selected". */
  function Unselected(kws: seq<Keyword>): (r: seq<(Keyword, bool)>)
    ensures |r| == |kws|
  {
    seq(|kws|, i requires 0 <= i < |kws| => (kws[i], false))
  }

  /** `to_empty_state`: the schema's categories, in order, with nothing selected. */
  function ToEmptyState(schema: Schema): (r: State)
    ensures |r| == |schema.categories|
  {
    seq(|schema.categories|, i requires 0 <= i < |schema.categories| =>
      (schema.categories[i].0, Unselected(schema.categories[i].1)))
  }

  function KeywordsIn(kws: seq<(Keyword, bool)>): seq<Keyword> {
    seq(|kws|, j requires 0 <= j < |kws| => kws[j].0)
  }

  /** The schema a state was built from: its categories with their keywords. */
  function Forget(state: State): seq<(Category, seq<Keyword>)> {
    seq(|state|, i requires 0 <= i < |state| => (state[i].0, KeywordsIn(state[i].1)))
  }

  /** The empty state keeps every category and keyword in order, and
      selects nothing. */
  lemma EmptyStateShape(schema: Schema)
    ensures Forget(ToEmptyState(schema)) == schema.categories
    ensures forall i | 0 <= i < |schema.categories| :: SelectedIds(ToEmptyState(schema)[i].1) == []
  {
    var st := ToEmptyState(schema);
    forall i | 0 <= i < |schema.categories|
      ensures Forget(st)[i] == schema.categories[i]
      ensures SelectedIds(st[i].1) == []
    {
      NothingSelected(st[i].1);
      assert KeywordsIn(st[i].1) == schema.categories[i].1;
    }
  }

  lemma {:induction false} NothingSelected(kws: seq<(Keyword, bool)>)
    requires forall j | 0 <= j < |kws| :: !kws[j].1
    ensures SelectedIds(kws) == []
    decreases |kws|
  {
    if |kws| > 0 {
      NothingSelected(kws[1..]);
    }
  }

  /** Naming a file straight after loading writes only placeholders, and
      succeeds exactly when every requirement admits no selection. */
  lemma EmptyStateGenerates(schema: Schema)
    ensures Generate(schema, ToEmptyState(schema)).Success? <==>
              forall i | 0 <= i < |schema.categories| :: !Violates(schema.categories[i].0.requirement, 0)
    ensures Tokens(schema.empty, ToEmptyState(schema)) == seq(|schema.categories|, i => schema.empty)
  {
    var st := ToEmptyState(schema);
    EmptyStateShape(schema);
    GenerateMeans(schema, st);
    assert forall i | 0 <= i < |st| :: st[i].0 == schema.categories[i].0;
    PlaceholdersOnly(schema.empty, st);
  }

  lemma {:induction false} PlaceholdersOnly(empty: string, state: State)
    requires forall i | 0 <= i < |state| :: SelectedIds(state[i].1) == []
    ensures Tokens(empty, state) == seq(|state|, i => empty)
    decreases |state|
  {
    if |state| > 0 {
      assert forall i | 0 <= i < |state[1..]| :: state[1..][i] == state[i + 1];
      PlaceholdersOnly(empty, state[1..]);
    }
  }

  /** `next`: the following file, wrapping from the last to the first; the
      file id is regenerated (here: supplied). The source subtracts one from
      the file count, so it needs at least one file. */
  function Next(app: AppConfig, newId: string): (r: AppConfig)
    requires |app.files| > 0
  {
    var active := if app.active >= |app.files| - 1 then 0 else app.active + 1;
    app.(active := active, fileId := newId)
  }

  /** `prev`: the preceding file, wrapping from the first to the last. */
  function Prev(app: AppConfig, newId: string): (r: AppConfig)
    requires |app.files| > 0
  {
    var active := if app.active == 0 then |app.files| - 1 else app.active - 1;
    app.(active := active, fileId := newId)
  }

  /** `next` and `prev` move one step around the cycle of files, keep the
      active index in range, change only it and the id, and undo each other. */
  lemma NextPrevCycle(app: AppConfig, id1: string, id2: string)
    requires |app.files| > 0 && app.active < |app.files|
    ensures Next(app, id1).active < |app.files| && Prev(app, id1).active < |app.files|
    ensures Next(app, id1).active == (app.active + 1) % |app.files|
    ensures (Prev(app, id1).active + 1) % |app.files| == app.active
    ensures Next(app, id1).(active := app.active, fileId := app.fileId) == app
    ensures Prev(app, id1).(active := app.active, fileId := app.fileId) == app
    ensures Prev(Next(app, id1), id2).active == app.active
    ensures Next(Prev(app, id1), id2).active == app.active
  {
  }

  /** The extension part of the new name: `.` and the extension, if any. */
  function ExtensionText(ext: Option<string>): string {
    match ext
    case Some(e) => "." + e
    case None => ""
  }

  /** `mk_filename`: the file id, the delimiter, the generated name and the
      extension of the active file; or, when generation fails, the error's
      message. */
  function MkFilename(app: AppConfig, ext: Option<string>, showRequirement: Requirement -> string): string {
    match Generate(app.schema, app.uiState)
    case Success(name) => app.fileId + app.schema.delim + name + ExtensionText(ext)
    case Failure(e) => GenerateErrorMessage(e, showRequirement)
  }

  /** With a one-character delimiter the new name is the file id followed
      by every token of the selection, joined by the delimiter, then the
      extension (with no categories at all, the id keeps a trailing
      delimiter); a violated requirement gives the first violation's message. */
  lemma MkFilenameMeans(app: AppConfig, ext: Option<string>, showRequirement: Requirement -> string)
    requires |app.schema.delim| == 1
    ensures |app.uiState| == 0 ==> MkFilename(app, ext, showRequirement) == app.fileId + app.schema.delim + ExtensionText(ext)
    ensures Satisfied(app.uiState) && |app.uiState| > 0 ==>
              MkFilename(app, ext, showRequirement)
              == Join([app.fileId] + Tokens(app.schema.empty, app.uiState), app.schema.delim) + ExtensionText(ext)
    ensures !Satisfied(app.uiState) ==>
              exists k | 0 <= k < |app.uiState| ::
                MkFilename(app, ext, showRequirement) == GenerateErrorMessage(MismatchAt(app.uiState, k), showRequirement)
                && Satisfied(app.uiState[..k])
  {
    var d := app.schema.delim;
    var ts := Tokens(app.schema.empty, app.uiState);
    GenerateMeans(app.schema, app.uiState);
    if Satisfied(app.uiState) {
      if |app.uiState| > 0 {
        TokensNonEmpty(app.schema.empty, app.uiState);
        assert ([app.fileId] + ts)[1..] == ts;
        JoinLed([app.fileId] + ts, d);
        JoinLed(ts, d);
        assert Led(ts, d) == d + ts[0] + Led(ts[1..], d) by {
          assert ts == [ts[0]] + ts[1..];
        }
      } else {
        assert app.fileId + d + "" == app.fileId + d;
      }
    } else {
      GenerateFirstError(app.schema, app.uiState);
    }
  }

  /** `apply_rename`'s bookkeeping: the active file's entry becomes the new
      path and nothing else changes. */
  function ApplyRename(app: AppConfig, to: string): (r: AppConfig)
    requires app.active < |app.files|
    ensures |r.files| == |app.files| && r.files[app.active] == to
    ensures forall i | 0 <= i < |app.files| && i != app.active :: r.files[i] == app.files[i]
    ensures r.(files := app.files) == app
  {
    app.(files := app.files[app.active := to])
  }
}
