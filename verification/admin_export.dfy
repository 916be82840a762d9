/** The admin spreadsheet export of `core/admin.py`: one sheet per selected
    model, headed by the labels of the model admin's `list_display` columns
    and filled with the formatted values of at most 5000 objects in
    ascending primary-key order. A workbook is reduced to its sheets: titles,
    rows of cells and column widths. */
module AdminExport {
  import opened Wrappers
  import opened Sequences
  import opened Models
  import opened AdminFormat
  import Views

  // ---------------------------------------------------------------------
  // Model admins

  /** An object of the admin's queryset: its primary key and, per column
      name, the value `lookup_field` resolves. A column missing from
      `fields` is one whose lookup raises. */
  datatype Obj = Obj(id: nat, fields: map<string, Value>)

  /** A registered model admin: the model's `app_label` and `model_name`,
      its `list_display` columns, the labels `label_for_field` finds (a
      column without one is a lookup that raises) and the queryset. */
  datatype ModelAdmin = ModelAdmin(appLabel: string, modelName: string,
                                   listDisplay: seq<string>,
                                   labels: map<string, string>,
                                   queryset: seq<Obj>)

  /** The label of a model of the `core` app, such as `core.Event`. */
  function CoreLabel(name: string): string { "core." + name }

  /** The models the export offers, in the order of the form's choices. */
  const ExportLabels: seq<string> :=
    [CoreLabel("Category"), CoreLabel("Event"), CoreLabel("VolunteerApplication"), CoreLabel("EventLike")]

  /** The most objects exported per model. */
  const MaxRows: nat := 5000

  /** The longest sheet title a workbook accepts. */
  const MaxTitle: nat := 31

  // ---------------------------------------------------------------------
  // Columns, headers and rows

  /** The header of one column: its label, or the column name itself when
      no label can be found. */
  function Header(ma: ModelAdmin, col: string): string {
    if col in ma.labels then ma.labels[col] else col
  }

  /** `_get_admin_columns_and_headers`: the `list_display` columns and one
      header per column. */
  method ColumnsAndHeaders(ma: ModelAdmin) returns (columns: seq<string>, headers: seq<string>)
    ensures columns == ma.listDisplay
    ensures |headers| == |columns|
    ensures forall i :: 0 <= i < |columns| ==>
              (columns[i] in ma.labels ==> headers[i] == ma.labels[columns[i]])
              && (columns[i] !in ma.labels ==> headers[i] == columns[i])
  {
    columns := ma.listDisplay;
    headers := [];
    var i := 0;
    while i < |columns|
      invariant 0 <= i <= |columns|
      invariant |headers| == i
      invariant forall k :: 0 <= k < i ==> headers[k] == Header(ma, columns[k])
    {
      headers := headers + [Header(ma, columns[i])];
      i := i + 1;
    }
  }

  /** The value a column resolves to on an object; a failed lookup is the
      empty string. */
  function Lookup(obj: Obj, col: string): Value {
    if col in obj.fields then obj.fields[col] else Plain(Text(""))
  }

  /** `_get_admin_row_values`: one formatted cell per column, an empty
      text cell where the lookup fails. */
  method RowValues(obj: Obj, columns: seq<string>, loc: Locale) returns (row: seq<Scalar>)
    ensures |row| == |columns|
    ensures forall i :: 0 <= i < |columns| && columns[i] in obj.fields ==>
              row[i] == FormatValue(obj.fields[columns[i]], loc)
    ensures forall i :: 0 <= i < |columns| && columns[i] !in obj.fields ==> row[i] == Text("")
  {
    row := [];
    var i := 0;
    while i < |columns|
      invariant 0 <= i <= |columns|
      invariant |row| == i
      invariant forall k :: 0 <= k < i ==> row[k] == FormatValue(Lookup(obj, columns[k]), loc)
    {
      row := row + [FormatValue(Lookup(obj, columns[i]), loc)];
      i := i + 1;
    }
  }

  // ---------------------------------------------------------------------
  // Sheet layout

  /** `s.split(".")[-1]`: the part of `s` after its last dot, or all of `s`
      when it has none. */
  function AfterLastDot(s: string): (r: string)
    ensures '.' !in r
    ensures |r| <= |s| && r == s[|s| - |r|..]
    ensures |r| < |s| ==> s[|s| - |r| - 1] == '.'
  {
    if |s| == 0 then ""
    else if s[|s| - 1] == '.' then ""
    else
      var r := AfterLastDot(s[..|s| - 1]);
      assert s[..|s| - 1][|s| - 1 - |r|..] + [s[|s| - 1]] == s[|s| - |r| - 1..];
      r + [s[|s| - 1]]
  }

  /** A dotted label splits back into its last segment. */
  lemma {:induction false} AfterLastDotOfJoin(pre: string, name: string)
    requires '.' !in name
    ensures AfterLastDot(pre + "." + name) == name
    decreases |name|
  {
    var s := pre + "." + name;
    if |name| == 0 {
      assert s[|s| - 1] == '.';
    } else {
      var init := name[..|name| - 1];
      assert s[..|s| - 1] == pre + "." + init;
      assert '.' !in init by {
        forall k | 0 <= k < |init| ensures init[k] != '.' {
          assert init[k] == name[k];
        }
      }
      AfterLastDotOfJoin(pre, init);
      assert s[|s| - 1] == name[|name| - 1];
      assert name == init + [name[|name| - 1]];
    }
  }

  /** The sheet title of a model label: its last dotted segment cut to the
      title limit. */
  function SheetTitle(modelLabel: string): (r: string)
    ensures |r| <= MaxTitle
    ensures '.' !in r
    ensures |r| <= |AfterLastDot(modelLabel)| && r == AfterLastDot(modelLabel)[..|r|]
    ensures |AfterLastDot(modelLabel)| <= MaxTitle ==> r == AfterLastDot(modelLabel)
    ensures |r| == if |AfterLastDot(modelLabel)| <= MaxTitle then |AfterLastDot(modelLabel)| else MaxTitle
  {
    var name := AfterLastDot(modelLabel);
    TakeOfDotFree(name);
    Take(name, MaxTitle)
  }

  /** A cut of a dot-free name is a dot-free prefix of it. */
  lemma TakeOfDotFree(name: string)
    requires '.' !in name
    ensures var r := Take(name, MaxTitle); '.' !in r && r == name[..|r|]
  {
    var r := Take(name, MaxTitle);
    forall i | 0 <= i < |r| ensures r[i] != '.' {
      assert r[i] == name[i] && name[i] in name;
    }
  }

  /** A model's sheet is titled by the class name after the app label,
      when that fits the title limit. */
  lemma SheetTitleOfCoreLabel(name: string)
    requires '.' !in name && |name| <= MaxTitle
    ensures SheetTitle(CoreLabel(name)) == name
  {
    assert CoreLabel(name) == "core" + "." + name;
    AfterLastDotOfJoin("core", name);
  }

  /** Every offered model is titled by its class name. */
  lemma ExportSheetTitles()
    ensures SheetTitle(ExportLabels[0]) == "Category"
    ensures SheetTitle(ExportLabels[1]) == "Event"
    ensures SheetTitle(ExportLabels[2]) == "VolunteerApplication"
    ensures SheetTitle(ExportLabels[3]) == "EventLike"
  {
    SheetTitleOfCoreLabel("Category");
    SheetTitleOfCoreLabel("Event");
    SheetTitleOfCoreLabel("VolunteerApplication");
    SheetTitleOfCoreLabel("EventLike");
  }

  /** The width of a column: six more than its header's length, kept
      between 12 and 45. */
  function ColumnWidth(header: string): (w: int)
    ensures 12 <= w <= 45
    ensures 6 <= |header| <= 39 ==> w == |header| + 6
    ensures |header| < 6 ==> w == 12
    ensures |header| > 39 ==> w == 45
  {
    var w := |header| + 6;
    if w < 12 then 12 else if w > 45 then 45 else w
  }

  // ---------------------------------------------------------------------
  // The exported objects

  function ObjId(o: Obj): int { o.id }

  /** `get_queryset().order_by("id")[:5000]`. */
  function ExportedObjects(ma: ModelAdmin): (objs: seq<Obj>)
    ensures |objs| <= MaxRows && |objs| <= |ma.queryset|
  {
    Take(SortBy(ma.queryset, ObjId), MaxRows)
  }

  /** The exported objects come in ascending id order, none of them is
      invented, all of them are exported when there are at most 5000, and
      an object left out has an id no smaller than any exported one. */
  lemma ExportedObjectsAreSmallestIds(ma: ModelAdmin)
    ensures var objs := ExportedObjects(ma);
            && (forall i, j :: 0 <= i < j < |objs| ==> objs[i].id <= objs[j].id)
            && multiset(objs) <= multiset(ma.queryset)
            && (|ma.queryset| <= MaxRows ==> multiset(objs) == multiset(ma.queryset))
            && (|ma.queryset| > MaxRows ==> |objs| == MaxRows)
            && (forall x, y :: x in objs && y in ma.queryset && y !in objs ==> x.id <= y.id)
  {
    var sorted := SortBy(ma.queryset, ObjId);
    var objs := ExportedObjects(ma);
    assert objs == sorted[..|objs|];
    assert sorted == objs + sorted[|objs|..];
    assert multiset(sorted) == multiset(objs) + multiset(sorted[|objs|..]);
    forall i, j | 0 <= i < j < |objs| ensures objs[i].id <= objs[j].id {
      assert ObjId(sorted[i]) <= ObjId(sorted[j]);
    }
    LeftOutIdsAreNotSmaller(ma);
  }

  /** The cut at 5000 rows falls in id order: whatever is left out has an
      id no smaller than anything kept. */
  lemma LeftOutIdsAreNotSmaller(ma: ModelAdmin)
    ensures var objs := ExportedObjects(ma);
            forall x, y :: x in objs && y in ma.queryset && y !in objs ==> x.id <= y.id
  {
    var sorted := SortBy(ma.queryset, ObjId);
    var objs := ExportedObjects(ma);
    forall x, y | x in objs && y in ma.queryset && y !in objs ensures x.id <= y.id {
      var i :| 0 <= i < |objs| && objs[i] == x;
      assert y in multiset(sorted);
      var j :| 0 <= j < |sorted| && sorted[j] == y;
      assert forall k :: 0 <= k < |objs| ==> sorted[k] != y;
      assert j >= |objs|;
      assert ObjId(sorted[i]) <= ObjId(sorted[j]);
    }
  }

  // ---------------------------------------------------------------------
  // One sheet

  /** A worksheet: its title, its header row, one row per exported object
      and the width of each header's column. */
  datatype Sheet = Sheet(title: string, header: seq<Scalar>, data: seq<seq<Scalar>>, widths: seq<int>)

  /** `sheet` is the sheet exported for `modelLabel` from `ma`: the title,
      the header row, one row per exported object with one formatted cell
      per column, and one width per header. */
  predicate IsSheetFor(sheet: Sheet, ma: ModelAdmin, modelLabel: string, loc: Locale) {
    var cols := ma.listDisplay;
    var objs := ExportedObjects(ma);
    && sheet.title == SheetTitle(modelLabel)
    && |sheet.header| == |cols|
    && (forall i :: 0 <= i < |cols| ==> sheet.header[i] == Text(Header(ma, cols[i])))
    && |sheet.data| == |objs|
    && (forall k :: 0 <= k < |objs| ==> IsRowFor(sheet.data[k], objs[k], cols, loc))
    && |sheet.widths| == |cols|
    && (forall i :: 0 <= i < |cols| ==> sheet.widths[i] == ColumnWidth(Header(ma, cols[i])))
  }

  /** `row` holds the formatted value of each column on `obj`. */
  predicate IsRowFor(row: seq<Scalar>, obj: Obj, cols: seq<string>, loc: Locale) {
    |row| == |cols| && forall i :: 0 <= i < |cols| ==> row[i] == FormatValue(Lookup(obj, cols[i]), loc)
  }

  /** The description of a sheet leaves nothing open: two sheets exported
      for the same model admin and label are equal. */
  lemma SheetIsDetermined(s1: Sheet, s2: Sheet, ma: ModelAdmin, modelLabel: string, loc: Locale)
    requires IsSheetFor(s1, ma, modelLabel, loc) && IsSheetFor(s2, ma, modelLabel, loc)
    ensures s1 == s2
  {
    var cols := ma.listDisplay;
    var objs := ExportedObjects(ma);
    assert s1.header == s2.header by {
      forall i | 0 <= i < |cols| ensures s1.header[i] == s2.header[i] {
        assert s1.header[i] == Text(Header(ma, cols[i]));
      }
    }
    assert s1.widths == s2.widths by {
      forall i | 0 <= i < |cols| ensures s1.widths[i] == s2.widths[i] {
        assert s1.widths[i] == ColumnWidth(Header(ma, cols[i]));
      }
    }
    assert s1.data == s2.data by {
      forall k | 0 <= k < |objs| ensures s1.data[k] == s2.data[k] {
        RowIsDetermined(s1.data[k], s2.data[k], objs[k], cols, loc);
      }
    }
  }

  lemma RowIsDetermined(r1: seq<Scalar>, r2: seq<Scalar>, obj: Obj, cols: seq<string>, loc: Locale)
    requires IsRowFor(r1, obj, cols, loc) && IsRowFor(r2, obj, cols, loc)
    ensures r1 == r2
  {
    assert forall i :: 0 <= i < |cols| ==> r1[i] == r2[i];
  }

  /** The header row of `ma`'s sheet. */
  function HeaderRow(ma: ModelAdmin): seq<Scalar> {
    seq(|ma.listDisplay|, i requires 0 <= i < |ma.listDisplay| => Text(Header(ma, ma.listDisplay[i])))
  }

  /** The row of `obj` under the columns `cols`. */
  function RowFor(obj: Obj, cols: seq<string>, loc: Locale): seq<Scalar> {
    seq(|cols|, i requires 0 <= i < |cols| => FormatValue(Lookup(obj, cols[i]), loc))
  }

  /** One row per exported object. */
  function DataRows(ma: ModelAdmin, loc: Locale): seq<seq<Scalar>> {
    var objs := ExportedObjects(ma);
    seq(|objs|, k requires 0 <= k < |objs| => RowFor(objs[k], ma.listDisplay, loc))
  }

  /** The width of each column, from its header. */
  function Widths(ma: ModelAdmin): seq<int> {
    seq(|ma.listDisplay|, i requires 0 <= i < |ma.listDisplay| => ColumnWidth(Header(ma, ma.listDisplay[i])))
  }

  /** The sheet exported for `modelLabel` from `ma`, built in one piece. */
  function SheetFor(ma: ModelAdmin, modelLabel: string, loc: Locale): Sheet {
    Sheet(SheetTitle(modelLabel), HeaderRow(ma), DataRows(ma, loc), Widths(ma))
  }

  /** The one-piece sheet meets the description, so by `SheetIsDetermined`
      it is the only sheet that does. */
  lemma SheetForMeetsDescription(ma: ModelAdmin, modelLabel: string, loc: Locale)
    ensures IsSheetFor(SheetFor(ma, modelLabel, loc), ma, modelLabel, loc)
  {
    var sheet, objs := SheetFor(ma, modelLabel, loc), ExportedObjects(ma);
    forall k | 0 <= k < |objs| ensures IsRowFor(sheet.data[k], objs[k], ma.listDisplay, loc) {
      assert sheet.data[k] == RowFor(objs[k], ma.listDisplay, loc);
    }
    assert sheet.widths == Widths(ma);
  }

  /** The header row written first, and the column widths set last, both
      from `_get_admin_columns_and_headers`. */
  method WriteHeader(ma: ModelAdmin) returns (headerRow: seq<Scalar>, widths: seq<int>)
    ensures headerRow == HeaderRow(ma)
    ensures widths == Widths(ma)
  {
    var columns, headers := ColumnsAndHeaders(ma);
    headerRow, widths := [], [];
    var i := 0;
    while i < |headers|
      invariant 0 <= i <= |headers|
      invariant |headerRow| == |widths| == i
      invariant forall k :: 0 <= k < i ==> headerRow[k] == Text(Header(ma, columns[k]))
      invariant forall k :: 0 <= k < i ==> widths[k] == ColumnWidth(Header(ma, columns[k]))
    {
      assert headers[i] == Header(ma, columns[i]);
      headerRow := headerRow + [Text(headers[i])];
      widths := widths + [ColumnWidth(headers[i])];
      i := i + 1;
    }
  }

  /** The data rows: one `_get_admin_row_values` row per exported object,
      in id order. */
  method WriteRows(ma: ModelAdmin, loc: Locale) returns (data: seq<seq<Scalar>>)
    ensures data == DataRows(ma, loc)
  {
    var objs := ExportedObjects(ma);
    data := [];
    var n := 0;
    while n < |objs|
      invariant 0 <= n <= |objs|
      invariant |data| == n
      invariant forall k :: 0 <= k < n ==> data[k] == RowFor(objs[k], ma.listDisplay, loc)
    {
      var row := RowValues(objs[n], ma.listDisplay, loc);
      assert row == RowFor(objs[n], ma.listDisplay, loc);
      data := data + [row];
      n := n + 1;
    }
  }

  /** The sheet-building part of the loop body of `export_xlsx_view`. */
  method ExportSheet(ma: ModelAdmin, modelLabel: string, loc: Locale) returns (sheet: Sheet)
    ensures IsSheetFor(sheet, ma, modelLabel, loc)
    ensures sheet == SheetFor(ma, modelLabel, loc)
  {
    var headerRow, widths := WriteHeader(ma);
    var data := WriteRows(ma, loc);
    sheet := Sheet(SheetTitle(modelLabel), headerRow, data, widths);
    SheetForMeetsDescription(ma, modelLabel, loc);
  }

  // ---------------------------------------------------------------------
  // Selection and permissions

  /** The permission `export_xlsx_view` asks for: `<app_label>.view_<model_name>`. */
  function ViewPermission(ma: ModelAdmin): (p: string)
    ensures p == ma.appLabel + ".view_" + ma.modelName
    ensures |p| == |ma.appLabel| + 6 + |ma.modelName|
  {
    ma.appLabel + ".view_" + ma.modelName
  }

  /** The codename prefix of a view permission. */
  const ViewPrefix: string := "view_"

  /** The app label and model name a `<app_label>.view_<model_name>`
      permission names: the text before the first dot, and the codename
      after it without its `view_` prefix. */
  function ViewedModel(p: string): Option<(string, string)> {
    match SplitAtFirst(p, '.')
    case None => None
    case Some(parts) =>
      if ViewPrefix <= parts.1 then Some((parts.0, parts.1[|ViewPrefix|..])) else None
  }

  /** App labels are dot-free Python identifiers, so the permission asked
      for reads back as the model admin's app label and model name. */
  lemma ViewPermissionNamesModel(ma: ModelAdmin)
    requires '.' !in ma.appLabel
    ensures ViewedModel(ViewPermission(ma)) == Some((ma.appLabel, ma.modelName))
  {
    var code := ViewPrefix + ma.modelName;
    assert ".view_" == ['.'] + ViewPrefix;
    assert ViewPermission(ma) == ma.appLabel + ['.'] + code;
    SplitAtFirstOfJoin(ma.appLabel, '.', code);
    assert code[..|ViewPrefix|] == ViewPrefix;
    assert code[|ViewPrefix|..] == ma.modelName;
  }

  /** Two model admins ask for the same permission exactly when they are
      for the same app label and model name. */
  lemma ViewPermissionIsInjective(a: ModelAdmin, b: ModelAdmin)
    requires '.' !in a.appLabel && '.' !in b.appLabel
    ensures ViewPermission(a) == ViewPermission(b) <==> a.appLabel == b.appLabel && a.modelName == b.modelName
  {
    ViewPermissionNamesModel(a);
    ViewPermissionNamesModel(b);
  }

  /** A superuser may export every model; anyone else needs the model's
      view permission. */
  predicate MayExport(user: User, ma: ModelAdmin) {
    user.isSuperuser || ViewPermission(ma) in user.perms
  }

  /** A permission that names an app label and a model name is spelled
      `<app_label>.view_<model_name>`. */
  lemma ViewedModelSpellsPermission(p: string)
    requires ViewedModel(p).Some?
    ensures p == ViewedModel(p).value.0 + ".view_" + ViewedModel(p).value.1
  {
    var parts := SplitAtFirst(p, '.').value;
    assert parts.1 == ViewPrefix + parts.1[|ViewPrefix|..];
    assert ".view_" == ['.'] + ViewPrefix;
  }

  /** The permission check read through the permission names: a user may
      export a model exactly when they are a superuser or hold a permission
      naming the model's app label and model name. */
  lemma MayExportReadsPermissions(user: User, ma: ModelAdmin)
    requires '.' !in ma.appLabel
    ensures MayExport(user, ma)
        <==> user.isSuperuser
             || exists p :: p in user.perms && ViewedModel(p) == Some((ma.appLabel, ma.modelName))
  {
    ViewPermissionNamesModel(ma);
    if exists p :: p in user.perms && ViewedModel(p) == Some((ma.appLabel, ma.modelName)) {
      var p :| p in user.perms && ViewedModel(p) == Some((ma.appLabel, ma.modelName));
      ViewedModelSpellsPermission(p);
    }
  }

  /** The offered model admins: the registry entries of the four offered
      labels, without the unregistered ones. */
  function AdminMap(registry: map<string, ModelAdmin>): (m: map<string, ModelAdmin>)
    ensures forall l :: l in m <==> l in registry && l in ExportLabels
    ensures forall l :: l in m ==> m[l] == registry[l]
  {
    map l | l in registry && l in ExportLabels :: registry[l]
  }

  /** The form's choices: the offered labels that are registered, in order. */
  function Choices(registry: map<string, ModelAdmin>): (c: seq<string>)
    ensures forall l :: l in c <==> l in AdminMap(registry)
  {
    var p := (l: string) => l in registry;
    FilterMembershipAll(ExportLabels, p);
    Filter(ExportLabels, p)
  }

  /** `AdminExportForm` with the given choices: a required multiple choice,
      so a valid submission is non-empty and names only offered labels. */
  predicate ValidSelection(selected: seq<string>, choices: seq<string>) {
    |selected| > 0 && forall i :: 0 <= i < |selected| ==> selected[i] in choices
  }

  /** The selected labels that get a sheet: registered and permitted. */
  function Exported(admins: map<string, ModelAdmin>, user: User): string -> bool {
    (l: string) => l in admins && MayExport(user, admins[l])
  }

  /** The selected labels that get a sheet, walked from the front as the
      view does: registered and permitted ones, in selection order. */
  function ExportedLabels(selected: seq<string>, admins: map<string, ModelAdmin>, user: User): seq<string>
  {
    if |selected| == 0 then []
    else
      var last := selected[|selected| - 1];
      ExportedLabels(selected[..|selected| - 1], admins, user)
        + (if last in admins && MayExport(user, admins[last]) then [last] else [])
  }

  lemma ExportedLabelsStep(selected: seq<string>, i: nat, admins: map<string, ModelAdmin>, user: User)
    requires i < |selected|
    ensures ExportedLabels(selected[..i + 1], admins, user)
         == ExportedLabels(selected[..i], admins, user)
            + (if selected[i] in admins && MayExport(user, admins[selected[i]]) then [selected[i]] else [])
  {
    assert selected[..i + 1][..i] == selected[..i];
  }

  /** Walking the selection and keeping the exportable labels is filtering
      the selection by `Exported`. */
  lemma {:induction false} ExportedLabelsIsFilter(selected: seq<string>, admins: map<string, ModelAdmin>, user: User)
    ensures ExportedLabels(selected, admins, user) == Filter(selected, Exported(admins, user))
    decreases |selected|
  {
    if |selected| > 0 {
      var init, last, p := selected[..|selected| - 1], selected[|selected| - 1], Exported(admins, user);
      assert init + [last] == selected;
      assert p(last) == (last in admins && MayExport(user, admins[last]));
      calc {
        Filter(selected, p);
        Filter(init + [last], p);
        { FilterSnoc(init, last, p); }
        Filter(init, p) + (if p(last) then [last] else []);
        { ExportedLabelsIsFilter(init, admins, user); }
        ExportedLabels(selected, admins, user);
      }
    }
  }

  /** The loop of `export_xlsx_view` over the selected labels: an
      unregistered or forbidden label is skipped, every other one adds its
      sheet, in selection order. */
  method BuildSheets(selected: seq<string>, admins: map<string, ModelAdmin>, user: User, loc: Locale)
    returns (sheets: seq<Sheet>, labels: seq<string>)
    ensures labels == ExportedLabels(selected, admins, user)
    ensures |sheets| == |labels|
    ensures forall k :: 0 <= k < |labels| ==>
              labels[k] in admins && sheets[k] == SheetFor(admins[labels[k]], labels[k], loc)
  {
    sheets, labels := [], [];
    var i := 0;
    while i < |selected|
      invariant 0 <= i <= |selected|
      invariant labels == ExportedLabels(selected[..i], admins, user)
      invariant |sheets| == |labels|
      invariant forall k :: 0 <= k < |labels| ==>
                  labels[k] in admins && sheets[k] == SheetFor(admins[labels[k]], labels[k], loc)
    {
      var modelLabel := selected[i];
      ExportedLabelsStep(selected, i, admins, user);
      if modelLabel in admins && MayExport(user, admins[modelLabel]) {
        var sheet := ExportSheet(admins[modelLabel], modelLabel, loc);
        sheets, labels := sheets + [sheet], labels + [modelLabel];
      }
      i := i + 1;
    }
    assert selected[..i] == selected;
  }

  /** A valid selection names only registered models, so the registry
      check in the loop never skips: permissions alone decide, and a
      superuser gets every selected model. */
  lemma ValidSelectionIsRegistered(selected: seq<string>, registry: map<string, ModelAdmin>, user: User)
    requires ValidSelection(selected, Choices(registry))
    ensures forall l :: l in selected ==> l in AdminMap(registry)
    ensures forall l :: l in selected ==>
              (l in Filter(selected, Exported(AdminMap(registry), user)) <==> MayExport(user, AdminMap(registry)[l]))
    ensures user.isSuperuser ==> Filter(selected, Exported(AdminMap(registry), user)) == selected
  {
    var admins := AdminMap(registry);
    var p := Exported(admins, user);
    forall l | l in selected ensures l in admins {
      var i :| 0 <= i < |selected| && selected[i] == l;
    }
    forall l | l in selected
      ensures l in Filter(selected, p) <==> MayExport(user, admins[l])
    {
      FilterMembership(selected, p, l);
    }
    if user.isSuperuser {
      FilterKeepsAll(selected, p);
    }
  }

  // ---------------------------------------------------------------------
  // Cell storage

  /** The longest text a worksheet cell keeps: appending a row cuts longer
      text to this length. */
  const MaxCellText: nat := 32767

  /** The control characters a cell's text may not hold: U+0000 to U+0008,
      U+000B, U+000C and U+000E to U+001F. */
  predicate IllegalChar(c: char) {
    c <= '\U{8}' || c == '\U{B}' || c == '\U{C}' || ('\U{E}' <= c <= '\U{1F}')
  }

  /** The cell as the worksheet stores it: text cut to `MaxCellText`
      characters, numbers unchanged. */
  function StoredCell(x: Scalar): (r: Scalar)
    ensures r.Text? <==> x.Text?
    ensures x.Text? ==> |r.s| == (if |x.s| <= MaxCellText then |x.s| else MaxCellText)
                        && r.s == x.s[..|r.s|]
    ensures x.Number? ==> r == x
  {
    if x.Text? then
      var t := Take(x.s, MaxCellText);
      assert t == x.s[..|t|];
      Text(t)
    else x
  }

  /** A cell whose stored text holds an illegal character: appending it
      raises, and the request ends in status 500. */
  predicate Refused(x: Scalar) {
    x.Text? && exists k :: 0 <= k < |x.s| && k < MaxCellText && IllegalChar(x.s[k])
  }

  function StoredRow(row: seq<Scalar>): (r: seq<Scalar>)
    ensures |r| == |row| && forall i :: 0 <= i < |row| ==> r[i] == StoredCell(row[i])
  {
    seq(|row|, i requires 0 <= i < |row| => StoredCell(row[i]))
  }

  /** The sheet as the workbook holds it: every cell stored. */
  function StoredSheet(sh: Sheet): (r: Sheet)
    ensures r.title == sh.title && r.widths == sh.widths
    ensures r.header == StoredRow(sh.header)
    ensures |r.data| == |sh.data| && forall k :: 0 <= k < |sh.data| ==> r.data[k] == StoredRow(sh.data[k])
  {
    sh.(header := StoredRow(sh.header),
        data := seq(|sh.data|, k requires 0 <= k < |sh.data| => StoredRow(sh.data[k])))
  }

  /** The worksheet accepts every cell of the sheet. */
  predicate Writable(sh: Sheet) {
    && (forall i :: 0 <= i < |sh.header| ==> !Refused(sh.header[i]))
    && (forall k, i :: 0 <= k < |sh.data| && 0 <= i < |sh.data[k]| ==> !Refused(sh.data[k][i]))
  }

  /** The text of a stored cell of an accepted sheet holds no illegal
      character, and a cell with short text is stored unchanged. */
  lemma StoredCellIsClean(x: Scalar)
    requires !Refused(x)
    ensures StoredCell(x).Text? ==> forall k :: 0 <= k < |StoredCell(x).s| ==> !IllegalChar(StoredCell(x).s[k])
    ensures x.Number? || |x.s| <= MaxCellText ==> StoredCell(x) == x
  {
    if x.Text? {
      var r := StoredCell(x);
      forall k | 0 <= k < |r.s| ensures !IllegalChar(r.s[k]) {
        assert r.s[k] == x.s[k];
      }
    }
  }

  /** A sheet every cell of which is short text or a number is stored
      unchanged. */
  lemma StoredSheetOfShortCells(sh: Sheet)
    requires forall i :: 0 <= i < |sh.header| ==> sh.header[i].Number? || |sh.header[i].s| <= MaxCellText
    requires forall k, i :: 0 <= k < |sh.data| && 0 <= i < |sh.data[k]| ==>
               sh.data[k][i].Number? || |sh.data[k][i].s| <= MaxCellText
    ensures StoredSheet(sh) == sh
  {
    var r := StoredSheet(sh);
    assert r.header == sh.header;
    forall k | 0 <= k < |sh.data| ensures r.data[k] == sh.data[k] {
      assert StoredRow(sh.data[k]) == sh.data[k];
    }
    assert r.data == sh.data;
  }

  /** A valid selection gives a workbook when at least one selected model
      is permitted and the worksheet accepts every cell of every sheet. */
  predicate ExportSucceeds(selected: seq<string>, registry: map<string, ModelAdmin>, user: User, loc: Locale) {
    var admins := AdminMap(registry);
    var labels := Filter(selected, Exported(admins, user));
    && labels != []
    && forall i :: 0 <= i < |labels| ==>
         labels[i] in admins && Writable(SheetFor(admins[labels[i]], labels[i], loc))
  }

  /** The worksheet accepts every cell of every sheet. */
  predicate AllWritable(sheets: seq<Sheet>) {
    forall k :: 0 <= k < |sheets| ==> Writable(sheets[k])
  }

  /** The workbook as saved: every sheet stored. */
  function StoredSheets(sheets: seq<Sheet>): (r: seq<Sheet>)
    ensures |r| == |sheets| && forall k :: 0 <= k < |sheets| ==> r[k] == StoredSheet(sheets[k])
  {
    seq(|sheets|, k requires 0 <= k < |sheets| => StoredSheet(sheets[k]))
  }

  /** Over the sheets the loop builds, success is a non-empty list of
      sheets the worksheet accepts. */
  lemma ExportSucceedsOfSheets(selected: seq<string>, registry: map<string, ModelAdmin>, user: User, loc: Locale,
                               sheets: seq<Sheet>, labels: seq<string>)
    requires labels == Filter(selected, Exported(AdminMap(registry), user))
    requires |sheets| == |labels|
    requires forall k :: 0 <= k < |labels| ==>
               labels[k] in AdminMap(registry) && sheets[k] == SheetFor(AdminMap(registry)[labels[k]], labels[k], loc)
    ensures ExportSucceeds(selected, registry, user, loc) <==> |sheets| != 0 && AllWritable(sheets)
  {
  }

  // ---------------------------------------------------------------------
  // The view

  datatype ExportResponse =
    | Forbidden                                          // status 403
    | FormPage(choices: seq<string>, errors: bool)       // the selection form
    | Workbook(filename: string, sheets: seq<Sheet>)     // the attachment
    | SaveFailed                                         // status 500: the workbook cannot be written

  const ExportFilename: string := "export.xlsx"

  /** `export_xlsx_view`: only authenticated staff get past the first
      check; a GET shows the form, an invalid POST shows it with errors,
      and a valid POST returns the workbook of the selected, registered and
      permitted models. Two cases end in status 500 instead. The default
      sheet is removed before the loop, so when no selected model is
      permitted the workbook has no sheet and saving it raises (the
      workbook library demands a visible sheet). And appending a row with
      a refused cell raises. */
  method ExportView(who: Views.Principal, verb: Views.Method, selected: seq<string>,
                    registry: map<string, ModelAdmin>, loc: Locale)
    returns (resp: ExportResponse)
    ensures (who.Anonymous? || !who.user.isStaff) <==> resp == Forbidden
    ensures who.Authenticated? && who.user.isStaff && verb == Views.Get ==>
              resp == FormPage(Choices(registry), false)
    ensures who.Authenticated? && who.user.isStaff && verb == Views.Post
            && !ValidSelection(selected, Choices(registry)) ==>
              resp == FormPage(Choices(registry), true)
    ensures resp.Workbook? <==>
              who.Authenticated? && who.user.isStaff && verb == Views.Post
              && ValidSelection(selected, Choices(registry))
              && ExportSucceeds(selected, registry, who.user, loc)
    ensures resp.SaveFailed? <==>
              who.Authenticated? && who.user.isStaff && verb == Views.Post
              && ValidSelection(selected, Choices(registry))
              && !ExportSucceeds(selected, registry, who.user, loc)
    ensures resp.Workbook? ==>
              var labels := Filter(selected, Exported(AdminMap(registry), who.user));
              && resp.filename == ExportFilename
              && |resp.sheets| == |labels|
              && forall i :: 0 <= i < |labels| ==>
                   labels[i] in AdminMap(registry)
                   && resp.sheets[i] == StoredSheet(SheetFor(AdminMap(registry)[labels[i]], labels[i], loc))
  {
    if who.Anonymous? || !who.user.isStaff {
      return Forbidden;
    }
    var admins := AdminMap(registry);
    var choices := Choices(registry);
    if verb == Views.Post {
      if ValidSelection(selected, choices) {
        var sheets, labels := BuildSheets(selected, admins, who.user, loc);
        ExportedLabelsIsFilter(selected, admins, who.user);
        ExportSucceedsOfSheets(selected, registry, who.user, loc, sheets, labels);
        if |sheets| == 0 || !AllWritable(sheets) {
          return SaveFailed;
        }
        return Workbook(ExportFilename, StoredSheets(sheets));
      }
      return FormPage(choices, true);
    }
    return FormPage(choices, false);
  }
}
