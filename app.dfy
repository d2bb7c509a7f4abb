/** The parts of the application shell that transform the project: the
    validation and file skipping of the source import, the list of texts the
    AI auto-fill asks for and the merge of its answers, and the edit of one
    table cell. Each is a pure step from one application state to the next. */
module App {
  import opened Wrappers
  import opened JsText
  import opened OrderedObject
  import opened Types
  import opened SourceParser

  /** The positions of `s` whose element `keep` accepts, in increasing order. */
  function KeptIndices<T>(s: seq<T>, keep: T -> bool): (idx: seq<nat>)
    ensures forall j :: 0 <= j < |idx| ==> idx[j] < |s| && keep(s[idx[j]])
    ensures forall j, j' :: 0 <= j < j' < |idx| ==> idx[j] < idx[j']
    ensures forall i :: 0 <= i < |s| && keep(s[i]) ==> i in idx
  {
    if s == [] then []
    else KeptIndices(s[..|s| - 1], keep) + (if keep(s[|s| - 1]) then [|s| - 1] else [])
  }

  /** If `prev` lists the images under `f` of the kept elements of all but
      the last element of `s`, then `prev` followed by the last element's
      image, when that one is kept, lists them for all of `s`. */
  lemma PickedSnoc<T, U>(s: seq<T>, keep: T -> bool, f: T --> U, prev: seq<U>)
    requires s != [] && forall x :: keep(x) ==> f.requires(x)
    requires var idx0 := KeptIndices(s[..|s| - 1], keep);
      |prev| == |idx0| && forall j :: 0 <= j < |idx0| ==> prev[j] == f(s[idx0[j]])
    ensures var idx := KeptIndices(s, keep); var last := s[|s| - 1];
      var r := prev + (if keep(last) then [f(last)] else []);
      |r| == |idx| && forall j :: 0 <= j < |idx| ==> r[j] == f(s[idx[j]])
  {
    var idx0 := KeptIndices(s[..|s| - 1], keep);
    assert KeptIndices(s, keep) == idx0 + (if keep(s[|s| - 1]) then [|s| - 1] else []);
  }

  /** The state the modelled handlers read and write: the open project and
      the error banner. */
  datatype AppState = AppState(project: Option<Project>, error: string)

  // ---------------------------------------------------------------- import

  /** A file picked in the import dialog: its name and the text reading it yields. */
  datatype SourceFile = SourceFile(name: string, text: string)

  /** One line of the import dialog: the picked file, if any, its language
      code and its output directory. */
  datatype FileInput = FileInput(file: Option<SourceFile>, langCode: string, path: string)

  const BaseRequired := "Base file and its language code are required."

  /** A dialog line takes part in the import only with a file and a language code. */
  predicate Selected(f: FileInput) {
    f.file.Some? && f.langCode != ""
  }

  /** The decoded form of a selected dialog line. */
  function Parsed(platform: Platform, f: FileInput,
                  parseXml: string -> seq<XmlString>, parseJson: string -> Option<Dict>): (r: ParsedFile)
    requires f.file.Some?
    ensures r.langCode == f.langCode && r.fileName == f.file.value.name && r.path == f.path
    ensures Distinct(r.kvMap)
  {
    ParsedFile(f.langCode, f.file.value.name, f.path, ContentMap(platform, f.file.value.text, parseXml, parseJson))
  }

  /** The other files, decoded in dialog order; lines without a file or a
      language code are skipped. */
  function ParsedOthers(platform: Platform, others: seq<FileInput>,
                        parseXml: string -> seq<XmlString>, parseJson: string -> Option<Dict>): (r: seq<ParsedFile>)
    ensures |r| <= |others|
    ensures forall j :: 0 <= j < |r| ==> r[j].langCode != "" && Distinct(r[j].kvMap)
  {
    if others == [] then []
    else
      var f := others[|others| - 1];
      ParsedOthers(platform, others[..|others| - 1], parseXml, parseJson)
        + (if Selected(f) then [Parsed(platform, f, parseXml, parseJson)] else [])
  }

  /** The effect of the import button. A missing base file or base language
      code only sets the error; otherwise the project is replaced by the
      merge of the base file and the selected other files and the error is
      cleared. */
  function ImportSource(st: AppState, platform: Platform, base: FileInput, others: seq<FileInput>,
                        parseXml: string -> seq<XmlString>, parseJson: string -> Option<Dict>): (r: AppState)
    ensures !Selected(base) ==> r == st.(error := BaseRequired)
    ensures Selected(base) ==> r.error == "" && r.project.Some?
  {
    if !Selected(base) then st.(error := BaseRequired)
    else
      var project := Merge(platform, Parsed(platform, base, parseXml, parseJson),
                           ParsedOthers(platform, others, parseXml, parseJson));
      AppState(Some(project), "")
  }

  /** `processSourceImport`, with each file's text given. */
  method ProcessSourceImport(st: AppState, platform: Platform, base: FileInput, others: seq<FileInput>,
                             parseXml: string -> seq<XmlString>, parseJson: string -> Option<Dict>)
    returns (r: AppState)
    ensures r == ImportSource(st, platform, base, others, parseXml, parseJson)
  {
    var error := "";
    if base.file.None? || base.langCode == "" {
      r := st.(error := BaseRequired);
      return;
    }
    var baseMap := ParseContent(platform, base.file.value.text, parseXml, parseJson);
    var baseParsed := ParsedFile(base.langCode, base.file.value.name, base.path, baseMap);
    var otherParsed: seq<ParsedFile> := [];
    for i := 0 to |others|
      invariant otherParsed == ParsedOthers(platform, others[..i], parseXml, parseJson)
    {
      var f := others[i];
      assert others[..i + 1][..i] == others[..i];
      if f.file.Some? && f.langCode != "" {
        var content := ParseContent(platform, f.file.value.text, parseXml, parseJson);
        otherParsed := otherParsed + [ParsedFile(f.langCode, f.file.value.name, f.path, content)];
      }
    }
    assert others[..|others|] == others;
    var project := CreateProjectFromSourceFiles(platform, baseParsed, otherParsed);
    r := AppState(Some(project), error);
  }

  /** The decoded other files are exactly the selected dialog lines, in order. */
  lemma {:induction false} ParsedOthersLaw(platform: Platform, others: seq<FileInput>,
                                           parseXml: string -> seq<XmlString>, parseJson: string -> Option<Dict>)
    ensures var idx := KeptIndices(others, Selected); var rest := ParsedOthers(platform, others, parseXml, parseJson);
      |rest| == |idx| && forall j :: 0 <= j < |idx| ==> rest[j] == Parsed(platform, others[idx[j]], parseXml, parseJson)
  {
    if others != [] {
      var init := others[..|others| - 1];
      ParsedOthersLaw(platform, init, parseXml, parseJson);
      PickedSnoc(others, Selected, (f: FileInput) requires f.file.Some? => Parsed(platform, f, parseXml, parseJson),
                 ParsedOthers(platform, init, parseXml, parseJson));
    }
  }

  /** The language codes of the decoded other files: those of the selected
      lines, all non-empty. */
  lemma OthersLangs(platform: Platform, others: seq<FileInput>,
                    parseXml: string -> seq<XmlString>, parseJson: string -> Option<Dict>)
    ensures var rest := ParsedOthers(platform, others, parseXml, parseJson);
      var idx := KeptIndices(others, Selected);
      && seq(|rest|, j requires 0 <= j < |rest| => rest[j].langCode)
           == seq(|idx|, j requires 0 <= j < |idx| => others[idx[j]].langCode)
      && forall j :: 0 <= j < |rest| ==> rest[j].langCode != ""
  {
    ParsedOthersLaw(platform, others, parseXml, parseJson);
  }

  /** The language codes of merged columns are those of the files. */
  lemma MergedLangs(platform: Platform, files: seq<ParsedFile>)
    ensures Langs(MergedColumns(platform, files)) == seq(|files|, i requires 0 <= i < |files| => files[i].langCode)
  {
  }

  /** The language codes of `[first] + rest`. */
  lemma FileLangs(first: ParsedFile, rest: seq<ParsedFile>)
    ensures var files := [first] + rest;
      seq(|files|, i requires 0 <= i < |files| => files[i].langCode)
        == [first.langCode] + seq(|rest|, j requires 0 <= j < |rest| => rest[j].langCode)
  {
  }

  /** A successful import has one column per selected file, base first and
      the others in dialog order, every one with a non-empty language code,
      and one row per key of the base file, in its order. */
  lemma ImportLaw(st: AppState, platform: Platform, base: FileInput, others: seq<FileInput>,
                  parseXml: string -> seq<XmlString>, parseJson: string -> Option<Dict>)
    requires Selected(base)
    ensures var p := ImportSource(st, platform, base, others, parseXml, parseJson).project.value;
      var idx := KeptIndices(others, Selected);
      && Langs(p.columns) == [base.langCode] + seq(|idx|, j requires 0 <= j < |idx| => others[idx[j]].langCode)
      && (forall i :: 0 <= i < |p.columns| ==> p.columns[i].langCode != "")
      && RowKeys(p.data) == Keys(ContentMap(platform, base.file.value.text, parseXml, parseJson))
  {
    var baseParsed := Parsed(platform, base, parseXml, parseJson);
    var rest := ParsedOthers(platform, others, parseXml, parseJson);
    var files := [baseParsed] + rest;
    OthersLangs(platform, others, parseXml, parseJson);
    MergedLangs(platform, files);
    MergeKeys(platform, baseParsed, rest);
    FileLangs(baseParsed, rest);
    var fileLangs := seq(|files|, i requires 0 <= i < |files| => files[i].langCode);
    var p := Merge(platform, baseParsed, rest);
    assert Langs(p.columns) == fileLangs;
    assert forall i :: 0 <= i < |p.columns| ==> p.columns[i].langCode == fileLangs[i];
  }

  // ---------------------------------------------------------------- AI fill

  /** One text the translation service is asked for. */
  datatype Request = Request(key: string, sourceText: string)

  const NoApiKey := "No API Key found in environment variables."
  const AiFailed := "AI Translation failed: "

  /** The language translations are made from: always the first column's. */
  function SourceLang(p: Project): string
    requires |p.columns| > 0
  {
    p.columns[0].langCode
  }

  /** A row is asked for when it has source text and its target text is
      missing, empty or only whitespace. */
  predicate Missing(row: TranslationRow, source: string, target: string) {
    HasText(row, source) && (!HasText(row, target) || Trim(row.values[target]) == "")
  }

  function MissingIn(source: string, target: string): TranslationRow -> bool {
    row => Missing(row, source, target)
  }

  /** The request list: the rows asked for, in row order, each with its key
      and its source text. */
  function MissingRequests(data: seq<TranslationRow>, source: string, target: string): (r: seq<Request>)
    ensures |r| <= |data|
    ensures forall j :: 0 <= j < |r| ==> r[j].sourceText != ""
  {
    if data == [] then []
    else
      var row := data[|data| - 1];
      MissingRequests(data[..|data| - 1], source, target)
        + (if Missing(row, source, target) then [Request(row.key, row.values[source])] else [])
  }

  /** Whitespace-only is what `trim` turns into the empty text. */
  lemma MissingIffBlank(row: TranslationRow, source: string, target: string)
    ensures Missing(row, source, target) <==>
      HasText(row, source) && (target !in row.values || AllWhitespace(row.values[target]))
  {
    if target in row.values {
      TrimEmptyIffBlank(row.values[target]);
    }
  }

  /** Request `j` is the `j`-th row asked for, and every row asked for has
      its request. */
  lemma {:induction false} MissingRequestsLaw(data: seq<TranslationRow>, source: string, target: string)
    ensures var idx := KeptIndices(data, MissingIn(source, target)); var r := MissingRequests(data, source, target);
      |r| == |idx| && forall j :: 0 <= j < |idx| ==> r[j] == Request(data[idx[j]].key, data[idx[j]].values[source])
  {
    if data != [] {
      var init := data[..|data| - 1];
      MissingRequestsLaw(init, source, target);
      PickedSnoc(data, MissingIn(source, target), (row: TranslationRow) requires source in row.values => Request(row.key, row.values[source]),
                 MissingRequests(init, source, target));
    }
  }

  /** The request list is empty exactly when no row is asked for. */
  lemma NoRequestsIffComplete(data: seq<TranslationRow>, source: string, target: string)
    ensures MissingRequests(data, source, target) == [] <==>
      forall i :: 0 <= i < |data| ==> !Missing(data[i], source, target)
  {
    MissingRequestsLaw(data, source, target);
    var idx := KeptIndices(data, MissingIn(source, target));
    if exists i :: 0 <= i < |data| && Missing(data[i], source, target) {
      var i :| 0 <= i < |data| && Missing(data[i], source, target);
      assert MissingIn(source, target)(data[i]);
      assert i in idx;
    }
  }

  /** `translations[row.key]` is a non-empty text. */
  predicate Translates(translations: map<string, string>, key: string) {
    key in translations && translations[key] != ""
  }

  function Translated(row: TranslationRow, target: string, translations: map<string, string>): TranslationRow {
    if Translates(translations, row.key) then row.(values := row.values[target := translations[row.key]])
    else row
  }

  /** The merge of the service's answers: a row whose key has a non-empty
      translation takes it as its target text; nothing else changes. */
  function ApplyTranslations(p: Project, target: string, translations: map<string, string>): (r: Project)
    ensures r.columns == p.columns && |r.data| == |p.data|
    ensures forall i :: 0 <= i < |p.data| ==> r.data[i].key == p.data[i].key
    ensures forall i :: 0 <= i < |p.data| && !Translates(translations, p.data[i].key) ==> r.data[i] == p.data[i]
    ensures forall i :: 0 <= i < |p.data| && Translates(translations, p.data[i].key) ==>
      target in r.data[i].values && r.data[i].values[target] == translations[p.data[i].key]
    ensures forall i, lang :: 0 <= i < |p.data| && lang != target ==>
      (lang in r.data[i].values <==> lang in p.data[i].values)
      && (lang in p.data[i].values ==> r.data[i].values[lang] == p.data[i].values[lang])
  {
    p.(data := seq(|p.data|, i requires 0 <= i < |p.data| => Translated(p.data[i], target, translations)))
  }

  /** When the row keys are distinct and the service answers only requested
      keys, a row that was not asked for keeps all its cells: the merge does
      not overwrite text that was already there. */
  lemma AnswerKeepsPresentText(p: Project, target: string, translations: map<string, string>)
    requires |p.columns| > 0
    requires forall i, i' :: 0 <= i < i' < |p.data| ==> p.data[i].key != p.data[i'].key
    requires var requests := MissingRequests(p.data, SourceLang(p), target);
      forall k :: k in translations ==> exists j :: 0 <= j < |requests| && requests[j].key == k
    ensures forall i :: 0 <= i < |p.data| && !Missing(p.data[i], SourceLang(p), target) ==>
      ApplyTranslations(p, target, translations).data[i] == p.data[i]
  {
    var source := SourceLang(p);
    var requests := MissingRequests(p.data, source, target);
    MissingRequestsLaw(p.data, source, target);
    var idx := KeptIndices(p.data, MissingIn(source, target));
    forall i | 0 <= i < |p.data| && !Missing(p.data[i], source, target)
      ensures p.data[i].key !in translations
    {
      forall j | 0 <= j < |requests|
        ensures requests[j].key != p.data[i].key
      {
        assert MissingIn(source, target)(p.data[idx[j]]);
      }
    }
  }

  /** Rows are matched by key, so with a repeated key an answer meant for
      the row that was asked for also overwrites the other row's text. */
  lemma DuplicateKeyOverwrites()
    ensures var p := Project([ColumnMetadata("en", "", "", "", "", "", ""), ColumnMetadata("fr", "", "", "", "", "", "")],
                             [TranslationRow("k", map["en" := "s", "fr" := "vieux"]), TranslationRow("k", map["en" := "s"])]);
      var r := ApplyTranslations(p, "fr", map["k" := "neuf"]);
      MissingRequests(p.data, SourceLang(p), "fr") == [Request("k", "s")]
      && !Missing(p.data[0], "en", "fr") && r.data[0].values["fr"] == "neuf"
  {
    var rows := [TranslationRow("k", map["en" := "s", "fr" := "vieux"]), TranslationRow("k", map["en" := "s"])];
    assert rows[..1] == [rows[0]];
    assert rows[..0] == [];
    assert Trim("vieux") != "" by { TrimEmptyIffBlank("vieux"); assert !IsWhitespace('v'); }
  }

  /** Merging the same answers twice changes nothing more. */
  lemma ApplyTranslationsIdempotent(p: Project, target: string, translations: map<string, string>)
    ensures ApplyTranslations(ApplyTranslations(p, target, translations), target, translations)
      == ApplyTranslations(p, target, translations)
  {
    var once := ApplyTranslations(p, target, translations);
    var twice := ApplyTranslations(once, target, translations);
    forall i | 0 <= i < |p.data|
      ensures twice.data[i] == once.data[i]
    {
      if Translates(translations, p.data[i].key) {
        assert twice.data[i].values == once.data[i].values;
      }
    }
  }

  /** When the service answers every request with text that is not blank,
      and answers nothing else with blank text, no row is asked for any more. */
  lemma FillCompletes(p: Project, target: string, translations: map<string, string>)
    requires |p.columns| > 0 && target != SourceLang(p)
    requires var requests := MissingRequests(p.data, SourceLang(p), target);
      forall j :: 0 <= j < |requests| ==> Translates(translations, requests[j].key)
    requires forall k :: k in translations && translations[k] != "" ==> !AllWhitespace(translations[k])
    ensures MissingRequests(ApplyTranslations(p, target, translations).data, SourceLang(p), target) == []
  {
    var source := SourceLang(p);
    var r := ApplyTranslations(p, target, translations);
    var requests := MissingRequests(p.data, source, target);
    MissingRequestsLaw(p.data, source, target);
    var idx := KeptIndices(p.data, MissingIn(source, target));
    forall i | 0 <= i < |r.data|
      ensures !Missing(r.data[i], source, target)
    {
      MissingIffBlank(r.data[i], source, target);
      MissingIffBlank(p.data[i], source, target);
      if Missing(p.data[i], source, target) {
        assert MissingIn(source, target)(p.data[i]);
        var j :| 0 <= j < |idx| && idx[j] == i;
        assert requests[j].key == p.data[i].key;
      }
    }
    NoRequestsIffComplete(r.data, source, target);
  }

  /** The effect of the auto-fill button for `target`. `apiKey` is the
      configured key, empty when none is set; `translate` is the service,
      answering a key-to-text map or failing with a message. */
  function AiTranslate(st: AppState, target: string, apiKey: string,
                       translate: (string, seq<Request>) -> Result<map<string, string>>): (r: AppState)
    ensures st.project.None? ==> r == st
    ensures st.project.Some? && apiKey == "" ==> r == st.(error := NoApiKey)
    ensures r.project.Some? <==> st.project.Some?
    ensures st.project.Some? && apiKey != "" && |st.project.value.columns| > 0 ==>
      var p := st.project.value;
      var requests := MissingRequests(p.data, SourceLang(p), target);
      && (requests == [] ==> r == st)
      && (requests != [] && translate(target, requests).Err? ==>
            r == st.(error := AiFailed + translate(target, requests).message))
      && (requests != [] && translate(target, requests).Ok? ==>
            r == st.(project := Some(ApplyTranslations(p, target, translate(target, requests).value))))
  {
    if st.project.None? then st
    else if apiKey == "" then st.(error := NoApiKey)
    else if |st.project.value.columns| == 0 then st
    else
      var p := st.project.value;
      var requests := MissingRequests(p.data, SourceLang(p), target);
      if requests == [] then st
      else match translate(target, requests)
        case Err(message) => st.(error := AiFailed + message)
        case Ok(translations) => st.(project := Some(ApplyTranslations(p, target, translations)))
  }

  /** The service is consulted only about the request list, and not at all
      when the list is empty. */
  lemma AiTranslateAsksOnlyRequests(st: AppState, target: string, apiKey: string,
                                    t1: (string, seq<Request>) -> Result<map<string, string>>,
                                    t2: (string, seq<Request>) -> Result<map<string, string>>)
    requires st.project.Some? && |st.project.value.columns| > 0
    requires var p := st.project.value; var requests := MissingRequests(p.data, SourceLang(p), target);
      requests != [] ==> t1(target, requests) == t2(target, requests)
    ensures AiTranslate(st, target, apiKey, t1) == AiTranslate(st, target, apiKey, t2)
  {
  }

  /** The language codes whose column header offers the auto-fill button,
      in column order. */
  function FillTargets(columns: seq<ColumnMetadata>): (r: seq<string>)
    ensures forall t :: t in r ==> columns != [] && t != columns[0].langCode && t in Langs(columns)
    ensures forall i :: 0 <= i < |columns| && columns[i].langCode != columns[0].langCode ==>
      columns[i].langCode in r
  {
    if columns == [] then [] else OfferedAfter(columns[0].langCode, columns)
  }

  function OfferedAfter(first: string, columns: seq<ColumnMetadata>): (r: seq<string>)
    ensures forall t :: t in r ==> t != first && t in Langs(columns)
    ensures forall i :: 0 <= i < |columns| && columns[i].langCode != first ==> columns[i].langCode in r
  {
    if columns == [] then []
    else
      var c := columns[|columns| - 1];
      var init := columns[..|columns| - 1];
      var prev := OfferedAfter(first, init);
      assert forall t :: t in Langs(init) ==> t in Langs(columns) by {
        forall t | t in Langs(init)
          ensures t in Langs(columns)
        {
          var i :| 0 <= i < |init| && Langs(init)[i] == t;
          assert Langs(columns)[i] == t;
        }
      }
      assert Langs(columns)[|columns| - 1] == c.langCode;
      prev + (if c.langCode != first then [c.langCode] else [])
  }

  /** Pressing an offered button never targets the source language, so a
      complete answer leaves nothing to ask for. */
  lemma FillFromButton(p: Project, target: string, translations: map<string, string>)
    requires target in FillTargets(p.columns)
    requires var requests := MissingRequests(p.data, SourceLang(p), target);
      forall j :: 0 <= j < |requests| ==> Translates(translations, requests[j].key)
    requires forall k :: k in translations && translations[k] != "" ==> !AllWhitespace(translations[k])
    ensures |p.columns| > 0 && target != SourceLang(p)
    ensures MissingRequests(ApplyTranslations(p, target, translations).data, SourceLang(p), target) == []
  {
    FillCompletes(p, target, translations);
  }

  // ---------------------------------------------------------------- cell edit

  /** The update on leaving an edited cell: row `idx` takes `val` for `lang`. */
  function EditCell(p: Project, idx: nat, lang: string, val: string): (r: Project)
    requires idx < |p.data|
    ensures r.columns == p.columns && |r.data| == |p.data|
    ensures forall j :: 0 <= j < |p.data| && j != idx ==> r.data[j] == p.data[j]
    ensures r.data[idx].key == p.data[idx].key
    ensures lang in r.data[idx].values && r.data[idx].values[lang] == val
    ensures forall l :: l != lang ==>
      (l in r.data[idx].values <==> l in p.data[idx].values)
      && (l in p.data[idx].values ==> r.data[idx].values[l] == p.data[idx].values[l])
  {
    p.(data := p.data[idx := p.data[idx].(values := p.data[idx].values[lang := val])])
  }

  /** Of two edits of the same cell, the later one is what remains. */
  lemma EditLastWins(p: Project, idx: nat, lang: string, v1: string, v2: string)
    requires idx < |p.data|
    ensures EditCell(EditCell(p, idx, lang, v1), idx, lang, v2) == EditCell(p, idx, lang, v2)
  {
    var a := EditCell(EditCell(p, idx, lang, v1), idx, lang, v2);
    var b := EditCell(p, idx, lang, v2);
    assert a.data[idx].values == b.data[idx].values;
    assert a.data == b.data;
  }

  /** Edits of two different cells do not interfere. */
  lemma EditsCommute(p: Project, i1: nat, l1: string, v1: string, i2: nat, l2: string, v2: string)
    requires i1 < |p.data| && i2 < |p.data| && (i1 != i2 || l1 != l2)
    ensures EditCell(EditCell(p, i1, l1, v1), i2, l2, v2) == EditCell(EditCell(p, i2, l2, v2), i1, l1, v1)
  {
    var q1 := EditCell(p, i1, l1, v1);
    var q2 := EditCell(p, i2, l2, v2);
    if i1 == i2 {
      var vs := p.data[i1].values;
      assert vs[l1 := v1][l2 := v2] == vs[l2 := v2][l1 := v1];
    } else {
      var r1 := p.data[i1].(values := p.data[i1].values[l1 := v1]);
      var r2 := p.data[i2].(values := p.data[i2].values[l2 := v2]);
      assert p.data[i1 := r1][i2 := r2] == p.data[i2 := r2][i1 := r1];
    }
  }

  /** Leaving a cell with the text it shows changes nothing exactly when the
      cell was present; an absent cell becomes the empty text. */
  lemma EditShownText(p: Project, idx: nat, lang: string)
    requires idx < |p.data|
    ensures EditCell(p, idx, lang, ValueOr(p.data[idx], lang)) == p <==> lang in p.data[idx].values
  {
    var r := EditCell(p, idx, lang, ValueOr(p.data[idx], lang));
    if lang in p.data[idx].values {
      assert r.data[idx].values == p.data[idx].values;
      assert r.data == p.data;
    } else {
      assert lang in r.data[idx].values;
      assert r.data[idx] != p.data[idx];
    }
  }
}
