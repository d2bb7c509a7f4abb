/** Decoding native localization files into key/value objects, and merging a
    base file with other-language files into a project. */
module SourceParser {
  import opened Wrappers
  import opened JsText
  import opened OrderedObject
  import opened Types
  import StringsPattern

  // ---------------------------------------------------------------- Android

  /** A `<string>` element as the XML parser extracts it: its `name`
      attribute (None when absent) and its `textContent` (None for null). */
  datatype XmlString = XmlString(name: Option<string>, text: Option<string>)

  predicate Named(e: XmlString, k: string) {
    k != "" && e.name == Some(k)
  }

  function TextOf(e: XmlString): string {
    if e.text.Some? then e.text.value else ""
  }

  /** What one element contributes: elements without a non-empty name are skipped. */
  function AndroidEntry(e: XmlString): Option<Entry> {
    if e.name.Some? && e.name.value != "" then Some((e.name.value, TextOf(e))) else None
  }

  function AndroidEntries(elements: seq<XmlString>): seq<Option<Entry>> {
    seq(|elements|, i requires 0 <= i < |elements| => AndroidEntry(elements[i]))
  }

  function AndroidMap(elements: seq<XmlString>): Dict {
    Inserted(AndroidEntries(elements))
  }

  /** `parseAndroidXml`, from the point where the parser has listed the
      `<string>` elements of the document. */
  method ParseAndroidXml(content: string, parseXml: string -> seq<XmlString>) returns (m: Dict)
    ensures m == AndroidMap(parseXml(content))
  {
    var resources := parseXml(content);
    m := [];
    for i := 0 to |resources|
      invariant m == AndroidMap(resources[..i])
    {
      var node := resources[i];
      var name := node.name;
      assert AndroidEntries(resources[..i + 1]) == AndroidEntries(resources[..i]) + [AndroidEntry(node)];
      InsertedAppend(AndroidEntries(resources[..i]), AndroidEntry(node));
      if name.Some? && name.value != "" {
        m := Put(m, name.value, if node.text.Some? then node.text.value else "");
      }
    }
    assert resources[..|resources|] == resources;
  }

  /** Unnamed elements are skipped; a name that repeats keeps the text of its
      last element; keys are never repeated. */
  lemma AndroidMapLaw(elements: seq<XmlString>, k: string)
    ensures k in Keys(AndroidMap(elements)) <==> exists j :: 0 <= j < |elements| && Named(elements[j], k)
    ensures forall j :: 0 <= j < |elements| && Named(elements[j], k) && (forall j' :: j < j' < |elements| ==> !Named(elements[j'], k)) ==>
              Get(AndroidMap(elements), k) == Some(TextOf(elements[j]))
    ensures Distinct(AndroidMap(elements))
  {
    var es := AndroidEntries(elements);
    assert forall j :: 0 <= j < |elements| ==> (Assigns(es[j], k) <==> Named(elements[j], k));
    InsertedLaw(es, k);
  }

  // ---------------------------------------------------------------- iOS

  function IosEntries(lines: seq<string>): seq<Option<Entry>> {
    seq(|lines|, i requires 0 <= i < |lines| => StringsPattern.MatchLine(lines[i]))
  }

  function IosMap(content: string): Dict {
    Inserted(IosEntries(Split(content, '\n')))
  }

  /** `parseIosStrings`: every line that matches the pattern assigns its two groups. */
  method ParseIosStrings(content: string) returns (m: Dict)
    ensures m == IosMap(content)
  {
    m := [];
    var lines := Split(content, '\n');
    for i := 0 to |lines|
      invariant m == Inserted(IosEntries(lines[..i]))
    {
      var found := StringsPattern.MatchLine(lines[i]);
      assert IosEntries(lines[..i + 1]) == IosEntries(lines[..i]) + [found];
      InsertedAppend(IosEntries(lines[..i]), found);
      if found.Some? {
        m := Put(m, found.value.0, found.value.1);
      }
    }
    assert lines[..|lines|] == lines;
  }

  /** Each line gives at most one entry and lines that do not match give none;
      the value of a key is the one on the last line that matched with it. */
  lemma IosMapLaw(content: string, k: string)
    ensures |IosMap(content)| <= |Split(content, '\n')|
    ensures k in Keys(IosMap(content)) <==>
              exists j :: 0 <= j < |Split(content, '\n')| && LineAssigns(Split(content, '\n')[j], k)
    ensures forall j :: (0 <= j < |Split(content, '\n')| && LineAssigns(Split(content, '\n')[j], k)
                      && (forall j' :: j < j' < |Split(content, '\n')| ==> !LineAssigns(Split(content, '\n')[j'], k))) ==>
              Get(IosMap(content), k) == Some(StringsPattern.MatchLine(Split(content, '\n')[j]).value.1)
    ensures Distinct(IosMap(content))
  {
    var lines := Split(content, '\n');
    var es := IosEntries(lines);
    assert forall j :: 0 <= j < |lines| ==> (Assigns(es[j], k) <==> LineAssigns(lines[j], k));
    InsertedLaw(es, k);
    InsertedKeys(es);
    FirstKeysLength(es);
  }

  predicate LineAssigns(line: string, k: string) {
    Assigns(StringsPattern.MatchLine(line), k)
  }

  lemma {:induction false} FirstKeysLength(es: seq<Option<Entry>>)
    ensures |FirstKeys(es)| <= |es|
  {
    if es != [] {
      FirstKeysLength(es[..|es| - 1]);
    }
  }

  /** A line whose value is empty is no entry: the value group needs a character. */
  lemma EmptyValueSkipped(k: string)
    requires StringsPattern.Plain(k)
    ensures StringsPattern.MatchLine(['"'] + k + ['"', ' ', '=', ' ', '"', '"', ';']).None?
  {
    var l := ['"'] + k + ['"', ' ', '=', ' ', '"', '"', ';'];
    var q1 := |k| + 1;
    assert forall p :: 1 <= p < q1 ==> l[p] == k[p - 1];
    assert forall p :: 0 <= p < |l| && l[p] == '"' ==> p == 0 || p == q1 || p == q1 + 4 || p == q1 + 5;
    forall s: nat, a: nat, d: nat | StringsPattern.IsMatch(l, s, a, d) ensures false {
    }
  }

  // ---------------------------------------------------------------- Flutter

  /** What one top-level entry contributes: `@`-prefixed metadata is skipped. */
  function ArbEntry(e: Entry): Option<Entry> {
    if StartsWith(e.0, '@') then None else Some(e)
  }

  function ArbEntries(obj: Dict): seq<Option<Entry>> {
    seq(|obj|, i requires 0 <= i < |obj| => ArbEntry(obj[i]))
  }

  /** The decoded map; a document the JSON parser rejects gives the empty map. */
  function ArbMap(json: Option<Dict>): Dict {
    match json
    case None => []
    case Some(obj) => Inserted(ArbEntries(obj))
  }

  /** `parseFlutterArb`; `parseJson` stands for `JSON.parse` followed by
      `Object.keys`, and returns None where either throws. */
  method ParseFlutterArb(content: string, parseJson: string -> Option<Dict>) returns (m: Dict)
    ensures m == ArbMap(parseJson(content))
  {
    var json := parseJson(content);
    if json.None? {
      return [];
    }
    var obj := json.value;
    m := [];
    for i := 0 to |obj|
      invariant m == Inserted(ArbEntries(obj[..i]))
    {
      var key := obj[i].0;
      assert ArbEntries(obj[..i + 1]) == ArbEntries(obj[..i]) + [ArbEntry(obj[i])];
      InsertedAppend(ArbEntries(obj[..i]), ArbEntry(obj[i]));
      if !StartsWith(key, '@') {
        m := Put(m, key, obj[i].1);
      }
    }
    assert obj[..|obj|] == obj;
  }

  /** Exactly the top-level keys not starting with `@` are kept, in their
      order and with their values; invalid JSON gives the empty map. */
  lemma ArbMapLaw(json: Option<Dict>)
    requires json.Some? ==> Distinct(json.value)
    ensures json.None? ==> ArbMap(json) == []
    ensures json.Some? ==> ArbMap(json) == Filter(json.value, k => !StartsWith(k, '@'))
  {
    if json.Some? {
      var obj := json.value;
      var keep := k => !StartsWith(k, '@');
      var all := seq(|obj|, i requires 0 <= i < |obj| => Some(obj[i]));
      InsertedDistinct(obj);
      FilterInserted(all, keep);
      assert ArbEntries(obj) == seq(|all|, i requires 0 <= i < |all| => if all[i].Some? && keep(all[i].value.0) then all[i] else None);
    }
  }

  // ---------------------------------------------------------------- dispatch

  /** The decoded map of one source file for the chosen platform. */
  function ContentMap(platform: Platform, content: string,
                      parseXml: string -> seq<XmlString>, parseJson: string -> Option<Dict>): (r: Dict)
    ensures Distinct(r)
    ensures platform.Unrecognised? ==> r == []
  {
    match platform
    case Android => InsertedKeys(AndroidEntries(parseXml(content))); AndroidMap(parseXml(content))
    case IOS => InsertedKeys(IosEntries(Split(content, '\n'))); IosMap(content)
    case Flutter =>
      if parseJson(content).Some? then InsertedKeys(ArbEntries(parseJson(content).value)); ArbMap(parseJson(content))
      else ArbMap(parseJson(content))
    case Unrecognised(_) => []
  }

  /** `parseContent` */
  method ParseContent(platform: Platform, content: string,
                      parseXml: string -> seq<XmlString>, parseJson: string -> Option<Dict>) returns (m: Dict)
    ensures m == ContentMap(platform, content, parseXml, parseJson)
  {
    match platform {
      case Android => m := ParseAndroidXml(content, parseXml);
      case IOS => m := ParseIosStrings(content);
      case Flutter => m := ParseFlutterArb(content, parseJson);
      case Unrecognised(_) => m := [];
    }
  }

  // ---------------------------------------------------------------- merge

  /** The column for one input file: only the chosen platform's file name and
      directory come from the file. */
  function ColumnFor(platform: Platform, f: ParsedFile): ColumnMetadata {
    ColumnMetadata(
      f.langCode,
      if platform == Android then f.fileName else "", if platform == Android then f.path else "",
      if platform == IOS then f.fileName else "", if platform == IOS then f.path else "",
      if platform == Flutter then f.fileName else "", if platform == Flutter then f.path else "")
  }

  function MergedColumns(platform: Platform, files: seq<ParsedFile>): seq<ColumnMetadata> {
    seq(|files|, i requires 0 <= i < |files| => ColumnFor(platform, files[i]))
  }

  /** The cells of the row for `key`: each file, in order, that has the key
      sets its language's cell, so a later file overrides an earlier one with
      the same language code. */
  function MergedValues(key: string, files: seq<ParsedFile>): map<string, string> {
    if files == [] then map[]
    else
      var prev := MergedValues(key, files[..|files| - 1]);
      var f := files[|files| - 1];
      match Get(f.kvMap, key)
      case Some(v) => prev[f.langCode := v]
      case None => prev
  }

  function Merge(platform: Platform, baseFile: ParsedFile, otherFiles: seq<ParsedFile>): Project {
    var files := [baseFile] + otherFiles;
    var keys := Keys(baseFile.kvMap);
    Project(MergedColumns(platform, files),
            seq(|keys|, i requires 0 <= i < |keys| => TranslationRow(keys[i], MergedValues(keys[i], files))))
  }

  /** The `forEach` that fills one row. */
  method FillRow(key: string, allFiles: seq<ParsedFile>) returns (row: TranslationRow)
    ensures row == TranslationRow(key, MergedValues(key, allFiles))
  {
    var values: map<string, string> := map[];
    for i := 0 to |allFiles|
      invariant values == MergedValues(key, allFiles[..i])
    {
      var f := allFiles[i];
      assert allFiles[..i + 1][..i] == allFiles[..i];
      var val := Get(f.kvMap, key);
      if val.Some? {
        values := values[f.langCode := val.value];
      }
    }
    assert allFiles[..|allFiles|] == allFiles;
    row := TranslationRow(key, values);
  }

  /** `createProjectFromSourceFiles` */
  method CreateProjectFromSourceFiles(platform: Platform, baseFile: ParsedFile, otherFiles: seq<ParsedFile>)
    returns (project: Project)
    ensures project == Merge(platform, baseFile, otherFiles)
  {
    var allFiles := [baseFile] + otherFiles;
    var columns := MergedColumns(platform, allFiles);
    var baseKeys := Keys(baseFile.kvMap);
    var data: seq<TranslationRow> := [];
    for i := 0 to |baseKeys|
      invariant |data| == i
      invariant forall j :: 0 <= j < i ==> data[j] == TranslationRow(baseKeys[j], MergedValues(baseKeys[j], allFiles))
    {
      var row := FillRow(baseKeys[i], allFiles);
      data := data + [row];
    }
    project := Project(columns, data);
  }

  predicate HasKey(f: ParsedFile, key: string) {
    Get(f.kvMap, key).Some?
  }

  /** A cell is set exactly when some file of that language has the key; it
      then holds the value of the last such file. */
  lemma {:induction false} MergedCellLaw(key: string, files: seq<ParsedFile>, lang: string)
    ensures lang in MergedValues(key, files) <==>
              exists j :: 0 <= j < |files| && files[j].langCode == lang && HasKey(files[j], key)
    ensures forall j :: (0 <= j < |files| && files[j].langCode == lang && HasKey(files[j], key)
                      && (forall j' :: j < j' < |files| ==> !(files[j'].langCode == lang && HasKey(files[j'], key)))) ==>
              MergedValues(key, files)[lang] == Get(files[j].kvMap, key).value
  {
    if files != [] {
      var init := files[..|files| - 1];
      var f := files[|files| - 1];
      MergedCellLaw(key, init, lang);
      assert forall j :: 0 <= j < |init| ==> init[j] == files[j];
      if lang in MergedValues(key, files) && !(f.langCode == lang && HasKey(f, key)) {
        var j :| 0 <= j < |init| && init[j].langCode == lang && HasKey(init[j], key);
        assert files[j] == init[j];
      }
    }
  }

  /** The rows are the base file's keys, in its order: keys found only in
      other files are dropped. */
  lemma MergeKeys(platform: Platform, baseFile: ParsedFile, otherFiles: seq<ParsedFile>)
    ensures RowKeys(Merge(platform, baseFile, otherFiles).data) == Keys(baseFile.kvMap)
  {
  }

  /** Row `i` holds, for every language, the cell law above over `[base, ...others]`. */
  lemma MergeCells(platform: Platform, baseFile: ParsedFile, otherFiles: seq<ParsedFile>, i: nat, lang: string)
    requires i < |Keys(baseFile.kvMap)|
    ensures var row := Merge(platform, baseFile, otherFiles).data[i]; var files := [baseFile] + otherFiles;
      && row.key == Keys(baseFile.kvMap)[i]
      && (lang in row.values <==> exists j :: 0 <= j < |files| && files[j].langCode == lang && HasKey(files[j], row.key))
  {
    var files := [baseFile] + otherFiles;
    MergedCellLaw(Keys(baseFile.kvMap)[i], files, lang);
  }

  /** One column per input file, in order `[base, ...others]`, carrying the
      file's language and only the chosen platform's file and directory. */
  lemma MergeColumns(platform: Platform, baseFile: ParsedFile, otherFiles: seq<ParsedFile>)
    ensures var cols := Merge(platform, baseFile, otherFiles).columns; var files := [baseFile] + otherFiles;
      && |cols| == 1 + |otherFiles| && cols[0].langCode == baseFile.langCode
      && forall i :: 0 <= i < |cols| ==>
           && cols[i].langCode == files[i].langCode
           && FileAndPath(cols[i], Android) == (if platform == Android then (files[i].fileName, files[i].path) else ("", ""))
           && FileAndPath(cols[i], IOS) == (if platform == IOS then (files[i].fileName, files[i].path) else ("", ""))
           && FileAndPath(cols[i], Flutter) == (if platform == Flutter then (files[i].fileName, files[i].path) else ("", ""))
  {
  }
}
