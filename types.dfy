/** The tabular project: per-language columns of output-file metadata and
    keyed rows holding one text per language. */
module Types {
  import opened OrderedObject

  /** The import platform. The enumeration has three members; any other
      runtime value is kept as `Unrecognised`. */
  datatype Platform = Android | IOS | Flutter | Unrecognised(tag: string)

  /** One language column: its code and, per platform, the resource file name
      and the directory it goes in (empty when the language has none). */
  datatype ColumnMetadata = ColumnMetadata(
    langCode: string,
    androidFile: string, androidPath: string,
    iosFile: string, iosPath: string,
    flutterFile: string, flutterPath: string)

  /** One translation key with its text per language code. A language missing
      from `values` is absent, which is not the same as the empty text. */
  datatype TranslationRow = TranslationRow(key: string, values: map<string, string>)

  datatype Project = Project(columns: seq<ColumnMetadata>, data: seq<TranslationRow>)

  /** A decoded source file, as handed to the merge. */
  datatype ParsedFile = ParsedFile(langCode: string, fileName: string, path: string, kvMap: Dict)

  /** `row[lang] || ''` */
  function ValueOr(row: TranslationRow, lang: string): string {
    if lang in row.values then row.values[lang] else ""
  }

  /** `if (row[lang])`: the text is present and not empty. */
  predicate HasText(row: TranslationRow, lang: string) {
    lang in row.values && row.values[lang] != ""
  }

  function Langs(columns: seq<ColumnMetadata>): seq<string> {
    seq(|columns|, i requires 0 <= i < |columns| => columns[i].langCode)
  }

  function RowKeys(data: seq<TranslationRow>): seq<string> {
    seq(|data|, i requires 0 <= i < |data| => data[i].key)
  }

  /** A column's resource file name and directory for one platform. */
  function FileAndPath(c: ColumnMetadata, platform: Platform): (string, string) {
    match platform
    case Android => (c.androidFile, c.androidPath)
    case IOS => (c.iosFile, c.iosPath)
    case Flutter => (c.flutterFile, c.flutterPath)
    case Unrecognised(_) => ("", "")
  }
}
