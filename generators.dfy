/** Re-encoding a project's rows, one language at a time, as Android XML
    string resources, an iOS `.strings` file and a Flutter ARB object, and
    assembling those files into an archive. */
module Generators {
  import opened Wrappers
  import opened JsText
  import opened OrderedObject
  import opened Types
  import StringsPattern
  import SourceParser

  /** The entry each row contributes for a language: its key and text when
      the text is non-empty, nothing otherwise. */
  function LangEntries(data: seq<TranslationRow>, lang: string): seq<Option<Entry>> {
    seq(|data|, i requires 0 <= i < |data| =>
      if HasText(data[i], lang) then Some((data[i].key, data[i].values[lang])) else None)
  }

  /** Reference content of one language: the key/text pairs of its non-empty
      cells, a repeated key keeping its first position and last text. */
  function TextMap(data: seq<TranslationRow>, lang: string): Dict {
    Inserted(LangEntries(data, lang))
  }

  lemma LangEntriesPrefix(data: seq<TranslationRow>, lang: string, i: nat)
    requires i < |data|
    ensures LangEntries(data[..i + 1], lang) == LangEntries(data[..i], lang) + [LangEntries(data, lang)[i]]
  {
  }

  // ---------------------------------------------------------------- Android

  const AndroidHeader: string := "<?xml version=\"1.0\" encoding=\"utf-8\"?>\n<resources>\n"
  const AndroidFooter: string := "</resources>"

  /** The replacement texts of the Android escape. */
  const Amp: string := "&amp;"
  const Lt: string := "&lt;"
  const Gt: string := "&gt;"
  const EscQuote: string := "\\\""
  const EscApostrophe: string := "\\'"

  /** The five global replacements, `&` first. A text with none of the five
      characters is written as it is. */
  function AndroidEscape(v: string): (r: string)
    ensures '&' !in v && '<' !in v && '>' !in v && '"' !in v && '\'' !in v ==> r == v
  {
    AndroidPlainKept(v);
    ReplaceAll(ReplaceAll(ReplaceAll(ReplaceAll(ReplaceAll(v, '&', Amp), '<', Lt), '>', Gt), '"', EscQuote), '\'', EscApostrophe)
  }

  lemma AndroidPlainKept(v: string)
    ensures '&' !in v && '<' !in v && '>' !in v && '"' !in v && '\'' !in v ==>
      ReplaceAll(ReplaceAll(ReplaceAll(ReplaceAll(ReplaceAll(v, '&', Amp), '<', Lt), '>', Gt), '"', EscQuote), '\'', EscApostrophe) == v
  {
    if '&' !in v && '<' !in v && '>' !in v && '"' !in v && '\'' !in v {
      ReplaceAllAbsent(v, '&', Amp);
      UntouchedAfter(v, 0);
    }
  }

  /** Reference: the same escaping done in one pass, character by character. */
  function EscapeAndroidChar(c: char): string {
    if c == '&' then Amp else if c == '<' then Lt else if c == '>' then Gt
    else if c == '"' then EscQuote else if c == '\'' then EscApostrophe else [c]
  }

  function EscapeAndroidChars(v: string): string {
    if v == [] then [] else EscapeAndroidChar(v[0]) + EscapeAndroidChars(v[1..])
  }

  /** No replacement produces a character a later one rewrites, so the chain
      is a one-pass character substitution. */
  lemma {:induction false} AndroidEscapeOnePass(v: string)
    ensures AndroidEscape(v) == EscapeAndroidChars(v)
  {
    if v != [] {
      AndroidEscapeOnePass(v[1..]);
      var c := v[0];
      assert v == [c] + v[1..];
      var r1 := ReplaceAll([c], '&', Amp);
      ReplaceAllAppend([c], v[1..], '&', Amp);
      var t1 := ReplaceAll(v[1..], '&', Amp);
      var r2 := ReplaceAll(r1, '<', Lt);
      ReplaceAllAppend(r1, t1, '<', Lt);
      var t2 := ReplaceAll(t1, '<', Lt);
      var r3 := ReplaceAll(r2, '>', Gt);
      ReplaceAllAppend(r2, t2, '>', Gt);
      var t3 := ReplaceAll(t2, '>', Gt);
      var r4 := ReplaceAll(r3, '"', EscQuote);
      ReplaceAllAppend(r3, t3, '"', EscQuote);
      var t4 := ReplaceAll(t3, '"', EscQuote);
      ReplaceAllAppend(r4, t4, '\'', EscApostrophe);
      CharChain(c);
    }
  }

  lemma ReplaceAllSingle(c: char, x: char, rep: string)
    ensures ReplaceAll([c], x, rep) == if c == x then rep else [c]
  {
    assert [c][1..] == [];
  }

  /** A text none of whose characters the later replacements touch. */
  lemma UntouchedAfter(s: string, k: nat)
    requires k <= 4
    requires k <= 0 ==> '<' !in s
    requires k <= 1 ==> '>' !in s
    requires k <= 2 ==> '"' !in s
    requires k <= 3 ==> '\'' !in s
    ensures k == 0 ==> ReplaceAll(ReplaceAll(ReplaceAll(ReplaceAll(s, '<', Lt), '>', Gt), '"', EscQuote), '\'', EscApostrophe) == s
    ensures k == 1 ==> ReplaceAll(ReplaceAll(ReplaceAll(s, '>', Gt), '"', EscQuote), '\'', EscApostrophe) == s
    ensures k == 2 ==> ReplaceAll(ReplaceAll(s, '"', EscQuote), '\'', EscApostrophe) == s
    ensures k == 3 ==> ReplaceAll(s, '\'', EscApostrophe) == s
  {
    if k <= 0 { ReplaceAllAbsent(s, '<', Lt); }
    if k <= 1 { ReplaceAllAbsent(s, '>', Gt); }
    if k <= 2 { ReplaceAllAbsent(s, '"', EscQuote); }
    if k <= 3 { ReplaceAllAbsent(s, '\'', EscApostrophe); }
  }

  lemma CharChain(c: char)
    ensures AndroidEscape([c]) == EscapeAndroidChar(c)
  {
    ReplaceAllSingle(c, '&', Amp);
    if c == '&' {
      UntouchedAfter(Amp, 0);
    } else {
      ReplaceAllSingle(c, '<', Lt);
      if c == '<' {
        UntouchedAfter(Lt, 1);
      } else {
        ReplaceAllSingle(c, '>', Gt);
        if c == '>' {
          UntouchedAfter(Gt, 2);
        } else {
          ReplaceAllSingle(c, '"', EscQuote);
          if c == '"' {
            UntouchedAfter(EscQuote, 3);
          } else {
            ReplaceAllSingle(c, '\'', EscApostrophe);
          }
        }
      }
    }
  }

  /** Reference decoder: the inverse of the five substitutions, that is the
      XML entities `&amp;` `&lt;` `&gt;` and the backslash escapes `\"` and
      `\'`. An Android resource reader decodes more than these; see
      AndroidEscapeKeepsReaderSyntax. */
  function AndroidUnescape(t: string): string {
    if t == [] then []
    else if |t| >= 5 && t[..5] == Amp then ['&'] + AndroidUnescape(t[5..])
    else if |t| >= 4 && t[..4] == Lt then ['<'] + AndroidUnescape(t[4..])
    else if |t| >= 4 && t[..4] == Gt then ['>'] + AndroidUnescape(t[4..])
    else if |t| >= 2 && t[0] == '\\' && (t[1] == '"' || t[1] == '\'') then [t[1]] + AndroidUnescape(t[2..])
    else [t[0]] + AndroidUnescape(t[1..])
  }

  lemma {:induction false} EscapedStart(v: string)
    ensures EscapeAndroidChars(v) == [] || (EscapeAndroidChars(v)[0] != '"' && EscapeAndroidChars(v)[0] != '\'')
  {
  }

  /** Escaping loses nothing: the reference decoder gives the text back. */
  lemma {:induction false} AndroidEscapeRoundTrip(v: string)
    ensures AndroidUnescape(AndroidEscape(v)) == v
  {
    AndroidEscapeOnePass(v);
    UnescapeChars(v);
  }

  lemma {:induction false} UnescapeChars(v: string)
    ensures AndroidUnescape(EscapeAndroidChars(v)) == v
  {
    if v != [] {
      UnescapeChars(v[1..]);
      EscapedStart(v[1..]);
      UnescapeStep(v[0], EscapeAndroidChars(v[1..]));
      assert v == [v[0]] + v[1..];
    }
  }

  /** Decoding one escaped character in front of an escaped rest. */
  lemma UnescapeStep(c: char, rest: string)
    requires rest == [] || (rest[0] != '"' && rest[0] != '\'')
    ensures AndroidUnescape(EscapeAndroidChar(c) + rest) == [c] + AndroidUnescape(rest)
  {
    var t := EscapeAndroidChar(c) + rest;
    if c == '&' {
      assert t[..5] == Amp && t[5..] == rest;
    } else if c == '<' {
      assert t[..4] == Lt && t[4..] == rest;
      NoEntityAt(t, 5, Amp, 1);
    } else if c == '>' {
      assert t[..4] == Gt && t[4..] == rest;
      NoEntityAt(t, 5, Amp, 1);
      NoEntityAt(t, 4, Lt, 1);
    } else {
      NoEntityAt(t, 5, Amp, 0);
      NoEntityAt(t, 4, Lt, 0);
      NoEntityAt(t, 4, Gt, 0);
      if c == '"' || c == '\'' {
        assert t[0] == '\\' && t[1] == c && t[2..] == rest;
      } else {
        assert t[0] == c && t[1..] == rest;
        if |t| >= 2 { assert t[1] == rest[0]; }
      }
    }
  }

  /** A text differing from an entity at one position does not start with it. */
  lemma NoEntityAt(t: string, n: nat, entity: string, i: nat)
    requires |entity| == n && i < n
    requires |t| > i && t[i] != entity[i]
    ensures !(|t| >= n && t[..n] == entity)
  {
  }

  /** The escaped text never holds an angle bracket. */
  lemma {:induction false} AndroidEscapeNoAngle(v: string)
    ensures '<' !in AndroidEscape(v) && '>' !in AndroidEscape(v)
  {
    AndroidEscapeOnePass(v);
    NoAngleChars(v);
  }

  /** What the five substitutions leave alone: a leading `@`, `?` or
      backslash is written as it is, although an Android resource reader
      takes the first two as a reference and the last as an escape. So
      `C:\new` is written unchanged and reads back with a newline in it. */
  lemma {:induction false} AndroidEscapeKeepsReaderSyntax(v: string)
    requires v != [] && (v[0] == '@' || v[0] == '?' || v[0] == '\\')
    ensures AndroidEscape(v) != [] && AndroidEscape(v)[0] == v[0]
    ensures AndroidEscape("C:\\new") == "C:\\new"
  {
    AndroidEscapeOnePass(v);
    assert EscapeAndroidChars(v) == EscapeAndroidChar(v[0]) + EscapeAndroidChars(v[1..]);
    assert EscapeAndroidChar(v[0]) == [v[0]];
  }

  lemma {:induction false} NoAngleChars(v: string)
    ensures '<' !in EscapeAndroidChars(v) && '>' !in EscapeAndroidChars(v)
  {
    if v != [] {
      NoAngleChars(v[1..]);
      assert '<' !in EscapeAndroidChar(v[0]) && '>' !in EscapeAndroidChar(v[0]);
    }
  }

  /** The line of one row; the key goes in unescaped. */
  const LineOpen: string := "    <string name=\""
  const LineMid: string := "\">"
  const LineClose: string := "</string>\n"

  function AndroidLine(key: string, v: string): string {
    LineOpen + key + LineMid + AndroidEscape(v) + LineClose
  }

  function AndroidFragment(row: TranslationRow, lang: string): string {
    if HasText(row, lang) then AndroidLine(row.key, row.values[lang]) else ""
  }

  function AndroidFragments(data: seq<TranslationRow>, lang: string): seq<string> {
    seq(|data|, i requires 0 <= i < |data| => AndroidFragment(data[i], lang))
  }

  function AndroidXml(data: seq<TranslationRow>, lang: string): string {
    AndroidHeader + Concat(AndroidFragments(data, lang)) + AndroidFooter
  }

  /** `generateAndroidXML` */
  method GenerateAndroidXML(data: seq<TranslationRow>, langCode: string) returns (xml: string)
    ensures xml == AndroidXml(data, langCode)
  {
    xml := AndroidHeader;
    xml := AppendAndroidLines(xml, data, langCode);
    xml := xml + AndroidFooter;
  }

  /** The loop of `generateAndroidXML`: one line per row with text, appended
      to what has been written so far. */
  method AppendAndroidLines(start: string, data: seq<TranslationRow>, langCode: string) returns (xml: string)
    ensures xml == start + Concat(AndroidFragments(data, langCode))
  {
    xml := start;
    for i := 0 to |data|
      invariant xml == start + Concat(AndroidFragments(data[..i], langCode))
    {
      var row := data[i];
      AndroidStep(start, data, i, langCode);
      if langCode in row.values && row.values[langCode] != "" {
        xml := xml + AndroidLine(row.key, row.values[langCode]);
      }
    }
    assert data[..|data|] == data;
  }

  /** One more row extends the written lines by that row's fragment. */
  lemma AndroidStep(start: string, data: seq<TranslationRow>, i: nat, lang: string)
    requires i < |data|
    ensures start + Concat(AndroidFragments(data[..i + 1], lang)) == start + Concat(AndroidFragments(data[..i], lang)) + AndroidFragment(data[i], lang)
  {
    assert AndroidFragments(data[..i + 1], lang) == AndroidFragments(data[..i], lang) + [AndroidFragment(data[i], lang)];
    ExtendConcat(start, AndroidFragments(data[..i], lang), AndroidFragment(data[i], lang));
  }

  /** The document opens with the XML declaration and `<resources>`, closes
      with `</resources>` and no newline, and in between holds one line per
      non-empty cell, in row order; rows without text add nothing. */
  lemma AndroidXmlLayout(data: seq<TranslationRow>, more: seq<TranslationRow>, lang: string)
    ensures AndroidXml(data, lang)[..|AndroidHeader|] == AndroidHeader
    ensures AndroidXml(data, lang)[|AndroidXml(data, lang)| - |AndroidFooter|..] == AndroidFooter
    ensures Concat(AndroidFragments(data + more, lang)) == Concat(AndroidFragments(data, lang)) + Concat(AndroidFragments(more, lang))
    ensures |data| == 1 ==> Concat(AndroidFragments(data, lang)) == if HasText(data[0], lang) then AndroidLine(data[0].key, data[0].values[lang]) else ""
  {
    Framed(AndroidHeader, Concat(AndroidFragments(data, lang)), AndroidFooter);
    assert AndroidFragments(data + more, lang) == AndroidFragments(data, lang) + AndroidFragments(more, lang);
    ConcatAppend(AndroidFragments(data, lang), AndroidFragments(more, lang));
    if |data| == 1 {
      assert AndroidFragments(data, lang) == [] + [AndroidFragment(data[0], lang)];
      ConcatSnoc([], AndroidFragment(data[0], lang));
    }
  }

  // ---------------------------------------------------------------- iOS

  /** `"` becomes `\"`, then a newline becomes `\n`. The escaped value holds
      no newline; a value without quotes and newlines is written as it is.
      Other line terminators (`\r`, U+2028, U+2029) pass through. */
  function IosEscape(v: string): (r: string)
    ensures '\n' !in r
    ensures '"' !in v && '\n' !in v ==> r == v
  {
    ReplaceAllOmits(ReplaceAll(v, '"', "\\\""), '\n', "\\n");
    IosPlainKept(v);
    ReplaceAll(ReplaceAll(v, '"', "\\\""), '\n', "\\n")
  }

  lemma IosPlainKept(v: string)
    ensures '"' !in v && '\n' !in v ==> ReplaceAll(ReplaceAll(v, '"', "\\\""), '\n', "\\n") == v
  {
    if '"' !in v && '\n' !in v {
      ReplaceAllAbsent(v, '"', "\\\"");
      ReplaceAllAbsent(v, '\n', "\\n");
    }
  }

  function IosFragment(row: TranslationRow, lang: string): string {
    if HasText(row, lang) then StringsPattern.EntryLine(row.key, IosEscape(row.values[lang])) + "\n" else ""
  }

  function IosFragments(data: seq<TranslationRow>, lang: string): seq<string> {
    seq(|data|, i requires 0 <= i < |data| => IosFragment(data[i], lang))
  }

  function IosStrings(data: seq<TranslationRow>, lang: string): string {
    Concat(IosFragments(data, lang))
  }

  /** `generateIOSStrings` */
  method GenerateIOSStrings(data: seq<TranslationRow>, langCode: string) returns (strings: string)
    ensures strings == IosStrings(data, langCode)
  {
    strings := "";
    for i := 0 to |data|
      invariant strings == Concat(IosFragments(data[..i], langCode))
    {
      var row := data[i];
      assert IosFragments(data[..i + 1], langCode) == IosFragments(data[..i], langCode) + [IosFragment(row, langCode)];
      ConcatSnoc(IosFragments(data[..i], langCode), IosFragment(row, langCode));
      if langCode in row.values && row.values[langCode] != "" {
        var escaped := IosEscape(row.values[langCode]);
        strings := strings + (StringsPattern.EntryLine(row.key, escaped) + "\n");
      }
    }
    assert data[..|data|] == data;
  }

  /** A project with no text in a language gives the empty file. */
  lemma IosStringsEmpty(data: seq<TranslationRow>, lang: string)
    requires forall i :: 0 <= i < |data| ==> !HasText(data[i], lang)
    ensures IosStrings(data, lang) == ""
  {
    if data != [] {
      IosStringsEmpty(data[..|data| - 1], lang);
      assert IosFragments(data, lang) == IosFragments(data[..|data| - 1], lang) + [""];
    }
  }

  /** Rows whose keys and texts can be written to a `.strings` line and read
      back: non-empty keys, and neither a quote nor a line terminator in a
      key or in a text of the language. */
  predicate IosSafe(data: seq<TranslationRow>, lang: string) {
    forall i :: 0 <= i < |data| ==>
      data[i].key != "" && StringsPattern.Plain(data[i].key)
      && (HasText(data[i], lang) ==> StringsPattern.Plain(data[i].values[lang]))
  }

  /** The rows with text, in order. */
  function TextRows(data: seq<TranslationRow>, lang: string): seq<TranslationRow> {
    if data == [] then []
    else TextRows(data[..|data| - 1], lang) + (if HasText(data[|data| - 1], lang) then [data[|data| - 1]] else [])
  }

  /** The line of a row with text, without its newline. */
  function IosLine(row: TranslationRow, lang: string): string {
    StringsPattern.EntryLine(row.key, IosEscape(ValueOr(row, lang)))
  }

  function IosLines(rows: seq<TranslationRow>, lang: string): seq<string> {
    seq(|rows|, i requires 0 <= i < |rows| => IosLine(rows[i], lang))
  }

  function RowEntries(rows: seq<TranslationRow>, lang: string): seq<Option<Entry>> {
    seq(|rows|, i requires 0 <= i < |rows| => Some((rows[i].key, ValueOr(rows[i], lang))))
  }

  lemma {:induction false} TextRowsHaveText(data: seq<TranslationRow>, lang: string)
    ensures forall i :: 0 <= i < |TextRows(data, lang)| ==> HasText(TextRows(data, lang)[i], lang)
    ensures IosSafe(data, lang) ==> IosSafe(TextRows(data, lang), lang)
  {
    if data != [] {
      TextRowsHaveText(data[..|data| - 1], lang);
      assert IosSafe(data, lang) ==> IosSafe(data[..|data| - 1], lang);
    }
  }

  /** The file is the lines of the rows with text, each ended by a newline. */
  lemma {:induction false} IosStringsLines(data: seq<TranslationRow>, lang: string)
    ensures IosStrings(data, lang) == Concat(Terminated(IosLines(TextRows(data, lang), lang), '\n'))
  {
    if data != [] {
      var init := data[..|data| - 1];
      var last := data[|data| - 1];
      IosStringsLines(init, lang);
      IosStringsSnoc(data, lang);
      var prev := TextRows(init, lang);
      if HasText(last, lang) {
        assert TextRows(data, lang) == prev + [last];
        IosLinesSnoc(prev, last, lang);
      } else {
        assert TextRows(data, lang) == prev;
        assert IosFragment(last, lang) == "";
      }
    }
  }

  lemma IosStringsSnoc(data: seq<TranslationRow>, lang: string)
    requires data != []
    ensures IosStrings(data, lang) == IosStrings(data[..|data| - 1], lang) + IosFragment(data[|data| - 1], lang)
  {
    var init := data[..|data| - 1];
    assert IosFragments(data, lang) == IosFragments(init, lang) + [IosFragment(data[|data| - 1], lang)];
    ConcatSnoc(IosFragments(init, lang), IosFragment(data[|data| - 1], lang));
  }

  lemma IosLinesSnoc(prev: seq<TranslationRow>, last: TranslationRow, lang: string)
    requires HasText(last, lang)
    ensures Concat(Terminated(IosLines(prev + [last], lang), '\n'))
      == Concat(Terminated(IosLines(prev, lang), '\n')) + IosFragment(last, lang)
  {
    var line := IosLine(last, lang);
    assert IosFragment(last, lang) == line + ['\n'];
    assert IosLines(prev + [last], lang) == IosLines(prev, lang) + [line];
    TerminatedSnoc(IosLines(prev, lang), line, '\n');
    ConcatSnoc(Terminated(IosLines(prev, lang), '\n'), line + ['\n']);
  }

  /** The entries read back line by line: one per row with text, then nothing
      for the empty piece after the final newline. */
  lemma IosEntriesOfLines(rows: seq<TranslationRow>, lang: string)
    requires forall i :: 0 <= i < |rows| ==> HasText(rows[i], lang)
    requires IosSafe(rows, lang)
    ensures SourceParser.IosEntries(IosLines(rows, lang) + [""]) == RowEntries(rows, lang) + [None]
  {
    var lines := IosLines(rows, lang) + [""];
    forall i | 0 <= i < |rows|
      ensures StringsPattern.MatchLine(lines[i]) == Some((rows[i].key, ValueOr(rows[i], lang)))
    {
      var v := rows[i].values[lang];
      ReplaceAllAbsent(v, '"', "\\\"");
      ReplaceAllAbsent(v, '\n', "\\n");
      StringsPattern.EntryLineMatches(rows[i].key, v);
    }
    assert StringsPattern.FindMatch(lines[|rows|]).None?;
  }

  /** Inserting only the rows with text is inserting every row's entry. */
  lemma {:induction false} TextRowsEntries(data: seq<TranslationRow>, lang: string)
    ensures Inserted(RowEntries(TextRows(data, lang), lang)) == TextMap(data, lang)
  {
    TextRowsHaveText(data, lang);
    if data != [] {
      var init := data[..|data| - 1];
      var last := data[|data| - 1];
      TextRowsEntries(init, lang);
      TextRowsHaveText(init, lang);
      var rows := TextRows(data, lang);
      var prev := TextRows(init, lang);
      var es := RowEntries(rows, lang);
      var prevEs := RowEntries(prev, lang);
      LangEntriesPrefix(data, lang, |data| - 1);
      assert data[..|data|] == data;
      InsertedAppend(LangEntries(init, lang), LangEntries(data, lang)[|data| - 1]);
      if HasText(last, lang) {
        assert es == prevEs + [Some((last.key, last.values[lang]))];
        InsertedAppend(prevEs, Some((last.key, last.values[lang])));
      } else {
        assert es == prevEs;
      }
    }
  }

  /** Round trip: reading back a generated `.strings` file gives exactly the
      non-empty cells of the language, in row order. */
  lemma IosRoundTrip(data: seq<TranslationRow>, lang: string)
    requires IosSafe(data, lang)
    ensures SourceParser.IosMap(IosStrings(data, lang)) == TextMap(data, lang)
  {
    var rows := TextRows(data, lang);
    TextRowsHaveText(data, lang);
    IosStringsLines(data, lang);
    var lines := IosLines(rows, lang);
    assert forall i :: 0 <= i < |lines| ==> '\n' !in lines[i] by {
      forall i | 0 <= i < |lines| ensures '\n' !in lines[i] {
        var v := rows[i].values[lang];
        ReplaceAllAbsent(v, '"', "\\\"");
        ReplaceAllAbsent(v, '\n', "\\n");
        assert lines[i] == StringsPattern.EntryLine(rows[i].key, v);
      }
    }
    SplitLines(lines, '\n');
    IosEntriesOfLines(rows, lang);
    var es := RowEntries(rows, lang);
    InsertedAppend(es, None);
    TextRowsEntries(data, lang);
  }

  /** With distinct keys among the rows with text, the file reads back as
      those (key, text) pairs themselves. */
  lemma IosRoundTripDistinct(data: seq<TranslationRow>, lang: string)
    requires IosSafe(data, lang)
    requires forall i, j :: 0 <= i < j < |data| && HasText(data[i], lang) && HasText(data[j], lang) ==> data[i].key != data[j].key
    ensures forall k :: k in Keys(SourceParser.IosMap(IosStrings(data, lang))) <==>
              exists i :: 0 <= i < |data| && HasText(data[i], lang) && data[i].key == k
    ensures forall i :: 0 <= i < |data| && HasText(data[i], lang) ==>
              Get(SourceParser.IosMap(IosStrings(data, lang)), data[i].key) == Some(data[i].values[lang])
  {
    IosRoundTrip(data, lang);
    forall k ensures k in Keys(TextMap(data, lang)) <==> exists i :: 0 <= i < |data| && HasText(data[i], lang) && data[i].key == k {
      TextMapLaw(data, lang, k);
    }
    forall i | 0 <= i < |data| && HasText(data[i], lang)
      ensures Get(TextMap(data, lang), data[i].key) == Some(data[i].values[lang])
    {
      TextMapLaw(data, lang, data[i].key);
    }
  }

  /** The reference content has a key exactly when some row with that key has
      text, and then the text of the last such row. */
  lemma TextMapLaw(data: seq<TranslationRow>, lang: string, k: string)
    ensures k in Keys(TextMap(data, lang)) <==> exists i :: 0 <= i < |data| && HasText(data[i], lang) && data[i].key == k
    ensures forall i :: (0 <= i < |data| && HasText(data[i], lang) && data[i].key == k
                      && (forall j :: i < j < |data| ==> !(HasText(data[j], lang) && data[j].key == k))) ==>
              Get(TextMap(data, lang), k) == Some(data[i].values[lang])
  {
    var es := LangEntries(data, lang);
    assert forall i :: 0 <= i < |data| ==> (Assigns(es[i], k) <==> HasText(data[i], lang) && data[i].key == k);
    InsertedLaw(es, k);
  }

  // ---------------------------------------------------------------- Flutter

  /** `langCode.replace('-', '_')`: only the first hyphen, so the name has
      the code's length and a code without `-` is kept. */
  function LocaleName(lang: string): (r: string)
    ensures |r| == |lang|
    ensures '-' !in lang ==> r == lang
  {
    ReplaceFirst(lang, '-', "_")
  }

  function ArbObject(data: seq<TranslationRow>, lang: string): Dict {
    Inserted([Some(("@@locale", LocaleName(lang)))] + LangEntries(data, lang))
  }

  /** `generateFlutterARB`; `stringify` stands for `JSON.stringify(obj, null, 2)`. */
  method GenerateFlutterARB(data: seq<TranslationRow>, langCode: string, stringify: Dict -> string)
    returns (text: string)
    ensures text == stringify(ArbObject(data, langCode))
  {
    var obj: Dict := [];
    obj := Put(obj, "@@locale", ReplaceFirst(langCode, '-', "_"));
    ghost var locale := [Some(("@@locale", LocaleName(langCode)))];
    assert Inserted(locale) == obj by {
      assert locale[..0] == [];
    }
    for i := 0 to |data|
      invariant obj == Inserted(locale + LangEntries(data[..i], langCode))
    {
      var row := data[i];
      LangEntriesPrefix(data, langCode, i);
      assert locale + LangEntries(data[..i + 1], langCode) == (locale + LangEntries(data[..i], langCode)) + [LangEntries(data, langCode)[i]];
      InsertedAppend(locale + LangEntries(data[..i], langCode), LangEntries(data, langCode)[i]);
      if langCode in row.values && row.values[langCode] != "" {
        obj := Put(obj, row.key, row.values[langCode]);
      }
    }
    assert data[..|data|] == data;
    text := stringify(obj);
  }

  /** `@@locale` is the first key and, unless a row with text is itself keyed
      `@@locale`, holds the code with its first hyphen made an underscore;
      every other key is a row key with text, holding its last text. */
  lemma ArbObjectLaw(data: seq<TranslationRow>, lang: string, k: string)
    ensures Keys(ArbObject(data, lang)) != [] && Keys(ArbObject(data, lang))[0] == "@@locale"
    ensures Distinct(ArbObject(data, lang))
    ensures (forall i :: 0 <= i < |data| ==> !(HasText(data[i], lang) && data[i].key == "@@locale")) ==>
              ArbObject(data, lang)[0] == ("@@locale", LocaleName(lang))
    ensures k != "@@locale" ==> Get(ArbObject(data, lang), k) == Get(TextMap(data, lang), k)
  {
    var es := [Some(("@@locale", LocaleName(lang)))] + LangEntries(data, lang);
    InsertedKeys(es);
    FirstKeysStart(es);
    InsertedGet(es, k);
    InsertedGet(LangEntries(data, lang), k);
    if k != "@@locale" {
      LastValueSkipsFirst(es, k);
    }
    if forall i :: 0 <= i < |data| ==> !(HasText(data[i], lang) && data[i].key == "@@locale") {
      var lv := LocaleName(lang);
      InsertedGet(es, "@@locale");
      LastValueIsLast(es, "@@locale", 0);
      KeyIn(ArbObject(data, lang), "@@locale");
      assert Get(ArbObject(data, lang), "@@locale") == Some(lv);
      assert ArbObject(data, lang)[0].0 == "@@locale";
    }
  }

  lemma {:induction false} FirstKeysStart(es: seq<Option<Entry>>)
    requires es != [] && es[0].Some?
    ensures FirstKeys(es) != [] && FirstKeys(es)[0] == es[0].value.0
  {
    if |es| > 1 {
      FirstKeysStart(es[..|es| - 1]);
    } else {
      assert es[..0] == [];
    }
  }

  lemma {:induction false} LastValueSkipsFirst(es: seq<Option<Entry>>, k: string)
    requires es != [] && es[0].Some? && es[0].value.0 != k
    ensures LastValue(es, k) == LastValue(es[1..], k)
  {
    if |es| > 1 {
      assert es[1..][..|es[1..]| - 1] == es[..|es| - 1][1..];
      LastValueSkipsFirst(es[..|es| - 1], k);
    }
  }

  /** The locale value replaces just the first hyphen. */
  lemma LocaleNameLaw(lang: string, i: nat)
    requires i < |lang| && lang[i] == '-' && '-' !in lang[..i]
    ensures LocaleName(lang) == lang[..i] + "_" + lang[i + 1..]
  {
    ReplaceFirstAt(lang, '-', "_", i);
  }

  /** Round trip: decoding the generated object as an ARB file gives exactly
      the non-empty cells, when no row key with text starts with `@`. */
  lemma ArbRoundTrip(data: seq<TranslationRow>, lang: string)
    requires forall i :: 0 <= i < |data| && HasText(data[i], lang) ==> !StartsWith(data[i].key, '@')
    ensures SourceParser.ArbMap(Some(ArbObject(data, lang))) == TextMap(data, lang)
  {
    var es := [Some(("@@locale", LocaleName(lang)))] + LangEntries(data, lang);
    var keep := k => !StartsWith(k, '@');
    InsertedKeys(es);
    SourceParser.ArbMapLaw(Some(ArbObject(data, lang)));
    FilterInserted(es, keep);
    ArbKeptEntries(data, lang, keep);
    InsertedSkipsFirstNone(LangEntries(data, lang));
  }

  /** Dropping the `@`-keys from the generated entries drops the locale and nothing else. */
  lemma ArbKeptEntries(data: seq<TranslationRow>, lang: string, keep: string -> bool)
    requires forall i :: 0 <= i < |data| && HasText(data[i], lang) ==> !StartsWith(data[i].key, '@')
    requires forall k :: keep(k) == !StartsWith(k, '@')
    ensures var es := [Some(("@@locale", LocaleName(lang)))] + LangEntries(data, lang);
      seq(|es|, i requires 0 <= i < |es| => if es[i].Some? && keep(es[i].value.0) then es[i] else None)
        == [None] + LangEntries(data, lang)
  {
    var es := [Some(("@@locale", LocaleName(lang)))] + LangEntries(data, lang);
    var kept := seq(|es|, i requires 0 <= i < |es| => if es[i].Some? && keep(es[i].value.0) then es[i] else None);
    assert kept[0] == None by {
      assert StartsWith("@@locale", '@');
    }
    assert kept[1..] == LangEntries(data, lang);
    assert kept == [None] + LangEntries(data, lang);
  }

  // ---------------------------------------------------------------- archive

  /** A directory prefix for an archive path: a trailing `/` is added when
      missing, then one leading `/` is removed. */
  function SafePath(path: string): (r: string)
    ensures r == "" <==> path == "" || path == "/"
    ensures r != "" ==> EndsWith(r, '/')
    ensures StartsWith(r, '/') <==> |path| >= 2 && path[0] == '/' && path[1] == '/'
  {
    var slashed := if EndsWith(path, '/') then path else path + "/";
    if StartsWith(slashed, '/') then slashed[1..] else slashed
  }

  /** The archive: entries from path to content in insertion order; adding a
      path that is already present replaces its content in place. */
  class Archive {
    var files: Dict

    constructor ()
      ensures files == []
    {
      files := [];
    }

    /** `zip.file(path, content)` */
    method File(path: string, content: string)
      modifies this
      ensures files == Put(old(files), path, content)
    {
      files := Put(files, path, content);
    }
  }

  /** The generated file of a language for one platform. */
  function Content(project: Project, lang: string, platform: Platform, stringify: Dict -> string): string {
    match platform
    case Android => AndroidXml(project.data, lang)
    case IOS => IosStrings(project.data, lang)
    case _ => stringify(ArbObject(project.data, lang))
  }

  /** The file one column contributes for one platform, if its file name and
      directory are both non-empty. */
  function PlatformOutput(project: Project, c: ColumnMetadata, platform: Platform, stringify: Dict -> string): Option<Entry> {
    var (file, path) := FileAndPath(c, platform);
    if file != "" && path != "" then Some((SafePath(path) + file, Content(project, c.langCode, platform, stringify)))
    else None
  }

  /** The files of a list of columns: column by column, Android, iOS, Flutter. */
  function ZipOutputs(project: Project, columns: seq<ColumnMetadata>, stringify: Dict -> string): seq<Option<Entry>> {
    if columns == [] then []
    else
      var c := columns[|columns| - 1];
      ZipOutputs(project, columns[..|columns| - 1], stringify) + ColumnOutputs(project, c, stringify)
  }

  function ColumnOutputs(project: Project, c: ColumnMetadata, stringify: Dict -> string): seq<Option<Entry>> {
    [PlatformOutput(project, c, Android, stringify), PlatformOutput(project, c, IOS, stringify), PlatformOutput(project, c, Flutter, stringify)]
  }

  function ZipFiles(project: Project, stringify: Dict -> string): Dict {
    Inserted(ZipOutputs(project, project.columns, stringify))
  }

  /** `generateZip`, up to the archive it fills; `stringify` stands for
      `JSON.stringify(obj, null, 2)`. */
  method GenerateZip(project: Project, stringify: Dict -> string) returns (zip: Archive)
    ensures fresh(zip)
    ensures zip.files == ZipFiles(project, stringify)
  {
    zip := new Archive();
    var cols := project.columns;
    for i := 0 to |cols|
      invariant zip.files == Inserted(ZipOutputs(project, cols[..i], stringify))
    {
      assert cols[..i + 1][..i] == cols[..i];
      WriteColumn(zip, project, cols[i], stringify, ZipOutputs(project, cols[..i], stringify));
    }
    assert cols[..|cols|] == cols;
  }

  /** One pass of the loop of `generateZip`: the files of one column. */
  method WriteColumn(zip: Archive, project: Project, col: ColumnMetadata, stringify: Dict -> string,
                     ghost before: seq<Option<Entry>>)
    requires zip.files == Inserted(before)
    modifies zip
    ensures zip.files == Inserted(before + ColumnOutputs(project, col, stringify))
  {
    ghost var outs := ColumnOutputs(project, col, stringify);
    assert before + outs == before + [outs[0]] + [outs[1]] + [outs[2]];
    WritePlatform(zip, project, col, Android, stringify, before);
    WritePlatform(zip, project, col, IOS, stringify, before + [outs[0]]);
    WritePlatform(zip, project, col, Flutter, stringify, before + [outs[0]] + [outs[1]]);
  }

  /** The block of that pass for one platform: the file is written only when
      both its name and its directory are set. */
  method WritePlatform(zip: Archive, project: Project, col: ColumnMetadata, platform: Platform,
                       stringify: Dict -> string, ghost before: seq<Option<Entry>>)
    requires zip.files == Inserted(before)
    modifies zip
    ensures zip.files == Inserted(before + [PlatformOutput(project, col, platform, stringify)])
  {
    InsertedAppend(before, PlatformOutput(project, col, platform, stringify));
    var (file, path) := FileAndPath(col, platform);
    if file != "" && path != "" {
      var content;
      if platform == Android {
        content := GenerateAndroidXML(project.data, col.langCode);
      } else if platform == IOS {
        content := GenerateIOSStrings(project.data, col.langCode);
      } else {
        content := GenerateFlutterARB(project.data, col.langCode, stringify);
      }
      var safePath := SafePath(path);
      zip.File(safePath + file, content);
    }
  }

  /** Which paths the archive holds, and in what order, depends only on the
      columns: a file is written for every configured platform even when the
      language has no text at all. */
  lemma ZipPathsIgnoreData(columns: seq<ColumnMetadata>, data1: seq<TranslationRow>, data2: seq<TranslationRow>,
                           stringify: Dict -> string)
    ensures Keys(ZipFiles(Project(columns, data1), stringify)) == Keys(ZipFiles(Project(columns, data2), stringify))
  {
    var p1, p2 := Project(columns, data1), Project(columns, data2);
    ZipOutputsShape(p1, p2, columns, stringify);
    InsertedKeys(ZipOutputs(p1, columns, stringify));
    InsertedKeys(ZipOutputs(p2, columns, stringify));
    FirstKeysIgnoreValues(ZipOutputs(p1, columns, stringify), ZipOutputs(p2, columns, stringify));
  }

  lemma {:induction false} ZipOutputsShape(p1: Project, p2: Project, columns: seq<ColumnMetadata>, stringify: Dict -> string)
    ensures var o1, o2 := ZipOutputs(p1, columns, stringify), ZipOutputs(p2, columns, stringify);
      |o1| == |o2| == 3 * |columns|
      && forall i :: 0 <= i < |o1| ==> o1[i].Some? == o2[i].Some? && (o1[i].Some? ==> o1[i].value.0 == o2[i].value.0)
  {
    if columns != [] {
      ZipOutputsShape(p1, p2, columns[..|columns| - 1], stringify);
    }
  }

  /** Column `j`'s file for a platform sits at position `3 j + (0, 1, 2)`
      and is there exactly when its file name and directory are non-empty,
      at the path `SafePath(dir) + file`. */
  lemma {:induction false} ZipOutputAt(project: Project, columns: seq<ColumnMetadata>, stringify: Dict -> string, j: nat)
    requires j < |columns|
    ensures var o := ZipOutputs(project, columns, stringify);
      && |o| == 3 * |columns|
      && o[3 * j] == PlatformOutput(project, columns[j], Android, stringify)
      && o[3 * j + 1] == PlatformOutput(project, columns[j], IOS, stringify)
      && o[3 * j + 2] == PlatformOutput(project, columns[j], Flutter, stringify)
  {
    var n := |columns| - 1;
    var init := columns[..n];
    var c := columns[n];
    ZipOutputsLength(project, init, stringify);
    TripleSnoc(ZipOutputs(project, init, stringify), PlatformOutput(project, c, Android, stringify),
               PlatformOutput(project, c, IOS, stringify), PlatformOutput(project, c, Flutter, stringify), n, j);
    if j < n {
      ZipOutputAt(project, init, stringify, j);
      assert init[j] == columns[j];
    }
  }

  /** Appending three slots to `3 n` of them keeps the first `n` triples. */
  lemma TripleSnoc<T>(prefix: seq<T>, a: T, b: T, c: T, n: nat, j: nat)
    requires |prefix| == 3 * n && j <= n
    ensures var o := prefix + [a, b, c];
      && |o| == 3 * (n + 1)
      && (j < n ==> o[3 * j] == prefix[3 * j] && o[3 * j + 1] == prefix[3 * j + 1] && o[3 * j + 2] == prefix[3 * j + 2])
      && (j == n ==> o[3 * j] == a && o[3 * j + 1] == b && o[3 * j + 2] == c)
  {
  }

  lemma {:induction false} ZipOutputsLength(project: Project, columns: seq<ColumnMetadata>, stringify: Dict -> string)
    ensures |ZipOutputs(project, columns, stringify)| == 3 * |columns|
  {
    if columns != [] {
      ZipOutputsLength(project, columns[..|columns| - 1], stringify);
    }
  }

  /** The platform written in position `k` of each column's three slots. */
  function SlotPlatform(k: nat): Platform {
    if k == 0 then Android else if k == 1 then IOS else Flutter
  }

  /** Slots `3 j`, `3 j + 1` and `3 j + 2` of the outputs are column `j`'s
      Android, iOS and Flutter files. */
  lemma ZipLayout(project: Project, stringify: Dict -> string)
    ensures var o := ZipOutputs(project, project.columns, stringify);
      && |o| == 3 * |project.columns|
      && (forall j :: 0 <= j < |project.columns| ==> o[3 * j] == PlatformOutput(project, project.columns[j], Android, stringify))
      && (forall j :: 0 <= j < |project.columns| ==> o[3 * j + 1] == PlatformOutput(project, project.columns[j], IOS, stringify))
      && (forall j :: 0 <= j < |project.columns| ==> o[3 * j + 2] == PlatformOutput(project, project.columns[j], Flutter, stringify))
  {
    ZipOutputsShape(project, project, project.columns, stringify);
    forall j | 0 <= j < |project.columns| {
      ZipOutputAt(project, project.columns, stringify, j);
    }
  }

  /** The archive holds a path exactly when some column `j` configures a
      platform slot `k` whose directory prefix and file name spell it, and
      then the content written by the last such slot: a later column
      overwrites an earlier file at the same path. */
  lemma ZipFilesLaw(project: Project, stringify: Dict -> string, path: string)
    ensures Distinct(ZipFiles(project, stringify))
    ensures path in Keys(ZipFiles(project, stringify)) <==>
              exists j, k :: 0 <= j < |project.columns| && 0 <= k < 3 && Emits(project.columns[j], k, path)
    ensures forall j, k :: (0 <= j < |project.columns| && 0 <= k < 3 && Emits(project.columns[j], k, path)
                            && (forall j', k' :: 0 <= j' < |project.columns| && 0 <= k' < 3 && 3 * j + k < 3 * j' + k'
                                  ==> !Emits(project.columns[j'], k', path))) ==>
              Get(ZipFiles(project, stringify), path) == Some(SlotContent(project, project.columns[j], k, stringify))
  {
    var cols := project.columns;
    var o := ZipOutputs(project, cols, stringify);
    InsertedLaw(o, path);
    ZipKeyLaw(o, cols, project, stringify, path);
    forall j, k | (0 <= j < |cols| && 0 <= k < 3 && Emits(cols[j], k, path)
                   && (forall j', k' :: 0 <= j' < |cols| && 0 <= k' < 3 && 3 * j + k < 3 * j' + k' ==> !Emits(cols[j'], k', path)))
      ensures Get(ZipFiles(project, stringify), path) == Some(SlotContent(project, cols[j], k, stringify))
    {
      SlotAt(o, cols, project, stringify, path, j, k);
      forall m | 3 * j + k < m < |o| ensures !Assigns(o[m], path) {
        SlotOf(o, cols, project, stringify, path, m);
        var j', k' := m / 3, m % 3;
        assert 0 <= j' < |cols| && 0 <= k' < 3 && 3 * j + k < 3 * j' + k';
      }
    }
  }

  lemma ZipKeyLaw(o: seq<Option<Entry>>, cols: seq<ColumnMetadata>, project: Project, stringify: Dict -> string, path: string)
    requires project.columns == cols && o == ZipOutputs(project, cols, stringify)
    ensures (exists n :: 0 <= n < |o| && Assigns(o[n], path)) <==>
              exists j, k :: 0 <= j < |cols| && 0 <= k < 3 && Emits(cols[j], k, path)
  {
    if n :| 0 <= n < |o| && Assigns(o[n], path) {
      SlotOf(o, cols, project, stringify, path, n);
      var j, k := n / 3, n % 3;
      assert 0 <= j < |cols| && 0 <= k < 3 && Emits(cols[j], k, path);
    }
    if j, k :| 0 <= j < |cols| && 0 <= k < 3 && Emits(cols[j], k, path) {
      SlotAt(o, cols, project, stringify, path, j, k);
      assert 0 <= 3 * j + k < |o| && Assigns(o[3 * j + k], path);
    }
  }

  lemma SlotOf(o: seq<Option<Entry>>, cols: seq<ColumnMetadata>, project: Project, stringify: Dict -> string, path: string, n: nat)
    requires project.columns == cols && o == ZipOutputs(project, cols, stringify)
    requires n < |o|
    ensures |o| == 3 * |cols| && n / 3 < |cols| && n == 3 * (n / 3) + n % 3
    ensures Assigns(o[n], path) <==> Emits(cols[n / 3], n % 3, path)
  {
    ZipLayout(project, stringify);
    var j, k := n / 3, n % 3;
    assert n == 3 * j + k;
    SlotAt(o, cols, project, stringify, path, j, k);
  }

  lemma SlotAt(o: seq<Option<Entry>>, cols: seq<ColumnMetadata>, project: Project, stringify: Dict -> string, path: string, j: nat, k: nat)
    requires project.columns == cols && o == ZipOutputs(project, cols, stringify)
    requires j < |cols| && k < 3
    ensures |o| == 3 * |cols|
    ensures Assigns(o[3 * j + k], path) <==> Emits(cols[j], k, path)
    ensures Emits(cols[j], k, path) ==> o[3 * j + k].value.1 == SlotContent(project, cols[j], k, stringify)
  {
    ZipOutputAt(project, cols, stringify, j);
    var c := cols[j];
    SlotPick(o, j, k, PlatformOutput(project, c, Android, stringify), PlatformOutput(project, c, IOS, stringify),
             PlatformOutput(project, c, Flutter, stringify));
    PlatformEmits(project, c, k, path, stringify);
  }

  /** Slot `k` of the three at `3 j`. */
  lemma SlotPick<T>(o: seq<T>, j: nat, k: nat, x0: T, x1: T, x2: T)
    requires k < 3 && 3 * j + 2 < |o|
    requires o[3 * j] == x0 && o[3 * j + 1] == x1 && o[3 * j + 2] == x2
    ensures o[3 * j + k] == if k == 0 then x0 else if k == 1 then x1 else x2
  {
  }

  /** Whether a column's file for slot `k` goes to `path`, and what it holds. */
  lemma PlatformEmits(project: Project, c: ColumnMetadata, k: nat, path: string, stringify: Dict -> string)
    requires k < 3
    ensures var out := if k == 0 then PlatformOutput(project, c, Android, stringify)
                       else if k == 1 then PlatformOutput(project, c, IOS, stringify)
                       else PlatformOutput(project, c, Flutter, stringify);
      && (Assigns(out, path) <==> Emits(c, k, path))
      && (Emits(c, k, path) ==> out.value.1 == SlotContent(project, c, k, stringify))
  {
  }

  /** Column `c` configures platform slot `k` and writes it to `path`. */
  predicate Emits(c: ColumnMetadata, k: nat, path: string) {
    var (file, dir) := FileAndPath(c, SlotPlatform(k));
    file != "" && dir != "" && SafePath(dir) + file == path
  }

  /** What slot `k` of a column writes: the generated file of its platform
      for the column's language. */
  function SlotContent(project: Project, c: ColumnMetadata, k: nat, stringify: Dict -> string): string {
    Content(project, c.langCode, SlotPlatform(k), stringify)
  }
}
