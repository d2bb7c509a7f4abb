/** The JavaScript string operations the translation pipeline relies on:
    `split` on one character, global and first-occurrence `replace` of one
    character, `trim`, and the character classes of regular expressions. */
module JsText {

  /** Line terminators: the characters `.` in a regular expression does not match. */
  predicate IsLineTerminator(c: char) {
    c == '\n' || c == '\r' || c == '\U{2028}' || c == '\U{2029}'
  }

  /** WhiteSpace and LineTerminator code points: the class `\s` and what `trim` removes. */
  predicate IsWhitespace(c: char) {
    || c == '\t' || c == '\U{B}' || c == '\U{C}' || c == ' ' || c == '\U{A0}'
    || c == '\U{1680}' || ('\U{2000}' <= c <= '\U{200A}') || c == '\U{202F}'
    || c == '\U{205F}' || c == '\U{3000}' || c == '\U{FEFF}'
    || IsLineTerminator(c)
  }

  predicate AllWhitespace(s: string) {
    forall i :: 0 <= i < |s| ==> IsWhitespace(s[i])
  }

  /** `s.trimStart()` */
  function TrimStart(s: string): string {
    if s != [] && IsWhitespace(s[0]) then TrimStart(s[1..]) else s
  }

  /** `s.trimEnd()` */
  function TrimEnd(s: string): string {
    if s != [] && IsWhitespace(s[|s| - 1]) then TrimEnd(s[..|s| - 1]) else s
  }

  /** `s.trim()` */
  function Trim(s: string): string {
    TrimEnd(TrimStart(s))
  }

  lemma {:induction false} TrimStartBlank(s: string)
    ensures TrimStart(s) == [] <==> AllWhitespace(s)
  {
    if s != [] && IsWhitespace(s[0]) {
      TrimStartBlank(s[1..]);
      assert AllWhitespace(s) <==> AllWhitespace(s[1..]) by {
        if AllWhitespace(s[1..]) {
          forall i | 0 <= i < |s| ensures IsWhitespace(s[i]) {
            if i > 0 { assert s[i] == s[1..][i - 1]; }
          }
        }
      }
    }
  }

  lemma {:induction false} TrimStartNotWhite(s: string)
    ensures TrimStart(s) == [] || !IsWhitespace(TrimStart(s)[0])
  {
    if s != [] && IsWhitespace(s[0]) {
      TrimStartNotWhite(s[1..]);
    }
  }

  lemma {:induction false} TrimEndKeepsLeadingNonWhite(s: string)
    requires s != [] && !IsWhitespace(s[0])
    ensures TrimEnd(s) != []
  {
    if IsWhitespace(s[|s| - 1]) {
      assert |s| > 1;
      TrimEndKeepsLeadingNonWhite(s[..|s| - 1]);
    }
  }

  /** `s.trim() === ''` holds exactly of strings made of whitespace alone. */
  lemma TrimEmptyIffBlank(s: string)
    ensures Trim(s) == "" <==> AllWhitespace(s)
  {
    TrimStartBlank(s);
    TrimStartNotWhite(s);
    if TrimStart(s) != [] {
      TrimEndKeepsLeadingNonWhite(TrimStart(s));
    }
  }

  /** `s.split(sep)` for a one-character separator: the pieces between the
      separators, in order; an empty string gives `[""]`. */
  function Split(s: string, sep: char): (r: seq<string>)
    ensures |r| >= 1
    ensures forall i :: 0 <= i < |r| ==> sep !in r[i]
  {
    if s == [] then [""]
    else
      var rest := Split(s[1..], sep);
      if s[0] == sep then [""] + rest
      else [[s[0]] + rest[0]] + rest[1..]
  }

  /** `pieces.join(sep)` */
  function Join(pieces: seq<string>, sep: char): string
    requires |pieces| >= 1
  {
    if |pieces| == 1 then pieces[0] else pieces[0] + [sep] + Join(pieces[1..], sep)
  }

  /** Splitting and joining again gives back the string. */
  lemma {:induction false} SplitJoin(s: string, sep: char)
    ensures Join(Split(s, sep), sep) == s
  {
    if s != [] {
      var rest := Split(s[1..], sep);
      SplitJoin(s[1..], sep);
      if s[0] == sep {
        assert Split(s, sep)[1..] == rest;
      } else {
        var r := Split(s, sep);
        if |rest| == 1 {
          assert r == [[s[0]] + rest[0]];
        } else {
          assert r[1..] == rest[1..];
          assert Join(rest, sep) == rest[0] + [sep] + Join(rest[1..], sep);
        }
      }
    }
  }

  /** A piece without the separator followed by the separator splits off as
      the first piece. */
  lemma {:induction false} SplitCons(line: string, sep: char, rest: string)
    requires sep !in line
    ensures Split(line + [sep] + rest, sep) == [line] + Split(rest, sep)
  {
    if line == [] {
      assert line + [sep] + rest == [sep] + rest;
      assert ([sep] + rest)[1..] == rest;
    } else {
      var s := line + [sep] + rest;
      assert s[1..] == line[1..] + [sep] + rest;
      SplitCons(line[1..], sep, rest);
      assert [line[0]] + line[1..] == line;
    }
  }

  /** `s.replace(/c/g, rep)`: every occurrence of `c` becomes `rep`. */
  function ReplaceAll(s: string, c: char, rep: string): string {
    if s == [] then [] else (if s[0] == c then rep else [s[0]]) + ReplaceAll(s[1..], c, rep)
  }

  lemma {:induction false} ReplaceAllAppend(s: string, t: string, c: char, rep: string)
    ensures ReplaceAll(s + t, c, rep) == ReplaceAll(s, c, rep) + ReplaceAll(t, c, rep)
  {
    if s != [] {
      assert (s + t)[1..] == s[1..] + t;
      ReplaceAllAppend(s[1..], t, c, rep);
    } else {
      assert s + t == t;
    }
  }

  /** A string without `c` is left as it is. */
  lemma {:induction false} ReplaceAllAbsent(s: string, c: char, rep: string)
    requires c !in s
    ensures ReplaceAll(s, c, rep) == s
  {
    if s != [] {
      ReplaceAllAbsent(s[1..], c, rep);
    }
  }

  /** A replacement text without `c` leaves no `c` behind. */
  lemma {:induction false} ReplaceAllOmits(s: string, c: char, rep: string)
    requires c !in rep
    ensures c !in ReplaceAll(s, c, rep)
  {
    if s != [] {
      ReplaceAllOmits(s[1..], c, rep);
    }
  }

  /** `s.replace(c, rep)` with a string pattern: only the first occurrence. */
  function ReplaceFirst(s: string, c: char, rep: string): (r: string)
    ensures c !in s ==> r == s
    ensures |r| == if c in s then |s| - 1 + |rep| else |s|
  {
    if s == [] then []
    else if s[0] == c then rep + s[1..]
    else [s[0]] + ReplaceFirst(s[1..], c, rep)
  }

  /** `pieces.join('')` */
  function Concat(pieces: seq<string>): string {
    if pieces == [] then [] else Concat(pieces[..|pieces| - 1]) + pieces[|pieces| - 1]
  }

  lemma AppendAssoc(a: string, b: string, c: string)
    ensures (a + b) + c == a + (b + c)
  {
  }

  lemma ConcatSnoc(pieces: seq<string>, p: string)
    ensures Concat(pieces + [p]) == Concat(pieces) + p
  {
    assert (pieces + [p])[..|pieces|] == pieces;
  }

  /** Text framed by `a` and `c` begins with `a` and ends with `c`. */
  lemma Framed(a: string, b: string, c: string)
    ensures (a + b + c)[..|a|] == a
    ensures (a + b + c)[|a + b + c| - |c|..] == c
  {
  }

  /** Appending one more piece to text that already ends in `Concat(pieces)`. */
  lemma ExtendConcat(start: string, pieces: seq<string>, p: string)
    ensures start + Concat(pieces + [p]) == (start + Concat(pieces)) + p
  {
    ConcatSnoc(pieces, p);
    AppendAssoc(start, Concat(pieces), p);
  }

  lemma {:induction false} ConcatAppend(a: seq<string>, b: seq<string>)
    ensures Concat(a + b) == Concat(a) + Concat(b)
  {
    if b == [] {
      assert a + b == a;
    } else {
      var init, last := b[..|b| - 1], b[|b| - 1];
      assert a + b == (a + init) + [last];
      ConcatSnoc(a + init, last);
      ConcatAppend(a, init);
      assert b == init + [last];
      ConcatSnoc(init, last);
      AppendAssoc(Concat(a), Concat(init), last);
    }
  }

  predicate StartsWith(s: string, c: char) {
    s != [] && s[0] == c
  }

  predicate EndsWith(s: string, c: char) {
    s != [] && s[|s| - 1] == c
  }

  /** Only the first occurrence is replaced. */
  lemma {:induction false} ReplaceFirstAt(s: string, c: char, rep: string, i: nat)
    requires i < |s| && s[i] == c && c !in s[..i]
    ensures ReplaceFirst(s, c, rep) == s[..i] + rep + s[i + 1..]
  {
    if i == 0 {
      assert s[..0] == [];
    } else {
      assert s[0] in s[..i];
      assert s[1..][..i - 1] == s[1..i];
      ReplaceFirstAt(s[1..], c, rep, i - 1);
      assert s[..i] == [s[0]] + s[1..][..i - 1];
      assert s[i + 1..] == s[1..][i..];
    }
  }

  /** Each line followed by the separator. */
  function Terminated(lines: seq<string>, sep: char): (r: seq<string>)
    ensures |r| == |lines| && forall i :: 0 <= i < |lines| ==> r[i] == lines[i] + [sep]
  {
    seq(|lines|, i requires 0 <= i < |lines| => lines[i] + [sep])
  }

  lemma TerminatedSnoc(lines: seq<string>, line: string, sep: char)
    ensures Terminated(lines + [line], sep) == Terminated(lines, sep) + [line + [sep]]
  {
  }

  /** Lines each followed by the separator split back into those lines and a
      final empty piece. */
  lemma {:induction false} SplitLines(lines: seq<string>, sep: char)
    requires forall i :: 0 <= i < |lines| ==> sep !in lines[i]
    ensures Split(Concat(Terminated(lines, sep)), sep) == lines + [""]
  {
    var terminated := Terminated(lines, sep);
    if lines == [] {
      assert terminated == [];
    } else {
      var rest := Terminated(lines[1..], sep);
      assert terminated == [lines[0] + [sep]] + rest;
      ConcatAppend([lines[0] + [sep]], rest);
      assert Concat([lines[0] + [sep]]) == Concat([]) + (lines[0] + [sep]);
      assert Concat(terminated) == lines[0] + [sep] + Concat(rest);
      SplitLines(lines[1..], sep);
      SplitCons(lines[0], sep, Concat(rest));
      assert [lines[0]] + (lines[1..] + [""]) == lines + [""];
    }
  }
}
