/** The line pattern `/"(.+)"\s*=\s*"(.+)";/` used to read iOS `.strings`
    lines, as `String.prototype.match` applies it: the leftmost start wins,
    then the longest key group that still lets the rest match, then the
    longest value group. Neither group may hold a line terminator, and both
    are at least one character long. The pattern is not anchored. */
module StringsPattern {
  import opened Wrappers
  import opened JsText

  predicate NoTerminator(l: string, i: nat, j: nat)
    requires i <= j <= |l|
  {
    forall p :: i <= p < j ==> !IsLineTerminator(l[p])
  }

  /** Where a greedy `\s*` starting at `i` stops. */
  function SkipWhitespace(l: string, i: nat): (r: nat)
    requires i <= |l|
    ensures i <= r <= |l|
    ensures forall p :: i <= p < r ==> IsWhitespace(l[p])
    ensures r < |l| ==> !IsWhitespace(l[r])
    decreases |l| - i
  {
    if i < |l| && IsWhitespace(l[i]) then SkipWhitespace(l, i + 1) else i
  }

  /** After the key's closing quote at `a`, the part `\s*=\s*"`: the position
      of the value's opening quote. Since neither `=` nor `"` is whitespace,
      backtracking into `\s*` can never help, so this position is unique. */
  function ValueOpen(l: string, a: nat): (r: Option<nat>)
    requires a < |l|
    ensures r.Some? ==> a + 1 < r.value < |l| && l[r.value] == '"'
  {
    var b := SkipWhitespace(l, a + 1);
    if b < |l| && l[b] == '=' then
      var c := SkipWhitespace(l, b + 1);
      if c < |l| && l[c] == '"' then Some(c) else None
    else None
  }

  /** The value group runs from `c + 1` to `d`, followed by `";`. */
  predicate ValueClose(l: string, c: nat, d: nat) {
    c + 1 < d && d + 1 < |l| && l[d] == '"' && l[d + 1] == ';' && NoTerminator(l, c + 1, d)
  }

  /** A match starting at the quote `s`, whose key group ends at the quote `a`
      and whose value group ends at the quote `d`. */
  predicate IsMatch(l: string, s: nat, a: nat, d: nat) {
    s + 1 < a < |l| && l[s] == '"' && l[a] == '"' && NoTerminator(l, s + 1, a)
    && ValueOpen(l, a).Some? && ValueClose(l, ValueOpen(l, a).value, d)
  }

  /** The captured (key, value) of a match. */
  function Groups(l: string, s: nat, a: nat, d: nat): (string, string)
    requires IsMatch(l, s, a, d)
  {
    (l[s + 1..a], l[ValueOpen(l, a).value + 1..d])
  }

  /** The match the regular-expression engine reports among all matches. */
  ghost predicate Preferred(l: string, s: nat, a: nat, d: nat) {
    forall s': nat, a': nat, d': nat :: IsMatch(l, s', a', d') ==>
      s <= s' && (s' == s ==> a' <= a && (a' == a ==> d' <= d))
  }

  /** The greedy value group: the last closing position at or before `d`. */
  function LastValueClose(l: string, c: nat, d: int): (r: Option<nat>)
    ensures r.Some? ==> r.value <= d && ValueClose(l, c, r.value)
    ensures forall d' :: (if r.Some? then r.value < d' else 0 <= d') && d' <= d ==> !ValueClose(l, c, d')
    decreases d
  {
    if d <= c + 1 then None
    else if ValueClose(l, c, d) then Some(d)
    else LastValueClose(l, c, d - 1)
  }

  /** Whether the rest of the pattern matches after a key closing at `a`. */
  predicate Completes(l: string, a: nat)
    requires a < |l|
  {
    ValueOpen(l, a).Some? && LastValueClose(l, ValueOpen(l, a).value, |l| - 1).Some?
  }

  predicate KeyClose(l: string, s: nat, a: nat) {
    s + 1 < a < |l| && l[a] == '"' && NoTerminator(l, s + 1, a) && Completes(l, a)
  }

  /** The greedy key group: the last key end at or before `a` that completes. */
  function LastKeyClose(l: string, s: nat, a: int): (r: Option<nat>)
    ensures r.Some? ==> r.value <= a && KeyClose(l, s, r.value)
    ensures forall a' :: (if r.Some? then r.value < a' else 0 <= a') && a' <= a ==> !KeyClose(l, s, a')
    decreases a
  {
    if a <= s + 1 then None
    else if a < |l| && l[a] == '"' && NoTerminator(l, s + 1, a) && Completes(l, a) then Some(a)
    else LastKeyClose(l, s, a - 1)
  }

  predicate StartsMatch(l: string, s: nat) {
    s < |l| && l[s] == '"' && LastKeyClose(l, s, |l| - 1).Some?
  }

  /** The leftmost start at or after `s`. */
  function FirstStart(l: string, s: nat): (r: Option<nat>)
    ensures r.Some? ==> s <= r.value && StartsMatch(l, r.value)
    ensures forall s' :: s <= s' && (r.Some? ==> s' < r.value) ==> !StartsMatch(l, s')
    decreases |l| - s
  {
    if s >= |l| then None
    else if StartsMatch(l, s) then Some(s)
    else FirstStart(l, s + 1)
  }

  /** Where the engine's match lies: the start, the key's closing quote and
      the value's closing quote, or None when the line does not match. */
  function FindMatch(l: string): (r: Option<(nat, nat, nat)>)
    ensures r.None? ==> forall s: nat, a: nat, d: nat :: !IsMatch(l, s, a, d)
    ensures r.Some? ==> IsMatch(l, r.value.0, r.value.1, r.value.2) && Preferred(l, r.value.0, r.value.1, r.value.2)
  {
    match FirstStart(l, 0)
    case None =>
      NoMatch(l);
      None
    case Some(s) =>
      var a := LastKeyClose(l, s, |l| - 1).value;
      var c := ValueOpen(l, a).value;
      var d := LastValueClose(l, c, |l| - 1).value;
      FoundPreferred(l, s, a, d);
      Some((s, a, d))
  }

  /** `line.match(regex)`, giving the two groups when the line matches. */
  function MatchLine(l: string): Option<(string, string)> {
    match FindMatch(l)
    case None => None
    case Some((s, a, d)) => Some(Groups(l, s, a, d))
  }

  lemma MatchStarts(l: string, s: nat, a: nat, d: nat)
    requires IsMatch(l, s, a, d)
    ensures KeyClose(l, s, a) && StartsMatch(l, s)
  {
    var c := ValueOpen(l, a).value;
    assert d <= |l| - 1 && ValueClose(l, c, d);
    assert LastValueClose(l, c, |l| - 1).Some?;
    assert KeyClose(l, s, a);
    assert a <= |l| - 1;
    assert LastKeyClose(l, s, |l| - 1).Some?;
  }

  lemma NoMatch(l: string)
    requires FirstStart(l, 0).None?
    ensures forall s, a, d :: !IsMatch(l, s, a, d)
  {
    forall s, a, d | IsMatch(l, s, a, d) ensures false {
      MatchStarts(l, s, a, d);
    }
  }

  lemma FoundPreferred(l: string, s: nat, a: nat, d: nat)
    requires FirstStart(l, 0) == Some(s)
    requires LastKeyClose(l, s, |l| - 1) == Some(a)
    requires ValueOpen(l, a).Some? && LastValueClose(l, ValueOpen(l, a).value, |l| - 1) == Some(d)
    ensures IsMatch(l, s, a, d) && Preferred(l, s, a, d)
  {
    forall s': nat, a': nat, d': nat | IsMatch(l, s', a', d')
      ensures s <= s' && (s' == s ==> a' <= a && (a' == a ==> d' <= d))
    {
      MatchStarts(l, s', a', d');
    }
  }

  /** The text of one generated entry line, `"KEY" = "VALUE";`. */
  function EntryLine(k: string, v: string): (l: string)
    ensures |l| == |k| + |v| + 8
  {
    ['"'] + k + ['"', ' ', '=', ' ', '"'] + v + ['"', ';']
  }

  predicate Plain(t: string) {
    forall i :: 0 <= i < |t| ==> t[i] != '"' && !IsLineTerminator(t[i])
  }

  predicate NoTerminatorIn(t: string) {
    forall i :: 0 <= i < |t| ==> !IsLineTerminator(t[i])
  }

  /** An entry line is a match that reads back the key and value it was written from. */
  lemma EntryLineIsMatch(k: string, v: string)
    requires k != [] && v != [] && NoTerminatorIn(k) && NoTerminatorIn(v)
    ensures var l := EntryLine(k, v);
      IsMatch(l, 0, |k| + 1, |k| + 6 + |v|) && Groups(l, 0, |k| + 1, |k| + 6 + |v|) == (k, v)
  {
    EntryLineShape(k, v);
    var l := EntryLine(k, v);
    var q1, q2 := |k| + 1, |k| + 5;
    var b := SkipWhitespace(l, q1 + 1);
    assert b == q1 + 2;
    assert SkipWhitespace(l, b + 1) == q2;
    assert ValueOpen(l, q1) == Some(q2);
  }

  /** Where the quotes, the spaces, the `=`, the key and the value sit. */
  lemma EntryLineShape(k: string, v: string)
    ensures var l := EntryLine(k, v); var q1 := |k| + 1; var q3 := |k| + 6 + |v|;
      && |l| == q3 + 2
      && (forall p :: 1 <= p < q1 ==> l[p] == k[p - 1])
      && (forall p :: q1 + 4 < p < q3 ==> l[p] == v[p - q1 - 5])
      && l[0] == '"' && l[q1] == '"' && l[q1 + 1] == ' ' && l[q1 + 2] == '='
      && l[q1 + 3] == ' ' && l[q1 + 4] == '"' && l[q3] == '"' && l[q3 + 1] == ';'
      && l[1..q1] == k && l[q1 + 5..q3] == v
  {
    var l := EntryLine(k, v);
    var q1, q2, q3 := |k| + 1, |k| + 5, |k| + 6 + |v|;
    assert forall p :: 1 <= p < q1 ==> l[p] == k[p - 1];
    assert forall p :: q2 < p < q3 ==> l[p] == v[p - q2 - 1];
    assert l[1..q1] == k;
    assert l[q2 + 1..q3] == v;
  }

  /** A generated line reads back as its own key and value, provided both are
      non-empty and hold neither a quote nor a line terminator. */
  lemma EntryLineMatches(k: string, v: string)
    requires k != [] && v != [] && Plain(k) && Plain(v)
    ensures MatchLine(EntryLine(k, v)) == Some((k, v))
  {
    var l := EntryLine(k, v);
    var q1, q2, q3 := |k| + 1, |k| + 5, |k| + 6 + |v|;
    EntryLineIsMatch(k, v);
    EntryLineQuotes(k, v);
    forall s: nat, a: nat, d: nat | IsMatch(l, s, a, d) ensures s == 0 && a == q1 && d == q3 {
      var c' := ValueOpen(l, a).value;
    }
  }

  /** With a plain key and value, the line's only quotes are its four own. */
  lemma EntryLineQuotes(k: string, v: string)
    requires Plain(k) && Plain(v)
    ensures var l := EntryLine(k, v);
      forall p :: 0 <= p < |l| && l[p] == '"' ==> p == 0 || p == |k| + 1 || p == |k| + 5 || p == |k| + 6 + |v|
  {
    EntryLineShape(k, v);
  }

  /** Captured text is not unescaped: a value holding quotes (an escaped
      `\"`, say) but no `=` comes back exactly as written. */
  lemma QuotedValueKept(k: string, v: string)
    requires k != [] && Plain(k)
    requires v != [] && '=' !in v && NoTerminatorIn(v)
    ensures MatchLine(EntryLine(k, v)) == Some((k, v))
  {
    var l := EntryLine(k, v);
    var q1, q3 := |k| + 1, |k| + 6 + |v|;
    EntryLineShape(k, v);
    EntryLineIsMatch(k, v);
    var s, a, d := FindMatch(l).value.0, FindMatch(l).value.1, FindMatch(l).value.2;
    PreferredBounds(l, s, a, d, 0, q1, q3);
    if a > q1 {
      KeyEndsAtFirstClose(k, v, a);
      assert false;
    }
    assert s == 0 && a == q1;
    assert d + 1 < |l|;
    assert d == q3;
  }

  lemma PreferredBounds(l: string, s: nat, a: nat, d: nat, s0: nat, a0: nat, d0: nat)
    requires Preferred(l, s, a, d) && IsMatch(l, s0, a0, d0)
    ensures s <= s0 && (s == s0 ==> a0 <= a && (a0 == a ==> d0 <= d))
  {
  }

  lemma KeyEndsAtFirstClose(k: string, v: string, a: nat)
    requires k != [] && Plain(k)
    requires v != [] && '=' !in v && NoTerminatorIn(v)
    requires |k| + 1 < a < |EntryLine(k, v)| && EntryLine(k, v)[a] == '"'
    ensures ValueOpen(EntryLine(k, v), a).None?
  {
    var l := EntryLine(k, v);
    var q1, q3 := |k| + 1, |k| + 6 + |v|;
    EntryLineShape(k, v);
    EntryLineIsMatch(k, v);
    assert forall p :: q1 + 2 < p < |l| ==> l[p] != '=';
  }
}
