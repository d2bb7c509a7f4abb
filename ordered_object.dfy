/** A JavaScript object used as a string-to-string record: entries in
    insertion order. Assigning an existing key keeps its position and replaces
    its value; assigning a new key appends it (`obj[k] = v`). */
module OrderedObject {
  import opened Wrappers

  type Entry = (string, string)
  type Dict = seq<Entry>

  /** `Object.keys(d)` */
  function Keys(d: Dict): seq<string> {
    seq(|d|, i requires 0 <= i < |d| => d[i].0)
  }

  /** No key occurs twice: true of every object built with Put. */
  predicate Distinct(d: Dict) {
    forall i, j :: 0 <= i < j < |d| ==> d[i].0 != d[j].0
  }

  /** `d[k]`, with `undefined` as None. */
  function Get(d: Dict, k: string): Option<string> {
    if d == [] then None else if d[0].0 == k then Some(d[0].1) else Get(d[1..], k)
  }

  /** `d[k] = v` */
  function Put(d: Dict, k: string, v: string): Dict {
    if d == [] then [(k, v)]
    else if d[0].0 == k then [(k, v)] + d[1..]
    else [d[0]] + Put(d[1..], k, v)
  }

  /** One step of filling an object: assign an entry, or do nothing. */
  function PutOpt(d: Dict, e: Option<Entry>): Dict {
    if e.Some? then Put(d, e.value.0, e.value.1) else d
  }

  /** The object obtained by starting from `{}` and assigning the present
      entries, left to right. */
  function Inserted(es: seq<Option<Entry>>): Dict {
    if es == [] then [] else PutOpt(Inserted(es[..|es| - 1]), es[|es| - 1])
  }

  /** Reference definition: the value of the last entry for `k`. */
  function LastValue(es: seq<Option<Entry>>, k: string): Option<string> {
    if es == [] then None
    else if es[|es| - 1].Some? && es[|es| - 1].value.0 == k then Some(es[|es| - 1].value.1)
    else LastValue(es[..|es| - 1], k)
  }

  /** Reference definition: the keys of the present entries, each kept at its
      first occurrence. */
  function FirstKeys(es: seq<Option<Entry>>): seq<string> {
    if es == [] then []
    else
      var prev := FirstKeys(es[..|es| - 1]);
      var e := es[|es| - 1];
      if e.Some? && e.value.0 !in prev then prev + [e.value.0] else prev
  }

  lemma {:induction false} KeyIn(d: Dict, k: string)
    ensures k in Keys(d) <==> Get(d, k).Some?
  {
    if d != [] {
      KeyIn(d[1..], k);
      assert Keys(d) == [d[0].0] + Keys(d[1..]);
    }
  }

  lemma {:induction false} PutGet(d: Dict, k: string, v: string, k': string)
    ensures Get(Put(d, k, v), k') == if k' == k then Some(v) else Get(d, k')
  {
    if d != [] && d[0].0 != k {
      PutGet(d[1..], k, v, k');
    }
  }

  lemma {:induction false} PutKeys(d: Dict, k: string, v: string)
    ensures Keys(Put(d, k, v)) == if k in Keys(d) then Keys(d) else Keys(d) + [k]
  {
    if d != [] {
      assert Keys(d) == [d[0].0] + Keys(d[1..]);
      if d[0].0 != k {
        PutKeys(d[1..], k, v);
        assert Keys(Put(d, k, v)) == [d[0].0] + Keys(Put(d[1..], k, v));
      } else {
        assert Keys(Put(d, k, v)) == [k] + Keys(d[1..]);
      }
    }
  }

  lemma DistinctKeys(d: Dict)
    ensures Distinct(d) <==> forall i, j :: 0 <= i < j < |d| ==> Keys(d)[i] != Keys(d)[j]
  {
    forall i | 0 <= i < |d| ensures Keys(d)[i] == d[i].0 { }
  }

  lemma PutDistinct(d: Dict, k: string, v: string)
    requires Distinct(d)
    ensures Distinct(Put(d, k, v))
  {
    PutKeys(d, k, v);
    DistinctKeys(d);
    assert |Put(d, k, v)| == |Keys(Put(d, k, v))|;
    DistinctKeys(Put(d, k, v));
  }

  /** Reading a filled object gives the last value assigned to the key. */
  lemma {:induction false} InsertedGet(es: seq<Option<Entry>>, k: string)
    ensures Get(Inserted(es), k) == LastValue(es, k)
  {
    if es != [] {
      InsertedGet(es[..|es| - 1], k);
      var e := es[|es| - 1];
      if e.Some? {
        PutGet(Inserted(es[..|es| - 1]), e.value.0, e.value.1, k);
      }
    }
  }

  /** The keys of a filled object are the assigned keys in first-assignment order. */
  lemma {:induction false} InsertedKeys(es: seq<Option<Entry>>)
    ensures Keys(Inserted(es)) == FirstKeys(es)
    ensures Distinct(Inserted(es))
  {
    if es != [] {
      InsertedKeys(es[..|es| - 1]);
      var e := es[|es| - 1];
      if e.Some? {
        PutKeys(Inserted(es[..|es| - 1]), e.value.0, e.value.1);
        PutDistinct(Inserted(es[..|es| - 1]), e.value.0, e.value.1);
      }
    }
  }

  lemma {:induction false} InsertedAppend(es: seq<Option<Entry>>, e: Option<Entry>)
    ensures Inserted(es + [e]) == PutOpt(Inserted(es), e)
  {
    assert (es + [e])[..|es + [e]| - 1] == es;
  }

  /** A key has a last value exactly when some entry assigns it. */
  lemma {:induction false} LastValueSome(es: seq<Option<Entry>>, k: string)
    ensures LastValue(es, k).Some? <==> exists j :: 0 <= j < |es| && es[j].Some? && es[j].value.0 == k
  {
    if es != [] {
      var init := es[..|es| - 1];
      LastValueSome(init, k);
      if exists j :: 0 <= j < |init| && init[j].Some? && init[j].value.0 == k {
        var j :| 0 <= j < |init| && init[j].Some? && init[j].value.0 == k;
        assert es[j] == init[j];
      }
      if exists j :: 0 <= j < |es| && es[j].Some? && es[j].value.0 == k {
        var j :| 0 <= j < |es| && es[j].Some? && es[j].value.0 == k;
        if j < |init| { assert init[j] == es[j]; }
      }
    }
  }

  /** The last value comes from an entry for the key that no later entry overrides. */
  lemma {:induction false} LastValueIsLast(es: seq<Option<Entry>>, k: string, j: nat)
    requires j < |es| && es[j].Some? && es[j].value.0 == k
    requires forall j' :: j < j' < |es| ==> !(es[j'].Some? && es[j'].value.0 == k)
    ensures LastValue(es, k) == Some(es[j].value.1)
  {
    if j < |es| - 1 {
      var init := es[..|es| - 1];
      assert init[j] == es[j];
      forall j' | j < j' < |init| ensures !(init[j'].Some? && init[j'].value.0 == k) {
        assert init[j'] == es[j'];
      }
      LastValueIsLast(init, k, j);
    }
  }

  /** Assigning the entries of an object without repeated keys rebuilds it. */
  lemma {:induction false} InsertedDistinct(d: Dict)
    requires Distinct(d)
    ensures Inserted(seq(|d|, i requires 0 <= i < |d| => Some(d[i]))) == d
  {
    var es := seq(|d|, i requires 0 <= i < |d| => Some(d[i]));
    if d != [] {
      var init := d[..|d| - 1];
      InsertedDistinct(init);
      assert es[..|es| - 1] == seq(|init|, i requires 0 <= i < |init| => Some(init[i]));
      var last := d[|d| - 1];
      assert last.0 !in Keys(init);
      NotInPut(init, last.0, last.1);
      assert init + [last] == d;
    }
  }

  lemma {:induction false} NotInPut(d: Dict, k: string, v: string)
    requires k !in Keys(d)
    ensures Put(d, k, v) == d + [(k, v)]
  {
    if d != [] {
      assert Keys(d) == [d[0].0] + Keys(d[1..]);
      NotInPut(d[1..], k, v);
      assert [d[0]] + (d[1..] + [(k, v)]) == d + [(k, v)];
    }
  }

  /** Entries whose key matches `keep`, in order: the result of copying the
      kept keys of an object into a fresh one. */
  function Filter(d: Dict, keep: string -> bool): Dict {
    if d == [] then [] else (if keep(d[0].0) then [d[0]] else []) + Filter(d[1..], keep)
  }

  lemma {:induction false} FilterPut(d: Dict, k: string, v: string, keep: string -> bool)
    ensures Filter(Put(d, k, v), keep) == if keep(k) then Put(Filter(d, keep), k, v) else Filter(d, keep)
  {
    if d != [] {
      if d[0].0 == k {
        assert Put(d, k, v)[1..] == d[1..];
        if keep(k) {
          assert Filter(d, keep) == [d[0]] + Filter(d[1..], keep);
        }
      } else {
        assert Put(d, k, v) == [d[0]] + Put(d[1..], k, v);
        FilterPut(d[1..], k, v, keep);
        if keep(d[0].0) {
          var f := Filter(d[1..], keep);
          assert Filter(d, keep) == [d[0]] + f;
          assert ([d[0]] + f)[1..] == f;
          assert Put([d[0]] + f, k, v) == [d[0]] + Put(f, k, v);
        } else {
          assert Filter(d, keep) == Filter(d[1..], keep);
        }
      }
    }
  }

  /** Filtering a filled object is filling it with the kept entries only. */
  lemma {:induction false} FilterInserted(es: seq<Option<Entry>>, keep: string -> bool)
    ensures Filter(Inserted(es), keep)
         == Inserted(seq(|es|, i requires 0 <= i < |es| => if es[i].Some? && keep(es[i].value.0) then es[i] else None))
  {
    var kept := seq(|es|, i requires 0 <= i < |es| => if es[i].Some? && keep(es[i].value.0) then es[i] else None);
    if es != [] {
      var init := es[..|es| - 1];
      FilterInserted(init, keep);
      assert kept[..|kept| - 1] == seq(|init|, i requires 0 <= i < |init| => if init[i].Some? && keep(init[i].value.0) then init[i] else None);
      var e := es[|es| - 1];
      if e.Some? {
        FilterPut(Inserted(init), e.value.0, e.value.1, keep);
      }
    }
  }

  predicate Assigns(e: Option<Entry>, k: string) {
    e.Some? && e.value.0 == k
  }

  /** A filled object has a key exactly when some entry assigns it, and then
      holds the value of the last such entry. */
  lemma InsertedLaw(es: seq<Option<Entry>>, k: string)
    ensures k in Keys(Inserted(es)) <==> exists j :: 0 <= j < |es| && Assigns(es[j], k)
    ensures forall j :: 0 <= j < |es| && Assigns(es[j], k) && (forall j' :: j < j' < |es| ==> !Assigns(es[j'], k)) ==>
              Get(Inserted(es), k) == Some(es[j].value.1)
    ensures Distinct(Inserted(es))
  {
    KeyIn(Inserted(es), k);
    InsertedGet(es, k);
    LastValueSome(es, k);
    InsertedKeys(es);
    forall j | 0 <= j < |es| && Assigns(es[j], k) && (forall j' :: j < j' < |es| ==> !Assigns(es[j'], k))
      ensures Get(Inserted(es), k) == Some(es[j].value.1)
    {
      LastValueIsLast(es, k, j);
    }
  }

  /** An entry that assigns nothing, in front, changes nothing. */
  lemma {:induction false} InsertedSkipsFirstNone(es: seq<Option<Entry>>)
    ensures Inserted([None] + es) == Inserted(es)
  {
    if es != [] {
      var init := es[..|es| - 1];
      assert ([None] + es)[..|es|] == [None] + init;
      InsertedSkipsFirstNone(init);
    }
  }

  /** Which keys a filled object has, and in what order, depends only on
      which keys the entries assign, not on the values. */
  lemma {:induction false} FirstKeysIgnoreValues(es: seq<Option<Entry>>, fs: seq<Option<Entry>>)
    requires |es| == |fs|
    requires forall i :: 0 <= i < |es| ==> es[i].Some? == fs[i].Some? && (es[i].Some? ==> es[i].value.0 == fs[i].value.0)
    ensures FirstKeys(es) == FirstKeys(fs)
  {
    if es != [] {
      FirstKeysIgnoreValues(es[..|es| - 1], fs[..|fs| - 1]);
    }
  }
}
