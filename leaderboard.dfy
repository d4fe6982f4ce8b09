/** The relay's `sanitize`: it turns whatever list a client sent into at most
    500 clean, de-duplicated score records in leaderboard order. */
module Leaderboard {
  import opened Text
  import opened Ranking

  const MAX_STORED_SCORES: nat := 500
  /** The snake emoji, the avatar of a record that has none. */
  const DEFAULT_AVATAR: string := "\U{1F40D}"
  /** `new Date(0).toISOString()`. */
  const EPOCH_ISO: string := "1970-01-01T00:00:00.000Z"

  /** A JSON field value as far as `sanitize` looks at it. Numbers are integers. */
  datatype Value = Undefined | Null | Str(s: string) | Num(n: int) | NonFinite | Other

  /** One element of the incoming list: something falsy, or an object with the
      four fields `sanitize` reads (a missing field is `Undefined`). */
  datatype RawEntry = Falsy | Record(name: Value, score: Value, avatar: Value, date: Value)

  /** The incoming body field: not an array at all, or an array of elements. */
  datatype Input = NotArray | Items(items: seq<RawEntry>)

  /** `entry && typeof entry.name === "string" && Number.isFinite(entry.score)`. */
  predicate Kept(e: RawEntry)
    ensures Kept(e) ==> e.Record?
    ensures e.Record? && (!e.name.Str? || !e.score.Num?) ==> !Kept(e)
  {
    e.Record? && e.name.Str? && e.score.Num?
  }

  /** The record a kept element becomes: a cleaned name, its score, and the
      default avatar and date where those are not strings. */
  function Normalize(e: RawEntry): (r: Entry)
    requires Kept(e)
    ensures r.name == NormalizeName(e.name.s) && r.score == e.score.n
    ensures r.avatar == if e.avatar.Str? then e.avatar.s else DEFAULT_AVATAR
    ensures r.date == if e.date.Str? then e.date.s else EPOCH_ISO
  {
    Entry(NormalizeName(e.name.s), e.score.n,
          if e.avatar.Str? then e.avatar.s else DEFAULT_AVATAR,
          if e.date.Str? then e.date.s else EPOCH_ISO)
  }

  /** The `filter(...).map(...)` stage: the normalized kept elements, in input order. */
  function Normalized(items: seq<RawEntry>): (r: seq<Entry>)
    ensures |r| <= |items|
  {
    if items == [] then []
    else (if Kept(items[0]) then [Normalize(items[0])] else []) + Normalized(items[1..])
  }

  /** `e` is the normalized form of a kept element of `items`. */
  predicate FromKept(items: seq<RawEntry>, e: Entry) {
    exists x :: x in items && Kept(x) && e == Normalize(x)
  }

  /** The filter keeps exactly the kept elements, and every record comes from one. */
  lemma {:induction false} NormalizedSpec(items: seq<RawEntry>)
    ensures |Normalized(items)| <= |items|
    ensures forall e :: e in Normalized(items) ==> FromKept(items, e)
    ensures forall x :: x in items && Kept(x) ==> Normalize(x) in Normalized(items)
  {
    if items != [] {
      NormalizedSpec(items[1..]);
      assert forall x :: x in items[1..] ==> x in items;
      assert forall x :: x in items ==> x == items[0] || x in items[1..];
    }
  }

  /** The de-duplication key `${name}|${avatar}|${score}|${date}`. */
  function Key(e: Entry): (k: string)
    ensures e.name + "|" <= k && |e.date| < |k| && k[|k| - |e.date| - 1..] == "|" + e.date
  {
    e.name + "|" + e.avatar + "|" + IntToDecimal(e.score) + "|" + e.date
  }

  /** The keys the entries of `s` have under `key`. */
  function KeysOf<T(==), K>(s: seq<T>, key: T -> K): set<K> {
    set x | x in s :: key(x)
  }

  /** No two entries of `s` share a key. */
  predicate KeysDistinct<T, K(==)>(s: seq<T>, key: T -> K) {
    forall i, j :: 0 <= i < j < |s| ==> key(s[i]) != key(s[j])
  }

  /** `s[k]` is the first entry of `s` with its key. */
  predicate FirstOfKey<T, K(==)>(s: seq<T>, key: T -> K, k: nat)
    requires k < |s|
  {
    forall j :: 0 <= j < k ==> key(s[j]) != key(s[k])
  }

  /** `x` is in `s` at a position where its key occurs first. */
  predicate FirstIn<T(==), K(==)>(s: seq<T>, key: T -> K, x: T) {
    exists k :: 0 <= k < |s| && s[k] == x && FirstOfKey(s, key, k)
  }

  /** The values of an insertion-ordered map filled by `if (!m.has(key(x)))
      m.set(key(x), x)` for each `x` of `s`: for each key, the first entry of
      `s` that has it, in the order keys first appear. */
  function FirstOccurrences<T(==), K(==)>(s: seq<T>, key: T -> K): (r: seq<T>)
    ensures |r| <= |s|
    ensures forall x :: x in r ==> x in s
    decreases |s|
  {
    if s == [] then []
    else
      var p := FirstOccurrences(s[..|s| - 1], key);
      if key(s[|s| - 1]) in KeysOf(p, key) then p else p + [s[|s| - 1]]
  }

  /** De-duplication loses no key and does not lengthen the list. */
  lemma {:induction false} FirstOccurrencesKeys<T, K>(s: seq<T>, key: T -> K)
    ensures |FirstOccurrences(s, key)| <= |s|
    ensures KeysOf(FirstOccurrences(s, key), key) == KeysOf(s, key)
    decreases |s|
  {
    if s != [] {
      var init := s[..|s| - 1];
      var last := s[|s| - 1];
      var p := FirstOccurrences(init, key);
      FirstOccurrencesKeys(init, key);
      assert s == init + [last];
      assert KeysOf(s, key) == KeysOf(init, key) + {key(last)};
      assert KeysOf(p + [last], key) == KeysOf(p, key) + {key(last)};
    }
  }

  /** De-duplication keeps one entry per key. */
  lemma {:induction false} FirstOccurrencesDistinct<T, K>(s: seq<T>, key: T -> K)
    ensures KeysDistinct(FirstOccurrences(s, key), key)
    decreases |s|
  {
    if s != [] {
      var p := FirstOccurrences(s[..|s| - 1], key);
      FirstOccurrencesDistinct(s[..|s| - 1], key);
      assert forall i :: 0 <= i < |p| ==> key(p[i]) in KeysOf(p, key);
    }
  }

  /** De-duplication keeps, for each key, the entry where that key first occurs. */
  lemma {:induction false} FirstOccurrencesFirst<T, K>(s: seq<T>, key: T -> K)
    ensures forall x :: x in FirstOccurrences(s, key) ==> FirstIn(s, key, x)
    decreases |s|
  {
    if s != [] {
      var init := s[..|s| - 1];
      var last := s[|s| - 1];
      var p := FirstOccurrences(init, key);
      FirstOccurrencesFirst(init, key);
      forall x | x in p ensures FirstIn(s, key, x) {
        var k :| 0 <= k < |init| && init[k] == x && FirstOfKey(init, key, k);
        assert s[k] == x && FirstOfKey(s, key, k);
      }
      if key(last) !in KeysOf(p, key) {
        FirstOccurrencesKeys(init, key);
        assert FirstOfKey(s, key, |s| - 1) by {
          forall j | 0 <= j < |s| - 1 ensures key(s[j]) != key(last) {
            assert s[j] in init;
          }
        }
      }
    }
  }

  /** The `forEach` over the normalized list that fills the map `unique`
      (called with `key` = `Key`): `seen` holds the map's keys and `unique` its
      values in insertion order. */
  method Dedup<T(==), K(==)>(normalized: seq<T>, key: T -> K) returns (unique: seq<T>)
    ensures unique == FirstOccurrences(normalized, key)
  {
    var seen: set<K> := {};
    unique := [];
    for i := 0 to |normalized|
      invariant unique == FirstOccurrences(normalized[..i], key)
      invariant seen == KeysOf(unique, key)
    {
      var entry := normalized[i];
      var k := key(entry);
      assert normalized[..i + 1][..i] == normalized[..i];
      if k !in seen {
        seen := seen + {k};
        unique := unique + [entry];
      }
    }
    assert normalized[..|normalized|] == normalized;
  }

  /** An entry occurs once in a list whose keys are distinct. */
  lemma {:induction false} OccursOnce<T, K>(b: seq<T>, key: T -> K, x: T)
    requires KeysDistinct(b, key) && x in b
    ensures multiset(b)[x] == 1
  {
    assert b == [b[0]] + b[1..];
    if b[0] != x {
      OccursOnce(b[1..], key, x);
    }
  }

  /** A sub-multiset of a list with distinct keys has distinct keys. */
  lemma KeysDistinctSub<T, K>(a: seq<T>, b: seq<T>, key: T -> K)
    requires multiset(a) <= multiset(b) && KeysDistinct(b, key)
    ensures KeysDistinct(a, key)
  {
    forall i, j | 0 <= i < j < |a| ensures key(a[i]) != key(a[j]) {
      if key(a[i]) == key(a[j]) {
        assert a[i] in multiset(b) && a[j] in multiset(b);
        var p :| 0 <= p < |b| && b[p] == a[i];
        var q :| 0 <= q < |b| && b[q] == a[j];
        assert p == q;
        assert a == a[..j] + a[j..];
        assert a[i] in a[..j];
        assert multiset(a)[a[i]] == multiset(a[..j])[a[i]] + multiset(a[j..])[a[i]];
        OccursOnce(b, key, a[i]);
      }
    }
  }

  /** The de-duplicated records of a list, before sorting. */
  function Unique(items: seq<RawEntry>): (r: seq<Entry>)
    ensures |r| <= |items|
    ensures KeysDistinct(r, Key)
  {
    FirstOccurrencesDistinct(Normalized(items), Key);
    FirstOccurrences(Normalized(items), Key)
  }

  /** `sanitize(entries)`: what it returns is sorted, at most 500 long, free of
      repeated keys and made of cleaned records of kept elements, each the
      first of its key; it holds the best-ranked 500 de-duplicated records. */
  method Sanitize(input: Input) returns (r: seq<Entry>)
    ensures input.NotArray? ==> r == []
    ensures |r| <= MAX_STORED_SCORES
    ensures Sorted(r)
    ensures KeysDistinct(r, Key)
    ensures forall e :: e in r ==> e.name != [] && |e.name| <= 16
    ensures input.Items? ==> |r| <= |Normalized(input.items)|
    ensures input.Items? ==> forall e :: e in r ==>
      FromKept(input.items, e) && FirstIn(Normalized(input.items), Key, e)
    ensures input.Items? ==> multiset(r) <= multiset(Unique(input.items))
    ensures input.Items? ==>
      |r| == if |Unique(input.items)| < MAX_STORED_SCORES then |Unique(input.items)| else MAX_STORED_SCORES
    ensures input.Items? ==> forall e, i :: e in multiset(Unique(input.items)) - multiset(r) && 0 <= i < |r| ==>
      Precedes(r[i], e)
  {
    if input.NotArray? {
      return [];
    }
    var normalized := Normalized(input.items);
    var unique := Dedup(normalized, Key);
    r := TopRanked(unique, MAX_STORED_SCORES);
    SanitizedFacts(input.items, r);
  }

  /** Whatever is drawn from the de-duplicated list has distinct keys and
      consists of first entries of their keys. */
  lemma DrawnFromFirstOccurrences<T, K>(s: seq<T>, r: seq<T>, key: T -> K)
    requires multiset(r) <= multiset(FirstOccurrences(s, key))
    ensures KeysDistinct(r, key)
    ensures forall x :: x in r ==> x in s && FirstIn(s, key, x)
  {
    var unique := FirstOccurrences(s, key);
    assert KeysDistinct(r, key) by {
      FirstOccurrencesDistinct(s, key);
      KeysDistinctSub(r, unique, key);
    }
    forall x | x in r ensures x in s && FirstIn(s, key, x) {
      assert x in multiset(r);
      assert x in unique;
      FirstOccurrencesFirst(s, key);
      var k :| 0 <= k < |s| && s[k] == x && FirstOfKey(s, key, k);
    }
  }

  /** What the last two stages keep of the de-duplicated records. */
  lemma SanitizedFacts(items: seq<RawEntry>, r: seq<Entry>)
    requires multiset(r) <= multiset(Unique(items)) && |r| <= |Unique(items)|
    ensures KeysDistinct(r, Key)
    ensures |r| <= |Normalized(items)|
    ensures forall e :: e in r ==> FromKept(items, e) && FirstIn(Normalized(items), Key, e)
    ensures forall e :: e in r ==> e.name != [] && |e.name| <= 16
  {
    NormalizedSpec(items);
    FirstOccurrencesKeys(Normalized(items), Key);
    DrawnFromFirstOccurrences(Normalized(items), r, Key);
  }

  /** Where the first "|" of `s` is, or `|s|` when there is none. */
  function BarIndex(s: string): (i: nat)
    ensures i <= |s|
  {
    if s == [] || s[0] == '|' then 0 else 1 + BarIndex(s[1..])
  }

  /** A field free of "|" ends at the first "|" of what follows it. */
  lemma {:induction false} BarIndexAfter(a: string, rest: string)
    requires '|' !in a
    ensures BarIndex(a + "|" + rest) == |a|
  {
    if a != [] {
      assert (a + "|" + rest)[1..] == a[1..] + "|" + rest;
      BarIndexAfter(a[1..], rest);
    }
  }

  /** Splitting at the first "|" recovers both sides. */
  lemma SplitAtBar(a: string, r: string, b: string, t: string)
    requires '|' !in a && '|' !in b && a + "|" + r == b + "|" + t
    ensures a == b && r == t
  {
    var x := a + "|" + r;
    BarIndexAfter(a, r);
    BarIndexAfter(b, t);
    assert a == x[..|a|] && r == x[|a| + 1..];
  }

  /** The key read as the name, then the rest after the first separator. */
  lemma KeyFields(e: Entry)
    ensures '|' !in IntToDecimal(e.score)
    ensures Key(e) == e.name + "|" + (e.avatar + "|" + (IntToDecimal(e.score) + "|" + e.date))
  {
    var d := IntToDecimal(e.score);
    assert forall k :: 0 <= k < |d| ==> d[k] != '|';
  }

  /** When no name or avatar contains "|", the key determines the record, so
      only true duplicates are merged. */
  lemma KeyDeterminesEntry(a: Entry, b: Entry)
    requires '|' !in a.name && '|' !in a.avatar && '|' !in b.name && '|' !in b.avatar
    requires Key(a) == Key(b)
    ensures a == b
  {
    KeyFields(a);
    KeyFields(b);
    var da, db := IntToDecimal(a.score), IntToDecimal(b.score);
    SplitAtBar(a.name, a.avatar + "|" + (da + "|" + a.date), b.name, b.avatar + "|" + (db + "|" + b.date));
    SplitAtBar(a.avatar, da + "|" + a.date, b.avatar, db + "|" + b.date);
    SplitAtBar(da, a.date, db, b.date);
    IntToDecimalInjective(a.score, b.score);
  }

  /** The key is a string, so two different records can share it when any of
      name, avatar or date contains "|": then only the first of them survives,
      even if the second one scores higher. */
  lemma KeyCollision()
    ensures var a := Entry("p", 1, "q", "2|r");
      var b := Entry("p", 2, "q|1", "r");
      a != b && Key(a) == Key(b) && FirstOccurrences([a, b], Key) == [a]
  {
    var a := Entry("p", 1, "q", "2|r");
    var b := Entry("p", 2, "q|1", "r");
    assert IntToDecimal(1) == "1" && IntToDecimal(2) == "2";
    assert Key(a) == Key(b);
    assert [a, b][..1] == [a];
    assert FirstOccurrences([a], Key) == [a] by {
      assert [a][..0] == [];
    }
  }
}
