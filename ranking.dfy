/** The score records of the leaderboard and the order both the browser and
    the relay sort them in: score descending, and among equal scores the later
    date string first. */
module Ranking {
  import opened Text

  /** One leaderboard record. Dates are ISO-8601 strings compared as strings. */
  datatype Entry = Entry(name: string, score: int, avatar: string, date: string)

  /** The display name rule shared by the relay and the browser:
      `raw.trim().slice(0, 16) || "Player"`. The result is never empty and at
      most 16 characters; a blank input gives "Player", any other input the
      first 16 characters of its trimmed form. */
  function NormalizeName(raw: string): (r: string)
    ensures r != [] && |r| <= 16
  {
    var trimmed := Trim(raw);
    var cut := if |trimmed| < 16 then trimmed else trimmed[..16];
    if cut == [] then "Player" else cut
  }

  /** Which name comes out: "Player" exactly for a blank input, otherwise
      the first (at most) 16 characters of the trimmed input. */
  lemma NormalizeNameSpec(raw: string)
    ensures Trim(raw) == [] ==> NormalizeName(raw) == "Player"
    ensures Trim(raw) != [] ==>
      var n := if |Trim(raw)| < 16 then |Trim(raw)| else 16;
      |NormalizeName(raw)| == n && NormalizeName(raw) == Trim(raw)[..n]
  {
    var trimmed := Trim(raw);
    if trimmed != [] {
      var n := if |trimmed| < 16 then |trimmed| else 16;
      assert (if |trimmed| < 16 then trimmed else trimmed[..16]) == trimmed[..n];
    }
  }

  /** `a` may stand before `b` under the comparator
      `b.score - a.score`, then `a.date < b.date ? 1 : -1`: a higher score
      first, and among equal scores `a` first unless its date is smaller. */
  predicate Precedes(a: Entry, b: Entry)
    ensures Precedes(a, b) ==> b.score <= a.score
    ensures b.score < a.score ==> Precedes(a, b)
  {
    b.score < a.score || (a.score == b.score && !StrLess(a.date, b.date))
  }

  /** Every entry may stand before every later one. */
  predicate Sorted(s: seq<Entry>) {
    forall i, j :: 0 <= i < j < |s| ==> Precedes(s[i], s[j])
  }

  /** Of any two entries, one may stand before the other. */
  lemma PrecedesTotal(a: Entry, b: Entry)
    ensures Precedes(a, b) || Precedes(b, a)
  {
    StrLessTotal(a.date, b.date);
  }

  lemma PrecedesTransitive(a: Entry, b: Entry, c: Entry)
    requires Precedes(a, b) && Precedes(b, c)
    ensures Precedes(a, c)
  {
    if a.score == b.score == c.score && StrLess(a.date, c.date) {
      StrLessTotal(a.date, b.date);
      StrLessTotal(b.date, c.date);
      StrLessTotal(a.date, c.date);
      if a.date != b.date && b.date != c.date {
        StrLessTransitive(c.date, b.date, a.date);
      }
    }
  }

  /** A sorted list stays sorted when an entry that may precede all of it is put in front. */
  lemma SortedCons(a: Entry, t: seq<Entry>)
    requires Sorted(t)
    requires forall j :: 0 <= j < |t| ==> Precedes(a, t[j])
    ensures Sorted([a] + t)
  {
  }

  /** Puts `x` into the sorted list `s` before the first entry it may precede. */
  function Insert(x: Entry, s: seq<Entry>): (r: seq<Entry>)
    requires Sorted(s)
    ensures multiset(r) == multiset(s) + multiset{x}
    ensures Sorted(r)
  {
    if s == [] then [x]
    else if Precedes(x, s[0]) then
      InsertFront(x, s);
      [x] + s
    else
      var rest := Insert(x, s[1..]);
      InsertBehind(x, s, rest);
      [s[0]] + rest
  }

  lemma InsertFront(x: Entry, s: seq<Entry>)
    requires Sorted(s) && s != [] && Precedes(x, s[0])
    ensures Sorted([x] + s)
  {
    forall j | 0 <= j < |s| ensures Precedes(x, s[j]) {
      if j > 0 { PrecedesTransitive(x, s[0], s[j]); }
    }
    SortedCons(x, s);
  }

  lemma InsertBehind(x: Entry, s: seq<Entry>, rest: seq<Entry>)
    requires Sorted(s) && s != [] && !Precedes(x, s[0])
    requires Sorted(rest) && multiset(rest) == multiset(s[1..]) + multiset{x}
    ensures Sorted([s[0]] + rest)
    ensures multiset([s[0]] + rest) == multiset(s) + multiset{x}
  {
    PrecedesTotal(x, s[0]);
    forall j | 0 <= j < |rest| ensures Precedes(s[0], rest[j]) {
      assert rest[j] in multiset(rest);
      if rest[j] != x {
        assert rest[j] in multiset(s[1..]);
        var k :| 0 <= k < |s[1..]| && s[1..][k] == rest[j];
        assert s[k + 1] == rest[j];
      }
    }
    SortedCons(s[0], rest);
    assert s == [s[0]] + s[1..];
  }

  /** The sorted arrangement of `s`: a permutation of it in which every entry
      may stand before every later one. */
  function SortByRank(s: seq<Entry>): (r: seq<Entry>)
    ensures multiset(r) == multiset(s)
    ensures Sorted(r)
  {
    if s == [] then []
    else
      assert s == [s[0]] + s[1..];
      Insert(s[0], SortByRank(s[1..]))
  }

  /** Cutting a sorted list after `n` entries keeps entries that rank ahead of
      everything cut off. */
  lemma PrefixRanksAhead(sorted: seq<Entry>, n: nat)
    requires Sorted(sorted) && n <= |sorted|
    ensures Sorted(sorted[..n])
    ensures multiset(sorted[..n]) <= multiset(sorted)
    ensures forall e, i :: e in multiset(sorted) - multiset(sorted[..n]) && 0 <= i < n ==> Precedes(sorted[i], e)
  {
    assert sorted == sorted[..n] + sorted[n..];
    assert multiset(sorted) - multiset(sorted[..n]) == multiset(sorted[n..]);
    forall e, i | e in multiset(sorted[n..]) && 0 <= i < n ensures Precedes(sorted[i], e) {
      var j :| 0 <= j < |sorted[n..]| && sorted[n..][j] == e;
      assert sorted[n + j] == e;
    }
  }

  /** `sorted.slice(0, k)` of the sorted arrangement of `s`: the first
      `min(k, |s|)` entries in rank order. Everything of `s` left out ranks
      behind everything kept. */
  function TopRanked(s: seq<Entry>, k: nat): (r: seq<Entry>)
    ensures |r| == if |s| < k then |s| else k
    ensures Sorted(r)
    ensures multiset(r) <= multiset(s)
    ensures forall e, i :: e in multiset(s) - multiset(r) && 0 <= i < |r| ==> Precedes(r[i], e)
  {
    var sorted := SortByRank(s);
    var n := if |s| < k then |s| else k;
    assert |sorted| == |multiset(sorted)| == |s|;
    PrefixRanksAhead(sorted, n);
    sorted[..n]
  }

  /** `list.length > 0 ? list[0].score : 0`: on a sorted list, the best
      score, attained by the first record; 0 for an empty list. */
  function HighScoreOf(s: seq<Entry>): (h: int)
    ensures s == [] ==> h == 0
    ensures s != [] ==> h == s[0].score
    ensures Sorted(s) ==> forall i :: 0 <= i < |s| ==> s[i].score <= h
  {
    if |s| > 0 then s[0].score else 0
  }
}
