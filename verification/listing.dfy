/** The read-only views of the journal: the homepage's ten most recent
    entries, and the past-entries page filtered by a preset window or by
    explicit start/end bounds. Both present entries newest first. */
module Listing {
  import opened Wrappers
  import opened Seqs
  import opened Entries

  /** Newest first: creation times never increase along the sequence. */
  ghost predicate SortedDesc(s: seq<Entry>) {
    forall i, j :: 0 <= i < j < |s| ==> s[i].createdAt >= s[j].createdAt
  }

  /** The entries created at instant `t`. */
  function CreatedAt(t: int): Entry -> bool {
    (e: Entry) => e.createdAt == t
  }

  /** `x` placed in front of the first entry of `s` that is not newer than
      it. */
  function Insert(x: Entry, s: seq<Entry>): (r: seq<Entry>)
    ensures |r| == |s| + 1
    ensures multiset(r) == multiset{x} + multiset(s)
  {
    if |s| == 0 || x.createdAt >= s[0].createdAt then [x] + s
    else
      assert s == [s[0]] + s[1..];
      [s[0]] + Insert(x, s[1..])
  }

  /** A bound on the creation times of `x` and of `s` bounds those of
      `Insert(x, s)`. */
  lemma {:induction false} InsertBounded(x: Entry, s: seq<Entry>, b: int)
    requires x.createdAt <= b
    requires forall i :: 0 <= i < |s| ==> s[i].createdAt <= b
    ensures forall i :: 0 <= i < |Insert(x, s)| ==> Insert(x, s)[i].createdAt <= b
    decreases |s|
  {
    var r := Insert(x, s);
    if |s| == 0 || x.createdAt >= s[0].createdAt {
      forall i | 0 <= i < |r| ensures r[i].createdAt <= b {
        if i > 0 {
          assert r[i] == s[i - 1];
        }
      }
    } else {
      var tail := s[1..];
      var rest := Insert(x, tail);
      assert forall i :: 0 <= i < |tail| ==> tail[i] == s[i + 1];
      InsertBounded(x, tail, b);
      forall i | 0 <= i < |r| ensures r[i].createdAt <= b {
        if i > 0 {
          assert r[i] == rest[i - 1];
        }
      }
    }
  }

  /** Inserting into a sorted sequence keeps it sorted. */
  lemma {:induction false} InsertSorted(x: Entry, s: seq<Entry>)
    requires SortedDesc(s)
    ensures SortedDesc(Insert(x, s))
    decreases |s|
  {
    var r := Insert(x, s);
    if |s| == 0 || x.createdAt >= s[0].createdAt {
      assert r == [x] + s;
      forall i, j | 0 <= i < j < |r| ensures r[i].createdAt >= r[j].createdAt {
        if i == 0 {
          assert r[j] == s[j - 1];
          assert s[0].createdAt >= s[j - 1].createdAt;
        } else {
          assert r[i] == s[i - 1] && r[j] == s[j - 1];
        }
      }
    } else {
      var tail := s[1..];
      var rest := Insert(x, tail);
      assert r == [s[0]] + rest;
      assert SortedDesc(rest) by {
        assert SortedDesc(tail) by {
          assert forall i :: 0 <= i < |tail| ==> tail[i] == s[i + 1];
        }
        InsertSorted(x, tail);
      }
      assert forall j :: 0 <= j < |rest| ==> rest[j].createdAt <= s[0].createdAt by {
        assert forall i :: 0 <= i < |tail| ==> tail[i] == s[i + 1];
        InsertBounded(x, tail, s[0].createdAt);
      }
      forall i, j | 0 <= i < j < |r| ensures r[i].createdAt >= r[j].createdAt {
        assert r[j] == rest[j - 1];
        if i > 0 {
          assert r[i] == rest[i - 1];
        }
      }
    }
  }

  /** Inserting `x` puts it ahead of every entry of the same age. */
  lemma {:induction false} InsertStable(x: Entry, s: seq<Entry>, t: int)
    ensures Filter(Insert(x, s), CreatedAt(t)) == (if x.createdAt == t then [x] else []) + Filter(s, CreatedAt(t))
    decreases |s|
  {
    var p := CreatedAt(t);
    var mine: seq<Entry> := if x.createdAt == t then [x] else [];
    if |s| == 0 || x.createdAt >= s[0].createdAt {
      var r := Insert(x, s);
      assert r == [x] + s && r[1..] == s;
    } else {
      var tail := s[1..];
      var r, rest := Insert(x, s), Insert(x, tail);
      InsertStable(x, tail, t);
      assert r[0] == s[0] && r[1..] == rest;
      if p(s[0]) {
        assert mine == [];
      }
    }
  }

  /** `sorted(entries, key=created_at, reverse=True)`: newest first, with
      equally old entries in their stored order (Python's sort is stable). */
  function SortDesc(s: seq<Entry>): (r: seq<Entry>)
    ensures |r| == |s|
    ensures multiset(r) == multiset(s)
    ensures SortedDesc(r)
  {
    if |s| == 0 then []
    else
      assert s == [s[0]] + s[1..];
      InsertSorted(s[0], SortDesc(s[1..]));
      Insert(s[0], SortDesc(s[1..]))
  }

  /** The sort is stable: the entries of any one age appear in the order in
      which they are stored. */
  lemma {:induction false} SortDescStable(s: seq<Entry>, t: int)
    ensures Filter(SortDesc(s), CreatedAt(t)) == Filter(s, CreatedAt(t))
    decreases |s|
  {
    if |s| > 0 {
      SortDescStable(s[1..], t);
      InsertStable(s[0], SortDesc(s[1..]), t);
      FilterConcat([s[0]], s[1..], CreatedAt(t));
      assert s == [s[0]] + s[1..];
    }
  }

  // ---- index: the homepage ----

  /** How many entries the homepage shows. */
  const RecentCount := 10

  /** Every entry of a newest-first sequence before position `k` is at
      least as new as every entry from `k` on. */
  lemma SortedSplit(s: seq<Entry>, k: nat)
    requires SortedDesc(s) && k <= |s|
    ensures forall x, y :: x in s[..k] && y in s[k..] ==> y.createdAt <= x.createdAt
  {
    forall x, y | x in s[..k] && y in s[k..] ensures y.createdAt <= x.createdAt {
      var i :| 0 <= i < k && s[..k][i] == x;
      var j :| 0 <= j < |s| - k && s[k..][j] == y;
      assert s[i] == x && s[k + j] == y;
    }
  }

  /** The homepage list: the newest ten entries (all of them when there are
      fewer), newest first. Every stored entry left off is no newer than
      every entry shown. */
  function Recent(entries: seq<Entry>): (r: seq<Entry>)
    ensures |r| == if |entries| < RecentCount then |entries| else RecentCount
    ensures SortedDesc(r)
    ensures multiset(r) <= multiset(entries)
    ensures forall x, y :: x in r && y in multiset(entries) - multiset(r) ==> y.createdAt <= x.createdAt
  {
    var sorted := SortDesc(entries);
    var k := if |sorted| < RecentCount then |sorted| else RecentCount;
    SortedSplit(sorted, k);
    assert sorted == sorted[..k] + sorted[k..];
    assert multiset(entries) - multiset(sorted[..k]) == multiset(sorted[k..]);
    sorted[..k]
  }

  // ---- past_entries: the date-range filter ----

  /** Seconds per day. */
  const Day := 86400

  /** `(now - ts).days`: whole days elapsed, rounded down, so an entry dated
      in the future has a negative age. */
  function AgeInDays(now: int, ts: int): (d: int)
    ensures d * Day <= now - ts < (d + 1) * Day
  {
    (now - ts) / Day
  }

  /** The window, in days, of the named presets. */
  function PresetWindow(preset: string): (days: Option<int>)
    ensures days.Some? <==> preset == "week" || preset == "month" || preset == "year"
  {
    if preset == "week" then Some(7)
    else if preset == "month" then Some(31)
    else if preset == "year" then Some(365)
    else None
  }

  /** The query string of the past-entries page. An absent `preset`
      defaults to `all` and an absent `start` or `end` to the empty string;
      `all`, `custom` and the empty preset all fall through to the bounds. */
  datatype RangeQuery = RangeQuery(preset: string, start: string, end: string)

  /** An age in whole days is below `days` exactly when fewer than
      `days * 86400` seconds have passed. */
  lemma AgeBelow(now: int, ts: int, days: int)
    ensures AgeInDays(now, ts) < days <==> now - ts < days * Day
  {
    var d := AgeInDays(now, ts);
    if d < days {
      assert (d + 1) * Day <= days * Day;
    } else {
      assert days * Day <= d * Day;
    }
  }

  /** `in_range`: a named preset decides on its own, by the age of the
      entry; any other preset falls through to the explicit bounds, both
      inclusive, each of which is skipped when empty or when `parse`
      (standing for `datetime.fromisoformat`) rejects it. */
  predicate InRange(e: Entry, q: RangeQuery, now: int, parse: string -> Option<int>): (b: bool)
    ensures PresetWindow(q.preset).Some? ==>
              (b <==> now - e.createdAt < PresetWindow(q.preset).value * Day)
    ensures PresetWindow(q.preset).None? ==>
              (b <==> && (q.start != "" && parse(q.start).Some? ==> parse(q.start).value <= e.createdAt)
                      && (q.end != "" && parse(q.end).Some? ==> e.createdAt <= parse(q.end).value))
  {
    var ts := e.createdAt;
    if q.preset != "" && q.preset != "custom" && q.preset != "all" && PresetWindow(q.preset).Some? then
      AgeBelow(now, ts, PresetWindow(q.preset).value);
      AgeInDays(now, ts) < PresetWindow(q.preset).value
    else
      && !(q.start != "" && parse(q.start).Some? && ts < parse(q.start).value)
      && !(q.end != "" && parse(q.end).Some? && ts > parse(q.end).value)
  }

  function Matching(q: RangeQuery, now: int, parse: string -> Option<int>): Entry -> bool {
    (e: Entry) => InRange(e, q, now, parse)
  }

  /** The past-entries list: the entries in range, newest first, each
      stored occurrence of an entry in range kept once. */
  function Past(entries: seq<Entry>, q: RangeQuery, now: int, parse: string -> Option<int>): (r: seq<Entry>)
    ensures SortedDesc(r)
    ensures forall e :: multiset(r)[e] == if InRange(e, q, now, parse) then multiset(entries)[e] else 0
  {
    FilterSpec(entries, Matching(q, now, parse));
    SortDesc(Filter(entries, Matching(q, now, parse)))
  }

  /** Under `week`, `month` or `year` an entry is listed exactly when its
      age in whole days is below 7, 31 or 365. */
  lemma PastPreset(entries: seq<Entry>, q: RangeQuery, now: int, parse: string -> Option<int>)
    requires q.preset == "week" || q.preset == "month" || q.preset == "year"
    ensures forall e :: e in Past(entries, q, now, parse) <==>
              e in entries && AgeInDays(now, e.createdAt) < (if q.preset == "week" then 7 else if q.preset == "month" then 31 else 365)
  {
    var r := Past(entries, q, now, parse);
    forall e ensures e in r <==> e in entries && InRange(e, q, now, parse) {
      assert e in r <==> e in multiset(r);
      assert e in entries <==> e in multiset(entries);
    }
  }

  /** A named preset makes the explicit bounds irrelevant. */
  lemma PresetIgnoresBounds(entries: seq<Entry>, q: RangeQuery, start: string, end: string, now: int, parse: string -> Option<int>)
    requires q.preset == "week" || q.preset == "month" || q.preset == "year"
    ensures Past(entries, q, now, parse) == Past(entries, RangeQuery(q.preset, start, end), now, parse)
  {
    FilterExt(entries, Matching(q, now, parse), Matching(RangeQuery(q.preset, start, end), now, parse));
  }

  /** Under any other preset an entry is left out exactly when a usable
      start lies strictly after it or a usable end strictly before it; both
      bounds are inclusive. */
  lemma PastBounds(entries: seq<Entry>, q: RangeQuery, now: int, parse: string -> Option<int>)
    requires q.preset != "week" && q.preset != "month" && q.preset != "year"
    ensures forall e :: e in Past(entries, q, now, parse) <==>
              && e in entries
              && !(q.start != "" && parse(q.start).Some? && parse(q.start).value > e.createdAt)
              && !(q.end != "" && parse(q.end).Some? && parse(q.end).value < e.createdAt)
  {
    var r := Past(entries, q, now, parse);
    forall e ensures e in r <==> e in entries && InRange(e, q, now, parse) {
      assert e in r <==> e in multiset(r);
      assert e in entries <==> e in multiset(entries);
    }
  }

  /** An entry dated in the future passes every preset window. */
  lemma FutureEntryInEveryPreset(e: Entry, q: RangeQuery, now: int, parse: string -> Option<int>)
    requires e.createdAt > now
    requires q.preset == "week" || q.preset == "month" || q.preset == "year"
    ensures InRange(e, q, now, parse)
  {
  }
}
