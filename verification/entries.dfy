/** The stored journal: a list of entry records, and the list surgery the
    request handlers perform on it between loading and saving the JSON file.
    Each operation takes the loaded list and yields the list that is saved. */
module Entries {
  import opened Wrappers
  import opened Seqs
  import opened Text

  /** One journal record. `createdAt` is the creation instant in whole
      seconds; the store keeps it as an ISO-8601 string. */
  datatype Entry = Entry(id: int, title: string, content: string, createdAt: int)

  /** The entries whose id differs from `id`. */
  function OtherThan(id: int): Entry -> bool {
    (e: Entry) => e.id != id
  }

  /** The entries whose id is not selected. */
  function NotSelected(ids: set<int>): Entry -> bool {
    (e: Entry) => e.id !in ids
  }

  // ---- delete_entry ----

  /** Single delete: every entry carrying `id` goes, everything else stays
      in order. */
  function Delete(entries: seq<Entry>, id: int): (r: seq<Entry>)
    ensures forall e :: e in r <==> e in entries && e.id != id
    ensures forall e :: multiset(r)[e] == if e.id == id then 0 else multiset(entries)[e]
    ensures IsSubsequence(r, entries)
  {
    FilterSpec(entries, OtherThan(id));
    Filter(entries, OtherThan(id))
  }

  /** Deleting an id nobody carries changes nothing. */
  lemma DeleteAbsent(entries: seq<Entry>, id: int)
    requires forall i :: 0 <= i < |entries| ==> entries[i].id != id
    ensures Delete(entries, id) == entries
  {
    FilterKeepsAll(entries, OtherThan(id));
  }

  /** Deleting twice is deleting once. */
  lemma DeleteIdempotent(entries: seq<Entry>, id: int)
    ensures Delete(Delete(entries, id), id) == Delete(entries, id)
  {
    FilterIdempotent(entries, OtherThan(id));
  }

  // ---- delete_bulk ----

  /** Some selected string parses to `n`. */
  ghost predicate Names(selected: seq<string>, n: int) {
    Yields(selected, ParseInt, n)
  }

  /** Every selected string parses. */
  ghost predicate AllParse(selected: seq<string>) {
    AllSome(selected, ParseInt)
  }

  /** `set(int(x) for x in selected)`: the parsed ids, or `None` as soon as
      one string is not an integer. */
  function ParseAll(selected: seq<string>): (r: Option<set<int>>)
    ensures r.Some? <==> AllParse(selected)
    ensures r.Some? ==> forall n :: n in r.value <==> Names(selected, n)
  {
    if |selected| == 0 then Some({})
    else
      YieldsStep(selected, ParseInt);
      match ParseInt(selected[0])
      case None => None
      case Some(n) =>
        match ParseAll(selected[1..])
        case None => None
        case Some(rest) => Some({n} + rest)
  }

  /** The id set bulk delete works with: all parsed ids, or no id at all
      when any selected string fails to parse. */
  function SelectedIds(selected: seq<string>): (ids: set<int>)
    ensures AllParse(selected) ==> forall n :: n in ids <==> Names(selected, n)
    ensures !AllParse(selected) ==> ids == {}
  {
    ParseAll(selected).GetOr({})
  }

  /** The comprehension bulk delete applies to the id set: exactly the
      entries whose id is not in `ids` stay, in their original order. */
  function DeleteIds(entries: seq<Entry>, ids: set<int>): (r: seq<Entry>)
    ensures forall e :: e in r <==> e in entries && e.id !in ids
    ensures forall e :: multiset(r)[e] == if e.id in ids then 0 else multiset(entries)[e]
    ensures IsSubsequence(r, entries)
  {
    FilterSpec(entries, NotSelected(ids));
    Filter(entries, NotSelected(ids))
  }

  /** An empty id set deletes nothing. */
  lemma DeleteIdsNone(entries: seq<Entry>)
    ensures DeleteIds(entries, {}) == entries
  {
    FilterKeepsAll(entries, NotSelected({}));
  }

  /** Bulk delete: when every selected string parses, exactly the entries
      whose id was selected go, and the survivors keep their order and
      multiplicity; one malformed string leaves the list as it was. */
  function DeleteBulk(entries: seq<Entry>, selected: seq<string>): (r: seq<Entry>)
    ensures AllParse(selected) ==> forall e :: e in r <==> e in entries && !Names(selected, e.id)
    ensures AllParse(selected) ==>
              forall e :: multiset(r)[e] == if Names(selected, e.id) then 0 else multiset(entries)[e]
    ensures IsSubsequence(r, entries)
    ensures !AllParse(selected) ==> r == entries
  {
    var ids := SelectedIds(selected);
    DeleteIdsNone(entries);
    DeleteIds(entries, ids)
  }

  /** Bulk delete of the same selection twice is bulk delete once. */
  lemma DeleteBulkIdempotent(entries: seq<Entry>, selected: seq<string>)
    ensures DeleteBulk(DeleteBulk(entries, selected), selected) == DeleteBulk(entries, selected)
  {
    var ids := SelectedIds(selected);
    FilterIdempotent(entries, NotSelected(ids));
  }

  /** A one-string selection that parses to `n` selects exactly `n`. */
  lemma SelectedOne(x: string, n: int)
    requires ParseInt(x) == Some(n)
    ensures SelectedIds([x]) == {n}
  {
    YieldsSingle(x, ParseInt);
    assert AllParse([x]);
    forall m ensures m in SelectedIds([x]) <==> m == n {
      assert Names([x], m) <==> m == n;
    }
  }

  /** Selecting one id, rendered the way `str()` renders it, is the single
      delete of that id; a rendering past the digit limit fails to parse
      and deletes nothing. */
  lemma DeleteBulkOfOne(entries: seq<Entry>, id: int)
    ensures DigitCount(id) <= MaxStrDigits ==> DeleteBulk(entries, [ShowInt(id)]) == Delete(entries, id)
    ensures DigitCount(id) > MaxStrDigits ==> DeleteBulk(entries, [ShowInt(id)]) == entries
  {
    var x := ShowInt(id);
    ParseShowInt(id);
    if DigitCount(id) <= MaxStrDigits {
      assert SelectedIds([x]) == {id} by {
        SelectedOne(x, id);
      }
      assert DeleteBulk(entries, [x]) == DeleteIds(entries, SelectedIds([x]));
      DeleteIdsOne(entries, id);
    } else {
      assert !AllParse([x]) by {
        YieldsSingle(x, ParseInt);
      }
    }
  }

  /** Deleting the id set `{id}` is the single delete of `id`. */
  lemma DeleteIdsOne(entries: seq<Entry>, id: int)
    ensures DeleteIds(entries, {id}) == Delete(entries, id)
  {
    FilterExt(entries, NotSelected({id}), OtherThan(id));
  }

  /** A selection of `2`, `4` and a stray `x` deletes nothing: the stray
      string empties the whole id set instead of being skipped. */
  lemma StraySelectionDeletesNothing(entries: seq<Entry>)
    ensures DeleteBulk(entries, ["2", "4", "x"]) == entries
  {
    var sel := ["2", "4", "x"];
    assert sel[2] == ['x'];
    ParseIntLetter('x');
    assert !AllParse(sel);
  }

  // ---- edit_entry ----

  /** `next(e for e in entries if e['id'] == id)`: the position of the first
      entry carrying `id`. */
  function FindFirst(entries: seq<Entry>, id: int): (r: Option<nat>)
    ensures r.None? <==> forall i :: 0 <= i < |entries| ==> entries[i].id != id
    ensures r.Some? ==> r.value < |entries| && entries[r.value].id == id
    ensures r.Some? ==> forall j :: 0 <= j < r.value ==> entries[j].id != id
  {
    if |entries| == 0 then None
    else if entries[0].id == id then Some(0)
    else
      match FindFirst(entries[1..], id)
      case None => None
      case Some(k) => Some(k + 1)
  }

  /** Edit: the first entry carrying `id` gets the stripped title and
      content; its id and creation time, every other entry and the length
      stay. An id nobody carries leaves the list untouched. */
  function Edit(entries: seq<Entry>, id: int, title: string, content: string): (r: seq<Entry>)
    ensures |r| == |entries|
    ensures (forall i :: 0 <= i < |entries| ==> entries[i].id != id) ==> r == entries
    ensures forall k :: 0 <= k < |entries| && entries[k].id == id && (forall j :: 0 <= j < k ==> entries[j].id != id) ==>
              && r[k] == Entry(id, Strip(title), Strip(content), entries[k].createdAt)
              && forall j :: 0 <= j < |entries| && j != k ==> r[j] == entries[j]
  {
    match FindFirst(entries, id)
    case None => entries
    case Some(k) =>
      assert forall m :: 0 <= m < |entries| && entries[m].id == id && (forall j :: 0 <= j < m ==> entries[j].id != id) ==> m == k;
      entries[k := entries[k].(title := Strip(title), content := Strip(content))]
  }

  /** The first match depends only on the ids along the list. */
  lemma {:induction false} FindFirstSameIds(a: seq<Entry>, b: seq<Entry>, id: int)
    requires |a| == |b|
    requires forall i :: 0 <= i < |a| ==> a[i].id == b[i].id
    ensures FindFirst(a, id) == FindFirst(b, id)
    decreases |a|
  {
    if |a| > 0 {
      FindFirstSameIds(a[1..], b[1..], id);
    }
  }

  /** Submitting the same edit twice leaves what submitting it once left. */
  lemma EditIdempotent(entries: seq<Entry>, id: int, title: string, content: string)
    ensures Edit(Edit(entries, id, title, content), id, title, content) == Edit(entries, id, title, content)
  {
    var once := Edit(entries, id, title, content);
    FindFirstSameIds(once, entries, id);
    match FindFirst(entries, id)
    case None =>
    case Some(k) =>
      assert once == entries[k := entries[k].(title := Strip(title), content := Strip(content))];
      assert once[k].(title := Strip(title), content := Strip(content)) == once[k];
      assert once[k := once[k]] == once;
  }

  /** Editing never changes an id, so distinct ids stay distinct. */
  lemma EditKeepsIds(entries: seq<Entry>, id: int, title: string, content: string)
    ensures forall i :: 0 <= i < |entries| ==> Edit(entries, id, title, content)[i].id == entries[i].id
    ensures DistinctIds(entries) ==> DistinctIds(Edit(entries, id, title, content))
  {
  }

  // ---- new_entry ----

  /** Create: both inputs blank after stripping saves nothing; otherwise one
      entry with id `len(entries) + 1` and the stripped fields is appended
      after the untouched old entries. */
  function Create(entries: seq<Entry>, title: string, content: string, now: int): (r: seq<Entry>)
    ensures AllSpace(title) && AllSpace(content) ==> r == entries
    ensures !(AllSpace(title) && AllSpace(content)) ==>
              && |r| == |entries| + 1
              && r[..|entries|] == entries
              && r[|entries|] == Entry(|entries| + 1, Strip(title), Strip(content), now)
  {
    var t := Strip(title);
    var c := Strip(content);
    if t == "" && c == "" then entries
    else entries + [Entry(|entries| + 1, t, c, now)]
  }

  /** No two entries share an id. */
  ghost predicate DistinctIds(entries: seq<Entry>) {
    forall i, j :: 0 <= i < j < |entries| ==> entries[i].id != entries[j].id
  }

  /** The ids are 1, 2, ..., n in storage order: what a store that only
      ever saw creations holds. */
  ghost predicate DenseIds(entries: seq<Entry>) {
    forall i :: 0 <= i < |entries| ==> entries[i].id == i + 1
  }

  /** While only creations happen, the ids stay 1..n, so they stay
      distinct. */
  lemma CreateKeepsDenseIds(entries: seq<Entry>, title: string, content: string, now: int)
    requires DenseIds(entries)
    ensures DenseIds(Create(entries, title, content, now))
    ensures DistinctIds(Create(entries, title, content, now))
  {
  }

  /** In a dense store the entry with id `k` sits at position `k - 1`,
      so deleting it cuts out exactly that position. */
  lemma DeleteFromDense(entries: seq<Entry>, id: int)
    requires DenseIds(entries)
    requires 1 <= id <= |entries|
    ensures Delete(entries, id) == entries[..id - 1] + entries[id..]
  {
    var p := OtherThan(id);
    var front, mid, back := entries[..id - 1], [entries[id - 1]], entries[id..];
    assert entries == front + (mid + back);
    FilterConcat(front, mid + back, p);
    FilterConcat(mid, back, p);
    forall i | 0 <= i < |front| ensures p(front[i]) {
      assert front[i] == entries[i];
    }
    forall i | 0 <= i < |back| ensures p(back[i]) {
      assert back[i] == entries[id + i];
    }
    FilterKeepsAll(front, p);
    FilterKeepsAll(back, p);
    assert Filter(mid, p) == [];
  }

  /** Creating after a list whose last id is already `len + 1` repeats
      that id. */
  lemma CreateRepeatsLastId(kept: seq<Entry>, title: string, now: int)
    requires |kept| > 0 && kept[|kept| - 1].id == |kept| + 1
    requires !AllSpace(title)
    ensures !DistinctIds(Create(kept, title, "", now))
  {
    var r := Create(kept, title, "", now);
    assert r[|kept| - 1] == kept[|kept| - 1] by {
      assert r[..|kept|] == kept;
    }
  }

  /** Deleting any entry but the last from a dense store and then creating
      one yields two entries with the same id: `len + 1` is not a fresh id. */
  lemma CreateAfterDeleteDuplicates(entries: seq<Entry>, id: int, title: string, now: int)
    requires DenseIds(entries)
    requires 1 <= id < |entries|
    requires !AllSpace(title)
    ensures !DistinctIds(Create(Delete(entries, id), title, "", now))
  {
    var n := |entries|;
    var kept := entries[..id - 1] + entries[id..];
    assert Delete(entries, id) == kept by {
      DeleteFromDense(entries, id);
    }
    assert |kept| == n - 1 && kept[n - 2].id == n by {
      assert kept[n - 2] == entries[n - 1];
    }
    CreateRepeatsLastId(kept, title, now);
  }
}
