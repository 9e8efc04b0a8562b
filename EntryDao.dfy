/** The study_sessions table behind the DAO: insert with REPLACE on the
    primary key, update and delete by key, delete-all, lookup by key, the
    listing ordered by `date DESC, id DESC`, and the distinct topics in
    ascending order. Text is ordered character by character (SQLite's BINARY
    collation). */
module EntryDao {
  import opened Wrappers
  import opened Text

  /** A row of the table; `id` is the primary key. */
  datatype Row = Row(id: int, date: string, topic: string, duration: int)

  /** No two rows share a key. */
  predicate UniqueIds(rows: seq<Row>) {
    forall i, j :: 0 <= i < j < |rows| ==> rows[i].id != rows[j].id
  }

  // ---------------------------------------------------------------------------
  // Keyed access
  // ---------------------------------------------------------------------------

  /** The first row with key `key`, if any. */
  function Find(rows: seq<Row>, key: int): (r: Option<Row>)
    ensures r.Some? ==> r.value in rows && r.value.id == key
    ensures r.None? ==> forall i :: 0 <= i < |rows| ==> rows[i].id != key
  {
    if rows == [] then None
    else if rows[0].id == key then Some(rows[0])
    else Find(rows[1..], key)
  }

  /** Lookup in two stretches of rows: the first stretch wins. */
  lemma {:induction false} FindAppend(a: seq<Row>, b: seq<Row>, key: int)
    ensures Find(a + b, key) == if Find(a, key).Some? then Find(a, key) else Find(b, key)
  {
    if a == [] {
      assert a + b == b;
    } else {
      assert (a + b)[1..] == a[1..] + b;
      FindAppend(a[1..], b, key);
    }
  }

  /** The rows without the one(s) keyed `key`, in their order. */
  function RemoveKey(rows: seq<Row>, key: int): (r: seq<Row>)
    ensures forall x :: x in r <==> x in rows && x.id != key
    ensures Find(r, key) == None
    ensures forall k :: k != key ==> Find(r, k) == Find(rows, k)
    ensures Find(rows, key) == None ==> r == rows
  {
    if rows == [] then []
    else
      var rest := RemoveKey(rows[1..], key);
      assert rows == [rows[0]] + rows[1..];
      if rows[0].id == key then
        rest
      else
        var r := [rows[0]] + rest;
        assert r[1..] == rest;
        r
  }

  lemma {:induction false} UniqueCons(x: Row, s: seq<Row>)
    requires UniqueIds(s)
    requires forall y :: y in s ==> y.id != x.id
    ensures UniqueIds([x] + s)
  {
    var r := [x] + s;
    forall i, j | 0 <= i < j < |r| ensures r[i].id != r[j].id {
      assert r[j] == s[j - 1];
      if i > 0 {
        assert r[i] == s[i - 1];
      }
    }
  }

  /** In a table with unique keys, removing a present key drops exactly one
      row and the keys stay unique. */
  lemma {:induction false} RemoveKeyUnique(rows: seq<Row>, key: int)
    requires UniqueIds(rows)
    ensures UniqueIds(RemoveKey(rows, key))
    ensures Find(rows, key).Some? ==> |RemoveKey(rows, key)| == |rows| - 1
  {
    if rows != [] {
      RemoveKeyUnique(rows[1..], key);
      var rest := RemoveKey(rows[1..], key);
      if rows[0].id == key {
        assert Find(rows[1..], key) == None;
      } else {
        forall y | y in rest ensures y.id != rows[0].id {
          assert y in rows[1..];
        }
        UniqueCons(rows[0], rest);
      }
    }
  }

  /** INSERT OR REPLACE: the row keyed like `e`, if any, is deleted, then `e`
      is added. */
  function Upsert(rows: seq<Row>, e: Row): (r: seq<Row>)
    ensures UniqueIds(rows) ==> UniqueIds(r)
    ensures Find(r, e.id) == Some(e)
    ensures forall k :: k != e.id ==> Find(r, k) == Find(rows, k)
    ensures Find(rows, e.id) == None ==> |r| == |rows| + 1
    ensures UniqueIds(rows) && Find(rows, e.id).Some? ==> |r| == |rows|
  {
    var kept := RemoveKey(rows, e.id);
    assert UniqueIds(rows) ==> UniqueIds(kept) && (Find(rows, e.id).Some? ==> |kept| == |rows| - 1) by {
      if UniqueIds(rows) {
        RemoveKeyUnique(rows, e.id);
      }
    }
    FindAppend(kept, [e], e.id);
    assert Find([e], e.id) == Some(e);
    forall k | k != e.id ensures Find(kept + [e], k) == Find(rows, k) {
      FindAppend(kept, [e], k);
      assert [e][1..] == [];
    }
    kept + [e]
  }

  /** UPDATE by key: the row keyed like `e` becomes `e`; no row is added. */
  function Overwrite(rows: seq<Row>, e: Row): (r: seq<Row>)
    ensures |r| == |rows|
    ensures forall i :: 0 <= i < |r| ==> r[i].id == rows[i].id
    ensures forall i :: 0 <= i < |r| ==> r[i] == if rows[i].id == e.id then e else rows[i]
  {
    if rows == [] then []
    else [if rows[0].id == e.id then e else rows[0]] + Overwrite(rows[1..], e)
  }

  /** After an update, lookup by the updated key finds `e` exactly when the
      key was present, and every other key finds what it found before. */
  lemma {:induction false} OverwriteFind(rows: seq<Row>, e: Row)
    ensures Find(Overwrite(rows, e), e.id) == if Find(rows, e.id).Some? then Some(e) else None
    ensures forall k :: k != e.id ==> Find(Overwrite(rows, e), k) == Find(rows, k)
  {
    if rows != [] {
      OverwriteFind(rows[1..], e);
      var r := Overwrite(rows, e);
      assert r[1..] == Overwrite(rows[1..], e);
    }
  }

  // ---------------------------------------------------------------------------
  // ORDER BY date DESC, id DESC
  // ---------------------------------------------------------------------------

  /** `a` may come before `b` in the listing: a later date, or the same date
      and a key at least as large. */
  predicate ListedNoLater(a: Row, b: Row) {
    LexLess(b.date, a.date) || (a.date == b.date && a.id >= b.id)
  }

  /** `a` must come before `b` in the listing. */
  predicate ListedBefore(a: Row, b: Row) {
    LexLess(b.date, a.date) || (a.date == b.date && a.id > b.id)
  }

  predicate InListingOrder(s: seq<Row>) {
    forall i, j :: 0 <= i < j < |s| ==> ListedNoLater(s[i], s[j])
  }

  lemma {:induction false} ListedNoLaterTransitive(a: Row, b: Row, c: Row)
    requires ListedNoLater(a, b) && ListedNoLater(b, c)
    ensures ListedNoLater(a, c)
  {
    if LexLess(b.date, a.date) && LexLess(c.date, b.date) {
      LexLessTransitive(c.date, b.date, a.date);
    }
  }

  lemma {:induction false} ListedNoLaterTotal(a: Row, b: Row)
    ensures ListedNoLater(a, b) || ListedNoLater(b, a)
  {
    if a.date != b.date {
      LexLessTotal(a.date, b.date);
    }
  }

  /** Puts `e` into a listing, keeping the order. */
  function InsertListed(e: Row, s: seq<Row>): (r: seq<Row>)
    ensures |r| == |s| + 1
    ensures multiset(r) == multiset(s) + multiset{e}
    ensures forall x :: x in r <==> x == e || x in s
  {
    if s == [] then [e]
    else if ListedNoLater(e, s[0]) then [e] + s
    else
      assert s == [s[0]] + s[1..];
      [s[0]] + InsertListed(e, s[1..])
  }

  lemma {:induction false} InsertListedOrdered(e: Row, s: seq<Row>)
    requires InListingOrder(s)
    ensures InListingOrder(InsertListed(e, s))
  {
    if s == [] {
    } else if ListedNoLater(e, s[0]) {
      forall j | 0 <= j < |s| ensures ListedNoLater(e, s[j]) {
        if j > 0 {
          ListedNoLaterTransitive(e, s[0], s[j]);
        }
      }
    } else {
      ListedNoLaterTotal(e, s[0]);
      InsertListedOrdered(e, s[1..]);
      var r := InsertListed(e, s);
      var rest := InsertListed(e, s[1..]);
      assert r == [s[0]] + rest;
      forall j | 1 <= j < |r| ensures ListedNoLater(s[0], r[j]) {
        assert r[j] in rest;
        assert r[j] == e || r[j] in s[1..];
      }
    }
  }

  lemma {:induction false} InsertListedUnique(e: Row, s: seq<Row>)
    requires UniqueIds(s)
    requires forall x :: x in s ==> x.id != e.id
    ensures UniqueIds(InsertListed(e, s))
  {
    if s != [] && !ListedNoLater(e, s[0]) {
      InsertListedUnique(e, s[1..]);
      var r := InsertListed(e, s);
      var rest := InsertListed(e, s[1..]);
      forall j | 0 <= j < |rest| ensures rest[j].id != s[0].id {
        assert rest[j] in rest;
        assert rest[j] == e || rest[j] in s[1..];
      }
    }
  }

  /** The rows in listing order (an insertion sort). */
  function SortListing(rows: seq<Row>): (r: seq<Row>)
    ensures multiset(r) == multiset(rows)
    ensures InListingOrder(r)
  {
    if rows == [] then []
    else
      var rest := SortListing(rows[1..]);
      InsertListedOrdered(rows[0], rest);
      assert rows == [rows[0]] + rows[1..];
      InsertListed(rows[0], rest)
  }

  /** Sorting keeps the keys distinct. */
  lemma {:induction false} SortListingUnique(rows: seq<Row>)
    requires UniqueIds(rows)
    ensures UniqueIds(SortListing(rows))
  {
    if rows != [] {
      var rest := SortListing(rows[1..]);
      SortListingUnique(rows[1..]);
      forall x | x in rest ensures x.id != rows[0].id {
        assert x in multiset(rows[1..]);
      }
      InsertListedUnique(rows[0], rest);
    }
  }

  // ---------------------------------------------------------------------------
  // SELECT DISTINCT topic ORDER BY topic ASC
  // ---------------------------------------------------------------------------

  predicate StrictlyAscending(ts: seq<string>) {
    forall i, j :: 0 <= i < j < |ts| ==> LexLess(ts[i], ts[j])
  }

  /** Adds `t` to an ascending list of distinct strings unless it is there. */
  function InsertTopic(t: string, ts: seq<string>): (r: seq<string>)
    ensures forall x :: x in r <==> x == t || x in ts
  {
    if ts == [] then [t]
    else if t == ts[0] then ts
    else if LexLess(t, ts[0]) then [t] + ts
    else [ts[0]] + InsertTopic(t, ts[1..])
  }

  lemma {:induction false} InsertTopicAscending(t: string, ts: seq<string>)
    requires StrictlyAscending(ts)
    ensures StrictlyAscending(InsertTopic(t, ts))
  {
    if ts == [] || t == ts[0] {
    } else if LexLess(t, ts[0]) {
      forall j | 0 <= j < |ts| ensures LexLess(t, ts[j]) {
        if j > 0 {
          LexLessTransitive(t, ts[0], ts[j]);
        }
      }
    } else {
      LexLessTotal(t, ts[0]);
      InsertTopicAscending(t, ts[1..]);
      var r := InsertTopic(t, ts);
      var rest := InsertTopic(t, ts[1..]);
      assert r == [ts[0]] + rest;
      forall j | 1 <= j < |r| ensures LexLess(ts[0], r[j]) {
        assert r[j] in rest;
        assert r[j] == t || r[j] in ts[1..];
      }
    }
  }

  /** The topics present in some row. */
  function TopicsOf(rows: seq<Row>): set<string> {
    set x | x in rows :: x.topic
  }

  /** Each topic of the rows exactly once, in ascending order. */
  function DistinctTopics(rows: seq<Row>): (r: seq<string>)
    ensures StrictlyAscending(r)
    ensures forall t :: t in r <==> t in TopicsOf(rows)
  {
    if rows == [] then []
    else
      var rest := DistinctTopics(rows[1..]);
      InsertTopicAscending(rows[0].topic, rest);
      assert forall x :: x in rows <==> x == rows[0] || x in rows[1..] by {
        assert rows == [rows[0]] + rows[1..];
      }
      InsertTopic(rows[0].topic, rest)
  }

  /** A strictly ascending list holds no string twice. */
  lemma {:induction false} AscendingIsDistinct(ts: seq<string>)
    requires StrictlyAscending(ts)
    ensures forall i, j :: 0 <= i < j < |ts| ==> ts[i] != ts[j]
  {
    forall i, j | 0 <= i < j < |ts| ensures ts[i] != ts[j] {
      LexLessIrreflexive(ts[i]);
    }
  }

  // ---------------------------------------------------------------------------
  // The table
  // ---------------------------------------------------------------------------

  class EntryTable {
    /** The rows, in no particular order. */
    var rows: seq<Row>

    ghost predicate Valid()
      reads this
    {
      UniqueIds(rows)
    }

    constructor ()
      ensures Valid() && rows == []
    {
      rows := [];
    }

    /** getEntryById: the row with key `key`, or None. */
    function GetEntryById(key: int): (r: Option<Row>)
      reads this
      ensures r.Some? ==> r.value in rows && r.value.id == key
      ensures r.None? ==> forall x :: x in rows ==> x.id != key
    {
      Find(rows, key)
    }

    /** insertEntry with OnConflictStrategy.REPLACE. */
    method InsertEntry(entry: Row)
      requires Valid()
      modifies this
      ensures Valid()
      ensures rows == Upsert(old(rows), entry)
      ensures GetEntryById(entry.id) == Some(entry)
      ensures forall k :: k != entry.id ==> GetEntryById(k) == old(GetEntryById(k))
      ensures old(GetEntryById(entry.id)) == None ==> |rows| == |old(rows)| + 1
      ensures old(GetEntryById(entry.id)) != None ==> |rows| == |old(rows)|
    {
      rows := Upsert(rows, entry);
    }

    /** deleteEntry: removes the row keyed like `entry`; nothing else. */
    method DeleteEntry(entry: Row)
      requires Valid()
      modifies this
      ensures Valid()
      ensures rows == RemoveKey(old(rows), entry.id)
      ensures GetEntryById(entry.id) == None
      ensures forall k :: k != entry.id ==> GetEntryById(k) == old(GetEntryById(k))
      ensures old(GetEntryById(entry.id)) == None ==> rows == old(rows)
    {
      RemoveKeyUnique(rows, entry.id);
      rows := RemoveKey(rows, entry.id);
    }

    /** updateEntry: overwrites the row keyed like `entry`, if there is one. */
    method UpdateEntry(entry: Row)
      requires Valid()
      modifies this
      ensures Valid()
      ensures rows == Overwrite(old(rows), entry)
      ensures |rows| == |old(rows)|
      ensures GetEntryById(entry.id) == if old(GetEntryById(entry.id)).Some? then Some(entry) else None
      ensures forall k :: k != entry.id ==> GetEntryById(k) == old(GetEntryById(k))
    {
      OverwriteFind(rows, entry);
      rows := Overwrite(rows, entry);
    }

    /** deleteAllEntries. */
    method DeleteAllEntries()
      requires Valid()
      modifies this
      ensures Valid() && rows == []
      ensures GetAllEntries() == []
    {
      rows := [];
    }

    /** getAllEntries: every row once, latest date first, then larger key first. */
    function GetAllEntries(): (r: seq<Row>)
      reads this
      requires Valid()
      ensures multiset(r) == multiset(rows)
      ensures forall i, j :: 0 <= i < j < |r| ==> ListedBefore(r[i], r[j])
    {
      SortListingUnique(rows);
      SortListing(rows)
    }

    /** getAllDistinctTopics: each topic present exactly once, ascending. */
    function GetAllDistinctTopics(): (r: seq<string>)
      reads this
      ensures forall t :: t in r <==> t in TopicsOf(rows)
      ensures forall i, j :: 0 <= i < j < |r| ==> LexLess(r[i], r[j])
      ensures forall i, j :: 0 <= i < j < |r| ==> r[i] != r[j]
    {
      var r := DistinctTopics(rows);
      AscendingIsDistinct(r);
      r
    }
  }
}
