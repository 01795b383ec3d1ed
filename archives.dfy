/** The archive list page shows a copy of the archive collection sorted by
    date, newest first; the stored collection itself is not reordered. */
module Archives {
  import opened Content

  /** Every record is dated no earlier than every record after it. */
  ghost predicate NewestFirst(s: seq<ArchiveRecord>) {
    forall i, j :: 0 <= i < j < |s| ==> NotBefore(s[i].date, s[j].date)
  }

  lemma NotBeforeTransitive(a: Date, b: Date, c: Date)
    requires NotBefore(a, b) && NotBefore(b, c)
    ensures NotBefore(a, c)
  {
  }

  /** Places `x` in front of the first record it is not older than, so it
      stays in front of records with the same date. */
  function Insert(x: ArchiveRecord, s: seq<ArchiveRecord>): (r: seq<ArchiveRecord>)
    ensures multiset(r) == multiset(s) + multiset{x}
  {
    if s == [] || NotBefore(x.date, s[0].date) then [x] + s
    else
      assert s == [s[0]] + s[1..];
      [s[0]] + Insert(x, s[1..])
  }

  lemma {:induction false} InsertNewestFirst(x: ArchiveRecord, s: seq<ArchiveRecord>)
    requires NewestFirst(s)
    ensures NewestFirst(Insert(x, s))
  {
    if s == [] || NotBefore(x.date, s[0].date) {
      forall j | 0 < j < |s| ensures NotBefore(x.date, s[j].date) {
        NotBeforeTransitive(x.date, s[0].date, s[j].date);
      }
    } else {
      var rest := Insert(x, s[1..]);
      InsertNewestFirst(x, s[1..]);
      assert s == [s[0]] + s[1..];
      forall j | 0 <= j < |rest| ensures NotBefore(s[0].date, rest[j].date) {
        assert rest[j] in multiset(rest);
        assert rest[j] == x || rest[j] in multiset(s[1..]);
      }
      assert Insert(x, s) == [s[0]] + rest;
    }
  }

  /** `[...archives].sort((a, b) => dateB - dateA)`: JavaScript's sort is
      stable, so records with the same date keep their stored order. */
  function SortNewestFirst(archives: seq<ArchiveRecord>): (sorted: seq<ArchiveRecord>)
    ensures NewestFirst(sorted)
    ensures multiset(sorted) == multiset(archives)
  {
    if archives == [] then []
    else
      assert archives == [archives[0]] + archives[1..];
      InsertNewestFirst(archives[0], SortNewestFirst(archives[1..]));
      Insert(archives[0], SortNewestFirst(archives[1..]))
  }

  /** The records dated `d`, in order. */
  function OnDate(s: seq<ArchiveRecord>, d: Date): seq<ArchiveRecord> {
    if s == [] then []
    else (if s[0].date == d then [s[0]] else []) + OnDate(s[1..], d)
  }

  lemma {:induction false} InsertOnDate(x: ArchiveRecord, s: seq<ArchiveRecord>, d: Date)
    ensures OnDate(Insert(x, s), d) == (if x.date == d then [x] else []) + OnDate(s, d)
  {
    if s == [] || NotBefore(x.date, s[0].date) {
      assert ([x] + s)[1..] == s;
    } else {
      var rest := Insert(x, s[1..]);
      assert ([s[0]] + rest)[1..] == rest;
      InsertOnDate(x, s[1..], d);
      if x.date == d {
        assert s[0].date != d;
      }
    }
  }

  /** Stability: for every date, the records of that date appear in the
      sorted copy in the same order as in the stored collection. */
  lemma {:induction false} SortKeepsOrderOfEqualDates(archives: seq<ArchiveRecord>, d: Date)
    ensures OnDate(SortNewestFirst(archives), d) == OnDate(archives, d)
  {
    if archives != [] {
      SortKeepsOrderOfEqualDates(archives[1..], d);
      InsertOnDate(archives[0], SortNewestFirst(archives[1..]), d);
    }
  }
}
