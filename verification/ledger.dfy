/** The bookkeeping database `molasses.sq3`: a `created_cgs` table keyed by
    group name, and a `subsystems` table of `(ssname, ofcg, seqno)` rows.
    The model keeps the two tables as a set and a sequence of rows (in
    insertion order), and reads them back the way `get_cg2subsystems` does:
    `ORDER BY ofcg, seqno`, then grouped into a dict that keeps insertion
    order. */
module Ledger {
  import opened Results
  import opened Text

  datatype Row = Row(ssname: string, ofcg: string, seqno: int)

  datatype Ledger = Ledger(createdCgs: set<string>, subsystems: seq<Row>)

  /** A fresh database file, as `create_bookeeper` leaves it. */
  const Empty: Ledger := Ledger({}, [])

  /** One item of the `cg2subsystems` dict. */
  datatype Entry = Entry(cgname: string, subsystems: seq<string>)

  /** sqlite's IntegrityError: `created_cgs.cgname` is the PRIMARY KEY. */
  datatype LedgerError = IntegrityError

  // ---------------------------------------------------------------------------
  // Row selections.

  /** `SELECT ... FROM subsystems WHERE ofcg = g`, in table order. */
  function RowsOf(rows: seq<Row>, g: string): (sel: seq<Row>)
    ensures |sel| <= |rows|
    ensures forall k | 0 <= k < |sel| :: sel[k].ofcg == g
  {
    if |rows| == 0 then []
    else (if rows[0].ofcg == g then [rows[0]] else []) + RowsOf(rows[1..], g)
  }

  /** `DELETE FROM subsystems WHERE ofcg = g`. */
  function Without(rows: seq<Row>, g: string): (kept: seq<Row>)
    ensures forall k | 0 <= k < |kept| :: kept[k].ofcg != g && kept[k] in rows
  {
    if |rows| == 0 then []
    else (if rows[0].ofcg == g then [] else [rows[0]]) + Without(rows[1..], g)
  }

  function SsNames(rows: seq<Row>): (names: seq<string>)
    ensures |names| == |rows|
  {
    seq(|rows|, i requires 0 <= i < |rows| => rows[i].ssname)
  }

  lemma {:induction false} RowsOfAppend(a: seq<Row>, b: seq<Row>, g: string)
    ensures RowsOf(a + b, g) == RowsOf(a, g) + RowsOf(b, g)
  {
    if |a| == 0 {
      assert a + b == b;
    } else {
      assert (a + b)[1..] == a[1..] + b;
      RowsOfAppend(a[1..], b, g);
    }
  }

  lemma {:induction false} RowsOfWithout(rows: seq<Row>, g: string, h: string)
    ensures RowsOf(Without(rows, g), h) == if h == g then [] else RowsOf(rows, h)
  {
    if |rows| > 0 {
      RowsOfWithout(rows[1..], g, h);
      var head := if rows[0].ofcg == g then [] else [rows[0]];
      RowsOfAppend(head, Without(rows[1..], g), h);
    }
  }

  /** A group with no row in the table selects nothing, and vice versa. */
  lemma {:induction false} RowsOfEmpty(rows: seq<Row>, g: string)
    ensures RowsOf(rows, g) == [] <==> forall i | 0 <= i < |rows| :: rows[i].ofcg != g
  {
    if |rows| > 0 {
      RowsOfEmpty(rows[1..], g);
      if rows[0].ofcg != g {
        forall i | 1 <= i < |rows| ensures rows[i].ofcg == rows[1..][i - 1].ofcg { }
      }
    }
  }

  // ---------------------------------------------------------------------------
  // Writing.

  /** The rows `bookkeep_created_cg` inserts: one per subsystem, numbered by position. */
  function RowsFor(cgName: string, subsystems: seq<string>): (rows: seq<Row>)
  {
    seq(|subsystems|, i requires 0 <= i < |subsystems| => Row(subsystems[i], cgName, i))
  }

  /** `bookkeep_created_cg`: insert the group row, then its subsystem rows, and
      commit. A name already in `created_cgs` makes the first insert raise,
      before anything is committed, so nothing lands. */
  function BookkeepCreatedCg(l: Ledger, cgName: string, subsystems: seq<string>): (r: Result<Ledger, LedgerError>)
    ensures r.Failure? <==> cgName in l.createdCgs
    ensures r.Success? ==> r.value.createdCgs == l.createdCgs + {cgName}
    ensures r.Success? ==> |r.value.subsystems| == |l.subsystems| + |subsystems|
    ensures r.Success? ==> r.value.subsystems[..|l.subsystems|] == l.subsystems
  {
    if cgName in l.createdCgs then Failure(IntegrityError)
    else Success(Ledger(l.createdCgs + {cgName}, l.subsystems + RowsFor(cgName, subsystems)))
  }

  /** The two deletes `cmd_killall` issues for a group whose cgdelete succeeded. */
  function RemoveGroup(l: Ledger, cgName: string): (l': Ledger)
    ensures l'.createdCgs == l.createdCgs - {cgName}
    ensures forall k | 0 <= k < |l'.subsystems| :: l'.subsystems[k].ofcg != cgName
  {
    Ledger(l.createdCgs - {cgName}, Without(l.subsystems, cgName))
  }

  /** The state the code keeps the database in (sqlite does not enforce the
      foreign key, since `PRAGMA foreign_keys` is never set): every row
      belongs to a recorded group, and a group's rows, in table order, are
      numbered 0, 1, 2, ... */
  ghost predicate Valid(l: Ledger) {
    && (forall i | 0 <= i < |l.subsystems| :: l.subsystems[i].ofcg in l.createdCgs)
    && (forall g, k | 0 <= k < |RowsOf(l.subsystems, g)| :: RowsOf(l.subsystems, g)[k].seqno == k)
  }

  lemma EmptyValid()
    ensures Valid(Empty)
  {
  }

  /** Rows that all belong to `g` select entirely for `g` and not at all for anyone else. */
  lemma {:induction false} RowsOfOneGroup(rows: seq<Row>, g: string, h: string)
    requires forall i | 0 <= i < |rows| :: rows[i].ofcg == g
    ensures RowsOf(rows, h) == if h == g then rows else []
  {
    if |rows| > 0 {
      RowsOfOneGroup(rows[1..], g, h);
      assert [rows[0]] + rows[1..] == rows;
    }
  }

  /** After recording a fresh group, the rows of `h` are the new numbered
      rows when `h` is that group, and what they were before otherwise. */
  lemma RecordRows(l: Ledger, g: string, ss: seq<string>, h: string)
    requires Valid(l) && g !in l.createdCgs
    ensures BookkeepCreatedCg(l, g, ss).Success?
    ensures RowsOf(BookkeepCreatedCg(l, g, ss).value.subsystems, h)
      == (if h == g then RowsFor(g, ss) else RowsOf(l.subsystems, h))
  {
    RowsOfEmpty(l.subsystems, g);
    RowsOfAppend(l.subsystems, RowsFor(g, ss), h);
    RowsOfOneGroup(RowsFor(g, ss), g, h);
  }

  /** Recording a fresh group keeps the database in shape. */
  lemma RecordKeepsValid(l: Ledger, g: string, ss: seq<string>)
    requires Valid(l) && g !in l.createdCgs
    ensures BookkeepCreatedCg(l, g, ss).Success?
    ensures Valid(BookkeepCreatedCg(l, g, ss).value)
  {
    var l' := BookkeepCreatedCg(l, g, ss).value;
    forall h, k | 0 <= k < |RowsOf(l'.subsystems, h)| ensures RowsOf(l'.subsystems, h)[k].seqno == k {
      RecordRows(l, g, ss, h);
    }
    forall i | 0 <= i < |l'.subsystems| ensures l'.subsystems[i].ofcg in l'.createdCgs {
      if i >= |l.subsystems| {
        assert l'.subsystems[i] == RowsFor(g, ss)[i - |l.subsystems|];
      }
    }
  }

  /** Removing a group deletes all of its rows, keeps every other group's
      rows as they were, and keeps the database in shape. */
  lemma RemoveKeepsValid(l: Ledger, g: string)
    requires Valid(l)
    ensures Valid(RemoveGroup(l, g))
    ensures forall h :: RowsOf(RemoveGroup(l, g).subsystems, h) == if h == g then [] else RowsOf(l.subsystems, h)
  {
    forall h ensures RowsOf(RemoveGroup(l, g).subsystems, h) == if h == g then [] else RowsOf(l.subsystems, h) {
      RowsOfWithout(l.subsystems, g, h);
    }
  }

  // ---------------------------------------------------------------------------
  // Reading back: `SELECT ofcg, ssname FROM subsystems ORDER BY ofcg, seqno`.

  /** The ORDER BY key, compared as sqlite compares it. */
  predicate KeyLe(a: Row, b: Row) {
    StrLt(a.ofcg, b.ofcg) || (a.ofcg == b.ofcg && a.seqno <= b.seqno)
  }

  lemma KeyLeTransitive(a: Row, b: Row, c: Row)
    requires KeyLe(a, b) && KeyLe(b, c)
    ensures KeyLe(a, c)
  {
    if StrLt(a.ofcg, b.ofcg) && StrLt(b.ofcg, c.ofcg) {
      StrLtTransitive(a.ofcg, b.ofcg, c.ofcg);
    }
  }

  lemma KeyLeTotal(a: Row, b: Row)
    ensures KeyLe(a, b) || KeyLe(b, a)
  {
    StrLtTotal(a.ofcg, b.ofcg);
  }

  ghost predicate Sorted(rows: seq<Row>) {
    forall i, j | 0 <= i < j < |rows| :: KeyLe(rows[i], rows[j])
  }

  function Insert(x: Row, ys: seq<Row>): (r: seq<Row>)
    ensures multiset(r) == multiset{x} + multiset(ys)
  {
    if |ys| == 0 || KeyLe(x, ys[0]) then [x] + ys
    else
      assert ys == [ys[0]] + ys[1..];
      [ys[0]] + Insert(x, ys[1..])
  }

  /** The ORDER BY: every row, once, in key order. */
  function SortRows(rows: seq<Row>): (r: seq<Row>)
    ensures multiset(r) == multiset(rows)
  {
    if |rows| == 0 then []
    else
      assert rows == [rows[0]] + rows[1..];
      Insert(rows[0], SortRows(rows[1..]))
  }

  lemma {:induction false} InsertSorted(x: Row, ys: seq<Row>)
    requires Sorted(ys)
    ensures Sorted(Insert(x, ys))
  {
    var r := Insert(x, ys);
    if |ys| == 0 || KeyLe(x, ys[0]) {
      forall j | 0 <= j < |ys| ensures KeyLe(x, ys[j]) {
        if j > 0 { KeyLeTransitive(x, ys[0], ys[j]); }
      }
    } else {
      InsertSorted(x, ys[1..]);
      KeyLeTotal(x, ys[0]);
      var tail := Insert(x, ys[1..]);
      forall j | 0 <= j < |tail| ensures KeyLe(ys[0], tail[j]) {
        assert tail[j] in multiset(tail);
        if tail[j] != x {
          assert tail[j] in ys[1..];
        }
      }
    }
  }

  lemma {:induction false} SortRowsSorted(rows: seq<Row>)
    ensures Sorted(SortRows(rows))
  {
    if |rows| > 0 {
      SortRowsSorted(rows[1..]);
      InsertSorted(rows[0], SortRows(rows[1..]));
    }
  }

  /** Ordering by seqno alone, as the ORDER BY does within one group. */
  function InsertBySeqno(x: Row, ys: seq<Row>): (r: seq<Row>)
    ensures multiset(r) == multiset{x} + multiset(ys)
  {
    if |ys| == 0 || x.seqno <= ys[0].seqno then [x] + ys
    else
      assert ys == [ys[0]] + ys[1..];
      [ys[0]] + InsertBySeqno(x, ys[1..])
  }

  function SortBySeqno(rows: seq<Row>): (r: seq<Row>)
    ensures multiset(r) == multiset(rows)
  {
    if |rows| == 0 then []
    else
      assert rows == [rows[0]] + rows[1..];
      InsertBySeqno(rows[0], SortBySeqno(rows[1..]))
  }

  ghost predicate SeqnoOrdered(rows: seq<Row>) {
    forall i, j | 0 <= i < j < |rows| :: rows[i].seqno <= rows[j].seqno
  }

  lemma {:induction false} InsertBySeqnoOrdered(x: Row, ys: seq<Row>)
    requires SeqnoOrdered(ys)
    ensures SeqnoOrdered(InsertBySeqno(x, ys))
  {
    if |ys| > 0 && x.seqno > ys[0].seqno {
      InsertBySeqnoOrdered(x, ys[1..]);
      var tail := InsertBySeqno(x, ys[1..]);
      forall j | 0 <= j < |tail| ensures ys[0].seqno <= tail[j].seqno {
        assert tail[j] in multiset(tail);
        if tail[j] != x {
          assert tail[j] in ys[1..];
        }
      }
    }
  }

  /** Ordering by seqno puts the rows in ascending seqno order. */
  lemma {:induction false} SortBySeqnoOrdered(rows: seq<Row>)
    ensures SeqnoOrdered(SortBySeqno(rows))
  {
    if |rows| > 0 {
      SortBySeqnoOrdered(rows[1..]);
      InsertBySeqnoOrdered(rows[0], SortBySeqno(rows[1..]));
    }
  }

  /** A row below everything in `ys` is, within its group, below that group's rows. */
  lemma {:induction false} LowerBoundInGroup(x: Row, ys: seq<Row>)
    requires forall j | 0 <= j < |ys| :: KeyLe(x, ys[j])
    requires RowsOf(ys, x.ofcg) != []
    ensures x.seqno <= RowsOf(ys, x.ofcg)[0].seqno
  {
    if ys[0].ofcg == x.ofcg {
      StrLtIrreflexive(x.ofcg);
    } else {
      LowerBoundInGroup(x, ys[1..]);
    }
  }

  /** Inserting in front of rows that are all at or above it. */
  lemma RowsOfInsertFront(x: Row, ys: seq<Row>, g: string)
    requires Sorted(ys)
    requires |ys| == 0 || KeyLe(x, ys[0])
    ensures RowsOf(Insert(x, ys), g) == if x.ofcg == g then InsertBySeqno(x, RowsOf(ys, g)) else RowsOf(ys, g)
  {
    RowsOfAppend([x], ys, g);
    if x.ofcg == g && RowsOf(ys, g) != [] {
      forall j | 0 <= j < |ys| ensures KeyLe(x, ys[j]) {
        if j > 0 { KeyLeTransitive(x, ys[0], ys[j]); }
      }
      LowerBoundInGroup(x, ys);
    }
  }

  /** Selecting one group commutes with inserting into sorted rows. */
  lemma {:induction false} RowsOfInsert(x: Row, ys: seq<Row>, g: string)
    requires Sorted(ys)
    ensures RowsOf(Insert(x, ys), g) == if x.ofcg == g then InsertBySeqno(x, RowsOf(ys, g)) else RowsOf(ys, g)
  {
    if |ys| == 0 || KeyLe(x, ys[0]) {
      RowsOfInsertFront(x, ys, g);
    } else {
      var tail := Insert(x, ys[1..]);
      assert Insert(x, ys) == [ys[0]] + tail;
      RowsOfInsert(x, ys[1..], g);
      RowsOfAppend([ys[0]], tail, g);
      assert RowsOf(ys, g) == (if ys[0].ofcg == g then [ys[0]] else []) + RowsOf(ys[1..], g);
      if ys[0].ofcg == g {
        assert RowsOf(ys, g) == [ys[0]] + RowsOf(ys[1..], g);
        assert RowsOf(Insert(x, ys), g) == [ys[0]] + RowsOf(tail, g);
        if x.ofcg == g {
          assert x.seqno > ys[0].seqno;
          assert InsertBySeqno(x, RowsOf(ys, g)) == [ys[0]] + InsertBySeqno(x, RowsOf(ys[1..], g));
        }
      } else {
        assert RowsOf(ys, g) == RowsOf(ys[1..], g);
        assert RowsOf(Insert(x, ys), g) == RowsOf(tail, g);
      }
    }
  }

  /** The rows of one group in the ORDER BY result are that group's rows, by seqno. */
  lemma {:induction false} RowsOfSortRows(rows: seq<Row>, g: string)
    ensures RowsOf(SortRows(rows), g) == SortBySeqno(RowsOf(rows, g))
  {
    if |rows| > 0 {
      var x, tail := rows[0], rows[1..];
      var st := SortRows(tail);
      assert SortRows(rows) == Insert(x, st);
      RowsOfSortRows(tail, g);
      SortRowsSorted(tail);
      RowsOfInsert(x, st, g);
      var sel := RowsOf(rows, g);
      assert sel == (if x.ofcg == g then [x] else []) + RowsOf(tail, g);
      if x.ofcg == g {
        assert sel[0] == x && sel[1..] == RowsOf(tail, g);
        assert SortBySeqno(sel) == InsertBySeqno(x, SortBySeqno(RowsOf(tail, g)));
      } else {
        assert sel == RowsOf(tail, g);
      }
    }
  }

  /** Rows already in seqno order come out of the seqno ordering unchanged. */
  lemma {:induction false} SortBySeqnoNumbered(rows: seq<Row>)
    requires forall i, j | 0 <= i < j < |rows| :: rows[i].seqno <= rows[j].seqno
    ensures SortBySeqno(rows) == rows
  {
    if |rows| > 0 {
      SortBySeqnoNumbered(rows[1..]);
      assert [rows[0]] + rows[1..] == rows;
    }
  }

  // ---------------------------------------------------------------------------
  // Grouping the cursor into the `cg2subsystems` dict.

  /** `cg2subsystems.setdefault(cgname, []).append(ssname)` on a dict that
      keeps keys in insertion order. */
  function SetdefaultAppend(d: seq<Entry>, cgname: string, ssname: string): seq<Entry> {
    if |d| == 0 then [Entry(cgname, [ssname])]
    else if d[0].cgname == cgname then [Entry(cgname, d[0].subsystems + [ssname])] + d[1..]
    else [d[0]] + SetdefaultAppend(d[1..], cgname, ssname)
  }

  /** `cg2subsystems.get(g)`. */
  function Lookup(d: seq<Entry>, g: string): Option<seq<string>> {
    if |d| == 0 then None
    else if d[0].cgname == g then Some(d[0].subsystems)
    else Lookup(d[1..], g)
  }

  /** The dict's keys, in iteration order. */
  function Names(d: seq<Entry>): (names: seq<string>)
    ensures |names| == |d|
  {
    seq(|d|, i requires 0 <= i < |d| => d[i].cgname)
  }

  /** The loop over the cursor. */
  function Collect(rows: seq<Row>): seq<Entry> {
    if |rows| == 0 then []
    else
      var last := rows[|rows| - 1];
      SetdefaultAppend(Collect(rows[..|rows| - 1]), last.ofcg, last.ssname)
  }

  /** `get_cg2subsystems`. */
  function GetCg2Subsystems(l: Ledger): seq<Entry> {
    Collect(SortRows(l.subsystems))
  }

  predicate Ascending(names: seq<string>) {
    forall i, j | 0 <= i < j < |names| :: StrLt(names[i], names[j])
  }

  lemma {:induction false} LookupSetdefault(d: seq<Entry>, k: string, v: string, g: string)
    ensures Lookup(SetdefaultAppend(d, k, v), g)
      == if g == k then Some(Lookup(d, k).GetOr([]) + [v]) else Lookup(d, g)
  {
    var r := SetdefaultAppend(d, k, v);
    if |d| == 0 {
      assert r == [Entry(k, [v])];
      assert Lookup(d, k).GetOr([]) + [v] == [v];
      assert r[1..] == [];
    } else if d[0].cgname == k {
      assert r == [Entry(k, d[0].subsystems + [v])] + d[1..];
      assert Lookup(d, k) == Some(d[0].subsystems);
      if g != k {
        assert Lookup(r, g) == Lookup(r[1..], g);
        assert r[1..] == d[1..];
      }
    } else {
      LookupSetdefault(d[1..], k, v, g);
      assert r == [d[0]] + SetdefaultAppend(d[1..], k, v);
      assert r[1..] == SetdefaultAppend(d[1..], k, v);
    }
  }

  lemma {:induction false} NamesSetdefault(d: seq<Entry>, k: string, v: string)
    ensures k in Names(d) ==> Names(SetdefaultAppend(d, k, v)) == Names(d)
    ensures k !in Names(d) ==> SetdefaultAppend(d, k, v) == d + [Entry(k, [v])]
  {
    if |d| > 0 {
      assert Names(d) == [d[0].cgname] + Names(d[1..]);
      if d[0].cgname != k {
        NamesSetdefault(d[1..], k, v);
        assert Names(SetdefaultAppend(d, k, v)) == [d[0].cgname] + Names(SetdefaultAppend(d[1..], k, v));
        assert d == [d[0]] + d[1..];
      }
    }
  }

  /** Grouping gives each group the subsystem names of its rows, in cursor
      order, and no entry to a group without rows. */
  lemma {:induction false} CollectLookup(rows: seq<Row>, g: string)
    ensures Lookup(Collect(rows), g) == if RowsOf(rows, g) == [] then None else Some(SsNames(RowsOf(rows, g)))
  {
    if |rows| > 0 {
      var init, x := rows[..|rows| - 1], rows[|rows| - 1];
      assert rows == init + [x];
      CollectLookup(init, g);
      LookupSetdefault(Collect(init), x.ofcg, x.ssname, g);
      RowsOfAppend(init, [x], g);
      assert RowsOf([x], g) == if x.ofcg == g then [x] else [];
      if x.ofcg == g {
        assert SsNames(RowsOf(init, g) + [x]) == SsNames(RowsOf(init, g)) + [x.ssname];
      } else {
        assert RowsOf(rows, g) == RowsOf(init, g);
      }
    }
  }

  /** A name above the last of an ascending list is new to it, and extends it. */
  lemma AppendAbove(names: seq<string>, y: string, k: string)
    requires Ascending(names) && |names| > 0 && names[|names| - 1] == y && StrLt(y, k)
    ensures k !in names
    ensures Ascending(names + [k])
  {
    forall i | 0 <= i < |names| ensures StrLt(names[i], k) {
      if i < |names| - 1 {
        StrLtTransitive(names[i], y, k);
      }
    }
    if k in names {
      var i :| 0 <= i < |names| && names[i] == k;
      StrLtIrreflexive(k);
    }
  }

  /** One step of the grouping loop keeps the names ascending, when the row's
      group is the last name or above it. */
  lemma CollectStep(d: seq<Entry>, y: string, k: string, v: string)
    requires Ascending(Names(d)) && |d| > 0 && Names(d)[|d| - 1] == y
    requires y == k || StrLt(y, k)
    ensures Ascending(Names(SetdefaultAppend(d, k, v)))
    ensures |SetdefaultAppend(d, k, v)| > 0 && Names(SetdefaultAppend(d, k, v))[|SetdefaultAppend(d, k, v)| - 1] == k
  {
    NamesSetdefault(d, k, v);
    if y == k {
      assert k in Names(d);
    } else {
      AppendAbove(Names(d), y, k);
      assert Names(d + [Entry(k, [v])]) == Names(d) + [k];
    }
  }

  /** Grouping rows sorted by group name gives the groups in strictly
      ascending name order, the last one being the last row's group. */
  lemma {:induction false} CollectAscending(rows: seq<Row>)
    requires Sorted(rows)
    ensures Ascending(Names(Collect(rows)))
    ensures |rows| > 0 ==> |Collect(rows)| > 0 && Names(Collect(rows))[|Collect(rows)| - 1] == rows[|rows| - 1].ofcg
  {
    if |rows| > 0 {
      var init, x := rows[..|rows| - 1], rows[|rows| - 1];
      assert Sorted(init) by {
        forall i, j | 0 <= i < j < |init| ensures KeyLe(init[i], init[j]) {
          assert init[i] == rows[i] && init[j] == rows[j];
        }
      }
      CollectAscending(init);
      if |init| == 0 {
        assert Collect(rows) == [Entry(x.ofcg, [x.ssname])];
      } else {
        assert KeyLe(rows[|init| - 1], x);
        CollectStep(Collect(init), init[|init| - 1].ofcg, x.ofcg, x.ssname);
      }
    }
  }

  /** A name has an entry exactly when it is one of the dict's keys. */
  lemma {:induction false} LookupNames(d: seq<Entry>, g: string)
    ensures Lookup(d, g).Some? <==> g in Names(d)
  {
    if |d| > 0 {
      LookupNames(d[1..], g);
      assert Names(d) == [d[0].cgname] + Names(d[1..]);
    }
  }

  // ---------------------------------------------------------------------------
  // What `get_cg2subsystems` returns.

  /** The dict has an entry for exactly the groups with rows, holding their
      subsystem names by seqno. */
  lemma GetCg2SubsystemsLookup(l: Ledger, g: string)
    ensures Lookup(GetCg2Subsystems(l), g)
      == if RowsOf(l.subsystems, g) == [] then None else Some(SsNames(SortBySeqno(RowsOf(l.subsystems, g))))
  {
    CollectLookup(SortRows(l.subsystems), g);
    RowsOfSortRows(l.subsystems, g);
    var sel := RowsOf(l.subsystems, g);
    assert |SortBySeqno(sel)| == |multiset(SortBySeqno(sel))| == |sel|;
  }

  /** The dict's keys come out in strictly ascending group-name order (so no
      group appears twice), and they are exactly the groups with rows. */
  lemma GetCg2SubsystemsKeys(l: Ledger)
    ensures Ascending(Names(GetCg2Subsystems(l)))
    ensures forall g :: g in Names(GetCg2Subsystems(l)) <==> RowsOf(l.subsystems, g) != []
  {
    SortRowsSorted(l.subsystems);
    CollectAscending(SortRows(l.subsystems));
    forall g ensures g in Names(GetCg2Subsystems(l)) <==> RowsOf(l.subsystems, g) != [] {
      LookupNames(GetCg2Subsystems(l), g);
      GetCg2SubsystemsLookup(l, g);
    }
  }

  /** On a database in shape, a group's subsystems come back in the order they
      were recorded. */
  lemma ValidLookup(l: Ledger, g: string)
    requires Valid(l)
    ensures Lookup(GetCg2Subsystems(l), g)
      == if RowsOf(l.subsystems, g) == [] then None else Some(SsNames(RowsOf(l.subsystems, g)))
  {
    GetCg2SubsystemsLookup(l, g);
    var sel := RowsOf(l.subsystems, g);
    assert forall k | 0 <= k < |sel| :: sel[k].seqno == k;
    SortBySeqnoNumbered(sel);
  }

  lemma SsNamesRowsFor(g: string, ss: seq<string>)
    ensures SsNames(RowsFor(g, ss)) == ss
  {
  }

  /** Recording a fresh group and reading the database back gives the group's
      subsystem list (a group recorded with none has no entry), and leaves
      every other group's entry as it was. */
  lemma RecordRoundTrip(l: Ledger, g: string, ss: seq<string>, h: string)
    requires Valid(l) && g !in l.createdCgs
    ensures BookkeepCreatedCg(l, g, ss).Success?
    ensures Lookup(GetCg2Subsystems(BookkeepCreatedCg(l, g, ss).value), h)
      == if h != g then Lookup(GetCg2Subsystems(l), h) else if ss == [] then None else Some(ss)
  {
    var l' := BookkeepCreatedCg(l, g, ss).value;
    RecordKeepsValid(l, g, ss);
    RecordRows(l, g, ss, h);
    ValidLookup(l', h);
    ValidLookup(l, h);
    SsNamesRowsFor(g, ss);
  }

  /** After removing a group, reading back gives it no entry and leaves every
      other group's entry as it was. */
  lemma RemoveGroupReadBack(l: Ledger, g: string, h: string)
    ensures Lookup(GetCg2Subsystems(RemoveGroup(l, g)), h)
      == if h == g then None else Lookup(GetCg2Subsystems(l), h)
  {
    RowsOfWithout(l.subsystems, g, h);
    GetCg2SubsystemsLookup(RemoveGroup(l, g), h);
    GetCg2SubsystemsLookup(l, h);
  }
}
