/** The view below the form: the fleet filter, its list of options and the
    total of worked hours over the rows shown. */
module Query {
  import opened Records

  /** The filter option that shows every row. */
  const AllFleets: string := "Todas"

  // ---------------------------------------------------------------------
  // Ordering of fleet names: Python compares strings code point by code
  // point, and a proper prefix comes first.
  // ---------------------------------------------------------------------

  predicate Below(a: string, b: string)
    decreases |a|
  {
    if a == [] then b != []
    else if b == [] then false
    else a[0] < b[0] || (a[0] == b[0] && Below(a[1..], b[1..]))
  }

  lemma {:induction false} BelowIrreflexive(a: string)
    ensures !Below(a, a)
    decreases |a|
  {
    if a != [] { BelowIrreflexive(a[1..]); }
  }

  lemma {:induction false} BelowTransitive(a: string, b: string, c: string)
    requires Below(a, b) && Below(b, c)
    ensures Below(a, c)
    decreases |a|
  {
    if a != [] && a[0] == b[0] && b[0] == c[0] {
      BelowTransitive(a[1..], b[1..], c[1..]);
    }
  }

  lemma {:induction false} BelowTotal(a: string, b: string)
    requires a != b
    ensures Below(a, b) || Below(b, a)
    decreases |a|
  {
    if a != [] && b != [] && a[0] == b[0] {
      assert a == [a[0]] + a[1..] && b == [b[0]] + b[1..];
      BelowTotal(a[1..], b[1..]);
    }
  }

  lemma BelowAsymmetric(a: string, b: string)
    requires Below(a, b)
    ensures !Below(b, a)
  {
  }

  /** The number a string of decimal digits spells. */
  function DecimalValue(s: string): int {
    if s == [] then 0 else 10 * DecimalValue(s[..|s| - 1]) + (s[|s| - 1] as int - '0' as int)
  }

  /** On the fleet numbers the form offers, the order of the names agrees
      with the order of the numbers they spell, which is how the column
      compares once it has been read back as integers. */
  lemma ChoicesOrderNumeric(a: string, b: string)
    requires a in FleetChoices && b in FleetChoices
    ensures Below(a, b) <==> DecimalValue(a) < DecimalValue(b)
  {
  }

  /** Strictly ascending, hence also free of repetitions. */
  predicate Ascending(s: seq<string>) {
    forall i, j :: 0 <= i < j < |s| ==> Below(s[i], s[j])
  }

  /** Puts `x` into an ascending list unless it is already there. */
  function Insert(x: string, s: seq<string>): (r: seq<string>)
    requires Ascending(s)
    ensures Ascending(r)
    ensures forall y :: y in r <==> y == x || y in s
  {
    if s == [] then [x]
    else if x == s[0] then s
    else if Below(x, s[0]) then
      assert forall j :: 0 < j < |s| ==> Below(x, s[j]) by {
        forall j | 0 < j < |s| ensures Below(x, s[j]) { BelowTransitive(x, s[0], s[j]); }
      }
      [x] + s
    else
      BelowTotal(x, s[0]);
      var t := Insert(x, s[1..]);
      assert forall y :: y in s <==> y == s[0] || y in s[1..] by {
        assert s == [s[0]] + s[1..];
      }
      assert forall j :: 0 <= j < |t| ==> Below(s[0], t[j]) by {
        forall j | 0 <= j < |t| ensures Below(s[0], t[j]) {
          if t[j] != x {
            assert t[j] in t;
            var k :| 0 <= k < |s[1..]| && s[1..][k] == t[j];
            assert s[k + 1] == t[j];
          }
        }
      }
      [s[0]] + t
  }

  /** The distinct values of `xs`, in ascending order. */
  function SortedDistinct(xs: seq<string>): (r: seq<string>)
    ensures Ascending(r)
    ensures forall y :: y in r <==> y in xs
  {
    if xs == [] then []
    else
      var t := SortedDistinct(xs[..|xs| - 1]);
      assert forall y :: y in xs <==> y in xs[..|xs| - 1] || y == xs[|xs| - 1] by {
        assert xs == xs[..|xs| - 1] + [xs[|xs| - 1]];
      }
      Insert(xs[|xs| - 1], t)
  }

  /** Two ascending lists with the same elements are the same list: the
      option list is fully determined by the set of fleets. */
  lemma {:induction false} AscendingUnique(a: seq<string>, b: seq<string>)
    requires Ascending(a) && Ascending(b)
    requires forall y :: y in a <==> y in b
    ensures a == b
    decreases |a|
  {
    if a != [] { assert a[0] in b; }
    if b != [] { assert b[0] in a; }
    if a != [] && b != [] {
      var j :| 0 <= j < |b| && b[j] == a[0];
      var i :| 0 <= i < |a| && a[i] == b[0];
      if i > 0 && j > 0 {
        BelowAsymmetric(a[0], b[0]);
      }
      {
        assert a == [a[0]] + a[1..] && b == [b[0]] + b[1..];
        forall y ensures y in a[1..] <==> y in b[1..] {
          if y in a[1..] {
            var i :| 0 <= i < |a[1..]| && a[1..][i] == y;
            assert Below(a[0], a[i + 1]);
            assert y != b[0] by { BelowIrreflexive(y); }
            assert y in a && y in b;
          }
          if y in b[1..] {
            var i :| 0 <= i < |b[1..]| && b[1..][i] == y;
            assert Below(b[0], b[i + 1]);
            assert y != a[0] by { BelowIrreflexive(y); }
            assert y in b && y in a;
          }
        }
        AscendingUnique(a[1..], b[1..]);
      }
    }
  }

  // ---------------------------------------------------------------------
  // The fleet filter and the option list
  // ---------------------------------------------------------------------

  /** The Frota column of a table: it holds exactly the fleets of its rows. */
  function Fleets(rows: seq<Record>): (fs: seq<string>)
    ensures forall f :: f in fs <==> exists r :: r in rows && r.fleet == f
  {
    var fs := seq(|rows|, i requires 0 <= i < |rows| => rows[i].fleet);
    assert forall f :: f in fs <==> exists r :: r in rows && r.fleet == f by {
      forall f ensures f in fs <==> exists r :: r in rows && r.fleet == f {
        if exists r :: r in rows && r.fleet == f {
          var r :| r in rows && r.fleet == f;
          var i :| 0 <= i < |rows| && rows[i] == r;
          assert fs[i] == f;
        }
      }
    }
    fs
  }

  /** The options of the fleet selector: 'Todas', then every fleet present
      in the table exactly once, in ascending order. */
  function FleetOptions(rows: seq<Record>): (opts: seq<string>)
    ensures |opts| >= 1 && opts[0] == AllFleets
    ensures Ascending(opts[1..])
    ensures forall f :: f in opts[1..] <==> exists r :: r in rows && r.fleet == f
  {
    var sorted := SortedDistinct(Fleets(rows));
    assert ([AllFleets] + sorted)[1..] == sorted;
    [AllFleets] + sorted
  }

  /** `s` keeps some of the elements of `t`, in their order in `t`. */
  predicate IsSubsequence<T(==)>(s: seq<T>, t: seq<T>)
    decreases |t|
  {
    if s == [] then true
    else if t == [] then false
    else if s[0] == t[0] then IsSubsequence(s[1..], t[1..])
    else IsSubsequence(s, t[1..])
  }

  /** The rows whose fleet equals `f`, each as many times as it occurs in
      `rows`, in their original relative order. */
  function Select(rows: seq<Record>, f: string): (r: seq<Record>)
    ensures |r| <= |rows|
    ensures forall x :: x in r ==> x in rows && x.fleet == f
  {
    if rows == [] then []
    else if rows[0].fleet == f then [rows[0]] + Select(rows[1..], f)
    else Select(rows[1..], f)
  }

  /** Select keeps exactly the rows of fleet `f`, with their multiplicities,
      and in their original relative order. */
  lemma {:induction false} SelectExact(rows: seq<Record>, f: string)
    ensures forall x :: multiset(Select(rows, f))[x] == if x.fleet == f then multiset(rows)[x] else 0
    ensures IsSubsequence(Select(rows, f), rows)
    decreases |rows|
  {
    if rows != [] {
      assert rows == [rows[0]] + rows[1..];
      var t := Select(rows[1..], f);
      SelectExact(rows[1..], f);
      if rows[0].fleet != f {
        assert t == [] || t[0] != rows[0] by {
          if t != [] { assert t[0] in t; }
        }
      }
    }
  }

  /** The table shown for the selected option: everything for 'Todas',
      otherwise only the rows of the selected fleet. */
  function FilterByFleet(rows: seq<Record>, selection: string): (shown: seq<Record>)
    ensures selection == AllFleets ==> shown == rows
    ensures selection != AllFleets ==>
      IsSubsequence(shown, rows) &&
      forall x :: multiset(shown)[x] == if x.fleet == selection then multiset(rows)[x] else 0
  {
    if selection != AllFleets then SelectExact(rows, selection); Select(rows, selection) else rows
  }

  /** Filtering keeps the invariant of the stored rows. */
  lemma FilterKeepsWellFormed(rows: seq<Record>, selection: string)
    requires forall r :: r in rows ==> WellFormed(r)
    ensures forall r :: r in FilterByFleet(rows, selection) ==> WellFormed(r)
  {
  }

  /** A fleet that no row carries shows an empty table whose total is 0. */
  lemma AbsentFleetTotal(rows: seq<Record>, f: string)
    requires f != AllFleets
    requires forall r :: r in rows ==> r.fleet != f
    ensures FilterByFleet(rows, f) == [] && TotalHours(FilterByFleet(rows, f)) == 0
  {
  }

  /** Appending a row to the table appends it to the view of its own fleet
      and leaves the views of the other fleets as they were. */
  lemma {:induction false} SelectAppend(rows: seq<Record>, x: Record, f: string)
    ensures Select(rows + [x], f) == Select(rows, f) + (if x.fleet == f then [x] else [])
    decreases |rows|
  {
    if rows == [] {
      assert [x][1..] == [];
    } else {
      assert (rows + [x])[1..] == rows[1..] + [x];
      SelectAppend(rows[1..], x, f);
    }
  }

  // ---------------------------------------------------------------------
  // The total of worked hours
  // ---------------------------------------------------------------------

  /** The sum of the worked hours of the rows, in hundredths: rounding it
      to two decimals changes nothing. */
  function TotalHours(rows: seq<Record>): Hundredths {
    if rows == [] then 0 else rows[0].worked + TotalHours(rows[1..])
  }

  lemma {:induction false} TotalConcat(a: seq<Record>, b: seq<Record>)
    ensures TotalHours(a + b) == TotalHours(a) + TotalHours(b)
    decreases |a|
  {
    if a != [] {
      calc {
        TotalHours(a + b);
        (a + b)[0].worked + TotalHours((a + b)[1..]);
        { assert (a + b)[0] == a[0] && (a + b)[1..] == a[1..] + b; }
        a[0].worked + TotalHours(a[1..] + b);
        { TotalConcat(a[1..], b); }
        a[0].worked + TotalHours(a[1..]) + TotalHours(b);
      }
    } else {
      assert a + b == b;
    }
  }

  /** Keeping only some rows of a table, in order, cannot raise its total
      (worked hours are never negative). */
  lemma {:induction false} TotalOfSubsequence(s: seq<Record>, t: seq<Record>)
    requires IsSubsequence(s, t)
    ensures TotalHours(s) <= TotalHours(t)
    decreases |t|
  {
    if s != [] && t != [] {
      if s[0] == t[0] {
        TotalOfSubsequence(s[1..], t[1..]);
      } else {
        TotalOfSubsequence(s, t[1..]);
      }
    }
  }

  /** The total of one fleet never exceeds the total of the whole table. */
  lemma FilteredTotalBounded(rows: seq<Record>, selection: string)
    ensures TotalHours(FilterByFleet(rows, selection)) <= TotalHours(rows)
  {
    if selection != AllFleets {
      SelectExact(rows, selection);
      TotalOfSubsequence(Select(rows, selection), rows);
    }
  }

  /** The sum over the fleets listed in `fs` of the totals of their views. */
  function PerFleetTotal(rows: seq<Record>, fs: seq<string>): Hundredths {
    if fs == [] then 0 else TotalHours(Select(rows, fs[0])) + PerFleetTotal(rows, fs[1..])
  }

  /** Appending a row adds its worked hours to the per-fleet sum over an
      ascending list once when its fleet is listed, and not at all
      otherwise. */
  lemma {:induction false} PerFleetTotalAppend(rows: seq<Record>, x: Record, fs: seq<string>)
    requires Ascending(fs)
    ensures PerFleetTotal(rows + [x], fs) == PerFleetTotal(rows, fs) + (if x.fleet in fs then x.worked else 0)
    decreases |fs|
  {
    if fs != [] {
      assert fs == [fs[0]] + fs[1..];
      if x.fleet == fs[0] && x.fleet in fs[1..] {
        var k :| 0 <= k < |fs[1..]| && fs[1..][k] == x.fleet;
        assert Below(fs[0], fs[k + 1]);
        BelowIrreflexive(x.fleet);
      }
      SelectAppend(rows, x, fs[0]);
      TotalConcat(Select(rows, fs[0]), if x.fleet == fs[0] then [x] else []);
      PerFleetTotalAppend(rows, x, fs[1..]);
    }
  }

  /** The totals shown for the individual fleets of the option list add up
      to the total shown for 'Todas'. */
  lemma {:induction false} PerFleetTotalsAddUp(rows: seq<Record>)
    ensures PerFleetTotal(rows, FleetOptions(rows)[1..]) == TotalHours(FilterByFleet(rows, AllFleets))
  {
    var opts := FleetOptions(rows)[1..];
    PartitionByFleets(rows, opts);
  }

  lemma {:induction false} PartitionByFleets(rows: seq<Record>, fs: seq<string>)
    requires Ascending(fs)
    requires forall r :: r in rows ==> r.fleet in fs
    ensures PerFleetTotal(rows, fs) == TotalHours(rows)
    decreases |rows|
  {
    if rows == [] {
      ZeroPerFleet(fs);
    } else {
      var init, x := rows[..|rows| - 1], rows[|rows| - 1];
      assert rows == init + [x];
      assert x in rows;
      PartitionByFleets(init, fs);
      PerFleetTotalAppend(init, x, fs);
      TotalConcat(init, [x]);
    }
  }

  lemma {:induction false} ZeroPerFleet(fs: seq<string>)
    ensures PerFleetTotal([], fs) == 0
    decreases |fs|
  {
    if fs != [] { ZeroPerFleet(fs[1..]); }
  }

  // ---------------------------------------------------------------------
  // What an accepted submission does to the view
  // ---------------------------------------------------------------------

  /** After a record is appended, the total shown for 'Todas' and for the
      record's own fleet grows by its worked hours; every other fleet's
      total stays as it was. */
  lemma AppendTotals(rows: seq<Record>, x: Record, selection: string)
    ensures TotalHours(FilterByFleet(rows + [x], selection)) ==
      TotalHours(FilterByFleet(rows, selection)) +
      (if selection == AllFleets || x.fleet == selection then x.worked else 0)
  {
    if selection == AllFleets {
      TotalConcat(rows, [x]);
    } else {
      SelectAppend(rows, x, selection);
      TotalConcat(Select(rows, selection), if x.fleet == selection then [x] else []);
    }
  }

  /** After a record is appended, the option list is the old one with the
      record's fleet put in its place (or unchanged if already listed). */
  lemma AppendOptions(rows: seq<Record>, x: Record)
    ensures FleetOptions(rows + [x]) == [AllFleets] + Insert(x.fleet, FleetOptions(rows)[1..])
  {
    var before := FleetOptions(rows)[1..];
    var after := FleetOptions(rows + [x])[1..];
    var expected := Insert(x.fleet, before);
    forall f ensures f in after <==> f in expected {
      if exists r :: r in rows && r.fleet == f {
        var r :| r in rows && r.fleet == f;
        assert r in rows + [x];
      }
      if exists r :: r in rows + [x] && r.fleet == f {
        var r :| r in rows + [x] && r.fleet == f;
        assert r in rows || r == x;
      }
      assert x in rows + [x];
    }
    AscendingUnique(after, expected);
    assert FleetOptions(rows + [x]) == [AllFleets] + after;
  }

  // ---------------------------------------------------------------------
  // The view as a whole
  // ---------------------------------------------------------------------

  /** What the page shows below the form: a notice when there are no
      records, otherwise the selector's options, the filtered table and
      the total of its worked hours. */
  datatype View =
    | NoRecords
    | Listing(options: seq<string>, shown: seq<Record>, total: Hundredths)

  function Show(rows: seq<Record>, selection: string): (v: View)
    ensures v.NoRecords? <==> rows == []
    ensures v.Listing? ==> v.options == FleetOptions(rows) && v.total <= TotalHours(rows)
    ensures v.Listing? && selection == AllFleets ==> v.shown == rows && v.total == TotalHours(rows)
    ensures v.Listing? && selection != AllFleets ==>
      forall x :: x in v.shown <==> x in rows && x.fleet == selection
    ensures v.Listing? ==> v.shown == FilterByFleet(rows, selection) && v.total == TotalHours(v.shown)
  {
    if rows == [] then NoRecords
    else
      var shown := FilterByFleet(rows, selection);
      FilteredTotalBounded(rows, selection);
      assert forall x :: x in shown <==> multiset(shown)[x] > 0;
      assert forall x :: x in rows <==> multiset(rows)[x] > 0;
      Listing(FleetOptions(rows), shown, TotalHours(shown))
  }
}
