/** The result table printed after a scan: `compare_data`, the order of
    `sorted(output_data, key=compare_data, reverse=True)` and
    `format_rules_to_table`, with the log calls the table is made of. */
module Scanning {
  import opened PyStr
  import opened Wrappers

  /** A call of `log_message`, with the options the caller passes:
      `Plain` uses the defaults, `ErrorLog` passes `level=logging.ERROR`,
      `Console` passes `log=False` and the given `new_line`, `FileOnly`
      passes `print_output=0`. */
  datatype LogCall =
    | Plain(text: string)
    | ErrorLog(text: string)
    | Console(text: string, newLine: bool)
    | FileOnly(text: string)

  /** `test_cases` of `compare_data`: the sort key of each result. */
  const TestCases: map<string, string> := map[
    "error" := "01", "fail" := "02", "needs_action" := "03", "needs_inspection" := "04",
    "fixed" := "05", "informational" := "06", "pass" := "07", "notapplicable" := "08",
    "notchecked" := "09"]

  /** `compare_data(row)`: the key of the result of a `title:rule_id:result`
      row, `'99'` for a row of another shape or an unknown result. */
  function CompareData(row: string): string {
    var fields := Split(row, ':');
    if |fields| != 3 then "99"
    else if fields[2] in TestCases then TestCases[fields[2]]
    else "99"
  }

  /** A row sorts by its result's key exactly when it is
      `title:rule_id:result` with a known result; every other row gets the
      key `'99'`, which is above all the others. */
  lemma CompareDataSpec(row: string)
    ensures CompareData(row) == "99" || CompareData(row) in TestCases.Values
    ensures CompareData(row) != "99" <==> |Split(row, ':')| == 3 && Split(row, ':')[2] in TestCases
    ensures CompareData(row) != "99" ==> CompareData(row) == TestCases[Split(row, ':')[2]]
    ensures forall v :: v in TestCases.Values ==> LexLess(v, "99")
  {
  }

  // ---------------------------------------------------------------------
  // sorted(rows, key=key, reverse=True)
  // ---------------------------------------------------------------------

  /** `s` is in descending order of `key`. */
  ghost predicate SortedDesc(s: seq<string>, key: string -> string) {
    forall i, j :: 0 <= i < j < |s| ==> LexLe(key(s[j]), key(s[i]))
  }

  /** `x` placed into a list sorted in descending order of `key`, after
      every element whose key is not smaller. */
  function InsertDesc(s: seq<string>, x: string, key: string -> string): (r: seq<string>)
    ensures multiset(r) == multiset(s) + multiset{x}
    ensures |r| == |s| + 1
  {
    if s == [] then [x]
    else if LexLess(key(s[0]), key(x)) then [x] + s
    else
      assert s == [s[0]] + s[1..];
      [s[0]] + InsertDesc(s[1..], x, key)
  }

  /** Python's `sorted(rows, key=key, reverse=True)`: descending and
      stable, as an insertion of each row in turn. */
  function SortDesc(rows: seq<string>, key: string -> string): (r: seq<string>)
    ensures multiset(r) == multiset(rows)
    ensures |r| == |rows|
  {
    if rows == [] then []
    else
      assert rows == rows[..|rows| - 1] + [rows[|rows| - 1]];
      InsertDesc(SortDesc(rows[..|rows| - 1], key), rows[|rows| - 1], key)
  }

  lemma {:induction false} InsertDescSorted(s: seq<string>, x: string, key: string -> string)
    requires SortedDesc(s, key)
    ensures SortedDesc(InsertDesc(s, x, key), key)
  {
    var r := InsertDesc(s, x, key);
    if s == [] {
    } else if LexLess(key(s[0]), key(x)) {
      forall i, j | 0 <= i < j < |r| ensures LexLe(key(r[j]), key(r[i])) {
        if i == 0 {
          assert r[j] == s[j - 1];
          if j - 1 > 0 {
            assert LexLe(key(s[j - 1]), key(s[0]));
            if LexLess(key(s[j - 1]), key(s[0])) {
              LexLessTransitive(key(s[j - 1]), key(s[0]), key(x));
            }
          }
        } else {
          assert r[i] == s[i - 1] && r[j] == s[j - 1];
        }
      }
    } else {
      var t := InsertDesc(s[1..], x, key);
      InsertDescSorted(s[1..], x, key);
      LexLessTotal(key(s[0]), key(x));
      forall i, j | 0 <= i < j < |r| ensures LexLe(key(r[j]), key(r[i])) {
        if i == 0 {
          assert r[j] == t[j - 1];
          InsertDescBelowHead(s, x, key, j - 1);
        } else {
          assert r[i] == t[i - 1] && r[j] == t[j - 1];
        }
      }
    }
  }

  /** Inserting behind the head of a sorted list keeps every element at or
      below the head. */
  lemma InsertDescBelowHead(s: seq<string>, x: string, key: string -> string, j: nat)
    requires SortedDesc(s, key) && s != [] && LexLe(key(x), key(s[0]))
    requires j < |s|
    ensures j < |InsertDesc(s[1..], x, key)| && LexLe(key(InsertDesc(s[1..], x, key)[j]), key(s[0]))
  {
    var t := InsertDesc(s[1..], x, key);
    assert t[j] in multiset(t);
    assert t[j] in multiset(s[1..]) + multiset{x};
    if t[j] in multiset(s[1..]) {
      var k :| 0 <= k < |s[1..]| && s[1..][k] == t[j];
      assert s[k + 1] == t[j];
    }
  }

  lemma {:induction false} SortDescSorted(rows: seq<string>, key: string -> string)
    ensures SortedDesc(SortDesc(rows, key), key)
  {
    if rows != [] {
      SortDescSorted(rows[..|rows| - 1], key);
      InsertDescSorted(SortDesc(rows[..|rows| - 1], key), rows[|rows| - 1], key);
    }
  }

  /** The elements of `s` with key `k`, in order. */
  function WithKey(s: seq<string>, k: string, key: string -> string): seq<string> {
    if s == [] then []
    else WithKey(s[..|s| - 1], k, key) + (if key(s[|s| - 1]) == k then [s[|s| - 1]] else [])
  }

  lemma {:induction false} WithKeyPrepend(x: string, s: seq<string>, k: string, key: string -> string)
    ensures WithKey([x] + s, k, key) == (if key(x) == k then [x] else []) + WithKey(s, k, key)
    decreases |s|
  {
    if s == [] {
      assert [x] + s == [x];
      assert [x][..0] == [];
    } else {
      var init := s[..|s| - 1];
      WithKeyPrepend(x, init, k, key);
      assert ([x] + s)[..|[x] + s| - 1] == [x] + init;
      assert ([x] + s)[|[x] + s| - 1] == s[|s| - 1];
    }
  }

  /** No element of a descending list has a key above that of its head. */
  lemma {:induction false} WithKeyAbove(s: seq<string>, k: string, key: string -> string)
    requires SortedDesc(s, key) && s != [] && LexLess(key(s[0]), k)
    ensures WithKey(s, k, key) == []
  {
    if |s| > 1 {
      var init := s[..|s| - 1];
      assert SortedDesc(init, key);
      WithKeyAbove(init, k, key);
    }
    var last := s[|s| - 1];
    if |s| > 1 {
      assert LexLe(key(last), key(s[0]));
      if LexLess(key(last), key(s[0])) {
        LexLessTransitive(key(last), key(s[0]), k);
      }
    }
    if key(last) == k {
      LexLessIrreflexive(k);
    }
  }

  /** Insertion keeps the elements of every key in their order, the new one
      last among its equals. */
  lemma {:induction false} InsertDescStable(s: seq<string>, x: string, k: string, key: string -> string)
    requires SortedDesc(s, key)
    ensures WithKey(InsertDesc(s, x, key), k, key) == WithKey(s, k, key) + (if key(x) == k then [x] else [])
  {
    if s == [] {
      assert [x][..0] == [];
    } else if LexLess(key(s[0]), key(x)) {
      InsertDescStableFront(s, x, k, key);
    } else {
      assert SortedDesc(s[1..], key);
      InsertDescStable(s[1..], x, k, key);
      InsertDescStableSkip(s, x, k, key);
    }
  }

  lemma InsertDescStableFront(s: seq<string>, x: string, k: string, key: string -> string)
    requires SortedDesc(s, key) && s != [] && LexLess(key(s[0]), key(x))
    ensures WithKey(InsertDesc(s, x, key), k, key) == WithKey(s, k, key) + (if key(x) == k then [x] else [])
  {
    assert InsertDesc(s, x, key) == [x] + s;
    WithKeyPrepend(x, s, k, key);
    if key(x) == k {
      WithKeyAbove(s, k, key);
    }
  }

  lemma InsertDescStableSkip(s: seq<string>, x: string, k: string, key: string -> string)
    requires s != [] && !LexLess(key(s[0]), key(x))
    requires WithKey(InsertDesc(s[1..], x, key), k, key) == WithKey(s[1..], k, key) + (if key(x) == k then [x] else [])
    ensures WithKey(InsertDesc(s, x, key), k, key) == WithKey(s, k, key) + (if key(x) == k then [x] else [])
  {
    var t := InsertDesc(s[1..], x, key);
    assert InsertDesc(s, x, key) == [s[0]] + t;
    var h := if key(s[0]) == k then [s[0]] else [];
    var xs := if key(x) == k then [x] else [];
    WithKeyPrepend(s[0], t, k, key);
    WithKeyPrepend(s[0], s[1..], k, key);
    assert [s[0]] + s[1..] == s;
    calc {
      WithKey([s[0]] + t, k, key);
      h + WithKey(t, k, key);
      h + (WithKey(s[1..], k, key) + xs);
      { ConcatAssoc(h, WithKey(s[1..], k, key), xs); }
      (h + WithKey(s[1..], k, key)) + xs;
      WithKey(s, k, key) + xs;
    }
  }

  lemma ConcatAssoc(a: seq<string>, b: seq<string>, c: seq<string>)
    ensures a + (b + c) == (a + b) + c
  {
  }

  /** The sort is stable: the rows with any one key keep their original
      order. */
  lemma {:induction false} SortDescStable(rows: seq<string>, k: string, key: string -> string)
    ensures WithKey(SortDesc(rows, key), k, key) == WithKey(rows, k, key)
  {
    if rows != [] {
      var init := rows[..|rows| - 1];
      SortDescStable(init, k, key);
      SortDescSorted(init, key);
      InsertDescStable(SortDesc(init, key), rows[|rows| - 1], k, key);
    }
  }

  // ---------------------------------------------------------------------
  // format_rules_to_table
  // ---------------------------------------------------------------------

  /** The largest length of field `idx` over the rows. */
  function MaxFieldLen(rows: seq<string>, idx: nat): (r: nat)
    requires forall i :: 0 <= i < |rows| ==> idx < |Split(rows[i], ':')|
    ensures forall i :: 0 <= i < |rows| ==> |Split(rows[i], ':')[idx]| <= r
    ensures rows == [] ==> r == 0
  {
    if rows == [] then 0
    else
      var prev := MaxFieldLen(rows[..|rows| - 1], idx);
      var cur := |Split(rows[|rows| - 1], ':')[idx]|;
      assert forall i :: 0 <= i < |rows| - 1 ==> rows[..|rows| - 1][i] == rows[i];
      if cur > prev then cur else prev
  }

  /** The width is no larger than needed: some row's field is exactly that
      long. */
  lemma {:induction false} MaxFieldLenAttained(rows: seq<string>, idx: nat)
    requires forall i :: 0 <= i < |rows| ==> idx < |Split(rows[i], ':')|
    ensures rows != [] ==> exists i :: 0 <= i < |rows| && |Split(rows[i], ':')[idx]| == MaxFieldLen(rows, idx)
  {
    if rows != [] {
      var init := rows[..|rows| - 1];
      if init != [] && MaxFieldLen(init, idx) >= |Split(rows[|rows| - 1], ':')[idx]| {
        MaxFieldLenAttained(init, idx);
        var i :| 0 <= i < |init| && |Split(init[i], ':')[idx]| == MaxFieldLen(init, idx);
        assert init[i] == rows[i];
      } else {
        assert |Split(rows[|rows| - 1], ':')[idx]| == MaxFieldLen(rows, idx);
      }
    }
  }

  /** Every line of output can have `l.split(':')[2]` taken of it. */
  predicate AllHaveThreeFields(rows: seq<string>) {
    forall i :: 0 <= i < |rows| ==> |Split(rows[i], ':')| >= 3
  }

  /** The table line for one row, or the row itself logged as an error when
      it does not unpack into exactly three fields. */
  function TableLine(data: string, w1: int, w2: int): LogCall {
    var f := Split(data, ':');
    if |f| == 3 then Plain("|" + LJust(f[0], w1) + " |" + LJust(Strip(f[2]), w2) + "|")
    else ErrorLog(data)
  }

  function TableBody(rows: seq<string>, w1: int, w2: int): (r: seq<LogCall>)
    ensures |r| == |rows| && forall i :: 0 <= i < |rows| ==> r[i] == TableLine(rows[i], w1, w2)
  {
    seq(|rows|, i requires 0 <= i < |rows| => TableLine(rows[i], w1, w2))
  }

  /** `format_rules_to_table(output_data, content)` as the log calls it
      makes, `header` being `settings.result_text.format(content)`; `None`
      where `l.split(':')[2]` raises. */
  function FormatRulesToTable(outputData: seq<string>, header: string): Option<seq<LogCall>> {
    if outputData == [] then Some([])
    else if !AllHaveThreeFields(outputData) then None
    else Some(RulesTable(outputData, header))
  }

  /** The header, the rule, one line per row and the rule again, for rows
      that all have three fields. */
  function RulesTable(outputData: seq<string>, header: string): seq<LogCall>
    requires AllHaveThreeFields(outputData)
  {
    var w1 := MaxFieldLen(outputData, 0) + 5;
    var w2 := MaxFieldLen(outputData, 2) + 2;
    var sep := Repeat('-', w1 + w2 + 4);
    var sorted := SortDesc(outputData, CompareData);
    [Plain(header), Plain(sep)] + TableBody(sorted, w1, w2) + [Plain(sep)]
  }

  /** A table line is `w1 + w2 + 4` characters wide when the title and the
      stripped result fit their columns. */
  lemma TableLineWidth(data: string, w1: nat, w2: nat)
    requires |Split(data, ':')| >= 3
    requires |Split(data, ':')[0]| <= w1 && |Split(data, ':')[2]| <= w2
    ensures TableLine(data, w1, w2).ErrorLog? <==> |Split(data, ':')| != 3
    ensures TableLine(data, w1, w2).Plain? ==> |TableLine(data, w1, w2).text| == w1 + w2 + 4
  {
    StripShape(Split(data, ':')[2]);
  }

  /** The table is `None` exactly when some row has fewer than three
      fields, and empty when there is no row. */
  lemma FormatRulesToTableFails(outputData: seq<string>, header: string)
    ensures FormatRulesToTable(outputData, header).None?
        <==> exists i :: 0 <= i < |outputData| && |Split(outputData[i], ':')| < 3
    ensures outputData == [] ==> FormatRulesToTable(outputData, header) == Some([])
  {
  }

  lemma FormatRulesToTableShape(outputData: seq<string>, header: string)
    requires outputData != [] && forall i :: 0 <= i < |outputData| ==> |Split(outputData[i], ':')| >= 3
    ensures var t := FormatRulesToTable(outputData, header);
      var sorted := SortDesc(outputData, CompareData);
      var rule := Plain(Repeat('-', MaxFieldLen(outputData, 0) + MaxFieldLen(outputData, 2) + 11));
      t.Some?
      && t.value == [Plain(header), rule]
                    + TableBody(sorted, MaxFieldLen(outputData, 0) + 5, MaxFieldLen(outputData, 2) + 2)
                    + [rule]
      && SortedDesc(sorted, CompareData)
      && multiset(sorted) == multiset(outputData)
  {
    assert AllHaveThreeFields(outputData);
    var m0 := MaxFieldLen(outputData, 0);
    var m2 := MaxFieldLen(outputData, 2);
    assert m0 + 5 + (m2 + 2) + 4 == m0 + m2 + 11;
    SortDescSorted(outputData, CompareData);
  }

  /** Each sorted row is one of the input rows, so its fields fit. */
  lemma SortedRowFits(outputData: seq<string>, i: nat)
    requires forall j :: 0 <= j < |outputData| ==> |Split(outputData[j], ':')| >= 3
    requires i < |outputData|
    ensures var row := SortDesc(outputData, CompareData)[i];
      |Split(row, ':')| >= 3
      && |Split(row, ':')[0]| <= MaxFieldLen(outputData, 0)
      && |Split(row, ':')[2]| <= MaxFieldLen(outputData, 2)
  {
    var sorted := SortDesc(outputData, CompareData);
    assert sorted[i] in multiset(outputData);
    var k :| 0 <= k < |outputData| && outputData[k] == sorted[i];
  }

  /** The `i`-th line of the table body is as wide as the rules. */
  lemma SortedLineWidth(outputData: seq<string>, i: nat)
    requires forall j :: 0 <= j < |outputData| ==> |Split(outputData[j], ':')| >= 3
    requires i < |outputData|
    ensures var w1 := MaxFieldLen(outputData, 0) + 5;
      var w2 := MaxFieldLen(outputData, 2) + 2;
      var sorted := SortDesc(outputData, CompareData);
      var line := TableBody(sorted, w1, w2)[i];
      (line.Plain? ==> |line.text| == w1 + w2 + 4)
      && (line.ErrorLog? <==> |Split(sorted[i], ':')| != 3)
  {
    var w1 := MaxFieldLen(outputData, 0) + 5;
    var w2 := MaxFieldLen(outputData, 2) + 2;
    var sorted := SortDesc(outputData, CompareData);
    SortedRowFits(outputData, i);
    TableLineWidth(sorted[i], w1, w2);
  }

  /** Every line of the table body is as wide as the rules (`w1 + w2 + 4`),
      and a row that is not `title:rule_id:result` is logged as an error
      instead. */
  lemma FormatRulesToTableWidth(outputData: seq<string>)
    requires forall i :: 0 <= i < |outputData| ==> |Split(outputData[i], ':')| >= 3
    ensures var w1 := MaxFieldLen(outputData, 0) + 5;
      var w2 := MaxFieldLen(outputData, 2) + 2;
      var body := TableBody(SortDesc(outputData, CompareData), w1, w2);
      forall i :: 0 <= i < |body| ==>
        (body[i].Plain? ==> |body[i].text| == w1 + w2 + 4)
        && (body[i].ErrorLog? <==> |Split(SortDesc(outputData, CompareData)[i], ':')| != 3)
  {
    var w1 := MaxFieldLen(outputData, 0) + 5;
    var w2 := MaxFieldLen(outputData, 2) + 2;
    var sorted := SortDesc(outputData, CompareData);
    var body := TableBody(sorted, w1, w2);
    forall i | 0 <= i < |body|
      ensures (body[i].Plain? ==> |body[i].text| == w1 + w2 + 4)
        && (body[i].ErrorLog? <==> |Split(sorted[i], ':')| != 3)
    {
      SortedLineWidth(outputData, i);
    }
  }
}
