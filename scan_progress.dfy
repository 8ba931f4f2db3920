/** `ScanProgress`: the scan's progress display and the collected
    `title:rule_id:result` lines that later feed the result table. */
module Progress {
  import opened PyStr
  import opened Wrappers
  import opened Scanning

  /** `s` is in strictly increasing order: `sorted` of distinct keys. */
  predicate StrictlySorted(s: seq<string>) {
    forall i, j :: 0 <= i < j < |s| ==> LexLess(s[i], s[j])
  }

  /** `x` put into its place in a strictly increasing list that lacks it. */
  function InsertSorted(s: seq<string>, x: string): (r: seq<string>)
    ensures |r| == |s| + 1
    ensures forall y :: y in r <==> y in s || y == x
  {
    if s == [] then [x]
    else if LexLess(x, s[0]) then [x] + s
    else [s[0]] + InsertSorted(s[1..], x)
  }

  lemma {:induction false} InsertSortedSorted(s: seq<string>, x: string)
    requires StrictlySorted(s) && x !in s
    ensures StrictlySorted(InsertSorted(s, x))
  {
    var r := InsertSorted(s, x);
    if s != [] {
      if LexLess(x, s[0]) {
        forall i, j | 0 <= i < j < |r| ensures LexLess(r[i], r[j]) {
          if i == 0 && j > 1 {
            LexLessTransitive(x, s[0], s[j - 1]);
          }
        }
      } else {
        assert StrictlySorted(s[1..]);
        assert x !in s[1..];
        InsertSortedSorted(s[1..], x);
        LexLessTotal(x, s[0]);
        assert x != s[0];
        var t := InsertSorted(s[1..], x);
        forall i, j | 0 <= i < j < |r| ensures LexLess(r[i], r[j]) {
          if i == 0 {
            assert r[j] in t;
            if r[j] != x {
              var k :| 0 <= k < |s[1..]| && s[1..][k] == r[j];
              assert s[k + 1] == r[j];
            }
          } else {
            assert r[i] == t[i - 1] && r[j] == t[j - 1];
          }
        }
      }
    }
  }

  /** `sorted(names)`: the keys of the map in increasing order. */
  method SortedKeys(names: map<string, string>) returns (r: seq<string>)
    ensures StrictlySorted(r)
    ensures forall k :: k in r <==> k in names
  {
    r := [];
    var rest := names.Keys;
    while rest != {}
      invariant StrictlySorted(r)
      invariant forall k :: k in r <==> k in names && k !in rest
      invariant rest <= names.Keys
      decreases rest
    {
      var k :| k in rest;
      InsertSortedSorted(r, k);
      r := InsertSorted(r, k);
      rest := rest - {k};
    }
  }

  /** A list index as Python reads it: a negative index counts from the
      end; `None` for an `IndexError`. */
  function PyIndex(n: int, len: nat): (r: Option<nat>)
    ensures r.Some? ==> r.value < len
    ensures r.Some? <==> -(len as int) <= n < len
    ensures r.Some? && n >= 0 ==> r.value == n
    ensures r.Some? && n < 0 ==> r.value + -n == len
  {
    if 0 <= n < len then Some(n)
    else if -(len as int) <= n < 0 then Some(len + n)
    else None
  }

  /** The lines of `show_progress`: in debug mode the module's output and
      the next module's name; otherwise a console line that backspaces over
      `'NNN/NNN ...running (name)'` and prints `done`, then the line for the
      next module when there is one. Both end with the stripped output
      written to the log only. */
  function ProgressLines(debug: bool, total: int, count: int, prev: string, cur: string, data: string)
    : seq<LogCall>
  {
    (if debug then [Plain(data)] + (if total > count then [Plain(cur)] else [])
     else
       [Console(Repeat('\U{8}', 7 + |prev| + 3) + "done    (" + prev + ")", true)]
       + (if total > count then [Console(FormatD3(count + 1) + "/" + FormatD3(total) + " ...running (" + cur + ")", false)]
          else []))
    + [FileOnly(Strip(data))]
  }

  /** For a module numbered below 1000 the previous `running` line is the
      eleven-character counter prefix `NNN/NNN ...` followed by
      `running (name)`. The `done` line's `7 + len(name) + 3` backspaces
      erase exactly that `running (name)` part, leaving the counters, and
      `done    (name)` then fills the erased width exactly. */
  lemma RunningLineErased(total: nat, count: nat, name: string)
    requires count < 999 && total < 1000
    ensures var counters := FormatD3(count + 1) + "/" + FormatD3(total) + " ...";
      var running := "running (" + name + ")";
      FormatD3(count + 1) + "/" + FormatD3(total) + " ...running (" + name + ")" == counters + running
      && |counters| == 11
      && |running| == 7 + |name| + 3
      && |"done    (" + name + ")"| == 7 + |name| + 3
  {
    DecimalShort(count + 1);
    DecimalShort(total);
  }

  lemma DecimalShort(n: nat)
    requires n < 1000
    ensures |FormatD3(n)| == 3
  {
    if n >= 100 {
      assert |Decimal(n / 10)| == 2 by { assert |Decimal(n / 10 / 10)| == 1; }
    } else if n >= 10 {
      assert |Decimal(n / 10)| == 1;
    }
  }

  /** Every call ends with the stripped output going to the log only, and
      only the debug mode logs anything else. */
  lemma ProgressLinesSpec(debug: bool, total: int, count: int, prev: string, cur: string, data: string)
    ensures var l := ProgressLines(debug, total, count, prev, cur, data);
      2 <= |l| <= 3
      && l[|l| - 1] == FileOnly(Strip(data))
      && (|l| == 3 <==> total > count)
      && (debug ==> l[0] == Plain(data) && forall i :: 0 <= i < |l| ==> !l[i].Console?)
      && (!debug ==> forall i :: 0 <= i < |l| - 1 ==> l[i].Console? && (l[i].newLine <==> i == 0))
  {
  }

  /** One row of `update_data`: a `title:rule_id:result` row takes the
      result of the first changed entry that contains its rule id; other
      rows and rows without such an entry stay. `None` where
      `result_list[0].split(':')[1]` raises. */
  function UpdateRow(row: string, changed: seq<string>): Option<string> {
    var f := Split(row, ':');
    if |f| != 3 then Some(row)
    else match FirstContaining(changed, f[1])
      case None => Some(row)
      case Some(k) =>
        var p := Split(changed[k], ':');
        if |p| < 2 then None else Some(f[0] + ":" + f[1] + ":" + p[1])
  }

  /** The first entry that contains `id` (`[x for x in changed if id in x][0]`). */
  function FirstContaining(changed: seq<string>, id: string): (r: Option<nat>)
    ensures r.Some? ==>
      r.value < |changed| && Contains(changed[r.value], id)
      && forall j :: 0 <= j < r.value ==> !Contains(changed[j], id)
    ensures r.None? ==> forall j :: 0 <= j < |changed| ==> !Contains(changed[j], id)
  {
    if changed == [] then None
    else if Contains(changed[0], id) then Some(0)
    else match FirstContaining(changed[1..], id)
      case None => None
      case Some(k) => Some(k + 1)
  }

  /** Three fields joined by `:` split back into themselves. */
  lemma SplitThree(a: string, b: string, c: string)
    requires ':' !in a && ':' !in b && ':' !in c
    ensures Split(a + ":" + b + ":" + c, ':') == [a, b, c]
  {
    SplitNoSep(c, ':');
    SplitAfterField(b, c, ':');
    SplitAfterField(a, b + ":" + c, ':');
    assert a + ":" + b + ":" + c == a + [':'] + (b + [':'] + c);
  }

  /** An updated row is still `title:rule_id:result`, with its title and rule
      id, and the result of the `rule_id:result` entry recorded for it. */
  lemma UpdateRowSpec(row: string, changed: seq<string>)
    requires UpdateRow(row, changed).Some?
    ensures var f := Split(row, ':');
      var r := UpdateRow(row, changed).value;
      r != row ==>
        |f| == 3 && FirstContaining(changed, f[1]).Some?
        && var p := Split(changed[FirstContaining(changed, f[1]).value], ':');
        Split(r, ':') == [f[0], f[1], p[1]]
  {
    var f := Split(row, ':');
    if |f| == 3 && FirstContaining(changed, f[1]).Some? {
      var p := Split(changed[FirstContaining(changed, f[1]).value], ':');
      if |p| >= 2 {
        SplitThree(f[0], f[1], p[1]);
      }
    }
  }

  /** A `title:rule_id:result` row that some changed entry mentions: the
      update raises iff the first such entry has no second field, and
      otherwise the row keeps its title and rule id and takes that field as
      its result, so it changes iff that result differs. */
  lemma UpdateRowMatched(row: string, changed: seq<string>)
    requires |Split(row, ':')| == 3 && FirstContaining(changed, Split(row, ':')[1]).Some?
    ensures var f := Split(row, ':');
      var p := Split(changed[FirstContaining(changed, f[1]).value], ':');
      (UpdateRow(row, changed).None? <==> |p| < 2)
      && (|p| >= 2 ==>
            Split(UpdateRow(row, changed).value, ':') == [f[0], f[1], p[1]]
            && (UpdateRow(row, changed).value == row <==> p[1] == f[2]))
  {
    var f := Split(row, ':');
    var p := Split(changed[FirstContaining(changed, f[1]).value], ':');
    if |p| >= 2 {
      var r := UpdateRow(row, changed).value;
      SplitThree(f[0], f[1], p[1]);
      JoinSplit(row, ':');
      JoinSplit(r, ':');
      assert f == [f[0], f[1], f[2]];
    }
  }

  /** A row no changed entry mentions is kept as it is. */
  lemma UpdateRowUnmentioned(row: string, changed: seq<string>)
    requires |Split(row, ':')| == 3
    requires forall j :: 0 <= j < |changed| ==> !Contains(changed[j], Split(row, ':')[1])
    ensures UpdateRow(row, changed) == Some(row)
  {
  }

  /** Every row before `k` can be updated without raising. */
  ghost predicate UpdatableUpTo(rows: seq<string>, changed: seq<string>, k: int) {
    forall j :: 0 <= j < k && j < |rows| ==> UpdateRow(rows[j], changed).Some?
  }

  /** The rows after `update_data(changed)`: each row updated, as long as
      no row before it (nor itself) made the update raise. */
  ghost function UpdatedRows(rows: seq<string>, changed: seq<string>): (r: seq<string>)
    ensures |r| == |rows|
  {
    seq(|rows|, k requires 0 <= k < |rows| =>
      if UpdatableUpTo(rows, changed, k + 1) then UpdateRow(rows[k], changed).value else rows[k])
  }

  class ScanProgress {
    var totalCount: int
    var currentCount: int
    var outputData: seq<string>
    var debug: bool
    var names: map<string, string>
    var listNames: seq<string>

    /** `list_names` is `sorted(names)`. */
    ghost predicate Valid()
      reads this
    {
      StrictlySorted(listNames) && forall k :: k in listNames <==> k in names
    }

    constructor(totalCount: int, debug: bool)
      ensures Valid()
      ensures this.totalCount == totalCount && this.debug == debug
      ensures currentCount == 0 && outputData == [] && names == map[] && listNames == []
    {
      this.totalCount := totalCount;
      this.currentCount := 0;
      this.outputData := [];
      this.debug := debug;
      this.names := map[];
      this.listNames := [];
    }

    /** `get_full_name(count)`: the name of the rule at that position of
        the sorted rule ids, `''` where the index raises. */
    function GetFullName(count: int): (r: string)
      requires Valid()
      reads this
      ensures PyIndex(count, |listNames|).None? ==> r == ""
      ensures PyIndex(count, |listNames|).Some? ==>
        listNames[PyIndex(count, |listNames|).value] in names
        && r == names[listNames[PyIndex(count, |listNames|).value]]
    {
      match PyIndex(count, |listNames|)
      case None => ""
      case Some(i) =>
        assert listNames[i] in listNames;
        names[listNames[i]]
    }

    /** `show_progress(stdout_data)`: records the stripped line, counts the
        module and returns the log calls it makes. */
    method ShowProgress(stdoutData: string) returns (emitted: seq<LogCall>)
      requires Valid()
      modifies this
      ensures Valid()
      ensures outputData == old(outputData) + [Strip(stdoutData)]
      ensures currentCount == old(currentCount) + 1
      ensures totalCount == old(totalCount) && debug == old(debug)
      ensures names == old(names) && listNames == old(listNames)
      ensures emitted == ProgressLines(debug, totalCount, currentCount,
                                       GetFullName(currentCount - 1), GetFullName(currentCount), stdoutData)
    {
      outputData := outputData + [Strip(stdoutData)];
      currentCount := currentCount + 1;
      var prevMsg := GetFullName(currentCount - 1);
      var curMsg := GetFullName(currentCount);
      if debug {
        emitted := [Plain(stdoutData)];
        if totalCount > currentCount {
          emitted := emitted + [Plain(curMsg)];
        }
      } else {
        var cntBack := 7 + |prevMsg| + 3;
        emitted := [Console(Repeat('\U{8}', cntBack) + "done    (" + prevMsg + ")", true)];
        if totalCount > currentCount {
          emitted := emitted + [Console(FormatD3(currentCount + 1) + "/" + FormatD3(totalCount)
                                        + " ...running (" + curMsg + ")", false)];
        }
      }
      emitted := emitted + [FileOnly(Strip(stdoutData))];
    }

    /** `set_names(names)`. */
    method SetNames(names: map<string, string>)
      modifies this
      ensures Valid()
      ensures this.names == names
      ensures totalCount == old(totalCount) && currentCount == old(currentCount)
      ensures outputData == old(outputData) && debug == old(debug)
    {
      this.names := names;
      this.listNames := SortedKeys(names);
    }

    /** `get_output_data()`. */
    function GetOutputData(): (r: seq<string>)
      reads this
      ensures r == outputData
    {
      outputData
    }

    /** `update_data(changed_fields)`: each row in turn is updated in place.
        `ok` is false where the source raises, and then the rows before the
        failing one are updated and the others are as they were. */
    method UpdateData(changed: seq<string>) returns (ok: bool)
      modifies this
      ensures ok <==> UpdatableUpTo(old(outputData), changed, |old(outputData)|)
      ensures outputData == UpdatedRows(old(outputData), changed)
      ensures totalCount == old(totalCount) && currentCount == old(currentCount) && debug == old(debug)
      ensures names == old(names) && listNames == old(listNames)
    {
      ghost var rows := outputData;
      var index := 0;
      while index < |outputData|
        invariant 0 <= index <= |outputData| == |rows|
        invariant UpdatableUpTo(rows, changed, index)
        invariant forall k :: 0 <= k < index ==> outputData[k] == UpdateRow(rows[k], changed).value
        invariant forall k :: index <= k < |rows| ==> outputData[k] == rows[k]
        invariant totalCount == old(totalCount) && currentCount == old(currentCount) && debug == old(debug)
        invariant names == old(names) && listNames == old(listNames)
      {
        var row := outputData[index];
        var f := Split(row, ':');
        if |f| == 3 {
          var found := FirstContaining(changed, f[1]);
          if found.Some? {
            var p := Split(changed[found.value], ':');
            if |p| < 2 {
              ok := false;
              return;
            }
            outputData := outputData[index := f[0] + ":" + f[1] + ":" + p[1]];
          }
        }
        index := index + 1;
      }
      ok := true;
    }
  }
}
