/**
 The module table of libltdl: opened modules with reference counts, the loaders that open them,
 and the shutdown that closes what is left.

 Loading itself is a parameter: which loaders can open a file, and what closing a module returns.
 The calls of module_close are recorded in the field closed, in order.
 */
module ModuleTable {
  import opened Basics
  import opened SLists

  class Vtable {
    const name: string
    const prepend: bool
    /** Whether module_open, module_close and find_sym are set and the priority is one of the two. */
    const valid: bool

    constructor (name: string, prepend: bool, valid: bool)
      ensures this.name == name && this.prepend == prepend && this.valid == valid
    {
      this.name, this.prepend, this.valid := name, prepend, valid;
    }
  }

  /** A loader is a boxed vtable; the box is never empty. */
  type Loader = SList<Vtable?>

  class Handle {
    var next: Handle?
    var refCount: int
    var resident: bool
    const filename: Option<string>
    const vtable: Vtable

    constructor (filename: Option<string>, vtable: Vtable, resident: bool)
      ensures this.filename == filename && this.vtable == vtable && this.resident == resident
      ensures refCount == 0 && next == null
    {
      this.filename, this.vtable, this.resident := filename, vtable, resident;
      refCount, next := 0, null;
    }
  }

  // ---------------------------------------------------------------------------------------
  // What the operations do to the table, on values
  // ---------------------------------------------------------------------------------------

  /** A handle in the table with the fields that change. */
  datatype Row = Row(handle: Handle, refCount: int, resident: bool)

  function Named(filename: Option<string>): Row -> bool {
    (r: Row) => r.handle.filename == filename
  }

  function Holds(h: Handle): Row -> bool {
    (r: Row) => r.handle == h
  }

  function LoaderNamed(name: string): Loader -> bool {
    (l: Loader) => l.userdata != null && l.userdata.name == name
  }

  /** The callback of the loader list: the item itself when its vtable has the name. */
  function NamedItem(name: string): Loader -> Option<Loader> {
    (l: Loader) => if l.userdata != null && l.userdata.name == name then Some(l) else None
  }

  lemma NamedAnswer(ls: seq<Loader>, name: string)
    ensures FirstMatch(ls, Answers(NamedItem(name))) == FirstMatch(ls, LoaderNamed(name))
    ensures var k := FirstMatch(ls, LoaderNamed(name));
            Answer(ls, NamedItem(name)) == if k < |ls| then Some(ls[k]) else None
  {
    AnswerAt(ls, NamedItem(name), FirstMatch(ls, LoaderNamed(name)));
  }

  function Opening(opens: Vtable -> bool): Loader -> bool {
    (l: Loader) => l.userdata != null && opens(l.userdata)
  }

  ghost function VtableAt(ls: seq<Loader>, i: nat): Vtable? {
    if i < |ls| then ls[i].userdata else null
  }

  /** The loader that serves a request: the given vtable, or the first in the list that can open it. */
  ghost function Serving(ls: seq<Loader>, vtable: Vtable?, opens: Vtable -> bool): Vtable? {
    if vtable != null then (if opens(vtable) then vtable else null)
    else VtableAt(ls, FirstMatch(ls, Opening(opens)))
  }

  /** A vtable that is named is the only one asked; otherwise the first loader that opens the file serves. */
  lemma ServingExactly(ls: seq<Loader>, vtable: Vtable?, opens: Vtable -> bool)
    requires NoNull(ls)
    ensures vtable != null ==> Serving(ls, vtable, opens) == if opens(vtable) then vtable else null
    ensures vtable == null && Serving(ls, vtable, opens) != null ==>
              exists j :: 0 <= j < |ls| && ls[j].userdata == Serving(ls, vtable, opens) && opens(ls[j].userdata) &&
                          forall i | 0 <= i < j :: !opens(ls[i].userdata)
    ensures vtable == null && Serving(ls, vtable, opens) == null ==>
              forall j | 0 <= j < |ls| :: !opens(ls[j].userdata)
  {
    if vtable == null {
      var k := FirstMatch(ls, Opening(opens));
      assert forall i | 0 <= i < k :: !Opening(opens)(ls[i]);
      assert k < |ls| ==> Opening(opens)(ls[k]);
    }
  }

  /** One more reference for the handle of an open file. */
  ghost function Referenced(rows: seq<Row>, k: nat): seq<Row>
    requires k < |rows|
  {
    rows[k := rows[k].(refCount := rows[k].refCount + 1)]
  }

  /** Whether closing h drops it: its last reference goes and it is not resident. */
  ghost predicate Dropped(rows: seq<Row>, h: Handle) {
    DropsAt(rows, FirstMatch(rows, Holds(h)))
  }

  ghost predicate DropsAt(rows: seq<Row>, k: nat) {
    k < |rows| && rows[k].refCount <= 1 && !rows[k].resident
  }

  ghost function ClosedRows(rows: seq<Row>, h: Handle): seq<Row> {
    ClosedAt(rows, FirstMatch(rows, Holds(h)))
  }

  ghost function ClosedAt(rows: seq<Row>, k: nat): seq<Row> {
    if k >= |rows| then rows
    else if DropsAt(rows, k) then RemoveAt(rows, k)
    else rows[k := rows[k].(refCount := rows[k].refCount - 1)]
  }

  ghost function ResidentRows(rows: seq<Row>, h: Handle): seq<Row> {
    var k := FirstMatch(rows, Holds(h));
    if k < |rows| then rows[k := rows[k].(resident := true)] else rows
  }

  ghost predicate InUse(rows: seq<Row>, v: Vtable?) {
    exists i :: 0 <= i < |rows| && rows[i].handle.vtable == v
  }

  ghost predicate InUseByResident(rows: seq<Row>, v: Vtable?) {
    exists i :: 0 <= i < |rows| && rows[i].handle.vtable == v && rows[i].resident
  }

  /** What one level of the shutdown loop leaves of a row: nothing, or the row with its count. */
  ghost function LevelRow(r: Row, level: int): seq<Row> {
    if r.resident || r.refCount > level then [r]
    else if r.refCount <= 1 then []
    else [r.(refCount := r.refCount - 1)]
  }

  ghost function LevelRows(rows: seq<Row>, level: int): seq<Row> {
    if rows == [] then [] else LevelRow(rows[0], level) + LevelRows(rows[1..], level)
  }

  /** The handles that one level closes. */
  ghost function LevelClosed(rows: seq<Row>, level: int): seq<Handle> {
    if rows == [] then []
    else (if LevelRow(rows[0], level) == [] then [rows[0].handle] else []) + LevelClosed(rows[1..], level)
  }

  ghost predicate AllResident(rows: seq<Row>) {
    forall i | 0 <= i < |rows| :: rows[i].resident
  }

  ghost function Total(rows: seq<Row>): nat {
    if rows == [] then 0
    else (if rows[0].resident || rows[0].refCount <= 0 then 0 else rows[0].refCount) + Total(rows[1..])
  }

  ghost function Largest(rows: seq<Row>): nat {
    if rows == [] then 0
    else
      var m := Largest(rows[1..]);
      if rows[0].resident || rows[0].refCount <= m then m else rows[0].refCount
  }

  /** References left and levels to go until the largest count is reached. */
  ghost function Measure(rows: seq<Row>, level: int): nat {
    Total(rows) + (if level < Largest(rows) then Largest(rows) - level else 0)
  }

  ghost predicate Positive(rows: seq<Row>) {
    forall i | 0 <= i < |rows| :: !rows[i].resident ==> rows[i].refCount >= 1
  }

  lemma {:induction false} LevelShrinks(rows: seq<Row>, level: int)
    requires Positive(rows)
    ensures Positive(LevelRows(rows, level))
    ensures Total(LevelRows(rows, level)) <= Total(rows)
    ensures Largest(LevelRows(rows, level)) <= Largest(rows)
    ensures !AllResident(rows) && Total(LevelRows(rows, level)) == Total(rows) ==> level < Largest(rows)
  {
    if rows != [] {
      var r, t := rows[0], rows[1..];
      LevelShrinks(t, level);
      var u := LevelRows(t, level);
      var s := LevelRow(r, level) + u;
      assert LevelRow(r, level) == [] ==> s == u;
      assert LevelRow(r, level) != [] ==> s[1..] == u;
      assert AllResident(t) && r.resident ==> AllResident(rows) by {
        assert forall i | 0 < i < |rows| :: rows[i] == t[i - 1];
      }
    }
  }

  /** The loop of lt_dlexit terminates whatever the starting counts. */
  lemma LevelDecreases(rows: seq<Row>, level: int)
    requires Positive(rows) && !AllResident(rows)
    ensures Measure(LevelRows(rows, level), level + 1) < Measure(rows, level)
  {
    LevelShrinks(rows, level);
  }

  /** The rows left by the shutdown loop from a level on. */
  ghost function ShutdownRows(rows: seq<Row>, level: int): seq<Row>
    requires Positive(rows)
    decreases Measure(rows, level)
  {
    if AllResident(rows) then rows
    else
      LevelShrinks(rows, level);
      LevelDecreases(rows, level);
      ShutdownRows(LevelRows(rows, level), level + 1)
  }

  /** The handles that the shutdown loop closes from a level on, in order. */
  ghost function ShutdownClosed(rows: seq<Row>, level: int): seq<Handle>
    requires Positive(rows)
    decreases Measure(rows, level)
  {
    if AllResident(rows) then []
    else
      LevelShrinks(rows, level);
      LevelDecreases(rows, level);
      LevelClosed(rows, level) + ShutdownClosed(LevelRows(rows, level), level + 1)
  }

  // ---------------------------------------------------------------------------------------
  // The schedule of the shutdown in closed form
  // ---------------------------------------------------------------------------------------

  /** The handles with a given count, in list order. */
  ghost function WithCount(rows: seq<Row>, c: int): seq<Handle> {
    if rows == [] then []
    else (if !rows[0].resident && rows[0].refCount == c then [rows[0].handle] else []) + WithCount(rows[1..], c)
  }

  /** Smaller starting counts first, ties in list order. */
  ghost function ByCount(rows: seq<Row>, lo: nat, hi: nat): seq<Handle>
    decreases hi - lo
  {
    if lo >= hi then [] else WithCount(rows, lo) + ByCount(rows, lo + 1, hi)
  }

  ghost function Residents(rows: seq<Row>): seq<Row> {
    if rows == [] then [] else (if rows[0].resident then [rows[0]] else []) + Residents(rows[1..])
  }

  ghost function NonResidents(rows: seq<Row>): seq<Handle> {
    if rows == [] then [] else (if rows[0].resident then [] else [rows[0].handle]) + NonResidents(rows[1..])
  }

  /** How many of the closed modules reported a failure. */
  ghost function Failures(hs: seq<Handle>, status: Handle -> int): nat {
    if hs == [] then 0 else (if status(hs[0]) != 0 then 1 else 0) + Failures(hs[1..], status)
  }

  ghost function Failed(hs: seq<Handle>, status: Handle -> int): set<nat> {
    set i: nat | i < |hs| && status(hs[i]) != 0
  }

  lemma FailedSnoc(hs: seq<Handle>, h: Handle, status: Handle -> int)
    ensures Failed(hs + [h], status) == Failed(hs, status) + if status(h) != 0 then {|hs|} else {}
  {
  }

  /** They are counted one by one. */
  lemma {:induction false} FailuresExactly(hs: seq<Handle>, status: Handle -> int)
    ensures Failures(hs, status) == |set i: nat | i < |hs| && status(hs[i]) != 0|
  {
    assert Failed(hs, status) == set i: nat | i < |hs| && status(hs[i]) != 0;
    if hs != [] {
      var n := |hs| - 1;
      FailuresExactly(hs[..n], status);
      FailuresConcat(hs[..n], [hs[n]], status);
      FailedSnoc(hs[..n], hs[n], status);
      assert hs == hs[..n] + [hs[n]] && [hs[n]][1..] == [];
    }
  }

  lemma {:induction false} FailuresConcat(a: seq<Handle>, b: seq<Handle>, status: Handle -> int)
    ensures Failures(a + b, status) == Failures(a, status) + Failures(b, status)
  {
    if a == [] {
      assert a + b == b;
    } else {
      assert (a + b)[1..] == a[1..] + b;
      FailuresConcat(a[1..], b, status);
    }
  }

  /** A count that starts at c stays until level c and then falls by one a level. */
  ghost function CountAt(c: int, level: int): int {
    if level <= c then c else 2 * c - level
  }

  ghost function RowAt(r: Row, level: int): seq<Row> {
    if r.resident then [r]
    else if level < 2 * r.refCount then [r.(refCount := CountAt(r.refCount, level))]
    else []
  }

  /** The table when a level begins, in terms of the table when the loop begins. */
  ghost function RowsAt(rows: seq<Row>, level: int): seq<Row> {
    if rows == [] then [] else RowAt(rows[0], level) + RowsAt(rows[1..], level)
  }

  lemma {:induction false} LevelRowsConcat(a: seq<Row>, b: seq<Row>, level: int)
    ensures LevelRows(a + b, level) == LevelRows(a, level) + LevelRows(b, level)
    ensures LevelClosed(a + b, level) == LevelClosed(a, level) + LevelClosed(b, level)
  {
    if a == [] {
      assert a + b == b;
    } else {
      var t := a[1..];
      assert (a + b)[1..] == t + b;
      LevelRowsConcat(t, b, level);
      var h := LevelRow(a[0], level);
      var c := if h == [] then [a[0].handle] else [];
      assert h + (LevelRows(t, level) + LevelRows(b, level)) == (h + LevelRows(t, level)) + LevelRows(b, level);
      assert c + (LevelClosed(t, level) + LevelClosed(b, level)) == (c + LevelClosed(t, level)) + LevelClosed(b, level);
    }
  }

  lemma LevelOfRowAt(r: Row, level: nat)
    requires !r.resident ==> r.refCount >= 1
    requires level >= 1
    ensures LevelRows(RowAt(r, level), level) == RowAt(r, level + 1)
    ensures LevelClosed(RowAt(r, level), level) == if !r.resident && level == 2 * r.refCount - 1 then [r.handle] else []
  {
    var s := RowAt(r, level);
    assert s != [] ==> s[1..] == [] && LevelRows(s, level) == LevelRow(s[0], level) + [];
  }

  /** At level k the loop closes exactly the handles that started with (k + 1) / 2 references. */
  lemma {:induction false} LevelOfRowsAt(rows: seq<Row>, level: nat)
    requires Positive(rows) && level >= 1
    ensures LevelRows(RowsAt(rows, level), level) == RowsAt(rows, level + 1)
    ensures LevelClosed(RowsAt(rows, level), level) ==
            if level % 2 == 1 then WithCount(rows, (level + 1) / 2) else []
  {
    if rows != [] {
      var r, t := rows[0], rows[1..];
      LevelOfRowsAt(t, level);
      LevelRowsConcat(RowAt(r, level), RowsAt(t, level), level);
      LevelOfRowAt(r, level);
      assert level == 2 * r.refCount - 1 <==> level % 2 == 1 && r.refCount == (level + 1) / 2;
    }
  }

  lemma {:induction false} RowsAtStart(rows: seq<Row>)
    requires Positive(rows)
    ensures RowsAt(rows, 1) == rows
  {
    if rows != [] {
      RowsAtStart(rows[1..]);
      assert rows == [rows[0]] + rows[1..];
    }
  }

  lemma {:induction false} RowsAtEnd(rows: seq<Row>, level: nat)
    requires Positive(rows)
    ensures AllResident(RowsAt(rows, level)) <==> level >= 2 * Largest(rows)
    ensures AllResident(RowsAt(rows, level)) ==> RowsAt(rows, level) == Residents(rows)
    ensures Positive(RowsAt(rows, level))
  {
    if rows != [] {
      RowsAtEnd(rows[1..], level);
      ResidentConcat(RowAt(rows[0], level), RowsAt(rows[1..], level));
    }
  }

  lemma ResidentConcat(a: seq<Row>, b: seq<Row>)
    ensures AllResident(a + b) <==> AllResident(a) && AllResident(b)
    ensures Positive(a + b) <==> Positive(a) && Positive(b)
  {
    var s := a + b;
    assert forall i | 0 <= i < |a| :: s[i] == a[i];
    assert forall i | 0 <= i < |b| :: s[|a| + i] == b[i];
    assert forall i | |a| <= i < |s| :: s[i] == b[i - |a|];
  }

  lemma ShutdownStep(rows: seq<Row>, level: nat)
    requires Positive(rows) && !AllResident(rows)
    ensures Positive(LevelRows(rows, level))
    ensures ShutdownRows(rows, level) == ShutdownRows(LevelRows(rows, level), level + 1)
    ensures ShutdownClosed(rows, level) == LevelClosed(rows, level) + ShutdownClosed(LevelRows(rows, level), level + 1)
  {
    LevelShrinks(rows, level);
  }

  lemma ScheduleStep(rows: seq<Row>, level: nat)
    requires 1 <= level < 2 * Largest(rows)
    ensures ByCount(rows, level / 2 + 1, Largest(rows) + 1) ==
            (if level % 2 == 1 then WithCount(rows, (level + 1) / 2) else []) +
            ByCount(rows, (level + 1) / 2 + 1, Largest(rows) + 1)
  {
    if level % 2 == 1 {
      assert level / 2 + 1 == (level + 1) / 2;
    } else {
      assert level / 2 == (level + 1) / 2;
    }
  }

  lemma ShutdownEnd(rows: seq<Row>, level: nat)
    requires Positive(rows) && level >= 2 * Largest(rows) && Positive(RowsAt(rows, level))
    ensures ShutdownRows(RowsAt(rows, level), level) == Residents(rows)
    ensures ShutdownClosed(RowsAt(rows, level), level) == ByCount(rows, level / 2 + 1, Largest(rows) + 1)
  {
    RowsAtEnd(rows, level);
  }

  lemma ShutdownNext(rows: seq<Row>, level: nat)
    requires Positive(rows) && 1 <= level < 2 * Largest(rows)
    ensures var s, t := RowsAt(rows, level), RowsAt(rows, level + 1);
            && Positive(s) && Positive(t)
            && ShutdownRows(s, level) == ShutdownRows(t, level + 1)
            && ShutdownClosed(s, level) ==
               (if level % 2 == 1 then WithCount(rows, (level + 1) / 2) else []) + ShutdownClosed(t, level + 1)
  {
    RowsAtEnd(rows, level);
    LevelOfRowsAt(rows, level);
    ShutdownStep(RowsAt(rows, level), level);
  }

  /** From this level on, the loop closes by increasing starting count what it has not closed yet. */
  ghost predicate FromLevel(rows: seq<Row>, level: nat)
    requires level >= 1
  {
    var s := RowsAt(rows, level);
    && Positive(s) && ShutdownRows(s, level) == Residents(rows)
    && ShutdownClosed(s, level) == ByCount(rows, level / 2 + 1, Largest(rows) + 1)
  }

  lemma FromNext(rows: seq<Row>, level: nat)
    requires Positive(rows) && 1 <= level < 2 * Largest(rows) && FromLevel(rows, level + 1)
    ensures FromLevel(rows, level)
  {
    ShutdownNext(rows, level);
    ScheduleStep(rows, level);
  }

  lemma {:induction false} ShutdownFrom(rows: seq<Row>, level: nat)
    requires Positive(rows) && level >= 1 && Positive(RowsAt(rows, level))
    ensures FromLevel(rows, level)
    decreases 2 * Largest(rows) - level
  {
    if level < 2 * Largest(rows) {
      ShutdownNext(rows, level);
      ShutdownFrom(rows, level + 1);
      FromNext(rows, level);
    } else {
      ShutdownEnd(rows, level);
    }
  }

  /**
   The last lt_dlexit closes every module that is not resident, in the order of its reference
   count, list order among equals, and leaves exactly the resident ones.
   */
  lemma ShutdownSchedule(rows: seq<Row>)
    requires Positive(rows)
    ensures ShutdownRows(rows, 1) == Residents(rows)
    ensures ShutdownClosed(rows, 1) == ByCount(rows, 1, Largest(rows) + 1)
  {
    ScheduleFrom(rows, 1, 1, Largest(rows) + 1);
  }

  /** Each of them is closed exactly once. */
  lemma ShutdownClosesEachOnce(rows: seq<Row>)
    requires Positive(rows)
    ensures multiset(ShutdownClosed(rows, 1)) == multiset(NonResidents(rows))
  {
    ClosesEachOnce(rows, 1, 1, Largest(rows) + 1);
  }

  lemma ClosesEachOnce(rows: seq<Row>, first: nat, lo: nat, hi: nat)
    requires Positive(rows) && first == 1 && lo == first / 2 + 1 && hi == Largest(rows) + 1
    ensures multiset(ShutdownClosed(rows, first)) == multiset(NonResidents(rows))
  {
    ScheduleFrom(rows, first, lo, hi);
    ByCountAll(rows, lo, hi);
  }

  lemma ScheduleFrom(rows: seq<Row>, first: nat, lo: nat, hi: nat)
    requires Positive(rows) && first == 1 && lo == first / 2 + 1 && hi == Largest(rows) + 1
    ensures ShutdownRows(rows, first) == Residents(rows)
    ensures ShutdownClosed(rows, first) == ByCount(rows, lo, hi)
  {
    RowsAtStart(rows);
    ShutdownAll(rows, first, RowsAt(rows, first));
  }

  lemma ShutdownAll(rows: seq<Row>, level: nat, s: seq<Row>)
    requires Positive(rows) && level >= 1 && s == RowsAt(rows, level) && Positive(s)
    ensures ShutdownRows(s, level) == Residents(rows)
    ensures ShutdownClosed(s, level) == ByCount(rows, level / 2 + 1, Largest(rows) + 1)
  {
    ShutdownFrom(rows, level);
  }

  lemma ByCountAll(rows: seq<Row>, lo: nat, hi: nat)
    requires Positive(rows) && lo <= 1 && Largest(rows) < hi
    ensures multiset(ByCount(rows, lo, hi)) == multiset(NonResidents(rows))
  {
    ByCountComplete(rows, lo, hi);
    BandAll(rows, lo, hi);
  }

  ghost function Band(rows: seq<Row>, lo: int, hi: int): seq<Handle> {
    if rows == [] then []
    else (if !rows[0].resident && lo <= rows[0].refCount < hi then [rows[0].handle] else []) + Band(rows[1..], lo, hi)
  }

  lemma {:induction false} BandSplit(rows: seq<Row>, lo: int, hi: int)
    requires lo < hi
    ensures multiset(Band(rows, lo, hi)) == multiset(WithCount(rows, lo)) + multiset(Band(rows, lo + 1, hi))
  {
    if rows != [] {
      BandSplit(rows[1..], lo, hi);
    }
  }

  lemma {:induction false} BandEmpty(rows: seq<Row>, lo: int, hi: int)
    requires lo >= hi
    ensures Band(rows, lo, hi) == []
  {
    if rows != [] {
      BandEmpty(rows[1..], lo, hi);
    }
  }

  lemma {:induction false} ByCountComplete(rows: seq<Row>, lo: nat, hi: nat)
    ensures multiset(ByCount(rows, lo, hi)) == multiset(Band(rows, lo, hi))
    decreases hi - lo
  {
    if lo < hi {
      ByCountComplete(rows, lo + 1, hi);
      BandSplit(rows, lo, hi);
    } else {
      BandEmpty(rows, lo, hi);
    }
  }

  lemma {:induction false} BandAll(rows: seq<Row>, lo: int, hi: int)
    requires Positive(rows) && lo <= 1 && Largest(rows) < hi
    ensures Band(rows, lo, hi) == NonResidents(rows)
  {
    if rows != [] {
      BandAll(rows[1..], lo, hi);
    }
  }

  // ---------------------------------------------------------------------------------------
  // The library state
  // ---------------------------------------------------------------------------------------

  ghost function HandleAt(s: seq<Handle>, i: nat): Handle? {
    if i < |s| then s[i] else null
  }

  ghost predicate HandleChain(head: Handle?, s: seq<Handle>)
    reads s
  {
    && Distinct(s)
    && head == HandleAt(s, 0)
    && forall i {:trigger s[i].next} | 0 <= i < |s| :: s[i].next == HandleAt(s, i + 1)
  }

  /** The chain after node m has been unlinked. */
  lemma HandleUnlinked(head: Handle?, s: seq<Handle>, m: nat)
    requires m < |s| && Distinct(s)
    requires head == if m == 0 then HandleAt(s, 1) else s[0]
    requires m > 0 ==> s[m - 1].next == HandleAt(s, m + 1)
    requires forall i {:trigger s[i].next} | 0 <= i < |s| && i != m && i != m - 1 :: s[i].next == HandleAt(s, i + 1)
    ensures HandleChain(head, RemoveAt(s, m))
  {
    var t := RemoveAt(s, m);
    forall i {:trigger t[i].next} | 0 <= i < |t|
      ensures t[i].next == HandleAt(t, i + 1)
    {
      var j := if i < m then i else i + 1;
      assert t[i] == s[j];
      assert j != m && j != m - 1 ==> s[j].next == HandleAt(s, j + 1);
    }
  }

  ghost function RowsOf(hs: seq<Handle>): (rows: seq<Row>)
    reads hs
    ensures |rows| == |hs|
    ensures forall i | 0 <= i < |hs| :: rows[i] == Row(hs[i], hs[i].refCount, hs[i].resident)
  {
    seq(|hs|, i requires 0 <= i < |hs| reads hs => Row(hs[i], hs[i].refCount, hs[i].resident))
  }

  ghost predicate NoNull(ls: seq<Loader>) {
    forall i | 0 <= i < |ls| :: ls[i].userdata != null
  }

  class Ltdl {
    var handles: Handle?
    var loaders: SList?<Vtable?>
    var initialized: nat
    var closed: seq<Handle>
    ghost var hs: seq<Handle>
    ghost var ls: seq<Loader>

    /** Both lists are acyclic and end in null. */
    ghost predicate Valid()
      reads this, hs, ls
    {
      HandleChain(handles, hs) && Chain(loaders, ls) && NoNull(ls)
    }

    ghost function Rows(): (rows: seq<Row>)
      reads this`hs, hs
      ensures |rows| == |hs|
      ensures forall i | 0 <= i < |hs| :: rows[i] == Row(hs[i], hs[i].refCount, hs[i].resident)
    {
      RowsOf(hs)
    }

    constructor ()
      ensures Valid() && hs == [] && ls == [] && closed == [] && initialized == 0
    {
      handles, loaders, initialized, closed := null, null, 0, [];
      hs, ls := [], [];
    }

    /** The first loop of tryall_dlopen. */
    method FindHandle(filename: Option<string>) returns (handle: Handle?)
      requires Valid()
      ensures handle == HandleAt(hs, FirstMatch(Rows(), Named(filename)))
    {
      handle := handles;
      ghost var k := 0;
      while handle != null
        invariant k <= |hs| && handle == HandleAt(hs, k)
        invariant forall i | 0 <= i < k :: !Named(filename)(Rows()[i])
        decreases |hs| - k
      {
        if handle.filename == filename {
          FirstMatchIs(Rows(), Named(filename), k);
          return;
        }
        assert hs[k].next == HandleAt(hs, k + 1);
        handle := handle.next;
        k := k + 1;
      }
      FirstMatchIs(Rows(), Named(filename), k);
    }

    /** The loader loop of tryall_dlopen: the given vtable, or every loader in turn. */
    method TryLoaders(vtable: Vtable?, opens: Vtable -> bool) returns (v: Vtable?, crashes: bool)
      requires Valid()
      ensures v == Serving(ls, vtable, opens)
      ensures vtable != null ==> v == if opens(vtable) then vtable else null
      ensures vtable == null && v != null ==>
                exists j :: 0 <= j < |ls| && ls[j].userdata == v && opens(v) &&
                            forall i | 0 <= i < j :: !opens(ls[i].userdata)
      ensures vtable == null && v == null ==> forall j | 0 <= j < |ls| :: !opens(ls[j].userdata)
      ensures crashes <==> vtable == null && ls == []
    {
      crashes := false;
      ServingExactly(ls, vtable, opens);
      if vtable != null {
        v := if opens(vtable) then vtable else null;
        return;
      }
      var loader := loaders;
      if loader == null {
        FirstMatchIs(ls, Opening(opens), 0);
        return null, true;
      }
      ghost var k := 0;
      while loader != null
        invariant k <= |ls| && loader == At(ls, k)
        invariant forall i | 0 <= i < k :: !Opening(opens)(ls[i])
        decreases |ls| - k
      {
        if opens(loader.userdata) {
          FirstMatchIs(ls, Opening(opens), k);
          return loader.userdata, false;
        }
        assert ls[k].next == At(ls, k + 1);
        loader := loader.next;
        k := k + 1;
      }
      FirstMatchIs(ls, Opening(opens), k);
      v := null;
    }

    /**
     tryall_dlopen and the registration at the end of try_dlopen.  A file that is open already only
     gains a reference; advise overrides the residency that opening the program itself starts with.
     crashes says that an empty loader list was asked: the code then follows a null pointer.
     */
    method Open(filename: Option<string>, advise: Option<bool>, vtable: Vtable?, opens: Vtable -> bool)
        returns (handle: Handle?, crashes: bool)
      requires Valid()
      modifies this`handles, this`hs, hs
      ensures Valid()
      ensures crashes <==> FirstMatch(old(Rows()), Named(filename)) == |old(Rows())| && vtable == null && ls == []
      ensures var rows, k := old(Rows()), FirstMatch(old(Rows()), Named(filename));
              var v := Serving(ls, vtable, opens);
              if k < |rows| then handle == rows[k].handle && Rows() == Referenced(rows, k)
              else if v == null then handle == null && Rows() == rows
              else
                && handle != null && fresh(handle)
                && handle.filename == filename && handle.vtable == v
                && Rows() == [Row(handle, 1, if advise.Some? then advise.value else filename.None?)] + rows
      ensures FirstMatch(old(Rows()), Named(filename)) == |old(Rows())| ==>
                && (vtable != null ==> (handle != null <==> opens(vtable)))
                && (vtable != null && handle != null ==> handle.vtable == vtable)
                && (vtable == null && handle == null ==> forall j | 0 <= j < |ls| :: !opens(ls[j].userdata))
                && (vtable == null && handle != null ==>
                      exists j :: 0 <= j < |ls| && ls[j].userdata == handle.vtable && opens(handle.vtable) &&
                                  forall i | 0 <= i < j :: !opens(ls[i].userdata))
    {
      crashes := false;
      handle := FindHandle(filename);
      if handle != null {
        AddReference(handle, FirstMatch(Rows(), Named(filename)));
        return;
      }
      var v;
      v, crashes := TryLoaders(vtable, opens);
      if v != null {
        handle := Register(filename, v, if advise.Some? then advise.value else filename.None?);
      }
    }

    method AddReference(handle: Handle, ghost k: nat)
      requires Valid() && k < |hs| && handle == hs[k]
      modifies handle`refCount
      ensures Valid() && Rows() == Referenced(old(Rows()), k)
    {
      handle.refCount := handle.refCount + 1;
    }

    method Register(filename: Option<string>, v: Vtable, resident: bool) returns (handle: Handle)
      requires Valid()
      modifies this`handles, this`hs
      ensures Valid() && fresh(handle) && handle.filename == filename && handle.vtable == v
      ensures Rows() == [Row(handle, 1, resident)] + old(Rows())
    {
      handle := new Handle(filename, v, resident);
      handle.refCount := 1;
      handle.next := handles;
      handles := handle;
      ghost var s := hs;
      hs := [handle] + hs;
      forall i {:trigger hs[i].next} | 0 <= i < |hs|
        ensures hs[i].next == HandleAt(hs, i + 1)
      {
        if i > 0 { assert hs[i] == s[i - 1]; assert s[i - 1].next == HandleAt(s, i); }
      }
    }

    /** lt_dlmakeresident. */
    method MakeResident(handle: Handle?) returns (errors: int)
      requires Valid() && (handle != null ==> handle in hs)
      modifies if handle == null then {} else {handle}
      ensures Valid()
      ensures errors == if handle == null then 1 else 0
      ensures Rows() == if handle == null then old(Rows()) else ResidentRows(old(Rows()), handle)
      ensures hs == old(hs) && forall i | 0 <= i < |hs| ::
                hs[i].refCount == old(hs[i].refCount) && (hs[i].resident <==> hs[i] == handle || old(hs[i].resident))
    {
      if handle == null {
        return 1;
      }
      handle.resident := true;
      errors := 0;
    }

    /** The validity check of lt_dlclose: the node and its predecessor. */
    method Locate(handle: Handle) returns (cur: Handle?, last: Handle?, ghost k: nat)
      requires Valid()
      ensures k == FirstMatch(Rows(), Holds(handle))
      ensures cur == HandleAt(hs, k) && (cur != null ==> cur == handle)
      ensures cur != null ==> last == hs[if k == 0 then 0 else k - 1]
    {
      cur, last := handles, handles;
      k := 0;
      while cur != null && cur != handle
        invariant k <= |hs| && cur == HandleAt(hs, k)
        invariant last == HandleAt(hs, if k == 0 then 0 else k - 1)
        invariant forall i | 0 <= i < k :: hs[i] != handle
        decreases |hs| - k
      {
        assert hs[k].next == HandleAt(hs, k + 1);
        last := cur;
        cur := cur.next;
        k := k + 1;
      }
      FirstMatchIs(Rows(), Holds(handle), k);
    }

    /** lt_dlclose; status is what module_close would return. */
    method Close(handle: Handle, status: int) returns (errors: int)
      requires Valid()
      modifies this`handles, this`hs, this`closed, hs
      ensures Valid()
      ensures Rows() == ClosedRows(old(Rows()), handle)
      ensures closed == old(closed) + if Dropped(old(Rows()), handle) then [handle] else []
      ensures errors == if Dropped(old(Rows()), handle) then status
                        else if handle !in old(hs) || old(handle.resident) then 1 else 0
    {
      var cur, last, k := Locate(handle);
      if cur == null {
        CloseAbsent(Rows(), handle, hs);
        assert closed + [] == closed;
        return 1;
      }
      assert hs[k] in hs;
      errors := Release(handle, last, k, status);
    }

    /** The part of lt_dlclose for a handle found in the table. */
    method Release(handle: Handle, last: Handle?, ghost k: nat, status: int) returns (errors: int)
      requires Valid() && k < |hs| && handle == hs[k]
      requires last == hs[if k == 0 then 0 else k - 1]
      modifies this`handles, this`hs, this`closed, handle`refCount, last`next
      ensures Valid()
      ensures var r := old(Rows())[k];
              if r.refCount <= 1 && !r.resident then
                Rows() == RemoveAt(old(Rows()), k) && closed == old(closed) + [handle] && errors == status
              else
                && Rows() == old(Rows())[k := r.(refCount := r.refCount - 1)]
                && closed == old(closed) + [] && errors == if r.resident then 1 else 0
    {
      handle.refCount := handle.refCount - 1;
      if handle.refCount <= 0 && !handle.resident {
        ghost var rows := Rows();
        assert rows == old(Rows())[k := rows[k]];
        Drop(handle, last, k);
        assert RemoveAt(rows, k) == RemoveAt(old(Rows()), k);
        closed := closed + [handle];
        return status;
      }
      return if handle.resident then 1 else 0;
    }

    method Drop(cur: Handle, last: Handle?, ghost k: nat)
      requires Valid() && k < |hs| && cur == hs[k]
      requires last == hs[if k == 0 then 0 else k - 1]
      modifies this`handles, this`hs, last`next
      ensures Valid() && Rows() == RemoveAt(old(Rows()), k)
    {
      Unlink(cur, last, k);
    }

    method Unlink(cur: Handle, last: Handle?, ghost k: nat)
      requires Valid() && k < |hs| && cur == hs[k]
      requires last == hs[if k == 0 then 0 else k - 1]
      modifies this`handles, this`hs, last`next
      ensures Valid() && hs == RemoveAt(old(hs), k)
    {
      assert hs[k].next == HandleAt(hs, k + 1);
      if cur != handles {
        last.next := cur.next;
      } else {
        handles := cur.next;
      }
      forall i {:trigger hs[i].next} | 0 <= i < |hs| && i != k && i != k - 1
        ensures hs[i].next == HandleAt(hs, i + 1)
      {
        assert old(hs[i].next) == HandleAt(hs, i + 1);
        assert k > 0 ==> hs[i] != hs[k - 1];
      }
      HandleUnlinked(handles, hs, k);
      hs := RemoveAt(hs, k);
    }

    /** Whether a node is still in the list, as the shutdown loop checks after each close. */
    method Listed(node: Handle) returns (found: bool)
      requires Valid()
      ensures found <==> node in hs
    {
      var tmp := handles;
      ghost var k := 0;
      while tmp != null
        invariant k <= |hs| && tmp == HandleAt(hs, k)
        invariant forall i | 0 <= i < k :: hs[i] != node
        decreases |hs| - k
      {
        if tmp == node {
          return true;
        }
        assert hs[k].next == HandleAt(hs, k + 1);
        tmp := tmp.next;
        k := k + 1;
      }
      found := false;
    }

    /** What a level does with one handle. */
    method LevelNode(tmp: Handle, level: int, status: Handle -> int, ghost k: nat)
        returns (nonresident: bool, failed: int)
      requires Valid() && k < |hs| && hs[k] == tmp && level >= 1
      modifies this`handles, this`hs, this`closed, hs
      ensures Valid()
      ensures Rows() == LevelAt(old(Rows()), k, level)
      ensures closed == old(closed) + LevelDrops(old(Rows())[k], level)
      ensures nonresident == !old(Rows())[k].resident
      ensures failed == Failures(LevelDrops(old(Rows())[k], level), status)
    {
      LevelNodeRows(Rows(), k, level);
      nonresident, failed := !tmp.resident, 0;
      if nonresident && tmp.refCount <= level {
        var errors := Close(tmp, status(tmp));
        failed := if errors != 0 then 1 else 0;
      } else {
        assert closed + [] == closed;
      }
    }

    /** A level that began with the given rows has dealt with the first i of them. */
    ghost predicate Underway(rows: seq<Row>, i: nat, level: int, before: seq<Handle>, all: set<Handle>)
      requires i <= |rows|
      reads this, hs, ls
    {
      && Valid() && HandlesIn(Rows(), all)
      && Rows() == LevelTo(rows, i, level)
      && closed == before + ClosedTo(rows, i, level)
    }

    lemma LevelStarted(all: set<Handle>)
      requires Valid() && HandlesIn(Rows(), all)
      ensures handles == if Rows() == [] then null else Rows()[0].handle
      ensures forall level :: Underway(Rows(), 0, level, closed, all)
    {
      assert hs != [] ==> Rows()[0].handle == hs[0];
      forall level ensures Underway(Rows(), 0, level, closed, all) {
        LevelBegin(Rows(), level);
        assert closed + [] == closed;
      }
    }

    lemma LevelFinished(rows: seq<Row>, level: int, before: seq<Handle>, all: set<Handle>)
      requires Underway(rows, |rows|, level, before, all)
      ensures Valid() && HandlesIn(Rows(), all)
      ensures Rows() == LevelRows(rows, level) && closed == before + LevelClosed(rows, level)
    {
      LevelEnd(rows, level);
    }

    /** The body of the loop over the list: the node is dealt with and the next one found. */
    method LevelStep(tmp: Handle, level: int, status: Handle -> int,
                     ghost rows: seq<Row>, ghost i: nat, ghost before: seq<Handle>, ghost all: set<Handle>)
        returns (cur: Handle?, nonresident: bool, failed: int)
      requires level >= 1 && i < |rows| && tmp == rows[i].handle
      requires Underway(rows, i, level, before, all)
      modifies this`handles, this`hs, this`closed, all
      ensures Underway(rows, i + 1, level, before, all)
      ensures cur == if i + 1 < |rows| then rows[i + 1].handle else null
      ensures nonresident == !rows[i].resident
      ensures failed == Failures(LevelDrops(rows[i], level), status)
    {
      cur := Following(tmp, level, rows, i);
      nonresident, failed := LevelVisit(tmp, level, status, rows, i, all);
      ClosedStep(before, rows, i, level);
      cur := StillThere(cur, level, rows, i + 1);
    }

    method LevelVisit(tmp: Handle, level: int, status: Handle -> int,
                      ghost rows: seq<Row>, ghost i: nat, ghost all: set<Handle>)
        returns (nonresident: bool, failed: int)
      requires Valid() && level >= 1 && HandlesIn(Rows(), all)
      requires i < |rows| && tmp == rows[i].handle && Rows() == LevelTo(rows, i, level)
      modifies this`handles, this`hs, this`closed, all
      ensures Valid() && HandlesIn(Rows(), all)
      ensures Rows() == LevelTo(rows, i + 1, level)
      ensures closed == old(closed) + LevelDrops(rows[i], level)
      ensures nonresident == !rows[i].resident
      ensures failed == Failures(LevelDrops(rows[i], level), status)
    {
      LevelAdvance(rows, i, level);
      LevelNext(rows, i, level);
      ghost var k := |DoneTo(rows, i, level)|;
      assert Rows()[k].handle == hs[k];
      LevelAtIn(Rows(), k, level, all);
      HandlesOf(hs, Rows(), all);
      nonresident, failed := LevelNode(tmp, level, status, k);
    }

    method Following(tmp: Handle, level: int, ghost rows: seq<Row>, ghost i: nat) returns (cur: Handle?)
      requires Valid() && i < |rows| && tmp == rows[i].handle && Rows() == LevelTo(rows, i, level)
      ensures cur == if i + 1 < |rows| then rows[i + 1].handle else null
    {
      ghost var k := |DoneTo(rows, i, level)|;
      LevelNext(rows, i, level);
      assert Rows()[k].handle == hs[k] && hs[k].next == HandleAt(hs, k + 1);
      cur := tmp.next;
      assert i + 1 < |rows| ==> Rows()[k + 1].handle == hs[k + 1];
    }

    /** The check that cur still exists; without dependent libraries it always does. */
    method StillThere(cur: Handle?, level: int, ghost rows: seq<Row>, ghost i: nat) returns (cur': Handle?)
      requires Valid() && i <= |rows| && Rows() == LevelTo(rows, i, level)
      requires cur == if i < |rows| then rows[i].handle else null
      ensures cur' == cur
    {
      cur' := cur;
      if cur != null {
        LevelNext(rows, i, level);
        assert Rows()[|DoneTo(rows, i, level)|].handle in hs;
        var found := Listed(cur);
        if !found {
          cur' := handles;
        }
      }
    }

    /** One level of the shutdown loop. */
    method Level(level: int, status: Handle -> int, ghost all: set<Handle>) returns (nonresident: bool, errors: int)
      requires Valid() && level >= 1 && HandlesIn(Rows(), all)
      modifies this`handles, this`hs, this`closed, all
      ensures Valid() && HandlesIn(Rows(), all)
      ensures Rows() == LevelRows(old(Rows()), level)
      ensures closed == old(closed) + LevelClosed(old(Rows()), level)
      ensures nonresident <==> !AllResident(old(Rows()))
      ensures errors == Failures(LevelClosed(old(Rows()), level), status)
    {
      ghost var rows, before := Rows(), closed;
      LevelStarted(all);
      nonresident, errors := LevelLoop(level, status, rows, before, all);
      LevelFinished(rows, level, before, all);
    }

    method LevelLoop(level: int, status: Handle -> int,
                     ghost rows: seq<Row>, ghost before: seq<Handle>, ghost all: set<Handle>)
        returns (nonresident: bool, errors: int)
      requires level >= 1 && Underway(rows, 0, level, before, all)
      requires handles == if rows == [] then null else rows[0].handle
      modifies this`handles, this`hs, this`closed, all
      ensures Underway(rows, |rows|, level, before, all)
      ensures nonresident <==> !AllResident(rows)
      ensures errors == Failures(LevelClosed(rows, level), status)
    {
      nonresident, errors := false, 0;
      var cur := handles;
      ghost var i := 0;
      while cur != null
        invariant i <= |rows| && Underway(rows, i, level, before, all)
        invariant cur == if i < |rows| then rows[i].handle else null
        invariant LevelTallied(rows, i, level, status, nonresident, errors)
        decreases |rows| - i
      {
        var n, failed;
        LevelTally(rows, i, level, status);
        cur, n, failed := LevelStep(cur, level, status, rows, i, before, all);
        nonresident, errors := nonresident || n, errors + failed;
        i := i + 1;
      }
      LevelEnd(rows, level);
    }

    /** The first loop of the shutdown: resident handles in front leave the list. */
    method SkipResidents()
      requires Valid()
      modifies this`handles, this`hs
      ensures Valid() && Rows() == DropLead(old(Rows()))
    {
      ghost var rows := Rows();
      while handles != null && handles.resident
        invariant Valid() && DropLead(Rows()) == DropLead(rows)
        decreases |hs|
      {
        ghost var before := Rows();
        assert before[0].handle == handles && before[0].resident;
        HandleTail(handles, hs);
        handles := handles.next;
        hs := hs[1..];
        assert Rows() == before[1..];
      }
      assert hs != [] ==> Rows()[0].handle == handles;
    }

    /** The loop over the levels. */
    method CloseModules(status: Handle -> int, ghost all: set<Handle>) returns (errors: int)
      requires Valid() && Positive(Rows()) && HandlesIn(Rows(), all)
      modifies this`handles, this`hs, this`closed, all
      ensures Valid() && Rows() == Residents(old(Rows()))
      ensures closed == old(closed) + Schedule(old(Rows()))
      ensures errors == Failures(Schedule(old(Rows())), status)
    {
      ghost var rows := Rows();
      errors := 0;
      ScheduleIs(rows);
      var level := 1;
      var nonresident := true;
      ghost var left, rest := ShutdownRows(rows, level), ShutdownClosed(rows, level);
      while nonresident
        invariant Valid() && level >= 1 && Positive(Rows()) && HandlesIn(Rows(), all)
        invariant ShutdownRows(Rows(), level) == left
        invariant closed + ShutdownClosed(Rows(), level) == old(closed) + rest
        invariant errors + Failures(ShutdownClosed(Rows(), level), status) == Failures(rest, status)
        invariant !nonresident ==> AllResident(Rows())
        decreases nonresident, Measure(Rows(), level)
      {
        var failed;
        ghost var now, done := Rows(), closed;
        ShutdownUnfold(now, level, done);
        FailuresUnfold(now, level, status);
        nonresident, failed := Level(level, status, all);
        errors := errors + failed;
        level := level + 1;
      }
      assert closed + [] == closed;
    }

    /** The part of the last lt_dlexit that deals with the handles. */
    method CloseHandles(status: Handle -> int, ghost all: set<Handle>) returns (errors: int)
      requires Valid() && Positive(Rows()) && HandlesIn(Rows(), all)
      modifies this`handles, this`hs, this`closed, all
      ensures Valid()
      ensures errors == Failures(Schedule(old(Rows())), status)
      ensures Rows() == Residents(DropLead(old(Rows()))) && closed == old(closed) + Schedule(old(Rows()))
    {
      var handle := handles;
      errors := 0;
      EmptySchedule();
      assert handle == null ==> Rows() == [];
      DropLeadFacts(Rows(), all);
      SkipResidents();
      if handle != null {
        errors := CloseModules(status, all);
      } else {
        assert closed + [] == closed;
      }
    }

    // -------------------------------------------------------------------------------------
    // Loaders
    // -------------------------------------------------------------------------------------

    /** lt_dlloader_add. */
    method AddLoader(vtable: Vtable?) returns (failed: bool, ghost item: SList?<Vtable?>)
      requires Valid()
      modifies this`loaders, this`ls, ls
      ensures Valid()
      ensures failed <==> vtable == null || !vtable.valid
      ensures failed ==> ls == old(ls)
      ensures !failed ==> item != null && fresh(item) && item.userdata == vtable
      ensures !failed ==> ls == if vtable.prepend then [item] + old(ls) else old(ls) + [item]
    {
      item := null;
      if vtable == null || !vtable.valid {
        return true, null;
      }
      var box := new SList<Vtable?>(vtable);
      item := box;
      if vtable.prepend {
        loaders := Cons(box, loaders, ls);
        ls := [box] + ls;
      } else {
        loaders := Concat(loaders, box, ls, [box]);
        ls := ls + [box];
      }
      failed := false;
    }

    /** The scan of lt_dlloader_remove for modules that use the loader. */
    method LoaderInUse(vtable: Vtable) returns (inUse: bool, inUseByResident: bool)
      requires Valid()
      ensures inUse <==> InUse(Rows(), vtable)
      ensures inUseByResident <==> InUseByResident(Rows(), vtable)
    {
      inUse, inUseByResident := false, false;
      var handle := handles;
      ghost var k := 0;
      while handle != null
        invariant k <= |hs| && handle == HandleAt(hs, k)
        invariant inUse <==> exists i :: 0 <= i < k && Rows()[i].handle.vtable == vtable
        invariant inUseByResident <==> exists i :: 0 <= i < k && Rows()[i].handle.vtable == vtable && Rows()[i].resident
        decreases |hs| - k
      {
        assert Rows()[k].handle == handle;
        if handle.vtable == vtable {
          inUse := true;
          if handle.resident {
            inUseByResident := true;
          }
        }
        assert hs[k].next == HandleAt(hs, k + 1);
        handle := handle.next;
        k := k + 1;
      }
    }

    /**
     lt_dlloader_remove; exitFails says what the exit function of the loader reports, and complains
     whether the call has set an error message.
     */
    method RemoveLoader(name: string, exitFails: Vtable -> bool) returns (vtable: Vtable?, complains: bool)
      requires Valid()
      modifies this`loaders, this`ls, ls
      ensures Valid()
      ensures vtable == RemovedVtable(old(ls), Rows(), name, exitFails)
      ensures complains <==> RemovalComplains(old(ls), Rows(), name, exitFails)
      ensures ls == if vtable == null then old(ls) else RemoveAt(old(ls), FirstMatch(old(ls), LoaderNamed(name)))
    {
      NamedAnswer(ls, name);
      var item := Find(loaders, NamedItem(name), ls);
      if item.None? {
        return null, true;
      }
      vtable := item.value.userdata;
      var inUse, inUseByResident := LoaderInUse(vtable);
      if inUse {
        return null, !inUseByResident;
      }
      if exitFails(vtable) {
        return null, true;
      }
      vtable := TakeOut(name);
      complains := false;
    }

    method TakeOut(name: string) returns (vtable: Vtable?)
      requires Valid() && FirstMatch(ls, LoaderNamed(name)) < |ls|
      modifies this`loaders, this`ls, ls
      ensures Valid()
      ensures var k := FirstMatch(old(ls), LoaderNamed(name));
              vtable == old(ls)[k].userdata && ls == RemoveAt(old(ls), k)
    {
      NamedAnswer(ls, name);
      ghost var k := FirstMatch(ls, LoaderNamed(name));
      var item;
      loaders, item := Remove(loaders, NamedItem(name), ls);
      ls := RemoveAt(ls, k);
      vtable := item.value.userdata;
    }
  }

  lemma CloseAbsent(rows: seq<Row>, h: Handle, hs: seq<Handle>)
    requires FirstMatch(rows, Holds(h)) == |rows| == |hs| && forall i | 0 <= i < |hs| :: rows[i].handle == hs[i]
    ensures ClosedRows(rows, h) == rows && !Dropped(rows, h) && h !in hs
  {
    assert forall i | 0 <= i < |rows| :: !Holds(h)(rows[i]);
  }

  /** The loader that a removal by name takes away, if it takes one. */
  ghost function RemovedVtable(ls: seq<Loader>, rows: seq<Row>, name: string, exitFails: Vtable -> bool): Vtable? {
    var k := FirstMatch(ls, LoaderNamed(name));
    if k == |ls| || ls[k].userdata == null || InUse(rows, ls[k].userdata) || exitFails(ls[k].userdata) then null
    else ls[k].userdata
  }

  /** A removal that fails sets an error, unless resident modules need the loader. */
  ghost predicate RemovalComplains(ls: seq<Loader>, rows: seq<Row>, name: string, exitFails: Vtable -> bool) {
    var k := FirstMatch(ls, LoaderNamed(name));
    if k == |ls| || ls[k].userdata == null then true
    else if InUse(rows, ls[k].userdata) then !InUseByResident(rows, ls[k].userdata)
    else exitFails(ls[k].userdata)
  }

  /**
   The first loader with the name is taken away, unless a module uses it or its exit function fails; there
   is no error message only when it goes, or a resident module needs it.
   */
  lemma RemovalExactly(ls: seq<Loader>, rows: seq<Row>, name: string, exitFails: Vtable -> bool, k: nat)
    requires NoNull(ls) && k <= |ls| && forall i | 0 <= i < k :: ls[i].userdata.name != name
    requires k < |ls| ==> ls[k].userdata.name == name
    ensures FirstMatch(ls, LoaderNamed(name)) == k
    ensures k == |ls| ==> RemovedVtable(ls, rows, name, exitFails) == null
    ensures k == |ls| ==> RemovalComplains(ls, rows, name, exitFails)
    ensures k < |ls| ==>
              var v := ls[k].userdata; var used := exists i :: 0 <= i < |rows| && rows[i].handle.vtable == v;
              && RemovedVtable(ls, rows, name, exitFails) == (if used || exitFails(v) then null else v)
              && (RemovalComplains(ls, rows, name, exitFails) <==>
                    if used then !exists i :: 0 <= i < |rows| && rows[i].handle.vtable == v && rows[i].resident
                    else exitFails(v))
  {
    FirstMatchIs(ls, LoaderNamed(name), k);
  }

  lemma HandleTail(head: Handle, s: seq<Handle>)
    requires HandleChain(head, s)
    ensures s != [] && HandleChain(head.next, s[1..])
  {
    forall i {:trigger s[1..][i].next} | 0 <= i < |s[1..]|
      ensures s[1..][i].next == HandleAt(s[1..], i + 1)
    {
      assert s[1..][i] == s[i + 1];
      assert s[i + 1].next == HandleAt(s, i + 2);
    }
  }

  ghost function DropLead(rows: seq<Row>): seq<Row> {
    if rows != [] && rows[0].resident then DropLead(rows[1..]) else rows
  }

  /** The order in which the shutdown closes the modules of a table. */
  ghost function Schedule(rows: seq<Row>): seq<Handle> {
    ByCount(rows, 1, Largest(rows) + 1)
  }

  lemma EmptySchedule()
    ensures Schedule([]) == [] && Residents(DropLead([])) == [] && DropLead([]) == []
  {
  }

  lemma ScheduleIs(rows: seq<Row>)
    requires Positive(rows)
    ensures ShutdownRows(rows, 1) == Residents(rows) && ShutdownClosed(rows, 1) == Schedule(rows)
  {
    ShutdownSchedule(rows);
  }

  lemma {:induction false} ResidentInFront(r: Row, rows: seq<Row>, lo: nat, hi: nat)
    requires r.resident
    ensures ByCount([r] + rows, lo, hi) == ByCount(rows, lo, hi)
    decreases hi - lo
  {
    if lo < hi {
      ResidentInFront(r, rows, lo + 1, hi);
      assert ([r] + rows)[1..] == rows;
      assert WithCount([r] + rows, lo) == [] + WithCount(rows, lo);
    }
  }

  /** Resident handles in front do not matter for what is closed. */
  lemma {:induction false} DropLeadFacts(rows: seq<Row>, all: set<Handle>)
    requires Positive(rows) && HandlesIn(rows, all)
    ensures Positive(DropLead(rows)) && HandlesIn(DropLead(rows), all)
    ensures Schedule(DropLead(rows)) == Schedule(rows)
  {
    if rows != [] && rows[0].resident {
      DropLeadFacts(rows[1..], all);
      assert rows == [rows[0]] + rows[1..];
      ResidentInFront(rows[0], rows[1..], 1, Largest(rows[1..]) + 1);
    }
  }

  lemma ShutdownUnfold(rows: seq<Row>, level: nat, closed: seq<Handle>)
    requires Positive(rows)
    ensures var next := LevelRows(rows, level);
            && Positive(next)
            && (!AllResident(rows) ==> Measure(next, level + 1) < Measure(rows, level))
            && (AllResident(rows) ==> AllResident(next))
            && ShutdownRows(next, level + 1) == ShutdownRows(rows, level)
            && closed + LevelClosed(rows, level) + ShutdownClosed(next, level + 1) ==
               closed + ShutdownClosed(rows, level)
  {
    LevelShrinks(rows, level);
    if AllResident(rows) {
      ResidentLevel(rows, level);
    } else {
      LevelDecreases(rows, level);
    }
  }

  lemma FailuresUnfold(rows: seq<Row>, level: nat, status: Handle -> int)
    requires Positive(rows)
    ensures var next := LevelRows(rows, level);
            && Positive(next)
            && Failures(LevelClosed(rows, level), status) + Failures(ShutdownClosed(next, level + 1), status) ==
               Failures(ShutdownClosed(rows, level), status)
  {
    ShutdownUnfold(rows, level, []);
    var a, b := LevelClosed(rows, level), ShutdownClosed(LevelRows(rows, level), level + 1);
    FailuresConcat(a, b, status);
    assert [] + a + b == a + b && [] + ShutdownClosed(rows, level) == ShutdownClosed(rows, level);
  }

  lemma {:induction false} ResidentLevel(rows: seq<Row>, level: int)
    requires AllResident(rows)
    ensures LevelRows(rows, level) == rows && LevelClosed(rows, level) == []
  {
    if rows != [] {
      ResidentLevel(rows[1..], level);
      assert rows == [rows[0]] + rows[1..];
    }
  }

  lemma ClosedStep(before: seq<Handle>, rows: seq<Row>, i: nat, level: int)
    requires i < |rows|
    ensures before + ClosedTo(rows, i, level) + LevelDrops(rows[i], level) == before + ClosedTo(rows, i + 1, level)
  {
  }

  ghost predicate LevelTallied(rows: seq<Row>, i: nat, level: int, status: Handle -> int,
                               nonresident: bool, errors: int)
    requires i <= |rows|
  {
    (nonresident <==> NonResidentTo(rows, i)) && errors == Failures(ClosedTo(rows, i, level), status)
  }

  lemma LevelTally(rows: seq<Row>, i: nat, level: int, status: Handle -> int)
    requires i < |rows|
    ensures forall n, e :: LevelTallied(rows, i, level, status, n, e) ==>
              LevelTallied(rows, i + 1, level, status, n || !rows[i].resident,
                           e + Failures(LevelDrops(rows[i], level), status))
  {
    FailuresConcat(ClosedTo(rows, i, level), LevelDrops(rows[i], level), status);
  }

  ghost predicate HandlesIn(rows: seq<Row>, all: set<Handle>) {
    forall i | 0 <= i < |rows| :: rows[i].handle in all
  }

  ghost function LevelDrops(r: Row, level: int): seq<Handle> {
    if LevelRow(r, level) == [] then [r.handle] else []
  }

  /** The table after a level has dealt with row k. */
  ghost function LevelAt(rows: seq<Row>, k: nat, level: int): seq<Row>
    requires k < |rows|
  {
    rows[..k] + LevelRow(rows[k], level) + rows[k + 1..]
  }

  lemma LevelAtIn(rows: seq<Row>, k: nat, level: int, all: set<Handle>)
    requires k < |rows| && HandlesIn(rows, all)
    ensures HandlesIn(LevelAt(rows, k, level), all)
  {
    var s := LevelAt(rows, k, level);
    forall i | 0 <= i < |s| ensures s[i].handle in all {
      assert i < k ==> s[i] == rows[i];
      assert i >= k + |LevelRow(rows[k], level)| ==> s[i] == rows[i - |LevelRow(rows[k], level)| + 1];
      assert rows[k].handle in all;
    }
  }

  /** Closing the handle of row k, when the level asks for it, is what the level does to that row. */
  lemma LevelNodeRows(rows: seq<Row>, k: nat, level: int)
    requires k < |rows| && level >= 1
    requires forall i | 0 <= i < k :: rows[i].handle != rows[k].handle
    ensures var h := rows[k].handle;
            if !rows[k].resident && rows[k].refCount <= level then
              && LevelAt(rows, k, level) == ClosedRows(rows, h)
              && LevelDrops(rows[k], level) == (if Dropped(rows, h) then [h] else [])
            else LevelAt(rows, k, level) == rows && LevelDrops(rows[k], level) == []
  {
    FirstMatchIs(rows, Holds(rows[k].handle), k);
    assert rows == rows[..k] + [rows[k]] + rows[k + 1..];
  }

  /** What the first i rows have become. */
  ghost function DoneTo(rows: seq<Row>, i: nat, level: int): seq<Row>
    requires i <= |rows|
  {
    if i == 0 then [] else DoneTo(rows, i - 1, level) + LevelRow(rows[i - 1], level)
  }

  ghost function ClosedTo(rows: seq<Row>, i: nat, level: int): seq<Handle>
    requires i <= |rows|
  {
    if i == 0 then [] else ClosedTo(rows, i - 1, level) + LevelDrops(rows[i - 1], level)
  }

  ghost predicate NonResidentTo(rows: seq<Row>, i: nat)
    requires i <= |rows|
  {
    i > 0 && (NonResidentTo(rows, i - 1) || !rows[i - 1].resident)
  }

  /** The table when a level has dealt with the first i of the rows it began with. */
  ghost function LevelTo(rows: seq<Row>, i: nat, level: int): seq<Row>
    requires i <= |rows|
  {
    DoneTo(rows, i, level) + rows[i..]
  }

  lemma LevelBegin(rows: seq<Row>, level: int)
    ensures LevelTo(rows, 0, level) == rows && ClosedTo(rows, 0, level) == []
  {
  }

  lemma LevelEnd(rows: seq<Row>, level: int)
    ensures LevelTo(rows, |rows|, level) == LevelRows(rows, level)
    ensures ClosedTo(rows, |rows|, level) == LevelClosed(rows, level)
    ensures NonResidentTo(rows, |rows|) <==> !AllResident(rows)
  {
    DoneIs(rows, |rows|, level);
    NonResidentIs(rows, |rows|);
    assert rows[..|rows|] == rows;
  }

  lemma {:induction false} NonResidentIs(rows: seq<Row>, i: nat)
    requires i <= |rows|
    ensures NonResidentTo(rows, i) <==> exists j :: 0 <= j < i && !rows[j].resident
  {
    if i > 0 {
      NonResidentIs(rows, i - 1);
    }
  }

  lemma {:induction false} DoneIs(rows: seq<Row>, i: nat, level: int)
    requires i <= |rows|
    ensures DoneTo(rows, i, level) == LevelRows(rows[..i], level)
    ensures ClosedTo(rows, i, level) == LevelClosed(rows[..i], level)
  {
    if i > 0 {
      DoneIs(rows, i - 1, level);
      LevelPrefix(rows, i, level);
    }
  }

  lemma LevelPrefix(rows: seq<Row>, i: nat, level: int)
    requires 0 < i <= |rows|
    ensures LevelRows(rows[..i], level) == LevelRows(rows[..i - 1], level) + LevelRow(rows[i - 1], level)
    ensures LevelClosed(rows[..i], level) == LevelClosed(rows[..i - 1], level) + LevelDrops(rows[i - 1], level)
  {
    LevelSnoc(rows[..i - 1], rows[i - 1], level);
    assert rows[..i] == rows[..i - 1] + [rows[i - 1]];
  }

  lemma LevelSnoc(rows: seq<Row>, r: Row, level: int)
    ensures LevelRows(rows + [r], level) == LevelRows(rows, level) + LevelRow(r, level)
    ensures LevelClosed(rows + [r], level) == LevelClosed(rows, level) + LevelDrops(r, level)
  {
    LevelRowsConcat(rows, [r], level);
    LevelSingle(r, level);
  }

  lemma LevelSingle(r: Row, level: int)
    ensures LevelRows([r], level) == LevelRow(r, level) && LevelClosed([r], level) == LevelDrops(r, level)
  {
    assert [r][1..] == [];
    assert LevelRows([r], level) == LevelRow(r, level) + [];
  }

  lemma LevelNext(rows: seq<Row>, i: nat, level: int)
    requires i < |rows|
    ensures var now, k := LevelTo(rows, i, level), |DoneTo(rows, i, level)|;
            && k < |now| && now[k] == rows[i]
            && (if i + 1 < |rows| then k + 1 < |now| && now[k + 1] == rows[i + 1] else k + 1 == |now|)
  {
  }

  lemma HandlesOf(hs: seq<Handle>, rows: seq<Row>, all: set<Handle>)
    requires HandlesIn(rows, all) && |rows| == |hs| && forall j | 0 <= j < |hs| :: rows[j].handle == hs[j]
    ensures forall j | 0 <= j < |hs| :: hs[j] in all
  {
  }

  lemma LevelAdvance(rows: seq<Row>, i: nat, level: int)
    requires i < |rows|
    ensures var now, k := LevelTo(rows, i, level), |DoneTo(rows, i, level)|;
            k < |now| && LevelTo(rows, i + 1, level) == LevelAt(now, k, level)
  {
    var d, now := DoneTo(rows, i, level), LevelTo(rows, i, level);
    assert now[..|d|] == d && now[|d|] == rows[i] && now[|d| + 1..] == rows[i + 1..];
  }
}
