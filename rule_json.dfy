/**
 * What the two rule-table converters share: the five table categories, the records they
 * build from CSV rows (one JSON document per procedure code), reading a cell of a row, the
 * walk over the columns after the code (cell by cell, or pair by pair), and the output store that maps each
 * category's `<code>.json` file to the record last saved there.
 */
module RuleJson {
  import opened Wrappers

  /** The five rule tables; each has its own output directory. */
  datatype Category = Supplemental | Inclusive | Exclusive | InpatientBase | CountLimits

  /** The output directory name of a category. */
  function DirName(c: Category): string {
    match c
    case Supplemental => "supplemental"
    case Inclusive => "inclusive"
    case Exclusive => "exclusive"
    case InpatientBase => "inpatient-base"
    case CountLimits => "count-limits"
  }

  /** Distinct categories write to distinct directories, so a saved file is named by its
      category and its code. */
  lemma DirNameInjective(c: Category, d: Category)
    requires DirName(c) == DirName(d)
    ensures c == d
  {
  }

  // ---------------------------------------------------------------------------
  // Cells of a parsed row
  // ---------------------------------------------------------------------------

  /** `$cols[$i] ?? $default`: the cell when the row has it, the default otherwise. */
  function CellOr(cols: seq<string>, i: nat, default: string): string {
    if i < |cols| then cols[i] else default
  }

  /** `$cols[$i] ?? ""` */
  function Cell(cols: seq<string>, i: nat): string {
    CellOr(cols, i, "")
  }

  /** `($cols[$i] ?? "") === "1"` */
  predicate Flag(cols: seq<string>, i: nat) {
    Cell(cols, i) == "1"
  }

  // ---------------------------------------------------------------------------
  // The records
  // ---------------------------------------------------------------------------

  /** The "attributes" object of a supplemental record. */
  datatype Attributes = Attributes(category: string, subCategory: string,
                                   drugRelated: bool, surgeryRelated: bool, radiologyRelated: bool,
                                   requiresComment: bool, requiresModifier: bool)

  /** One entry of an exclusive record: the conflicting code and the kind of conflict. */
  datatype ExclusivePair = ExclusivePair(target: string, kind: string)

  /** One entry of a count-limits record: the unit and the maximum count per unit. */
  datatype CountLimit = CountLimit(unit: string, max: int)

  /** The "conditions" object of an inpatient-base record. */
  datatype Conditions = Conditions(nurseRatio: string, doctorPresence: bool,
                                   age: string, severityLevel: string)

  /** What a record holds besides its code, per category. An absent optional key of the JSON
      object is None. */
  datatype Body =
    | SupplementalBody(attributes: Attributes)
    | InclusiveBody(includes: seq<string>, includedIn: Option<string>)
    | ExclusiveBody(exclusive: seq<ExclusivePair>)
    | InpatientBody(wardType: string, conditions: Conditions, exclusions: Option<seq<string>>)
    | CountLimitsBody(countLimits: seq<CountLimit>)

  /** The JSON object saved for one row: its code and its category's fields. */
  datatype Record = Record(code: string, body: Body)

  /** The body matches the category it was built for. */
  predicate BodyOf(c: Category, b: Body) {
    match c
    case Supplemental => b.SupplementalBody?
    case Inclusive => b.InclusiveBody?
    case Exclusive => b.ExclusiveBody?
    case InpatientBase => b.InpatientBody?
    case CountLimits => b.CountLimitsBody?
  }

  // ---------------------------------------------------------------------------
  // The column walk: for ($i = $from; $i < count($cols); $i += $gap)
  // ---------------------------------------------------------------------------

  /** The distance between visited columns: 1 for a list of cells, 2 for a list of pairs. */
  type Gap = g: nat | g >= 1 witness 1

  /** What one visit contributes: the step's entry, or nothing when the step skips
      (`continue`). */
  function Hits<T>(o: Option<T>): seq<T> {
    match o
    case Some(e) => [e]
    case None => []
  }

  /** The column of the m-th visit, counting from 0. */
  function VisitAt(from: nat, gap: Gap, m: nat): nat {
    from + gap * m
  }

  /** The entries the first n visits collect, in visiting order; a visit past the end of the
      row collects nothing. */
  function WalkN<T>(cols: seq<string>, from: nat, gap: Gap, n: nat,
                    step: (seq<string>, nat) -> Option<T>): seq<T>
  {
    if n == 0 then []
    else
      var i := VisitAt(from, gap, n - 1);
      WalkN(cols, from, gap, n - 1, step) + (if i < |cols| then Hits(step(cols, i)) else [])
  }

  /** What the whole loop collects: no loop makes more visits than the row has columns. */
  function Walk<T>(cols: seq<string>, from: nat, gap: Gap, step: (seq<string>, nat) -> Option<T>): seq<T> {
    WalkN(cols, from, gap, |cols|, step)
  }

  /** The m-th visit lies at or beyond column m. */
  lemma VisitAtLeast(from: nat, gap: Gap, m: nat)
    ensures m <= VisitAt(from, gap, m)
  {
    assert gap * m == m + (gap - 1) * m;
  }

  /** Once the loop has passed the end of the row, further visits collect nothing: the loop
      may stop. */
  lemma {:induction false} WalkStops<T>(cols: seq<string>, from: nat, gap: Gap, n: nat, n': nat,
                                        step: (seq<string>, nat) -> Option<T>)
    requires n <= n' && VisitAt(from, gap, n) >= |cols|
    ensures WalkN(cols, from, gap, n', step) == WalkN(cols, from, gap, n, step)
    decreases n'
  {
    if n < n' {
      WalkStops(cols, from, gap, n, n' - 1, step);
      VisitAtMonotone(from, gap, n, n' - 1);
    }
  }

  /** Later visits lie further along the row. */
  lemma VisitAtMonotone(from: nat, gap: Gap, m: nat, m': nat)
    requires m <= m'
    ensures VisitAt(from, gap, m) <= VisitAt(from, gap, m')
  {
    assert gap * m' == gap * m + gap * (m' - m);
  }

  /** Every entry comes from a visited column of the row whose step yields it. */
  lemma {:induction false} WalkSound<T>(cols: seq<string>, from: nat, gap: Gap, n: nat,
                                        step: (seq<string>, nat) -> Option<T>, k: nat)
    requires k < |WalkN(cols, from, gap, n, step)|
    ensures exists m: nat :: (m < n && VisitAt(from, gap, m) < |cols| &&
                              step(cols, VisitAt(from, gap, m)) == Some(WalkN(cols, from, gap, n, step)[k]))
    decreases n
  {
    var prev := WalkN(cols, from, gap, n - 1, step);
    if k < |prev| {
      WalkSound(cols, from, gap, n - 1, step, k);
      var m: nat :| m < n - 1 && VisitAt(from, gap, m) < |cols| &&
        step(cols, VisitAt(from, gap, m)) == Some(prev[k]);
      assert WalkN(cols, from, gap, n, step)[k] == prev[k];
    } else {
      assert step(cols, VisitAt(from, gap, n - 1)) == Some(WalkN(cols, from, gap, n, step)[k]);
    }
  }

  /** Every visited column of the row whose step yields an entry contributes it. */
  lemma {:induction false} WalkComplete<T>(cols: seq<string>, from: nat, gap: Gap, n: nat,
                                           step: (seq<string>, nat) -> Option<T>, m: nat)
    requires m < n && VisitAt(from, gap, m) < |cols| && step(cols, VisitAt(from, gap, m)).Some?
    ensures step(cols, VisitAt(from, gap, m)).value in WalkN(cols, from, gap, n, step)
    decreases n
  {
    if m < n - 1 {
      WalkComplete(cols, from, gap, n - 1, step, m);
    }
  }

  /** The whole walk holds exactly the entries the visited columns of the row yield. */
  lemma WalkExactly<T>(cols: seq<string>, from: nat, gap: Gap, step: (seq<string>, nat) -> Option<T>, e: T)
    ensures e in Walk(cols, from, gap, step) <==>
      exists m: nat :: VisitAt(from, gap, m) < |cols| && step(cols, VisitAt(from, gap, m)) == Some(e)
  {
    var w := Walk(cols, from, gap, step);
    if e in w {
      var k :| 0 <= k < |w| && w[k] == e;
      WalkSound(cols, from, gap, |cols|, step, k);
    }
    if exists m: nat :: VisitAt(from, gap, m) < |cols| && step(cols, VisitAt(from, gap, m)) == Some(e) {
      var m: nat :| VisitAt(from, gap, m) < |cols| && step(cols, VisitAt(from, gap, m)) == Some(e);
      VisitAtLeast(from, gap, m);
      WalkComplete(cols, from, gap, |cols|, step, m);
    }
  }

  /** The walk collects at most one entry per visit. */
  lemma {:induction false} WalkLength<T>(cols: seq<string>, from: nat, gap: Gap, n: nat,
                                         step: (seq<string>, nat) -> Option<T>)
    ensures |WalkN(cols, from, gap, n, step)| <= n
    decreases n
  {
    if n > 0 {
      WalkLength(cols, from, gap, n - 1, step);
    }
  }

  /** The loop itself: visit the columns from `from` on, `gap` apart, and append what each
      visit's step yields. Each converter passes the body of its loop as `step`. */
  method CollectWalk<T>(cols: seq<string>, from: nat, gap: Gap, step: (seq<string>, nat) -> Option<T>)
    returns (entries: seq<T>)
    ensures entries == Walk(cols, from, gap, step)
  {
    entries := [];
    var i := from;
    ghost var n: nat := 0;
    while i < |cols|
      invariant i == VisitAt(from, gap, n) && n <= |cols|
      invariant entries == WalkN(cols, from, gap, n, step)
      decreases |cols| - i
    {
      var e := step(cols, i);
      if e.Some? {
        entries := entries + [e.value];
      }
      VisitAtLeast(from, gap, n);
      i := i + gap;
      n := n + 1;
    }
    WalkStops(cols, from, gap, n, |cols|, step);
  }

  // ---------------------------------------------------------------------------
  // The output store: <category>/<code>.json under each script's base directory
  // ---------------------------------------------------------------------------

  /** Where a record is saved: its category's directory (DirName) and its code. */
  type Key = (Category, string)

  /** The JSON files of the rule tables, as the records they hold. */
  class RecordStore {
    var records: map<Key, Record>

    constructor (records: map<Key, Record>)
      ensures this.records == records
    {
      this.records := records;
    }

    /** save_json: create the file or replace its content. */
    method Save(category: Category, r: Record)
      modifies this
      ensures records == old(records)[(category, r.code) := r]
    {
      records := records[(category, r.code) := r];
    }
  }
}
