/** The parameterised SQL that the repositories build: numbered placeholders `$1, $2, ...`,
    comma- or AND-joined clause lists, and how a result is read back. Statements are
    modelled as their text plus the list of values bound to the placeholders. */
module Sql {
  import opened Wrappers

  /** A value bound to a placeholder. Timestamps are integers (milliseconds). */
  datatype SqlValue = SqlInt(i: int) | SqlReal(r: real) | SqlText(t: string) | SqlTime(ms: int) | SqlNull

  /** A column that a statement sets or filters on, with the value it is compared with or set to. */
  datatype Binding = Binding(column: string, value: SqlValue)

  /** What a repository `update` does: with no field supplied it reads the row back
      (`findById(id)`); otherwise it sends one UPDATE with the given SET list and values. */
  datatype UpdatePlan = ReadBack(id: int) | Write(fields: seq<string>, values: seq<SqlValue>, text: string)

  /** An INSERT: the columns it names, the values bound to them, and its text. */
  datatype Insert = Insert(columns: seq<string>, values: seq<SqlValue>, text: string)

  /** A filtered listing: its WHERE conditions, their values and the statement text. */
  datatype Select = Select(conditions: seq<string>, values: seq<SqlValue>, text: string)

  function DigitChar(d: nat): char
    requires d < 10
  {
    "0123456789"[d]
  }

  function DigitValue(c: char): nat {
    if '0' <= c <= '9' then c as int - '0' as int else 0
  }

  /** The decimal text of `n`, as a template literal `${n}` renders it. */
  function NatToString(n: nat): string
    decreases n
  {
    if n < 10 then [DigitChar(n)] else NatToString(n / 10) + [DigitChar(n % 10)]
  }

  /** Reads a string of decimal digits back as a number. */
  function ParseNat(s: string): nat
    decreases |s|
  {
    if |s| == 0 then 0 else ParseNat(s[..|s| - 1]) * 10 + DigitValue(s[|s| - 1])
  }

  lemma {:induction false} NatToStringDigits(n: nat)
    ensures |NatToString(n)| > 0
    ensures forall i :: 0 <= i < |NatToString(n)| ==> '0' <= NatToString(n)[i] <= '9'
    decreases n
  {
    if n >= 10 {
      NatToStringDigits(n / 10);
    }
  }

  /** Decimal rendering is undone by parsing. */
  lemma {:induction false} ParseNatToString(n: nat)
    ensures ParseNat(NatToString(n)) == n
    decreases n
  {
    if n >= 10 {
      var prefix := NatToString(n / 10);
      var s := prefix + [DigitChar(n % 10)];
      assert s[..|s| - 1] == prefix;
      ParseNatToString(n / 10);
      assert DigitValue(DigitChar(n % 10)) == n % 10;
    }
  }

  /** The placeholder `$k`. */
  function Placeholder(k: nat): string {
    "$" + NatToString(k)
  }

  /** Two placeholders with the same text have the same number. */
  lemma PlaceholderInjective(i: nat, j: nat)
    ensures Placeholder(i) == Placeholder(j) ==> i == j
  {
    if Placeholder(i) == Placeholder(j) {
      assert NatToString(i) == Placeholder(i)[1..];
      assert NatToString(j) == Placeholder(j)[1..];
      ParseNatToString(i);
      ParseNatToString(j);
    }
  }

  /** `parts.join(sep)`. */
  function Join(parts: seq<string>, sep: string): string
    decreases |parts|
  {
    if |parts| == 0 then ""
    else if |parts| == 1 then parts[0]
    else parts[0] + sep + Join(parts[1..], sep)
  }

  /** The clause `column = $k` that a builder pushes for binding `b` while its counter is `k`. */
  function Clause(b: Binding, k: nat): string {
    b.column + " = " + Placeholder(k)
  }

  /** The builders' invariant: clause i names placeholder $(i+1), and values[i] is the value of binding i,
      so placeholder $k binds values[k-1]. */
  ghost predicate Numbered(clauses: seq<string>, values: seq<SqlValue>, bindings: seq<Binding>) {
    && |clauses| == |bindings|
    && |values| == |bindings|
    && forall i :: 0 <= i < |bindings| ==> clauses[i] == Clause(bindings[i], i + 1) && values[i] == bindings[i].value
  }

  /** The binding a builder pushes for `column` when its value is supplied, or none. */
  function Field(column: string, value: Option<SqlValue>): seq<Binding> {
    if value.Some? then [Binding(column, value.value)] else []
  }

  function IntValue(o: Option<int>): Option<SqlValue> {
    if o.Some? then Some(SqlInt(o.value)) else None
  }

  function RealValue(o: Option<real>): Option<SqlValue> {
    if o.Some? then Some(SqlReal(o.value)) else None
  }

  function TextValue(o: Option<string>): Option<SqlValue> {
    if o.Some? then Some(SqlText(o.value)) else None
  }

  function TimeValue(o: Option<int>): Option<SqlValue> {
    if o.Some? then Some(SqlTime(o.value)) else None
  }

  /** One builder step: when the value is supplied,
      `clauses.push(`${column} = $${paramIndex++}`); values.push(value);`.
      It keeps the numbering invariant. */
  method PushIf(clauses: seq<string>, values: seq<SqlValue>, paramIndex: nat, ghost bindings: seq<Binding>,
                column: string, value: Option<SqlValue>)
    returns (clauses': seq<string>, values': seq<SqlValue>, paramIndex': nat)
    requires Numbered(clauses, values, bindings) && paramIndex == |bindings| + 1
    ensures Numbered(clauses', values', bindings + Field(column, value))
    ensures paramIndex' == |bindings + Field(column, value)| + 1
  {
    clauses', values', paramIndex' := clauses, values, paramIndex;
    if value.Some? {
      clauses' := clauses + [column + " = $" + NatToString(paramIndex)];
      values' := values + [value.value];
      paramIndex' := paramIndex + 1;
      assert clauses'[|bindings|] == Clause(Binding(column, value.value), paramIndex);
    }
  }

  /** The text of `UPDATE table SET ${fields.join(", ")} WHERE id = $${k} RETURNING *`. */
  function UpdateText(table: string, fields: seq<string>, k: nat): string {
    "UPDATE " + table + " SET " + Join(fields, ", ") + " WHERE id = $" + NatToString(k) + " RETURNING *"
  }

  /** The UPDATE a repository sends for the supplied `bindings` (at least one): the SET list, then
      `updated_at = NOW()` with no value, and the id as the last value at placeholder $(n+1). */
  ghost predicate IsUpdate(table: string, bindings: seq<Binding>, id: int, plan: UpdatePlan) {
    var n := |bindings|;
    && plan.Write?
    && |plan.fields| == n + 1
    && |plan.values| == n + 1
    && Numbered(plan.fields[..n], plan.values[..n], bindings)
    && plan.fields[n] == "updated_at = NOW()"
    && plan.values[n] == SqlInt(id)
    && plan.text == UpdateText(table, plan.fields, n + 1)
  }

  /** `WHERE c1 AND c2 ...`, or nothing when there is no condition. */
  function WhereClause(conditions: seq<string>): string {
    if |conditions| > 0 then "WHERE " + Join(conditions, " AND ") else ""
  }

  /** The text of `SELECT * FROM table ${whereClause} ORDER BY order`. */
  function SelectText(table: string, conditions: seq<string>, order: string): string {
    "SELECT * FROM " + table + " " + WhereClause(conditions) + " ORDER BY " + order
  }

  /** The listing a repository `findAll` sends for the filters it kept. */
  ghost predicate IsFilteredSelect(table: string, filters: seq<Binding>, order: string, q: Select) {
    && Numbered(q.conditions, q.values, filters)
    && q.text == SelectText(table, q.conditions, order)
  }

  /** The text of a listing that writes its WHERE clause only when there is a condition:
      `SELECT * FROM table WHERE c1 AND ... ORDER BY order`, or `SELECT * FROM table ORDER BY order`. */
  function ListingText(table: string, conditions: seq<string>, order: string): string {
    "SELECT * FROM " + table + (if |conditions| > 0 then " " + WhereClause(conditions) else "") + " ORDER BY " + order
  }

  /** A fixed listing whose conditions bind `filters`, written with `ListingText`. */
  ghost predicate IsListing(table: string, filters: seq<Binding>, order: string, q: Select) {
    && Numbered(q.conditions, q.values, filters)
    && q.text == ListingText(table, q.conditions, order)
  }

  /** An unfiltered listing binds nothing and has no WHERE; a listing with one filter reads
      back as that column compared with $1, which binds the filter's value. */
  lemma ListingShape(table: string, filters: seq<Binding>, order: string, q: Select)
    requires IsListing(table, filters, order, q)
    ensures |filters| == 0 ==> q.values == [] && q.text == "SELECT * FROM " + table + " ORDER BY " + order
    ensures |filters| == 1 ==>
      && ParseClause(q.conditions[0]) == (filters[0].column, 1)
      && q.values == [filters[0].value]
      && q.text == "SELECT * FROM " + table + " WHERE " + filters[0].column + " = $1 ORDER BY " + order
  {
    if |filters| == 1 {
      NumberedBindsColumns(q.conditions, q.values, filters, 0);
      FirstClause(filters[0]);
      OneConditionText(table, filters[0].column, order);
    }
  }

  /** The first clause a builder pushes is `column = $1`. */
  lemma FirstClause(b: Binding)
    ensures Clause(b, 1) == b.column + " = $1"
  {
    assert Placeholder(1) == "$1";
    assert " = " + "$1" == " = $1";
  }

  /** The listing text with the single condition `column = $1`. */
  lemma OneConditionText(table: string, column: string, order: string)
    ensures ListingText(table, [column + " = $1"], order)
      == "SELECT * FROM " + table + " WHERE " + column + " = $1 ORDER BY " + order
  {
    var c := column + " = $1";
    assert Join([c], " AND ") == c;
    assert " " + WhereClause([c]) == " WHERE " + column + " = $1" by {
      assert " " + "WHERE " == " WHERE ";
    }
    assert " = $1" + " ORDER BY " == " = $1 ORDER BY ";
  }

  /** The placeholders `$1, ..., $n`. */
  function Placeholders(n: nat): seq<string>
    decreases n
  {
    if n == 0 then [] else Placeholders(n - 1) + [Placeholder(n)]
  }

  /** The text of `INSERT INTO table (c1, ..., cn) VALUES ($1, ..., $n) RETURNING *`. */
  function InsertText(table: string, columns: seq<string>): string {
    "INSERT INTO " + table + " (" + Join(columns, ", ") + ") VALUES (" + Join(Placeholders(|columns|), ", ") + ") RETURNING *"
  }

  /** The index of the last `c` in `s`, or -1. */
  function LastIndexOf(s: string, c: char): (r: int)
    ensures -1 <= r < |s|
    ensures r >= 0 ==> s[r] == c && forall j :: r < j < |s| ==> s[j] != c
    ensures r == -1 ==> forall j :: 0 <= j < |s| ==> s[j] != c
    decreases |s|
  {
    if |s| == 0 then -1
    else if s[|s| - 1] == c then |s| - 1
    else LastIndexOf(s[..|s| - 1], c)
  }

  /** Reads a clause `column = $k` back as its column and placeholder number. */
  function ParseClause(c: string): (string, nat) {
    var d := LastIndexOf(c, '$');
    if d < 3 then (c, 0) else (c[..d - 3], ParseNat(c[d + 1..]))
  }

  /** A pushed clause reads back as the column and the placeholder number it was built with,
      whatever the column name holds. */
  lemma ClauseRoundTrip(b: Binding, k: nat)
    ensures ParseClause(Clause(b, k)) == (b.column, k)
  {
    var c := Clause(b, k);
    var digits := NatToString(k);
    var d := |b.column| + 3;
    assert c == b.column + " = " + "$" + digits;
    NatToStringDigits(k);
    assert c[d] == '$';
    assert forall j :: d < j < |c| ==> c[j] == digits[j - d - 1];
    assert LastIndexOf(c, '$') == d;
    assert c[..d - 3] == b.column;
    assert c[d + 1..] == digits;
    ParseNatToString(k);
  }

  /** In a numbered clause list, the placeholder written in clause i names values[i]'s position,
      and that value is the one supplied for the clause's column. */
  lemma NumberedBindsColumns(clauses: seq<string>, values: seq<SqlValue>, bindings: seq<Binding>, i: int)
    requires Numbered(clauses, values, bindings)
    requires 0 <= i < |clauses|
    ensures ParseClause(clauses[i]) == (bindings[i].column, i + 1)
    ensures values[ParseClause(clauses[i]).1 - 1] == bindings[i].value
  {
    ClauseRoundTrip(bindings[i], i + 1);
  }

  /** In a planned UPDATE each SET clause, read back, names its own column and the placeholder
      $(i+1) whose value is the one supplied for that column; the id's placeholder, the last one,
      $(n+1), binds the id. */
  lemma UpdateBindsColumns(table: string, bindings: seq<Binding>, id: int, plan: UpdatePlan)
    requires IsUpdate(table, bindings, id, plan)
    ensures forall i :: 0 <= i < |bindings| ==>
      && ParseClause(plan.fields[i]) == (bindings[i].column, i + 1)
      && plan.values[i] == bindings[i].value
    ensures plan.values[|bindings|] == SqlInt(id)
  {
    var n := |bindings|;
    forall i | 0 <= i < n
      ensures ParseClause(plan.fields[i]) == (bindings[i].column, i + 1)
      ensures plan.values[i] == bindings[i].value
    {
      NumberedBindsColumns(plan.fields[..n], plan.values[..n], bindings, i);
      assert plan.fields[..n][i] == plan.fields[i];
      assert plan.values[..n][i] == plan.values[i];
    }
  }

  /** The same for the conditions of a filtered listing. */
  lemma SelectBindsFilters(table: string, filters: seq<Binding>, order: string, q: Select)
    requires IsFilteredSelect(table, filters, order, q)
    ensures forall i :: 0 <= i < |filters| ==>
      && ParseClause(q.conditions[i]) == (filters[i].column, i + 1)
      && q.values[i] == filters[i].value
  {
    forall i | 0 <= i < |filters|
      ensures ParseClause(q.conditions[i]) == (filters[i].column, i + 1)
    {
      NumberedBindsColumns(q.conditions, q.values, filters, i);
    }
  }

  /** `rows[0] ?? null`: the first row, or null when the statement matched nothing. */
  function FirstRow<T>(rows: seq<T>): (r: Option<T>)
    ensures r.None? <==> |rows| == 0
    ensures r.Some? ==> r.value == rows[0]
  {
    if |rows| == 0 then None else Some(rows[0])
  }

  /** `result.rowCount !== null && result.rowCount > 0`: whether a DELETE removed a row. */
  function Removed(rowCount: Option<int>): (deleted: bool)
    ensures deleted <==> exists n :: rowCount == Some(n) && n > 0
  {
    rowCount.Some? && rowCount.value > 0
  }
}
