/**
 * The group-summary query of the group repository: how the optional filter turns
 * into `WHERE` conditions with numbered placeholders and a parallel argument list,
 * and which joined rows the query then yields.
 */
module GroupRepository {
  import opened Strings

  /** `group.FilterDTO`: an empty string means "no filter on this field". */
  datatype FilterDTO = FilterDTO(faculty: string, program: string)

  /** `group.SummaryGroupDTO`, one scanned row of the groups/programs/faculties join. */
  datatype SummaryGroup = SummaryGroup(
    groupId: nat,
    faculty: string,
    program: string,
    shortName: string,
    numberOfPeople: int,
    existsSchedule: bool)

  /** The fixed part of the query (the source's layout whitespace collapsed to single spaces). */
  const SummarySelect: string :=
    "SELECT g.group_id, f.faculty_name, p.program_name, g.short_name, g.number_of_people, g.exists_schedule"
    + " FROM public.groups AS g"
    + " INNER JOIN public.programs AS p ON g.program_id = p.program_id"
    + " INNER JOIN public.faculties AS f ON g.faculty_id = f.faculty_id"

  /** The two columns the filter can constrain. */
  datatype Column = FacultyName | ProgramName

  function ColumnName(c: Column): string {
    match c
    case FacultyName => "f.faculty_name"
    case ProgramName => "p.program_name"
  }

  /** One equality condition `column = value` of the `WHERE` clause, before rendering. */
  datatype Condition = Condition(column: Column, value: string)

  /** The conditions the filter asks for, faculty first: one per nonempty field. */
  function FilterConditions(f: FilterDTO): (cs: seq<Condition>)
    ensures |cs| == (if f.faculty != "" then 1 else 0) + (if f.program != "" then 1 else 0)
    ensures forall k :: 0 <= k < |cs| ==> cs[k].value != ""
    ensures f.faculty != "" ==> cs[0] == Condition(FacultyName, f.faculty)
    ensures f.program != "" ==> cs[|cs| - 1] == Condition(ProgramName, f.program)
    ensures forall k :: 0 <= k < |cs| && cs[k].column == FacultyName ==> k == 0
  {
    (if f.faculty != "" then [Condition(FacultyName, f.faculty)] else [])
    + (if f.program != "" then [Condition(ProgramName, f.program)] else [])
  }

  /** The positional parameter `$k` of PostgreSQL. */
  function Placeholder(k: nat): (p: string)
    ensures |p| >= 2 && p[0] == '$'
  {
    "$" + NatToString(k)
  }

  /** The rendered text of each condition, numbering the placeholders from `$1`. */
  function Rendered(cs: seq<Condition>): (r: seq<string>)
    ensures |r| == |cs|
  {
    seq(|cs|, k requires 0 <= k < |cs| => ColumnName(cs[k].column) + " = " + Placeholder(k + 1))
  }

  /** A sequence that agrees with the rendering at every index is the rendering. */
  lemma RenderedByIndex(conditions: seq<string>, cs: seq<Condition>)
    requires |conditions| == |cs|
    requires forall k :: 0 <= k < |cs| ==> conditions[k] == ColumnName(cs[k].column) + " = " + Placeholder(k + 1)
    ensures conditions == Rendered(cs)
  {
  }

  /**
   * The string building of `GetSummaryGroups`: each nonempty filter field appends a
   * condition using the next placeholder and its value to `args`; a single `WHERE`
   * joins the conditions with `AND`, and there is no `WHERE` without conditions.
   */
  method BuildSummaryQuery(filter: FilterDTO) returns (sql: string, conditions: seq<string>, args: seq<string>)
    ensures |conditions| == |args| == |FilterConditions(filter)|
    ensures forall k :: 0 <= k < |conditions| ==>
      conditions[k] == ColumnName(FilterConditions(filter)[k].column) + " = " + Placeholder(k + 1) &&
      args[k] == FilterConditions(filter)[k].value
    ensures |conditions| == 0 ==> sql == SummarySelect
    ensures |conditions| > 0 ==> sql == SummarySelect + " WHERE " + Join(conditions, " AND ")
  {
    sql := SummarySelect;
    conditions := [];
    args := [];
    var argCount: nat := 0;

    ghost var cs := FilterConditions(filter);
    if filter.faculty != "" {
      assert "f.faculty_name = $" + NatToString(argCount + 1)
        == ColumnName(FacultyName) + " = " + Placeholder(argCount + 1);
      conditions := conditions + ["f.faculty_name = $" + NatToString(argCount + 1)];
      args := args + [filter.faculty];
      argCount := argCount + 1;
    }

    assert argCount == |conditions| == |args|;
    assert forall k :: 0 <= k < |conditions| ==>
      conditions[k] == ColumnName(cs[k].column) + " = " + Placeholder(k + 1) && args[k] == cs[k].value;

    if filter.program != "" {
      assert "p.program_name = $" + NatToString(argCount + 1)
        == ColumnName(ProgramName) + " = " + Placeholder(argCount + 1);
      assert cs[argCount] == Condition(ProgramName, filter.program);
      conditions := conditions + ["p.program_name = $" + NatToString(argCount + 1)];
      args := args + [filter.program];
      argCount := argCount + 1;
    }

    if |conditions| > 0 {
      sql := sql + " WHERE " + Join(conditions, " AND ");
    }
  }

  /** With an empty filter the query is the bare join; with both fields it carries `$1` then `$2`. */
  lemma BuildSummaryQueryExamples(faculty: string, program: string)
    requires faculty != "" && program != ""
    ensures Join(["f.faculty_name = " + Placeholder(1), "p.program_name = " + Placeholder(2)], " AND ")
      == "f.faculty_name = $1 AND p.program_name = $2"
    ensures FilterConditions(FilterDTO("", "")) == []
    ensures FilterConditions(FilterDTO(faculty, program))
      == [Condition(FacultyName, faculty), Condition(ProgramName, program)]
  {
    assert NatToString(1) == "1" && NatToString(2) == "2";
  }

  /** What the database does with one condition of the `WHERE` clause. */
  predicate Satisfies(row: SummaryGroup, c: Condition) {
    match c.column
    case FacultyName => row.faculty == c.value
    case ProgramName => row.program == c.value
  }

  predicate SatisfiesAll(row: SummaryGroup, cs: seq<Condition>) {
    forall k :: 0 <= k < |cs| ==> Satisfies(row, cs[k])
  }

  /** The conditions built from the filter mean: equal faculty name and equal program name, where given. */
  lemma FilterMeaning(row: SummaryGroup, f: FilterDTO)
    ensures SatisfiesAll(row, FilterConditions(f)) <==>
      (f.faculty != "" ==> row.faculty == f.faculty) && (f.program != "" ==> row.program == f.program)
  {
    var cs := FilterConditions(f);
    if f.program != "" {
      assert Satisfies(row, cs[|cs| - 1]) <==> row.program == f.program;
    }
    if f.faculty != "" {
      assert Satisfies(row, cs[0]) <==> row.faculty == f.faculty;
    }
  }

  /** The joined rows, in table order, that satisfy all conditions. */
  function Matching(rows: seq<SummaryGroup>, cs: seq<Condition>): seq<SummaryGroup>
    decreases |rows|
  {
    if |rows| == 0 then []
    else
      var last := rows[|rows| - 1];
      Matching(rows[..|rows| - 1], cs) + (if SatisfiesAll(last, cs) then [last] else [])
  }

  /** A row is kept iff it is in the table and satisfies the conditions. */
  lemma {:induction false} MatchingMembers(rows: seq<SummaryGroup>, cs: seq<Condition>, g: SummaryGroup)
    ensures g in Matching(rows, cs) <==> g in rows && SatisfiesAll(g, cs)
    decreases |rows|
  {
    if |rows| > 0 {
      assert rows == rows[..|rows| - 1] + [rows[|rows| - 1]];
      MatchingMembers(rows[..|rows| - 1], cs, g);
    }
  }

  /** The filter as the caller means it: same faculty name and same program name, where given. */
  predicate MatchesFilter(g: SummaryGroup, f: FilterDTO) {
    (f.faculty != "" ==> g.faculty == f.faculty) && (f.program != "" ==> g.program == f.program)
  }

  /**
   * Every returned summary has the requested faculty and program, and every row of
   * the join that has them is returned.
   */
  lemma SummaryGroupsMeaning(joined: seq<SummaryGroup>, f: FilterDTO, g: SummaryGroup)
    ensures g in Matching(joined, FilterConditions(f)) <==> g in joined && MatchesFilter(g, f)
  {
    MatchingMembers(joined, FilterConditions(f), g);
    FilterMeaning(g, f);
  }

  /**
   * `GetSummaryGroups` over a joined table `joined`: the query is built, the database
   * keeps the rows satisfying its conditions, and the scan loop appends them in order.
   */
  method GetSummaryGroups(joined: seq<SummaryGroup>, filter: FilterDTO)
    returns (sql: string, args: seq<string>, groups: seq<SummaryGroup>)
    ensures |args| == |FilterConditions(filter)|
    ensures forall k :: 0 <= k < |args| ==> args[k] == FilterConditions(filter)[k].value
    ensures |args| == 0 ==> sql == SummarySelect
    ensures |args| > 0 ==> sql == SummarySelect + " WHERE " + Join(Rendered(FilterConditions(filter)), " AND ")
    ensures groups == Matching(joined, FilterConditions(filter))
  {
    var conditions;
    sql, conditions, args := BuildSummaryQuery(filter);
    var cs := FilterConditions(filter);
    RenderedByIndex(conditions, cs);
    groups := ScanMatching(joined, cs);
  }

  /** The `rows.Next()` loop of `GetSummaryGroups`, with the database's filtering folded in. */
  method ScanMatching(joined: seq<SummaryGroup>, cs: seq<Condition>) returns (groups: seq<SummaryGroup>)
    ensures groups == Matching(joined, cs)
  {
    groups := [];
    for i := 0 to |joined|
      invariant groups == Matching(joined[..i], cs)
    {
      var row := joined[i];
      assert joined[..i + 1][..i] == joined[..i];
      if SatisfiesAll(row, cs) {
        groups := groups + [row];
      }
    }
    assert joined[..|joined|] == joined;
  }
}
