/** Reading a table from its descriptor file `Tables/<table>.tbl`, one
    column per line `name type count` (the format gentbl.py:37 writes), in
    the C reader of table.h:114-175 and the C++ reader of table.hpp:84-134.
    The file system is a parameter: the descriptor files as their lines and
    the set of column-file paths that can be opened. */
module Descriptor {
  import opened Base
  import opened Chars
  import opened Catalog
  import opened Splitting
  import opened Numbers

  /** The file-name buffers of the C reader hold 500 bytes, so snprintf
      keeps at most 499 characters. */
  const PathMax := 499

  function Truncate(s: string, n: nat): (r: string)
    ensures |r| <= n && |r| <= |s| && r == s[..|r|]
    ensures |s| <= n ==> r == s
  {
    if |s| <= n then s else s[..n]
  }

  function ColumnPath(table: string, column: string): string {
    "Tables/" + table + "/" + column + ".col"
  }

  function TablePath(table: string): string {
    "Tables/" + table + ".tbl"
  }

  /** The path a reader opens for a column: C formats it into its buffer. */
  function DataPath(d: Dialect, table: string, column: string): string {
    if d == C then Truncate(ColumnPath(table, column), PathMax) else ColumnPath(table, column)
  }

  /** A line as the reader sees it: C's getline keeps the newline,
      std::getline drops it. */
  function Received(d: Dialect, line: string): string {
    if d == Cpp && |line| > 0 && line[|line| - 1] == '\n' then line[..|line| - 1] else line
  }

  /** The fields of a line: C splits at every single space, C++ takes the
      whitespace-separated words. */
  function Fields(d: Dialect, line: string): seq<string> {
    if d == C then Pieces(Received(d, line), ' ') else Words(Received(d, line))
  }

  /** The count field: atoll in C, std::stoll in C++. */
  function Count(d: Dialect, field: string): Result<int> {
    if d == C then Atoll(field) else Stoll(field)
  }

  /** The column one descriptor line makes. Fewer than three fields is a
      NULL table in C and an out-of-range vector access in C++; a column file
      that cannot be opened is a NULL table. An unknown type word leaves the
      type unset. C reads the column data at once; C++ leaves it unloaded. */
  function ReadLine(d: Dialect, table: string, line: string, colFiles: set<string>): (r: Result<Column>)
    ensures r.Ok? ==> |Fields(d, line)| >= 3 && r.value.name == Fields(d, line)[0]
    ensures r.Ok? ==> forall t :: r.value.ctype == Some(t) <==> Fields(d, line)[1] == TypeName(t)
    ensures r.Ok? ==> Count(d, Fields(d, line)[2]) == Ok(r.value.size)
    ensures r.Ok? ==> r.value.dataLocation == DataPath(d, table, r.value.name) && r.value.dataLocation in colFiles
    ensures r.Ok? ==> r.value.baseOid == 0 && (r.value.loaded <==> d == C)
    ensures |Fields(d, line)| < 3 ==> r == Err(if d == C then Rejected else Undefined)
    ensures r.Err? && d == C ==> r.failure == Rejected || r.failure == Undefined
    ensures r.Err? && d == Cpp ==> r.failure == Undefined || r.failure == Aborted || r.failure == Rejected
  {
    var fs := Fields(d, line);
    if |fs| < 3 then
      if d == C then Err(Rejected) else Err(Undefined)
    else
      var name := fs[0];
      var ctype := ParseTypeName(fs[1]);
      match Count(d, fs[2])
      case Err(f) => Err(f)
      case Ok(size) =>
        var path := DataPath(d, table, name);
        if path !in colFiles then Err(Rejected)
        else
          TypeNamesAll(fs[1]);
          Ok(Column(name, ctype, 0, size, path, d == C))
  }

  lemma TypeNamesAll(s: string)
    ensures forall t :: ParseTypeName(s) == Some(t) <==> s == TypeName(t)
  {
    forall t ensures ParseTypeName(s) == Some(t) <==> s == TypeName(t) {
      TypeNames(s, t);
    }
  }

  /** The line gentbl.py writes for a column. */
  function GentblLine(name: string, t: ColumnType, count: nat): string {
    name + " " + TypeName(t) + " " + DecimalString(count) + "\n"
  }

  /** Both readers read back what gentbl.py writes: the column's name, its
      type, its row count and the path of its data file. */
  lemma LineRoundTrip(d: Dialect, table: string, name: string, t: ColumnType, count: nat, colFiles: set<string>)
    requires IsWord(name) && count <= LngMax
    requires |ColumnPath(table, name)| <= PathMax && ColumnPath(table, name) in colFiles
    ensures ReadLine(d, table, GentblLine(name, t, count), colFiles)
         == Ok(Column(name, Some(t), 0, count, ColumnPath(table, name), d == C))
  {
    TypeNames(TypeName(t), t);
    if d == C {
      FieldsC(name, t, count);
      ReadDecimal(count, "\n");
    } else {
      FieldsCpp(name, t, count);
      ReadDecimal(count, []);
      assert DecimalString(count) + [] == DecimalString(count);
    }
  }

  /** C splits a generated line at its two spaces; the newline stays on the
      count. */
  lemma FieldsC(name: string, t: ColumnType, count: nat)
    requires IsWord(name)
    ensures Fields(C, GentblLine(name, t, count)) == [name, TypeName(t), DecimalString(count) + "\n"]
  {
    var tn := TypeName(t);
    var last := DecimalString(count) + "\n";
    NoSpaceInLast(count);
    assert ' ' !in name;
    assert ' ' !in tn;
    JoinThree(name, tn, last);
    assert GentblLine(name, t, count) == name + " " + tn + " " + last;
    PiecesOfJoin([name, tn, last], ' ');
  }

  /** The last field C sees, the count and the newline, has no space. */
  lemma NoSpaceInLast(count: nat)
    ensures ' ' !in DecimalString(count) + "\n"
  {
    var last := DecimalString(count) + "\n";
    assert forall m | 0 <= m < |last| :: last[m] == '\n' || IsDigit(last[m]);
  }

  /** Three pieces joined at single spaces. */
  lemma JoinThree(a: string, b: string, c: string)
    ensures Join([a, b, c], ' ') == a + " " + b + " " + c
  {
    var ps := [a, b, c];
    assert ps[1..] == [b, c] && ps[1..][1..] == [c];
    assert Join(ps[1..], ' ') == b + " " + c;
    assert a + [' '] + (b + " " + c) == a + " " + b + " " + c;
  }

  /** C++ receives a generated line without its newline and takes its three
      words. */
  lemma FieldsCpp(name: string, t: ColumnType, count: nat)
    requires IsWord(name)
    ensures Fields(Cpp, GentblLine(name, t, count)) == [name, TypeName(t), DecimalString(count)]
  {
    var tn := TypeName(t);
    var ds := DecimalString(count);
    var body := name + " " + tn + " " + ds;
    assert GentblLine(name, t, count) == body + "\n";
    ReceivedDropsNewline(body);
    JoinSpaceThree(name, tn, ds);
    assert IsWord(tn) && IsWord(ds);
    WordsOfJoinSpace([name, tn, ds]);
  }

  /** C++ reads a line without its newline. */
  lemma ReceivedDropsNewline(body: string)
    ensures Received(Cpp, body + "\n") == body
  {
    var line := body + "\n";
    assert line[..|line| - 1] == body;
  }

  /** Three words joined by single spaces. */
  lemma JoinSpaceThree(a: string, b: string, c: string)
    ensures JoinSpace([a, b, c]) == a + " " + b + " " + c
  {
    var ws := [a, b, c];
    assert ws[1..] == [b, c] && ws[1..][1..] == [c];
    assert JoinSpace(ws[1..]) == b + " " + c;
    assert a + " " + (b + " " + c) == a + " " + b + " " + c;
  }

  /** The reader's loop over the results of its lines, in line order: the
      first failure ends it, and each new element is put in front, so the
      list ends up in reverse order. */
  function Prepended<T>(rs: seq<Result<T>>): Result<seq<T>> {
    if rs == [] then Ok([])
    else
      match Prepended(rs[..|rs| - 1])
      case Err(f) => Err(f)
      case Ok(xs) =>
        match rs[|rs| - 1]
        case Err(f) => Err(f)
        case Ok(x) => Ok([x] + xs)
  }

  /** A successful loop holds every element, in reverse order. */
  lemma {:induction false} PrependedReversed<T>(rs: seq<Result<T>>)
    ensures Prepended(rs).Ok? ==>
              |Prepended(rs).value| == |rs| &&
              forall k | 0 <= k < |rs| :: rs[k] == Ok(Prepended(rs).value[|rs| - 1 - k])
    decreases |rs|
  {
    if rs != [] {
      var init := rs[..|rs| - 1];
      PrependedReversed(init);
      if Prepended(rs).Ok? {
        var xs := Prepended(rs).value;
        forall k | 0 <= k < |rs| ensures rs[k] == Ok(xs[|rs| - 1 - k]) {
          if k < |init| {
            assert rs[k] == init[k];
          }
        }
      }
    }
  }

  /** A failed loop failed at its first failing element. */
  lemma {:induction false} PrependedFirstFailure<T>(rs: seq<Result<T>>)
    ensures Prepended(rs).Err? ==>
              exists k | 0 <= k < |rs| :: rs[k] == Err(Prepended(rs).failure) && forall j | 0 <= j < k :: rs[j].Ok?
    decreases |rs|
  {
    if rs != [] {
      var init := rs[..|rs| - 1];
      PrependedFirstFailure(init);
      if Prepended(init).Err? {
        var k :| 0 <= k < |init| && init[k] == Err(Prepended(init).failure) && forall j | 0 <= j < k :: init[j].Ok?;
        assert rs[k] == init[k];
        assert forall j | 0 <= j < k :: rs[j] == init[j];
      } else {
        PrependedReversed(init);
        assert forall j | 0 <= j < |init| :: rs[j] == init[j];
      }
    }
  }

  /** What every line of a descriptor makes. */
  function LineResults(d: Dialect, table: string, lines: seq<string>, colFiles: set<string>): (rs: seq<Result<Column>>)
    ensures |rs| == |lines|
    ensures forall k | 0 <= k < |lines| :: rs[k] == ReadLine(d, table, lines[k], colFiles)
  {
    seq(|lines|, k requires 0 <= k < |lines| => ReadLine(d, table, lines[k], colFiles))
  }

  /** The loop over the descriptor's lines. */
  function ReadLines(d: Dialect, table: string, lines: seq<string>, colFiles: set<string>): Result<seq<Column>> {
    Prepended(LineResults(d, table, lines, colFiles))
  }

  /** ReadTable: no table when the descriptor cannot be opened (`file` is
      None); otherwise the table named as asked with the columns read. */
  function ReadTable(d: Dialect, table: string, file: Option<seq<string>>, colFiles: set<string>): (r: Result<Table>)
    ensures file.None? ==> r == Err(Rejected)
    ensures r.Ok? ==> r.value.name == table
  {
    match file
    case None => Err(Rejected)
    case Some(lines) =>
      match ReadLines(d, table, lines, colFiles)
      case Err(f) => Err(f)
      case Ok(cols) => Ok(Table(table, cols))
  }

  /** The columns are the lines' columns in reverse line order; a failure
      is the failure of the first line that fails, every line before it
      having been read. */
  lemma ReadLinesReversed(d: Dialect, table: string, lines: seq<string>, colFiles: set<string>)
    ensures var r := ReadLines(d, table, lines, colFiles);
            r.Ok? ==> |r.value| == |lines| &&
                      forall k | 0 <= k < |lines| :: ReadLine(d, table, lines[k], colFiles) == Ok(r.value[|lines| - 1 - k])
    ensures var r := ReadLines(d, table, lines, colFiles);
            r.Err? ==> exists k | 0 <= k < |lines| ::
                         && ReadLine(d, table, lines[k], colFiles) == Err(r.failure)
                         && forall j | 0 <= j < k :: ReadLine(d, table, lines[j], colFiles).Ok?
  {
    var rs := LineResults(d, table, lines, colFiles);
    var r := ReadLines(d, table, lines, colFiles);
    PrependedReversed(rs);
    PrependedFirstFailure(rs);
    if r.Err? {
      var k :| 0 <= k < |rs| && rs[k] == Err(r.failure) && forall j | 0 <= j < k :: rs[j].Ok?;
      assert ReadLine(d, table, lines[k], colFiles) == Err(r.failure);
      assert forall j | 0 <= j < k :: ReadLine(d, table, lines[j], colFiles) == rs[j];
    }
  }

  /** A table's slot in the registry: NULL when ReadTable returned NULL. */
  function Slot(r: Result<Table>): Result<Option<Table>> {
    match r
    case Ok(t) => Ok(Some(t))
    case Err(Rejected) => Ok(None)
    case Err(f) => Err(f)
  }

  /** Reading the table called `name` from `Tables/<name>.tbl`, the path
      truncated by C's buffer; `files` are the descriptor files that exist.
      A slot that holds a table holds the one called `name`. */
  function LoadTable(d: Dialect, name: string, files: map<string, seq<string>>, colFiles: set<string>): (r: Result<Option<Table>>)
    ensures r.Ok? && r.value.Some? ==> r.value.value.name == name
  {
    var path := if d == C then Truncate(TablePath(name), PathMax) else TablePath(name);
    Slot(ReadTable(d, name, if path in files then Some(files[path]) else None, colFiles))
  }

  /** RegisterTable: the next slot of the fixed array; past the hundredth
      the write is out of bounds. */
  function Register(reg: Registry, slot: Option<Table>): (r: Result<Registry>)
    ensures r.Ok? <==> |reg| < MaxTables
    ensures r.Ok? ==> r.value == reg + [slot]
  {
    if |reg| >= MaxTables then Err(Undefined) else Ok(reg + [slot])
  }

  /** InitializeTable (table.h:170-175): load one table and register it,
      NULL when it could not be read. */
  function InitializeTable(name: string, files: map<string, seq<string>>, colFiles: set<string>, reg: Registry): Result<Registry> {
    match LoadTable(C, name, files, colFiles)
    case Err(f) => Err(f)
    case Ok(slot) => Register(reg, slot)
  }

  /** Registering loaded slots one after another, stopping at the first
      failure. The array never holds more than its hundred slots. */
  function RegisterAll(reg: Registry, slots: seq<Result<Option<Table>>>): (r: Result<Registry>)
    requires |reg| <= MaxTables
    ensures r.Ok? ==> |r.value| <= MaxTables
  {
    if slots == [] then Ok(reg)
    else
      match RegisterAll(reg, slots[..|slots| - 1])
      case Err(f) => Err(f)
      case Ok(prev) =>
        match slots[|slots| - 1]
        case Err(f) => Err(f)
        case Ok(slot) => Register(prev, slot)
  }

  /** The registry after registering: the slots already there, then the
      new slots in order. */
  lemma {:induction false} RegisterAllInOrder(reg: Registry, slots: seq<Result<Option<Table>>>)
    requires |reg| <= MaxTables
    ensures var r := RegisterAll(reg, slots);
            r.Ok? ==>
              && |r.value| == |reg| + |slots|
              && r.value[..|reg|] == reg
              && forall k | 0 <= k < |slots| :: slots[k] == Ok(r.value[|reg| + k])
    decreases |slots|
  {
    if slots != [] {
      var init := slots[..|slots| - 1];
      RegisterAllInOrder(reg, init);
      var r := RegisterAll(reg, slots);
      if r.Ok? {
        var prev := RegisterAll(reg, init).value;
        assert r.value == prev + [r.value[|r.value| - 1]];
        assert r.value[..|reg|] == prev[..|reg|];
        forall k | 0 <= k < |slots| ensures slots[k] == Ok(r.value[|reg| + k]) {
          if k < |init| {
            assert slots[k] == init[k];
          }
        }
      }
    }
  }

  /** What loading each name gives. */
  function LoadResults(names: seq<string>, files: map<string, seq<string>>, colFiles: set<string>): (rs: seq<Result<Option<Table>>>)
    ensures |rs| == |names|
    ensures forall k | 0 <= k < |names| :: rs[k] == LoadTable(Cpp, names[k], files, colFiles)
  {
    seq(|names|, k requires 0 <= k < |names| => LoadTable(Cpp, names[k], files, colFiles))
  }

  /** ReadTables (table.hpp:130-134): every name, in order, loaded and
      registered. */
  function ReadTables(names: seq<string>, files: map<string, seq<string>>, colFiles: set<string>, reg: Registry): Result<Registry>
    requires |reg| <= MaxTables
  {
    RegisterAll(reg, LoadResults(names, files, colFiles))
  }

  /** The registry after ReadTables: the slots already there, then one slot
      per name in the order given, each the table read under that name or
      NULL, and never more than a hundred slots. */
  lemma ReadTablesInOrder(names: seq<string>, files: map<string, seq<string>>, colFiles: set<string>, reg: Registry)
    requires |reg| <= MaxTables
    ensures var r := ReadTables(names, files, colFiles, reg);
            r.Ok? ==>
              && |r.value| == |reg| + |names| <= MaxTables
              && r.value[..|reg|] == reg
              && forall k | 0 <= k < |names| :: LoadTable(Cpp, names[k], files, colFiles) == Ok(r.value[|reg| + k])
    ensures var r := ReadTables(names, files, colFiles, reg);
            r.Ok? ==> forall k | 0 <= k < |names| :: r.value[|reg| + k].Some? ==> r.value[|reg| + k].value.name == names[k]
  {
    var rs := LoadResults(names, files, colFiles);
    RegisterAllInOrder(reg, rs);
  }
}
