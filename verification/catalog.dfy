/** The catalog of table.h and table.hpp: column types, columns, tables and
    the fixed-size array of registered tables, with the first-match lookups
    the parser resolves names through. */
module Catalog {
  import opened Base

  /** TYPE_int .. TYPE_dbl. TYPE_str (5) has a width but no column is ever
      given it. */
  datatype ColumnType = Int | Lng | Flt | Dbl

  const TypeStr := 5

  function TypeCode(t: ColumnType): (code: int)
    ensures 1 <= code <= 4
  {
    match t
    case Int => 1
    case Lng => 2
    case Flt => 3
    case Dbl => 4
  }

  /** The element size the descriptor reader stores with each type
      (table.h:138-150, table.hpp:96-108). */
  function ElementSize(t: ColumnType): nat {
    match t
    case Int => 4
    case Lng => 8
    case Flt => 4
    case Dbl => 8
  }

  /** The spelling of a type in a descriptor line. */
  function TypeName(t: ColumnType): string {
    match t
    case Int => "int"
    case Lng => "lng"
    case Flt => "flt"
    case Dbl => "dbl"
  }

  /** The descriptor reader's chain of string comparisons. Any other word
      leaves the column's type and element size unset. */
  function ParseTypeName(s: string): Option<ColumnType> {
    if s == "int" then Some(Int)
    else if s == "lng" then Some(Lng)
    else if s == "flt" then Some(Flt)
    else if s == "dbl" then Some(Dbl)
    else None
  }

  /** The type-code mapping: each of the four words names exactly one type,
      whose code and element size are (1, 4), (2, 8), (3, 4), (4, 8). */
  lemma TypeNames(s: string, t: ColumnType)
    ensures ParseTypeName(s) == Some(t) <==> s == TypeName(t)
    ensures TypeCode(t) == 1 ==> t == Int && ElementSize(t) == 4
    ensures TypeCode(t) == 2 ==> t == Lng && ElementSize(t) == 8
    ensures TypeCode(t) == 3 ==> t == Flt && ElementSize(t) == 4
    ensures TypeCode(t) == 4 ==> t == Dbl && ElementSize(t) == 8
  {
  }

  /** A column as the descriptor reader builds it. `ctype` is None when the
      descriptor named an unknown type (the field is then never written);
      `loaded` tells whether the data pointer has been filled. */
  datatype Column = Column(
    name: string,
    ctype: Option<ColumnType>,
    baseOid: int,
    size: int,
    dataLocation: string,
    loaded: bool)

  /** A table and its column list, in list order. */
  datatype Table = Table(name: string, columns: seq<Column>)

  /** The slots `tables[0 .. current_table - 1]`; a slot is None when the
      table registered there could not be read. */
  type Registry = seq<Option<Table>>

  const MaxTables := 100

  /** The index GetColumn stops at: the first column named `name`. */
  function FindColumn(cols: seq<Column>, name: string): (r: Option<nat>)
    ensures r.Some? ==> r.value < |cols| && cols[r.value].name == name
    ensures r.Some? ==> forall k | 0 <= k < r.value :: cols[k].name != name
    ensures r.None? ==> forall k | 0 <= k < |cols| :: cols[k].name != name
  {
    if |cols| == 0 then None
    else if cols[0].name == name then Some(0)
    else match FindColumn(cols[1..], name)
      case None => None
      case Some(k) => Some(k + 1)
  }

  /** GetColumn (table.h:45-53, table.hpp:46-54). */
  function GetColumn(t: Table, name: string): (r: Option<Column>)
    ensures r.Some? ==> r.value in t.columns && r.value.name == name
  {
    match FindColumn(t.columns, name)
    case None => None
    case Some(k) => Some(t.columns[k])
  }

  /** The slot GetTable stops at: the first non-empty slot whose table is
      named `name`. */
  function FindTable(reg: Registry, name: string): (r: Option<nat>)
    ensures r.Some? ==> r.value < |reg| && reg[r.value].Some? && reg[r.value].value.name == name
    ensures r.Some? ==> forall k | 0 <= k < r.value :: reg[k].None? || reg[k].value.name != name
    ensures r.None? ==> forall k | 0 <= k < |reg| :: reg[k].None? || reg[k].value.name != name
  {
    if |reg| == 0 then None
    else if reg[0].Some? && reg[0].value.name == name then Some(0)
    else match FindTable(reg[1..], name)
      case None => None
      case Some(k) => Some(k + 1)
  }

  /** GetTable (table.h:55-62, table.hpp:56-63). */
  function GetTable(reg: Registry, name: string): (r: Option<Table>)
    ensures r.Some? ==> Some(r.value) in reg && r.value.name == name
  {
    match FindTable(reg, name)
    case None => None
    case Some(k) => reg[k]
  }

  /** GetColumn answers with the first column of the table carrying the
      name, and with nothing exactly when no column carries it. */
  lemma GetColumnFirstMatch(t: Table, name: string)
    ensures GetColumn(t, name).None? <==> forall c | c in t.columns :: c.name != name
    ensures GetColumn(t, name).Some? ==>
              GetColumn(t, name).value in t.columns && GetColumn(t, name).value.name == name
    ensures GetColumn(t, name).Some? ==>
              exists k | 0 <= k < |t.columns| ::
                t.columns[k] == GetColumn(t, name).value && forall j | 0 <= j < k :: t.columns[j].name != name
  {
    var r := FindColumn(t.columns, name);
    if r.None? {
      forall c | c in t.columns ensures c.name != name {
        var k :| 0 <= k < |t.columns| && t.columns[k] == c;
      }
    } else {
      var k := r.value;
      assert t.columns[k] == GetColumn(t, name).value && forall j | 0 <= j < k :: t.columns[j].name != name;
    }
  }

  /** GetTable answers with the table of the first slot registered under
      the name, and with nothing exactly when no registered table carries it. */
  lemma GetTableFirstMatch(reg: Registry, name: string)
    ensures GetTable(reg, name).None? <==> forall k | 0 <= k < |reg| :: reg[k].None? || reg[k].value.name != name
    ensures GetTable(reg, name).Some? ==>
              Some(GetTable(reg, name).value) in reg && GetTable(reg, name).value.name == name
    ensures GetTable(reg, name).Some? ==>
              exists k | 0 <= k < |reg| ::
                reg[k] == GetTable(reg, name) && forall j | 0 <= j < k :: reg[j].None? || reg[j].value.name != name
  {
    var r := FindTable(reg, name);
    if r.Some? {
      var k := r.value;
      assert reg[k] == GetTable(reg, name) && forall j | 0 <= j < k :: reg[j].None? || reg[j].value.name != name;
    }
  }
}
