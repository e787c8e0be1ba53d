/** The text layout of the table printer: centred padding
    (PrintPaddedString of table.h, PadString of table.hpp), the per-type
    and per-column widths, and the rows whose widths must line up. Only the
    strings are modelled; writing them out is not. */
module Layout {
  import opened Base
  import opened Catalog

  /** SIZE_MAX for a 64-bit size_t: what `return -1` becomes in a function
      returning size_t. */
  const SizeMax: nat := 0x1_0000_0000_0000_0000 - 1

  function Max(a: int, b: int): int {
    if a > b then a else b
  }

  /** `n` copies of the padding character. */
  function Fill(n: nat, p: char): (r: string)
    ensures |r| == n
    ensures forall k | 0 <= k < n :: r[k] == p
  {
    if n == 0 then [] else Fill(n - 1, p) + [p]
  }

  /** The padding before the string. */
  function LeftPad(len: nat, width: nat): nat {
    if len >= width then 0 else (width - len) / 2
  }

  /** The string centred in `width` characters: unchanged when it is at
      least that long; otherwise exactly `width` characters, the string a
      contiguous infix after (width - len) / 2 padding characters, and the
      odd character, if any, on the right. */
  function Pad(s: string, width: nat, p: char): (r: string)
    ensures |s| >= width ==> r == s
    ensures |r| == Max(|s|, width)
    ensures r[LeftPad(|s|, width)..LeftPad(|s|, width) + |s|] == s
    ensures forall k | 0 <= k < |r| :: k < LeftPad(|s|, width) || LeftPad(|s|, width) + |s| <= k ==> r[k] == p
  {
    if |s| >= width then s
    else
      var n := (width - |s|) / 2;
      var padded := Fill(n, p) + s + Fill(n, p);
      if |padded| != width then padded + [p] else padded
  }

  /** Centring never puts more padding on the left than on the right, and
      at most one more on the right. */
  lemma PadBalanced(s: string, width: nat, p: char)
    requires |s| < width
    ensures var right := |Pad(s, width, p)| - LeftPad(|s|, width) - |s|;
            LeftPad(|s|, width) <= right <= LeftPad(|s|, width) + 1
  {
  }

  /** Padding a padded string again to the same width changes nothing. */
  lemma PadIdempotent(s: string, width: nat, p: char)
    ensures Pad(Pad(s, width, p), width, p) == Pad(s, width, p)
  {
  }

  /** PrintPaddedString (table.h:178-195) with the characters it writes
      collected in order: the left padding, the string, the right padding,
      and one more padding character when the difference is odd. */
  method PrintPaddedString(s: string, width: nat, p: char) returns (out: string)
    ensures out == Pad(s, width, p)
  {
    var length := |s|;
    if length >= width {
      out := s;
      return;
    }
    var padSize := (width - length) / 2;
    out := [];
    var i := 0;
    while i < padSize
      invariant 0 <= i <= padSize
      invariant out == Fill(i, p)
    {
      out := out + [p];
      i := i + 1;
    }
    out := out + s;
    i := 0;
    while i < padSize
      invariant 0 <= i <= padSize
      invariant out == Fill(padSize, p) + s + Fill(i, p)
    {
      out := out + [p];
      i := i + 1;
    }
    if length + 2 * padSize != width {
      out := out + [p];
    }
  }

  /** GetWidthType (table.h:197-211) and the C++ GetWidth(int): the printed
      width of a type code; any other code falls out of the switch and
      returns -1 converted to size_t. */
  function TypeWidth(code: int): (w: nat)
    ensures 1 <= code <= 5 ==> 10 <= w <= 30
    ensures !(1 <= code <= 5) ==> w == SizeMax
  {
    if code == 1 then 10
    else if code == 2 then 20
    else if code == 3 then 20
    else if code == 4 then 30
    else if code == TypeStr then 20
    else SizeMax
  }

  /** The per-type widths: 10, 20, 20, 30 and 20 for int, lng, flt, dbl and
      str. */
  lemma TypeWidths()
    ensures TypeWidth(TypeCode(Int)) == 10
    ensures TypeWidth(TypeCode(Lng)) == 20
    ensures TypeWidth(TypeCode(Flt)) == 20
    ensures TypeWidth(TypeCode(Dbl)) == 30
    ensures TypeWidth(TypeStr) == 20
  {
  }

  /** The type byte of a column. A column whose descriptor named an unknown
      type never had it written; `unset` stands for whatever byte malloc
      left there. */
  function TypeByte(c: Column, unset: nat): int
    requires unset < 256
  {
    if c.ctype.Some? then TypeCode(c.ctype.value) else unset
  }

  /** GetWidth(Column*): the wider of the type's width and the name. */
  function ColumnWidth(c: Column, unset: nat): (w: nat)
    requires unset < 256
    ensures w >= |c.name| && w >= TypeWidth(TypeByte(c, unset))
    ensures w == |c.name| || w == TypeWidth(TypeByte(c, unset))
  {
    Max(TypeWidth(TypeByte(c, unset)), |c.name|)
  }

  /** The sum PrintTable accumulates over the column list: each column's
      width plus its two bars, before size_t wrap-around. */
  function WidthSum(cols: seq<Column>, unset: nat): nat
    requires unset < 256
  {
    if cols == [] then 0 else WidthSum(cols[..|cols| - 1], unset) + ColumnWidth(cols[|cols| - 1], unset) + 2
  }

  /** PrintTable's `width`, a size_t that wraps. */
  function TableWidth(cols: seq<Column>, unset: nat): nat
    requires unset < 256
  {
    WidthSum(cols, unset) % (SizeMax + 1)
  }

  /** The header row of PrintTable: each column's name centred in its width
      between two bars, in list order. */
  function HeaderRow(cols: seq<Column>, unset: nat): string
    requires unset < 256
  {
    if cols == [] then []
    else
      var c := cols[|cols| - 1];
      HeaderRow(cols[..|cols| - 1], unset) + "|" + Pad(c.name, ColumnWidth(c, unset), ' ') + "|"
  }

  /** The header row is exactly as wide as the dashed lines around it,
      unless the width sum wrapped. */
  lemma HeaderRowFits(cols: seq<Column>, unset: nat)
    requires unset < 256
    ensures WidthSum(cols, unset) <= SizeMax ==> |HeaderRow(cols, unset)| == TableWidth(cols, unset)
    ensures |HeaderRow(cols, unset)| == WidthSum(cols, unset)
  {
    HeaderRowLength(cols, unset);
    var n := WidthSum(cols, unset);
    if n <= SizeMax {
      NoWrap(n);
    }
  }

  /** A sum that fits in a size_t is kept as it is. */
  lemma NoWrap(n: nat)
    requires n <= SizeMax
    ensures n % (SizeMax + 1) == n
  {
  }

  /** Each column adds its width and two bars to the header row. */
  lemma {:induction false} HeaderRowLength(cols: seq<Column>, unset: nat)
    requires unset < 256
    ensures |HeaderRow(cols, unset)| == WidthSum(cols, unset)
  {
    if cols != [] {
      var init := cols[..|cols| - 1];
      var c := cols[|cols| - 1];
      HeaderRowLength(init, unset);
      var cell := Pad(c.name, ColumnWidth(c, unset), ' ');
      assert |cell| == ColumnWidth(c, unset);
      assert HeaderRow(cols, unset) == HeaderRow(init, unset) + "|" + cell + "|";
    }
  }

  /** The slot width of a table in PrintTables: its name and four more. */
  function SlotWidth(slot: Option<Table>): nat {
    if slot.Some? then |slot.value.name| + 4 else 0
  }

  /** PrintTables' `width`: the widest registered name plus four, 0 when
      nothing is registered. */
  function TablesWidth(reg: Registry): (w: nat)
    ensures forall k | 0 <= k < |reg| :: SlotWidth(reg[k]) <= w
    ensures w == 0 || exists k | 0 <= k < |reg| :: reg[k].Some? && w == SlotWidth(reg[k])
  {
    if reg == [] then 0
    else Max(TablesWidth(reg[..|reg| - 1]), SlotWidth(reg[|reg| - 1]))
  }

  /** One line of PrintTables: the name centred between two bars in
      `width - 2` characters. */
  function TablesRow(name: string, width: nat): string
    requires width >= 2
  {
    "|" + Pad(name, width - 2, ' ') + "|"
  }

  /** Every table line of PrintTables is exactly as wide as the dashed lines
      around it. */
  lemma TablesRowsFit(reg: Registry, k: nat)
    requires k < |reg| && reg[k].Some?
    ensures TablesWidth(reg) >= 2
    ensures |TablesRow(reg[k].value.name, TablesWidth(reg))| == TablesWidth(reg)
  {
    assert SlotWidth(reg[k]) <= TablesWidth(reg);
  }
}
