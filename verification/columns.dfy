/** Column-reference collection (parser.h:537-620, parser.hpp:464-508) and
    the list helpers around it. The source's ColumnList is a linked list
    that GetColumns starts as one node holding NULL; the first column found
    overwrites that NULL, so an expression without column references yields
    the one-node list [NULL]. That sentinel is kept here as `None`, because
    it shows through UnionColumns and GetColCount. */
module ColumnLists {
  import opened Base
  import opened Catalog
  import opened ExprParser

  type ColumnList = seq<Option<Column>>

  /** `a` followed by the elements of `b` that are not yet present, each
      checked against the list as grown so far. This is the loop of
      UnionColumns and, started from an empty list, the duplicate check of
      _GetColumns. */
  function Extend<T(==)>(a: seq<T>, b: seq<T>): seq<T>
    decreases |b|
  {
    if b == [] then a
    else
      var u := Extend(a, b[..|b| - 1]);
      if b[|b| - 1] in u then u else u + [b[|b| - 1]]
  }

  predicate NoDuplicates<T(==)>(s: seq<T>) {
    forall j, k | 0 <= j < k < |s| :: s[j] != s[k]
  }

  /** The elements of `b` not in `a`, in `b`'s order. */
  function Without<T(==)>(b: seq<T>, a: seq<T>): (r: seq<T>)
    ensures forall x | x in r :: x in b && x !in a
    ensures forall x | x in b && x !in a :: x in r
  {
    if b == [] then []
    else (if b[0] in a then [] else [b[0]]) + Without(b[1..], a)
  }

  /** Extend keeps `a` as a prefix, adds exactly the elements of `b`, and
      never adds an element twice. */
  lemma {:induction false} ExtendContents<T>(a: seq<T>, b: seq<T>)
    ensures |a| <= |Extend(a, b)| && Extend(a, b)[..|a|] == a
    ensures forall x :: x in Extend(a, b) <==> x in a || x in b
    ensures NoDuplicates(a) ==> NoDuplicates(Extend(a, b))
    decreases |b|
  {
    if b != [] {
      var p := b[..|b| - 1];
      ExtendContents(a, p);
      var u := Extend(a, p);
      assert b == p + [b[|b| - 1]];
      forall x ensures x in b <==> x in p || x == b[|b| - 1] {
        assert x in b ==> x in p || x == b[|b| - 1] by {
          if x in b {
            var k :| 0 <= k < |b| && b[k] == x;
            if k < |b| - 1 { assert p[k] == x; }
          }
        }
      }
      if b[|b| - 1] !in u {
        assert (u + [b[|b| - 1]])[..|a|] == u[..|a|];
      }
    }
  }

  /** Extending by a concatenation extends by each part in turn. */
  lemma {:induction false} ExtendAppend<T>(a: seq<T>, b: seq<T>, c: seq<T>)
    ensures Extend(a, b + c) == Extend(Extend(a, b), c)
    decreases |c|
  {
    if c == [] {
      assert b + c == b;
    } else {
      var c' := c[..|c| - 1];
      assert (b + c)[..|b + c| - 1] == b + c';
      assert (b + c)[|b + c| - 1] == c[|c| - 1];
      ExtendAppend(a, b, c');
    }
  }

  /** When `b` has no duplicates of its own, UnionColumns' result is `a`
      followed by the elements of `b` not in `a`, in `b`'s order. */
  lemma {:induction false} ExtendIsAppendWithout<T>(a: seq<T>, b: seq<T>)
    requires NoDuplicates(b)
    ensures Extend(a, b) == a + Without(b, a)
    decreases |b|
  {
    if b != [] {
      var p := b[..|b| - 1];
      var x := b[|b| - 1];
      NoDuplicatesLast(b);
      ExtendIsAppendWithout(a, p);
      ExtendContents(a, p);
      ExtendLast(a, b);
      assert b == p + [x];
      WithoutSnoc(p, x, a);
      ExtendStep(a, Without(p, a), x);
    }
  }

  /** Without its last element a duplicate-free sequence stays duplicate
      free and no longer holds that element. */
  lemma NoDuplicatesLast<T>(b: seq<T>)
    requires b != [] && NoDuplicates(b)
    ensures NoDuplicates(b[..|b| - 1]) && b[|b| - 1] !in b[..|b| - 1]
  {
  }

  /** The last step of Extend. */
  lemma ExtendLast<T>(a: seq<T>, b: seq<T>)
    requires b != []
    ensures var u := Extend(a, b[..|b| - 1]);
            Extend(a, b) == if b[|b| - 1] in u then u else u + [b[|b| - 1]]
  {
  }

  /** Adding `x` to `a + w`, when `x` is in `a + w` only if it is in `a`. */
  lemma ExtendStep<T>(a: seq<T>, w: seq<T>, x: T)
    requires x in w ==> x in a
    ensures (if x in a + w then a + w else a + w + [x]) == a + (w + (if x in a then [] else [x]))
  {
    if x !in a {
      assert x !in a + w;
    }
  }

  lemma {:induction false} WithoutSnoc<T>(p: seq<T>, x: T, a: seq<T>)
    ensures Without(p + [x], a) == Without(p, a) + (if x in a then [] else [x])
    decreases |p|
  {
    var t: seq<T> := if x in a then [] else [x];
    if p == [] {
      assert [x][1..] == [];
      assert p + [x] == [x];
    } else {
      var q := p + [x];
      assert q[0] == p[0] && q[1..] == p[1..] + [x];
      WithoutSnoc(p[1..], x, a);
      var h: seq<T> := if p[0] in a then [] else [p[0]];
      assert Without(q, a) == h + (Without(p[1..], a) + t);
      assert h + (Without(p[1..], a) + t) == (h + Without(p[1..], a)) + t;
    }
  }

  /** The list the source holds for a duplicate-free sequence of columns:
      the sentinel [NULL] when there are none. */
  function Lift(xs: seq<Column>): (l: ColumnList)
    ensures |l| >= 1
  {
    if xs == [] then [None]
    else seq(|xs|, k requires 0 <= k < |xs| => Some(xs[k]))
  }

  lemma LiftMembers(xs: seq<Column>, c: Column)
    ensures Some(c) in Lift(xs) <==> c in xs
  {
    if c in xs {
      var k :| 0 <= k < |xs| && xs[k] == c;
      assert Lift(xs)[k] == Some(c);
    }
  }

  /** The names a tree references, left to right. */
  function Refs(e: Expr): seq<string> {
    match e
    case Const(_) => []
    case ColumnRef(n) => [n]
    case Binary(_, _, l, r) => Refs(l) + Refs(r)
  }

  /** Each name looked up with GetColumn; None as soon as one is unknown. */
  function Resolve(t: Table, names: seq<string>): Option<seq<Column>> {
    if names == [] then Some([])
    else
      match GetColumn(t, names[0])
      case None => None
      case Some(c) =>
        match Resolve(t, names[1..])
        case None => None
        case Some(cs) => Some([c] + cs)
  }

  /** Resolution fails exactly when one of the names is unknown, and
      otherwise gives, position by position, the column GetColumn finds. */
  lemma ResolveSpec(t: Table, names: seq<string>)
    ensures Resolve(t, names).None? <==> exists n | n in names :: GetColumn(t, n).None?
    ensures Resolve(t, names).Some? ==> |Resolve(t, names).value| == |names|
    ensures Resolve(t, names).Some? ==>
              forall k | 0 <= k < |names| :: GetColumn(t, names[k]) == Some(Resolve(t, names).value[k])
  {
    ResolveFails(t, names);
    ResolvePointwise(t, names);
  }

  lemma {:induction false} ResolveFails(t: Table, names: seq<string>)
    ensures Resolve(t, names).None? <==> exists n | n in names :: GetColumn(t, n).None?
    decreases |names|
  {
    if names != [] {
      ResolveFails(t, names[1..]);
      assert forall n | n in names :: n == names[0] || n in names[1..];
    }
  }

  lemma {:induction false} ResolvePointwise(t: Table, names: seq<string>)
    ensures Resolve(t, names).Some? ==> |Resolve(t, names).value| == |names|
    ensures Resolve(t, names).Some? ==>
              forall k | 0 <= k < |names| :: GetColumn(t, names[k]) == Some(Resolve(t, names).value[k])
    decreases |names|
  {
    if names != [] && Resolve(t, names).Some? {
      ResolvePointwise(t, names[1..]);
      var c := GetColumn(t, names[0]).value;
      var rest := Resolve(t, names[1..]).value;
      var cs := Resolve(t, names).value;
      assert cs == [c] + rest;
      forall k | 0 <= k < |names| ensures GetColumn(t, names[k]) == Some(cs[k]) {
        if k > 0 {
          assert names[k] == names[1..][k - 1];
        }
      }
    }
  }

  /** The step of _GetColumns for a column found in the table: nothing
      happens when it is already listed; otherwise it overwrites a trailing
      NULL or is appended after the last node. */
  function AddColumn(acc: ColumnList, c: Column): ColumnList
    requires |acc| >= 1
  {
    if Some(c) in acc then acc
    else if acc[|acc| - 1].None? then acc[..|acc| - 1] + [Some(c)]
    else acc + [Some(c)]
  }

  /** _GetColumns: a depth-first walk, left operand first, stopping at the
      first unknown column. */
  function Collect(t: Table, e: Expr, acc: ColumnList): Option<ColumnList>
    requires |acc| >= 1
  {
    match e
    case Const(_) => Some(acc)
    case ColumnRef(n) =>
      (match GetColumn(t, n)
       case None => None
       case Some(c) => Some(AddColumn(acc, c)))
    case Binary(_, _, l, r) =>
      match Collect(t, l, acc)
      case None => None
      case Some(a) => if |a| >= 1 then Collect(t, r, a) else None
  }

  /** GetColumns: the walk started from the one-node list [NULL]. */
  function GetColumns(t: Table, e: Expr): Option<ColumnList> {
    Collect(t, e, [None])
  }

  lemma AddColumnLift(xs: seq<Column>, c: Column)
    ensures AddColumn(Lift(xs), c) == Lift(Extend(xs, [c]))
  {
    assert [c][..0] == [];
    LiftMembers(xs, c);
    if c !in xs && xs != [] {
      assert Lift(xs) + [Some(c)] == Lift(xs + [c]);
    }
  }

  /** The walk from a list already holding `xs`: it fails exactly when a
      referenced name is unknown, and otherwise holds `xs` extended by the
      referenced columns in first-occurrence order. */
  lemma {:induction false} CollectLift(t: Table, e: Expr, xs: seq<Column>)
    ensures Collect(t, e, Lift(xs)).None? <==> Resolve(t, Refs(e)).None?
    ensures Resolve(t, Refs(e)).Some? ==>
              Collect(t, e, Lift(xs)) == Some(Lift(Extend(xs, Resolve(t, Refs(e)).value)))
  {
    match e
    case Const(_) =>
    case ColumnRef(n) =>
      assert Refs(e)[1..] == [];
      if GetColumn(t, n).Some? {
        AddColumnLift(xs, GetColumn(t, n).value);
      }
    case Binary(_, _, l, r) =>
      ResolveAppend(t, Refs(l), Refs(r));
      CollectLift(t, l, xs);
      if Resolve(t, Refs(l)).Some? {
        var ys := Extend(xs, Resolve(t, Refs(l)).value);
        CollectLift(t, r, ys);
        if Resolve(t, Refs(r)).Some? {
          ExtendAppend(xs, Resolve(t, Refs(l)).value, Resolve(t, Refs(r)).value);
        }
      }
  }

  /** Resolving a concatenation resolves each part. */
  lemma ResolveAppend(t: Table, a: seq<string>, b: seq<string>)
    ensures Resolve(t, a + b).None? <==> Resolve(t, a).None? || Resolve(t, b).None?
    ensures Resolve(t, a).Some? && Resolve(t, b).Some? ==>
              Resolve(t, a + b) == Some(Resolve(t, a).value + Resolve(t, b).value)
  {
    ResolveFails(t, a);
    ResolveFails(t, b);
    ResolveFails(t, a + b);
    assert forall n :: n in a + b <==> n in a || n in b;
    if Resolve(t, a).Some? && Resolve(t, b).Some? {
      ResolvePointwise(t, a);
      ResolvePointwise(t, b);
      ResolvePointwise(t, a + b);
      var x, y, z := Resolve(t, a).value, Resolve(t, b).value, Resolve(t, a + b).value;
      forall k | 0 <= k < |z| ensures z[k] == (x + y)[k] {
        if k < |a| {
          assert (a + b)[k] == a[k];
        } else {
          assert (a + b)[k] == b[k - |a|];
        }
      }
      assert z == x + y;
    }
  }

  /** GetColumns yields the distinct referenced columns in left-to-right
      first-occurrence order (the list [NULL] when there are none), and NULL
      exactly when some referenced name is not a column of the table. */
  lemma GetColumnsSpec(t: Table, e: Expr)
    ensures GetColumns(t, e).None? <==> exists n | n in Refs(e) :: GetColumn(t, n).None?
    ensures Resolve(t, Refs(e)).Some? ==>
              GetColumns(t, e) == Some(Lift(Extend([], Resolve(t, Refs(e)).value)))
    ensures GetColumns(t, e).Some? ==> |GetColumns(t, e).value| >= 1 && NoDuplicates(GetColumns(t, e).value)
  {
    assert Lift([]) == [None];
    CollectLift(t, e, []);
    ResolveSpec(t, Refs(e));
    if GetColumns(t, e).Some? {
      var xs := Extend([], Resolve(t, Refs(e)).value);
      ExtendContents([], Resolve(t, Refs(e)).value);
      assert NoDuplicates(Lift(xs)) by {
        if xs != [] {
          forall j, k | 0 <= j < k < |xs| ensures Lift(xs)[j] != Lift(xs)[k] {
            assert xs[j] != xs[k];
          }
        }
      }
    }
  }

  /** A column is among the resolved ones exactly when some name resolves
      to it. */
  lemma ResolvedMembers(t: Table, names: seq<string>, c: Column)
    requires Resolve(t, names).Some?
    ensures c in Resolve(t, names).value <==> exists n | n in names :: GetColumn(t, n) == Some(c)
  {
    ResolveSpec(t, names);
    var rs := Resolve(t, names).value;
    if c in rs {
      var k :| 0 <= k < |rs| && rs[k] == c;
      assert names[k] in names;
    }
    if exists n | n in names :: GetColumn(t, n) == Some(c) {
      var n :| n in names && GetColumn(t, n) == Some(c);
      var k :| 0 <= k < |names| && names[k] == n;
      assert rs[k] == c;
    }
  }

  /** What a resolved list holds: a column exactly when a referenced name
      resolves to it, and the NULL sentinel exactly when nothing is
      referenced. */
  lemma GetColumnsMembers(t: Table, e: Expr)
    ensures GetColumns(t, e).Some? ==>
              forall c :: Some(c) in GetColumns(t, e).value <==> exists n | n in Refs(e) :: GetColumn(t, n) == Some(c)
    ensures GetColumns(t, e).Some? ==> (None in GetColumns(t, e).value <==> Refs(e) == [])
  {
    GetColumnsSpec(t, e);
    ResolveSpec(t, Refs(e));
    if GetColumns(t, e).Some? {
      var rs := Resolve(t, Refs(e)).value;
      var xs := Extend([], rs);
      assert GetColumns(t, e).value == Lift(xs);
      ExtendContents([], rs);
      forall c ensures Some(c) in Lift(xs) <==> exists n | n in Refs(e) :: GetColumn(t, n) == Some(c) {
        LiftMembers(xs, c);
        ResolvedMembers(t, Refs(e), c);
      }
      if xs != [] {
        assert None !in Lift(xs);
        assert rs != [];
      }
    }
  }

  /** ColumnInList (parser.h:576-585). */
  method ColumnInList(l: ColumnList, c: Option<Column>) returns (found: bool)
    ensures found <==> c in l
  {
    var k := 0;
    while k < |l|
      invariant 0 <= k <= |l|
      invariant c !in l[..k]
    {
      if l[k] == c {
        return true;
      }
      k := k + 1;
    }
    assert l[..k] == l;
    return false;
  }

  /** Tail (parser.h:587-592): the last node of a list, which the source
      requires to have at least one node. */
  method Tail(l: ColumnList) returns (last: Option<Column>)
    requires |l| >= 1
    ensures last == l[|l| - 1]
  {
    var k := 0;
    while k + 1 < |l|
      invariant 0 <= k < |l|
    {
      k := k + 1;
    }
    last := l[k];
  }

  /** UnionColumns (parser.h:594-610) over the source's lists, where a NULL
      list is None and a non-NULL list has at least one node. Two NULL lists
      fail the source's assert. */
  method UnionColumns(a: Option<ColumnList>, b: Option<ColumnList>) returns (r: Result<Option<ColumnList>>)
    requires a.Some? ==> |a.value| >= 1
    requires b.Some? ==> |b.value| >= 1
    ensures a.None? && b.None? <==> r == Err(Aborted)
    ensures a.None? && b.Some? ==> r == Ok(b)
    ensures a.Some? && b.None? ==> r == Ok(a)
    ensures a.Some? && b.Some? ==> r == Ok(Some(Extend(a.value, b.value)))
  {
    if a.None? && b.None? {
      return Err(Aborted);
    }
    if a.None? {
      return Ok(b);
    }
    if b.None? {
      return Ok(a);
    }
    var acc := a.value;
    var rest := b.value;
    var k := 0;
    while k < |rest|
      invariant 0 <= k <= |rest|
      invariant acc == Extend(a.value, rest[..k])
    {
      assert rest[..k + 1][..k] == rest[..k];
      var present := ColumnInList(acc, rest[k]);
      if !present {
        acc := acc + [rest[k]];
      }
      k := k + 1;
    }
    assert rest[..k] == rest;
    return Ok(Some(acc));
  }

  /** `n` nodes lead the list holding a column each, and the walk of
      GetColCount stops after them. */
  predicate CountsLeading(l: ColumnList, n: nat) {
    n <= |l| && (forall j | 0 <= j < n :: l[j].Some?) && (n == |l| || l[n].None?)
  }

  /** GetColCount (parser.h:612-620, parser.hpp:500-508). */
  method GetColCount(l: ColumnList) returns (count: nat)
    ensures CountsLeading(l, count)
  {
    count := 0;
    while count < |l| && l[count].Some?
      invariant count <= |l|
      invariant forall j | 0 <= j < count :: l[j].Some?
    {
      count := count + 1;
    }
  }

  /** On a list GetColumns built, GetColCount is the number of distinct
      columns collected. */
  lemma ColCountOfLift(xs: seq<Column>, n: nat)
    ensures CountsLeading(Lift(xs), n) <==> n == |xs|
  {
    var l := Lift(xs);
    if xs == [] {
      assert l == [None];
      if n > 0 && n <= |l| {
        assert !l[0].Some?;
      }
    } else {
      assert |l| == |xs|;
      assert forall j | 0 <= j < |xs| :: l[j].Some?;
      if n < |xs| {
        assert l[n].Some?;
      }
    }
  }

  /** A union of the sentinel [NULL] with a list of columns keeps the
      sentinel in front, so GetColCount sees no column at all: for
      `SELECT 1 FROM t WHERE x > 0` the C query's column list holds `x` but
      counts zero. */
  lemma SentinelHidesColumns(x: Column)
    ensures Extend([None], Lift([x])) == [None, Some(x)]
    ensures CountsLeading([None, Some(x)], 0)
  {
    assert Lift([x]) == [Some(x)];
    assert [Some(x)][..0] == [];
  }

  /** The source's list inversions, InvertList and InvertColumnList
      (parser.h:392-418): each node is moved to the front of the result. */
  method Invert<T>(s: seq<T>) returns (r: seq<T>)
    ensures |r| == |s|
    ensures forall k | 0 <= k < |s| :: r[k] == s[|s| - 1 - k]
    ensures r == Reverse(s)
  {
    r := [];
    var k := 0;
    while k < |s|
      invariant 0 <= k <= |s|
      invariant |r| == k
      invariant forall j | 0 <= j < k :: r[j] == s[k - 1 - j]
    {
      r := [s[k]] + r;
      k := k + 1;
    }
    forall j | 0 <= j < |s| ensures r[j] == Reverse(s)[j] {
      ReverseAt(s, j);
    }
  }

  /** The inversion as a reference definition: the last element first. */
  function Reverse<T>(s: seq<T>): (r: seq<T>)
    ensures |r| == |s|
  {
    if s == [] then [] else Reverse(s[1..]) + [s[0]]
  }

  lemma {:induction false} ReverseAt<T>(s: seq<T>, k: nat)
    requires k < |s|
    ensures Reverse(s)[k] == s[|s| - 1 - k]
    decreases |s|
  {
    if k < |s| - 1 {
      ReverseAt(s[1..], k);
    }
  }

  /** Inverting twice gives back the original order. */
  lemma ReverseTwice<T>(s: seq<T>)
    ensures Reverse(Reverse(s)) == s
  {
    forall k | 0 <= k < |s| ensures Reverse(Reverse(s))[k] == s[k] {
      ReverseAt(Reverse(s), k);
      ReverseAt(s, |s| - 1 - k);
    }
  }

  /** SelectStarFromTable (parser.h:420-432): one column operation per
      column, built front to back by prepending and then inverted, so the
      result follows the table's column order. */
  method SelectStarFromTable(t: Table) returns (ops: seq<Expr>)
    ensures |ops| == |t.columns|
    ensures forall k | 0 <= k < |ops| :: ops[k] == ColumnRef(t.columns[k].name)
  {
    var collection: seq<Expr> := [];
    var k := 0;
    while k < |t.columns|
      invariant 0 <= k <= |t.columns|
      invariant |collection| == k
      invariant forall j | 0 <= j < k :: collection[j] == ColumnRef(t.columns[k - 1 - j].name)
    {
      collection := [ColumnRef(t.columns[k].name)] + collection;
      k := k + 1;
    }
    ops := Invert(collection);
  }
}
