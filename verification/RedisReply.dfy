/**
 Rendering a Redis reply into rows (internal/node/redis.go): a depth-first walk that
 stops at a leaf or byte cap, and the grids built from its leaves. Map replies, which
 the RESP2 client never receives, are left out.
 */
module RedisReply {
  import opened Common
  import opened Utf8

  datatype Reply =
    | NilReply
    | Arr(items: seq<Reply>)
    | Str(bytes: seq<Byte>)
    | Formatted(text: string, kind: string)   // integer, double, boolean or unknown, as printed

  /** A grid cell: text, the base64 form of raw bytes, printed text, or a row number. */
  datatype Cell = Text(bytes: seq<Byte>) | Base64(bytes: seq<Byte>) | Printed(text: string) | Index(i: nat)

  datatype Leaf = Leaf(value: Option<Cell>, binary: bool, kind: string)

  function TextLeaf(raw: seq<Byte>): Leaf {
    if Valid(raw) then Leaf(Some(Text(raw)), false, "string") else Leaf(Some(Base64(raw)), true, "string")
  }

  /** The cell a scalar gets: none for nil, text as itself, other bytes as base64,
      anything else as printed. */
  ghost predicate CellShows(v: Reply, cell: Option<Cell>) {
    match v
    case NilReply => cell == None
    case Arr(_) => false
    case Str(b) => cell == Some(if Valid(b) then Text(b) else Base64(b))
    case Formatted(text, _) => cell == Some(Printed(text))
  }

  ghost predicate NotText(v: Reply) {
    v.Str? && !Valid(v.bytes)
  }

  ghost predicate HasKind(v: Reply, kind: string) {
    match v
    case NilReply => kind == "nil"
    case Arr(_) => false
    case Str(_) => kind == "string"
    case Formatted(_, k) => kind == k
  }

  ghost predicate AllHaveKind(vs: seq<Reply>, kind: string) {
    forall i | 0 <= i < |vs| :: HasKind(vs[i], kind)
  }

  ghost predicate ShownAs(v: Reply, l: Leaf) {
    CellShows(v, l.value) && (l.binary <==> NotText(v)) && HasKind(v, l.kind)
  }

  ghost predicate AllShownAs(vs: seq<Reply>, ls: seq<Leaf>) {
    |vs| == |ls| && forall i | 0 <= i < |vs| :: ShownAs(vs[i], ls[i])
  }

  /** The bytes of the string replies among `vs`. */
  ghost function StringBytes(vs: seq<Reply>): nat {
    if vs == [] then 0
    else StringBytes(vs[..|vs| - 1]) + (if vs[|vs| - 1].Str? then |vs[|vs| - 1].bytes| else 0)
  }

  lemma OneMoreShown(vs: seq<Reply>, ls: seq<Leaf>, v: Reply, l: Leaf)
    requires AllShownAs(vs, ls) && ShownAs(v, l)
    ensures AllShownAs(vs + [v], ls + [l])
    ensures StringBytes(vs + [v]) == StringBytes(vs) + if v.Str? then |v.bytes| else 0
  {
    assert (vs + [v])[..|vs|] == vs;
  }

  // ------------------------------------------------------- the full traversal

  /** The scalars of a reply, depth first. */
  ghost function Flatten(v: Reply): seq<Reply>
    decreases v, 1
  {
    if v.Arr? then FlattenAll(v.items) else [v]
  }

  ghost function FlattenAll(items: seq<Reply>): seq<Reply>
    decreases items, 0
  {
    if items == [] then [] else Flatten(items[0]) + FlattenAll(items[1..])
  }

  /** Every node in visiting order: None for an array, the scalar itself otherwise. */
  ghost function Visits(v: Reply): seq<Option<Reply>>
    decreases v, 1
  {
    if v.Arr? then [None] + VisitsAll(v.items) else [Some(v)]
  }

  ghost function VisitsAll(items: seq<Reply>): seq<Option<Reply>>
    decreases items, 0
  {
    if items == [] then [] else Visits(items[0]) + VisitsAll(items[1..])
  }

  ghost function Leaves(vs: seq<Option<Reply>>): seq<Reply> {
    if vs == [] then [] else (if vs[0].Some? then [vs[0].value] else []) + Leaves(vs[1..])
  }

  lemma {:induction false} LeavesConcat(a: seq<Option<Reply>>, b: seq<Option<Reply>>)
    ensures Leaves(a + b) == Leaves(a) + Leaves(b)
    decreases |a|
  {
    if a == [] {
      assert a + b == b;
    } else {
      ConcatDrops(a, b, 1);
      LeavesConcat(a[1..], b);
      ConcatAssociates(if a[0].Some? then [a[0].value] else [], Leaves(a[1..]), Leaves(b));
    }
  }

  lemma {:induction false} VisitsHoldFlattening(v: Reply)
    ensures Leaves(Visits(v)) == Flatten(v)
    decreases v, 1
  {
    if v.Arr? {
      VisitsAllHoldFlattening(v.items);
      assert ([None] + VisitsAll(v.items))[1..] == VisitsAll(v.items);
    } else {
      assert [Some(v)][1..] == [];
    }
  }

  lemma {:induction false} VisitsAllHoldFlattening(items: seq<Reply>)
    ensures Leaves(VisitsAll(items)) == FlattenAll(items)
    decreases items, 0
  {
    if items != [] {
      VisitsHoldFlattening(items[0]);
      VisitsAllHoldFlattening(items[1..]);
      LeavesConcat(Visits(items[0]), VisitsAll(items[1..]));
    }
  }

  // --------------------------------------------------------- the capped walk

  datatype Caps = Caps(leaves: int, bytes: int)

  /** The leaf cap or the byte cap is met. */
  ghost predicate Full(ls: seq<Reply>, c: Caps) {
    |ls| >= c.leaves || StringBytes(ls) >= c.bytes
  }

  /** Visiting nodes one by one until a cap is met; false when one was. */
  ghost function WalkOver(vs: seq<Option<Reply>>, ls: seq<Reply>, c: Caps): (seq<Reply>, bool)
    decreases |vs|
  {
    if vs == [] then (ls, true)
    else if Full(ls, c) then (ls, false)
    else WalkOver(vs[1..], if vs[0].Some? then ls + [vs[0].value] else ls, c)
  }

  lemma {:induction false} WalkConcat(a: seq<Option<Reply>>, b: seq<Option<Reply>>, ls: seq<Reply>, c: Caps)
    ensures WalkOver(a + b, ls, c) == if WalkOver(a, ls, c).1 then WalkOver(b, WalkOver(a, ls, c).0, c) else WalkOver(a, ls, c)
    decreases |a|
  {
    if a == [] {
      assert a + b == b;
    } else {
      ConcatDrops(a, b, 1);
      if !Full(ls, c) {
        WalkConcat(a[1..], b, if a[0].Some? then ls + [a[0].value] else ls, c);
      }
    }
  }

  /** The walk with its shared leaves and byte count. */
  class Walker {
    const caps: Caps
    var leaves: seq<Leaf>
    var bytesUsed: nat
    ghost var shown: seq<Reply>

    ghost predicate Valid()
      reads this
    {
      AllShownAs(shown, leaves) && bytesUsed == StringBytes(shown)
    }

    constructor (caps: Caps)
      ensures this.caps == caps && shown == [] && Valid()
    {
      this.caps, leaves, bytesUsed, shown := caps, [], 0, [];
    }

    /** False once a cap is hit. */
    method Walk(v: Reply) returns (more: bool)
      requires Valid()
      modifies this
      ensures Valid() && (shown, more) == WalkOver(Visits(v), old(shown), caps)
      decreases v, 1
    {
      if |leaves| >= caps.leaves || bytesUsed >= caps.bytes {
        return false;
      }
      assert !v.Arr? ==> [Some(v)][1..] == [];
      more := true;
      match v
      case NilReply =>
        Append(Leaf(None, false, "nil"), 0, v);
      case Arr(items) =>
        assert ([None] + VisitsAll(items))[1..] == VisitsAll(items);
        more := WalkItems(items);
      case Str(bytes) =>
        Append(TextLeaf(bytes), |bytes|, v);
      case Formatted(text, kind) =>
        Append(Leaf(Some(Printed(text)), false, kind), 0, v);
    }

    method Append(l: Leaf, size: nat, ghost v: Reply)
      requires Valid() && ShownAs(v, l) && size == if v.Str? then |v.bytes| else 0
      modifies this
      ensures Valid() && shown == old(shown) + [v]
    {
      OneMoreShown(shown, leaves, v, l);
      leaves := leaves + [l];
      bytesUsed := bytesUsed + size;
      shown := shown + [v];
    }

    /** The loop over an array's elements. */
    method WalkItems(items: seq<Reply>) returns (more: bool)
      requires Valid()
      modifies this
      ensures Valid() && (shown, more) == WalkOver(VisitsAll(items), old(shown), caps)
      decreases items, 0
    {
      ghost var start := shown;
      var i := 0;
      while i < |items|
        invariant 0 <= i <= |items| && Valid()
        invariant WalkOver(VisitsAll(items), start, caps) == WalkOver(VisitsAll(items[i..]), shown, caps)
      {
        WalkConcat(Visits(items[i]), VisitsAll(items[i..][1..]), shown, caps);
        assert items[i..][1..] == items[i + 1..] && items[i..][0] == items[i];
        more := Walk(items[i]);
        if !more {
          return;
        }
        i := i + 1;
      }
      more := true;
    }
  }

  /** The scalars a capped walk takes, and whether it stopped short. */
  ghost function Capped(v: Reply, c: Caps): (seq<Reply>, bool) {
    var (vs, completed) := WalkOver(Visits(v), [], c);
    (vs, !completed)
  }

  /** The walk only ever extends its leaves by the next ones, and has visited
      everything when it completes. */
  lemma {:induction false} WalkTakesPrefix(vs: seq<Option<Reply>>, ls: seq<Reply>, c: Caps)
    ensures |ls| <= |WalkOver(vs, ls, c).0| <= |ls + Leaves(vs)|
    ensures WalkOver(vs, ls, c).0 == (ls + Leaves(vs))[..|WalkOver(vs, ls, c).0|]
    ensures WalkOver(vs, ls, c).1 ==> WalkOver(vs, ls, c).0 == ls + Leaves(vs)
    decreases |vs|
  {
    if vs == [] {
      assert ls + [] == ls;
    } else if !Full(ls, c) {
      var ls' := if vs[0].Some? then ls + [vs[0].value] else ls;
      WalkTakesPrefix(vs[1..], ls', c);
      LeavesStep(ls, vs);
    }
  }

  lemma LeavesStep(ls: seq<Reply>, vs: seq<Option<Reply>>)
    requires vs != []
    ensures (if vs[0].Some? then ls + [vs[0].value] else ls) + Leaves(vs[1..]) == ls + Leaves(vs)
  {
    var first := if vs[0].Some? then [vs[0].value] else [];
    assert Leaves(vs) == first + Leaves(vs[1..]);
    ConcatAssociates(ls, first, Leaves(vs[1..]));
    assert ls + [] == ls;
  }

  /** It takes a leaf only below both caps, and stops short only at a cap. */
  lemma {:induction false} WalkStopsAtCap(vs: seq<Option<Reply>>, ls: seq<Reply>, c: Caps)
    ensures !WalkOver(vs, ls, c).1 ==> Full(WalkOver(vs, ls, c).0, c)
    ensures forall k | |ls| <= k < |WalkOver(vs, ls, c).0| :: !Full(WalkOver(vs, ls, c).0[..k], c)
    decreases |vs|
  {
    if vs != [] && !Full(ls, c) {
      var ls' := if vs[0].Some? then ls + [vs[0].value] else ls;
      WalkStopsAtCap(vs[1..], ls', c);
      WalkTakesPrefix(vs[1..], ls', c);
      var out := WalkOver(vs[1..], ls', c).0;
      assert out[..|ls|] == (ls' + Leaves(vs[1..]))[..|ls|] == ls;
    }
  }

  /**
   For every reply and caps: the scalars taken are a prefix of all of them; each was
   taken while the ones in front of it met neither cap; a walk that stops short stops
   at a cap; and without the mark nothing is missing.
   */
  lemma CappedIsPrefix(v: Reply, c: Caps)
    ensures var (vs, truncated) := Capped(v, c);
            && vs <= Flatten(v)
            && |vs| <= (if c.leaves < 0 then 0 else c.leaves)
            && (forall k | 0 <= k < |vs| :: !Full(vs[..k], c))
            && (truncated ==> Full(vs, c))
            && (!truncated ==> vs == Flatten(v))
  {
    WalkTakesPrefix(Visits(v), [], c);
    WalkStopsAtCap(Visits(v), [], c);
    VisitsHoldFlattening(v);
    var vs := Capped(v, c).0;
    assert [] + Leaves(Visits(v)) == Flatten(v);
    if |vs| > 0 {
      assert !Full(vs[..|vs| - 1], c);
    }
  }

  // ------------------------------------------------- when the mark is exact

  /** The last node visited is an empty array. */
  ghost predicate EndsInEmptyArray(v: Reply)
    decreases v
  {
    v.Arr? && (v.items == [] || EndsInEmptyArray(v.items[|v.items| - 1]))
  }

  ghost predicate EndsInNone(vs: seq<Option<Reply>>) {
    vs != [] && vs[|vs| - 1].None?
  }

  lemma {:induction false} LastVisit(v: Reply)
    ensures Visits(v) != [] && (EndsInNone(Visits(v)) <==> EndsInEmptyArray(v))
    decreases v, 1
  {
    if v.Arr? && v.items != [] {
      LastVisitOfAll(v.items);
    }
  }

  lemma {:induction false} LastVisitOfAll(items: seq<Reply>)
    requires items != []
    ensures VisitsAll(items) != [] && (EndsInNone(VisitsAll(items)) <==> EndsInEmptyArray(items[|items| - 1]))
    decreases items, 0
  {
    LastVisit(items[0]);
    if |items| > 1 {
      LastVisitOfAll(items[1..]);
    }
  }

  /** A cap is met by all of `ls`, and by no shorter prefix from `from` on. */
  ghost predicate FirstFullAtEnd(ls: seq<Reply>, from: nat, c: Caps) {
    Full(ls, c) && forall k | from <= k < |ls| :: !Full(ls[..k], c)
  }

  lemma {:induction false} LeavesOfNone(vs: seq<Option<Reply>>)
    requires Leaves(vs) == [] && vs != []
    ensures EndsInNone(vs)
    decreases |vs|
  {
    if |vs| > 1 {
      LeavesOfNone(vs[1..]);
    }
  }

  /** When a walk stops short although it has taken every leaf. */
  lemma {:induction false} StopsBehindLastLeaf(vs: seq<Option<Reply>>, ls: seq<Reply>, c: Caps)
    ensures var all := ls + Leaves(vs);
            !WalkOver(vs, ls, c).1 && WalkOver(vs, ls, c).0 == all <==> EndsInNone(vs) && FirstFullAtEnd(all, |ls|, c)
    decreases |vs|
  {
    if vs == [] {
    } else if Full(ls, c) {
      StopsAtOnce(vs, ls, c);
    } else {
      StopsBehindLastLeaf(vs[1..], if vs[0].Some? then ls + [vs[0].value] else ls, c);
      StopsLater(vs, ls, c);
    }
  }

  lemma StopsAtOnce(vs: seq<Option<Reply>>, ls: seq<Reply>, c: Caps)
    requires vs != [] && Full(ls, c)
    ensures var all := ls + Leaves(vs); ls == all <==> EndsInNone(vs) && FirstFullAtEnd(all, |ls|, c)
  {
    var all := ls + Leaves(vs);
    if Leaves(vs) == [] {
      LeavesOfNone(vs);
      assert all == ls;
    } else {
      assert all[..|ls|] == ls;
    }
  }

  lemma StopsLater(vs: seq<Option<Reply>>, ls: seq<Reply>, c: Caps)
    requires vs != [] && !Full(ls, c)
    ensures var all := ls + Leaves(vs);
            var ls' := if vs[0].Some? then ls + [vs[0].value] else ls;
            && all == ls' + Leaves(vs[1..])
            && (EndsInNone(vs) && FirstFullAtEnd(all, |ls|, c) <==> EndsInNone(vs[1..]) && FirstFullAtEnd(all, |ls'|, c))
  {
    LeavesStep(ls, vs);
    var all := ls + Leaves(vs);
    assert all[..|ls|] == ls;
    if |vs| == 1 {
      assert vs[1..] == [] && Leaves(vs[1..]) == [];
      assert vs[0].None? ==> all == ls;
    }
  }

  /** The mark means exactly that scalars are missing, or that all of them together
      met a cap and an empty array followed. */
  lemma TruncatedIff(v: Reply, c: Caps)
    ensures var (vs, truncated) := Capped(v, c);
            truncated <==>
              || |vs| < |Flatten(v)|
              || (EndsInEmptyArray(v) && Full(Flatten(v), c))
  {
    CappedIsPrefix(v, c);
    VisitsHoldFlattening(v);
    LastVisit(v);
    StopsBehindLastLeaf(Visits(v), [], c);
    assert [] + Flatten(v) == Flatten(v);
    var vs := Capped(v, c).0;
    assert |vs| == |Flatten(v)| ==> vs == Flatten(v);
  }

  /** So a complete result can be marked truncated. */
  lemma EmptyArrayExample(b: seq<Byte>)
    ensures var v := Arr([Str(b), Arr([])]);
            Capped(v, Caps(1, |b| + 1)) == ([Str(b)], true) && Flatten(v) == [Str(b)]
  {
    var str, empty, c := Str(b), Arr([]), Caps(1, |b| + 1);
    OneItem(empty);
    assert VisitsAll([]) == [] && [None] + VisitsAll([]) == [None];
    assert Visits(empty) == [None] + VisitsAll(empty.items);
    assert Flatten(empty) == [];
    var items := [str, empty];
    assert items[1..] == [empty];
    assert VisitsAll(items) == [Some(str)] + [None];
    assert FlattenAll(items) == Flatten(items[0]) + FlattenAll(items[1..]);
    assert Flatten(items[0]) == [str] && [str] + [] == [str];
    assert Flatten(Arr(items)) == [str];
    var vs := [None] + ([Some(str)] + [None]);
    assert Visits(Arr(items)) == vs;
    assert vs[1..] == [Some(str)] + [None] && vs[1..][1..] == [None];
    assert [] + [str] == [str];
    assert WalkOver([None], [str], c) == ([str], false);
    assert WalkOver(vs[1..], [], c) == ([str], false);
    assert WalkOver(vs, [], c) == ([str], false);
  }

  lemma OneItem(v: Reply)
    ensures VisitsAll([v]) == Visits(v) && FlattenAll([v]) == Flatten(v)
  {
    assert [v][1..] == [];
    assert Visits(v) + [] == Visits(v) && Flatten(v) + [] == Flatten(v);
  }

  /** flattenRedisReply: the leaves show the scalars taken, one by one. */
  method FlattenReply(v: Reply, c: Caps) returns (leaves: seq<Leaf>, truncated: bool)
    ensures AllShownAs(Capped(v, c).0, leaves) && truncated == Capped(v, c).1
    ensures |leaves| <= |Flatten(v)| && forall i | 0 <= i < |leaves| :: ShownAs(Flatten(v)[i], leaves[i])
    ensures !truncated ==> |leaves| == |Flatten(v)|
  {
    var w := new Walker(c);
    var completed := w.Walk(v);
    leaves, truncated := w.leaves, !completed;
    CappedIsPrefix(v, c);
  }

  // ---------------------------------------------------------------- the grids

  datatype Column = Column(name: string, kind: string, binary: bool)

  datatype Response = Response(columns: seq<Column>, rows: seq<seq<Option<Cell>>>, rowCount: nat, truncated: bool)

  method ScalarRow(leaves: seq<Leaf>, truncated: bool) returns (r: Response)
    ensures r.truncated == truncated && r.rowCount == |r.rows| == 1
    ensures r.rows == [[if |leaves| == 1 then leaves[0].value else None]]
    ensures r.columns == [Column("value", if |leaves| == 1 then leaves[0].kind else "nil", |leaves| == 1 && leaves[0].binary)]
  {
    var kind, cell, binary := "nil", None, false;
    if |leaves| == 1 {
      kind, cell, binary := leaves[0].kind, leaves[0].value, leaves[0].binary;
    }
    r := Response([Column("value", kind, binary)], [[cell]], 1, truncated);
  }

  /** One numbered row per leaf; the value column carries a Redis type only when
      every leaf has that type. */
  ghost predicate NumberedLeaves(r: Response, leaves: seq<Leaf>) {
    && |r.rows| == |leaves|
    && (forall i | 0 <= i < |leaves| :: r.rows[i] == [Some(Index(i)), leaves[i].value])
    && |r.columns| == 2 && r.columns[0] == Column("#", "index", false) && r.columns[1].name == "value"
    && (r.columns[1].binary <==> exists i | 0 <= i < |leaves| :: leaves[i].binary)
    && (leaves != [] && (forall i | 0 <= i < |leaves| :: leaves[i].kind == leaves[0].kind) ==> r.columns[1].kind == leaves[0].kind)
    && (leaves == [] || (exists i | 0 <= i < |leaves| :: leaves[i].kind != leaves[0].kind) ==> r.columns[1].kind == "reply")
  }

  method IndexedRows(leaves: seq<Leaf>, truncated: bool) returns (r: Response)
    ensures r.truncated == truncated && r.rowCount == |r.rows| && NumberedLeaves(r, leaves)
  {
    var rows: seq<seq<Option<Cell>>> := [];
    var kind, binary, mixed := "reply", false, false;
    for i := 0 to |leaves|
      invariant |rows| == i
      invariant forall k | 0 <= k < i :: rows[k] == [Some(Index(k)), leaves[k].value]
      invariant binary <==> exists k | 0 <= k < i :: leaves[k].binary
      invariant mixed <==> exists k | 0 <= k < i :: leaves[k].kind != leaves[0].kind
      invariant kind == if i == 0 || mixed then "reply" else leaves[0].kind
    {
      var leaf := leaves[i];
      rows := rows + [[Some(Index(i)), leaf.value]];
      binary := binary || leaf.binary;
      if mixed {
      } else if i == 0 {
        kind := leaf.kind;
      } else if leaf.kind != kind {
        kind, mixed := "reply", true;
      }
    }
    r := Response([Column("#", "index", false), Column("value", kind, binary)], rows, |rows|, truncated);
  }

  /** Leaves two by two, under a field and a value column. */
  ghost predicate PairedLeaves(r: Response, leaves: seq<Leaf>) {
    && |r.rows| == |leaves| / 2
    && (forall i | 0 <= i < |r.rows| :: r.rows[i] == [leaves[2 * i].value, leaves[2 * i + 1].value])
    && r.columns == [
         Column("field", "string", exists i | 0 <= i < |leaves| / 2 :: leaves[2 * i].binary),
         Column("value", "string", exists i | 0 <= i < |leaves| / 2 :: leaves[2 * i + 1].binary)]
  }

  /** A left-over half of a pair is dropped and marks the result truncated. */
  method PairRows(leaves: seq<Leaf>, truncated: bool) returns (r: Response)
    ensures r.rowCount == |r.rows| && PairedLeaves(r, leaves)
    ensures r.truncated <==> truncated || |leaves| % 2 == 1
  {
    var rows: seq<seq<Option<Cell>>> := [];
    var fields, values := false, false;
    var i := 0;
    while i + 1 < |leaves|
      invariant 0 <= i <= |leaves| && i == 2 * |rows|
      invariant forall k | 0 <= k < |rows| :: rows[k] == [leaves[2 * k].value, leaves[2 * k + 1].value]
      invariant fields <==> exists k | 0 <= k < |rows| :: leaves[2 * k].binary
      invariant values <==> exists k | 0 <= k < |rows| :: leaves[2 * k + 1].binary
    {
      ghost var n := |rows|;
      assert leaves[i] == leaves[2 * n] && leaves[i + 1] == leaves[2 * n + 1];
      rows := rows + [[leaves[i].value, leaves[i + 1].value]];
      fields := fields || leaves[i].binary;
      values := values || leaves[i + 1].binary;
      i := i + 2;
    }
    r := Response([Column("field", "string", fields), Column("value", "string", values)], rows, |rows|, truncated || |leaves| % 2 == 1);
  }

  /** Two scalars a row, under a field and a value column. */
  ghost predicate PairGrid(r: Response, vs: seq<Reply>) {
    && |r.rows| == |vs| / 2
    && (forall i | 0 <= i < |r.rows| ::
          |r.rows[i]| == 2 && CellShows(vs[2 * i], r.rows[i][0]) && CellShows(vs[2 * i + 1], r.rows[i][1]))
    && r.columns == [
         Column("field", "string", exists i | 0 <= i < |vs| / 2 :: NotText(vs[2 * i])),
         Column("value", "string", exists i | 0 <= i < |vs| / 2 :: NotText(vs[2 * i + 1]))]
  }

  lemma LeavesInPairs(r: Response, leaves: seq<Leaf>, vs: seq<Reply>)
    requires PairedLeaves(r, leaves) && AllShownAs(vs, leaves)
    ensures PairGrid(r, vs)
  {
    assert forall i | 0 <= i < |leaves| / 2 :: ShownAs(vs[2 * i], leaves[2 * i]) && ShownAs(vs[2 * i + 1], leaves[2 * i + 1]);
  }

  /** One numbered scalar a row; the value column has their type if they share one. */
  ghost predicate NumberedGrid(r: Response, vs: seq<Reply>) {
    && |r.rows| == |vs|
    && (forall i | 0 <= i < |r.rows| ::
          |r.rows[i]| == 2 && r.rows[i][0] == Some(Index(i)) && CellShows(vs[i], r.rows[i][1]))
    && |r.columns| == 2
    && r.columns[0] == Column("#", "index", false)
    && r.columns[1].name == "value"
    && (r.columns[1].binary <==> exists i | 0 <= i < |vs| :: NotText(vs[i]))
    && (vs == [] ==> r.columns[1].kind == "reply")
    && (forall kind, i | 0 <= i < |vs| && HasKind(vs[i], kind) :: r.columns[1].kind == if AllHaveKind(vs, kind) then kind else "reply")
  }

  lemma LeavesInRows(r: Response, leaves: seq<Leaf>, vs: seq<Reply>)
    requires NumberedLeaves(r, leaves) && AllShownAs(vs, leaves)
    ensures NumberedGrid(r, vs)
  {
    assert forall i | 0 <= i < |vs| :: ShownAs(vs[i], leaves[i]);
    forall kind, i | 0 <= i < |vs| && HasKind(vs[i], kind)
      ensures r.columns[1].kind == if AllHaveKind(vs, kind) then kind else "reply"
    {
      assert leaves[i].kind == kind;
    }
  }

  /** One cell under a value column. */
  ghost predicate ScalarGrid(r: Response, v: Reply) {
    match v
    case NilReply => r.rows == [[None]] && r.columns == [Column("value", "nil", false)]
    case Arr(_) => false
    case Str(b) =>
      if Valid(b)
      then r.rows == [[Some(Text(b))]] && r.columns == [Column("value", "string", false)]
      else r.rows == [[Some(Base64(b))]] && r.columns == [Column("value", "string", true)]
    case Formatted(text, kind) => r.rows == [[Some(Printed(text))]] && r.columns == [Column("value", kind, false)]
  }

  /** A scalar is taken unless a cap is met at once. */
  lemma CappedScalar(v: Reply, c: Caps)
    requires !v.Arr?
    ensures Flatten(v) == [v]
    ensures Capped(v, c) == if c.leaves <= 0 || c.bytes <= 0 then ([], true) else ([v], false)
  {
    assert Visits(v) == [Some(v)] && [Some(v)][1..] == [] && [] + [v] == [v];
    assert WalkOver([], [v], c) == ([v], true);
  }

  lemma CappedWithin(v: Reply, c: Caps)
    ensures Capped(v, c).0 <= Flatten(v)
    ensures Capped(v, c).0 != [] ==> |Capped(v, c).0| <= c.leaves
    ensures !Capped(v, c).1 ==> Capped(v, c).0 == Flatten(v)
    ensures !v.Arr? ==> |Capped(v, c).0| <= 1 && |Flatten(v)| == 1
  {
    CappedIsPrefix(v, c);
    if !v.Arr? {
      CappedScalar(v, c);
    }
  }

  lemma LeafInCell(r: Response, leaves: seq<Leaf>, v: Reply, c: Caps)
    requires !v.Arr? && AllShownAs(Capped(v, c).0, leaves)
    requires r.rows == [[if |leaves| == 1 then leaves[0].value else None]]
    requires r.columns == [Column("value", if |leaves| == 1 then leaves[0].kind else "nil", |leaves| == 1 && leaves[0].binary)]
    ensures ScalarGrid(r, if Capped(v, c).1 then NilReply else v)
  {
    CappedScalar(v, c);
  }

  /** renderRedisReply: `pairs` says the command answers with field/value pairs. A
      scalar cut away by the caps is shown as nil. */
  method RenderReply(pairs: bool, reply: Reply, maxRows: int, maxBytes: int) returns (r: Response)
    ensures r.rowCount == |r.rows|
    ensures r.rowCount <= maxRows <==> maxRows >= 1 || (maxRows == 0 && (pairs || reply.Arr?))
    ensures var (shown, cut) := Capped(reply, Caps(if pairs then maxRows * 2 else maxRows, maxBytes));
            && shown <= Flatten(reply)
            && (r.truncated <==> cut || (pairs && |shown| % 2 == 1))
            && (pairs ==> PairGrid(r, shown))
            && (!pairs && reply.Arr? ==> NumberedGrid(r, shown))
    ensures !pairs && !reply.Arr? ==> ScalarGrid(r, if r.truncated then NilReply else reply)
    ensures !r.truncated ==> (if pairs then 2 * |r.rows| else |r.rows|) == |Flatten(reply)|
  {
    var budget := if pairs then maxRows * 2 else maxRows;
    ghost var caps := Caps(budget, maxBytes);
    var leaves, truncated := FlattenReply(reply, Caps(budget, maxBytes));
    CappedWithin(reply, caps);
    if pairs {
      r := PairRows(leaves, truncated);
      LeavesInPairs(r, leaves, Capped(reply, caps).0);
    } else if !reply.Arr? && |leaves| <= 1 {
      r := ScalarRow(leaves, truncated);
      LeafInCell(r, leaves, reply, caps);
    } else {
      r := IndexedRows(leaves, truncated);
      LeavesInRows(r, leaves, Capped(reply, caps).0);
    }
  }
}
