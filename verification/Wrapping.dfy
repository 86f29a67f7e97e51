/** The line wrapper of the visual context carrier: it breaks encoded lines between atoms, greedily. */
module Wrapping {
  import opened JsText
  import opened Sorting
  import opened Json
  import opened CanonicalJson
  import opened VisualText

  // ----- Atoms: a character, or a whole escape -----

  datatype Atom = Atom(text: Text, start: nat, end: nat, cells: nat)

  function Min(a: nat, b: nat): nat { if a < b then a else b }

  /** The length of the atom at the head of a line; throws for an escape that is not closed. */
  function AtomLength(s: Text): (r: Result<nat>)
    requires |s| > 0
    ensures r.Ok? ==> r.value > 0
  {
    if s[0] != BACKSLASH then Ok(|HeadChar(s)|)
    else if StartsEscape(s) then
      match IndexOf(s[3..], CLOSE_BRACE)
      case None => Throws
      case Some(n) => Ok(4 + n)
    else Ok(2)
  }

  function AtomAt(s: Text, offset: nat, length: nat): Atom
    requires |s| > 0
  {
    var text := s[..Min(length, |s|)];
    Atom(text, offset, offset + length, if s[0] != BACKSLASH then 1 else |Chars(text)|)
  }

  function Atoms(s: Text, offset: nat): Result<seq<Atom>>
    decreases |s|
  {
    if |s| == 0 then Ok([])
    else match AtomLength(s)
      case Throws => Throws
      case Ok(n) =>
        PrependAtoms([AtomAt(s, offset, n)], Atoms(s[Min(n, |s|)..], offset + n))
  }

  function PrependAtoms(atoms: seq<Atom>, r: Result<seq<Atom>>): Result<seq<Atom>>
  {
    match r
    case Throws => Throws
    case Ok(rest) => Ok(atoms + rest)
  }

  lemma PrependNone(r: Result<seq<Atom>>)
    ensures PrependAtoms([], r) == r
  {
    if r.Ok? { assert [] + r.value == r.value; }
  }

  lemma PrependEmpty(atoms: seq<Atom>)
    ensures PrependAtoms(atoms, Ok([])) == Ok(atoms) && PrependAtoms(atoms, Throws) == Throws
  {
    assert atoms + [] == atoms;
  }

  lemma PrependOne(atoms: seq<Atom>, atom: Atom, r: Result<seq<Atom>>)
    ensures PrependAtoms(atoms, PrependAtoms([atom], r)) == PrependAtoms(atoms + [atom], r)
  {
    if r.Ok? { AppendAssoc(atoms, [atom], r.value); }
  }

  /** `encodedAtoms`. */
  method EncodedAtoms(line: Text) returns (r: Result<seq<Atom>>)
    ensures r == Atoms(line, 0)
  {
    hide AtomAt, AtomLength, PrependAtoms, StartsWithPair, IndexOf;
    var atoms: seq<Atom> := [];
    var index := 0;
    assert line[0..] == line;
    PrependNone(Atoms(line, 0));
    while index < |line|
      invariant 0 <= index
      invariant Atoms(line, 0) == PrependAtoms(atoms, Atoms(line[Min(index, |line|)..], index))
      decreases |line| - index
    {
      var s := line[index..];
      var length := AtomLength(s);
      if length.Throws? {
        PrependEmpty(atoms);
        return Throws;
      }
      assert s[Min(length.value, |s|)..] == line[Min(index + length.value, |line|)..];
      assert Atoms(s, index) == PrependAtoms([AtomAt(s, index, length.value)],
        Atoms(line[Min(index + length.value, |line|)..], index + length.value));
      PrependOne(atoms, AtomAt(s, index, length.value),
        Atoms(line[Min(index + length.value, |line|)..], index + length.value));
      atoms := atoms + [AtomAt(s, index, length.value)];
      index := index + length.value;
    }
    r := Ok(atoms);
    PrependEmpty(atoms);
  }

  // ----- Greedy groups of atoms -----

  function Cells(group: seq<Atom>): nat
  {
    if |group| == 0 then 0 else Cells(group[..|group| - 1]) + group[|group| - 1].cells
  }

  /** The groups after the atoms read so far: the last atom joins the last group if it fits, else starts one. */
  function Groups(atoms: seq<Atom>, columns: int): (r: seq<seq<Atom>>)
    ensures forall i :: 0 <= i < |r| ==> |r[i]| > 0
    ensures |r| == 0 <==> |atoms| == 0
  {
    if |atoms| == 0 then []
    else
      var n := |atoms| - 1;
      AddAtom(Groups(atoms[..n], columns), atoms[n], columns)
  }

  function AddAtom(groups: seq<seq<Atom>>, atom: Atom, columns: int): seq<seq<Atom>>
  {
    var k := |groups| - 1;
    if k < 0 || Cells(groups[k]) + atom.cells > columns then groups + [[atom]]
    else groups[..k] + [groups[k] + [atom]]
  }

  function Flatten(groups: seq<seq<Atom>>): seq<Atom>
  {
    if |groups| == 0 then [] else groups[0] + Flatten(groups[1..])
  }

  lemma {:induction false} FlattenAppend(a: seq<seq<Atom>>, b: seq<seq<Atom>>)
    ensures Flatten(a + b) == Flatten(a) + Flatten(b)
  {
    if |a| == 0 {
      assert a + b == b;
    } else {
      FlattenAppend(a[1..], b);
      assert (a + b)[1..] == a[1..] + b;
      AppendAssoc(a[0], Flatten(a[1..]), Flatten(b));
    }
  }

  lemma FlattenLast(a: seq<seq<Atom>>, g: seq<Atom>)
    ensures Flatten(a + [g]) == Flatten(a) + g
  {
    FlattenAppend(a, [g]);
    assert Flatten([g]) == g + Flatten([][..]);
    assert g + [] == g;
  }

  lemma AddAtomFlatten(groups: seq<seq<Atom>>, atom: Atom, columns: int)
    ensures Flatten(AddAtom(groups, atom, columns)) == Flatten(groups) + [atom]
  {
    hide Flatten, Cells;
    var k := |groups| - 1;
    if k < 0 || Cells(groups[k]) + atom.cells > columns {
      FlattenLast(groups, [atom]);
    } else {
      FlattenLast(groups[..k], groups[k] + [atom]);
      FlattenLast(groups[..k], groups[k]);
      assert groups[..k] + [groups[k]] == groups;
      AppendAssoc(Flatten(groups[..k]), groups[k], [atom]);
    }
  }

  lemma {:induction false} GroupsFlatten(atoms: seq<Atom>, columns: int)
    ensures Flatten(Groups(atoms, columns)) == atoms
  {
    if |atoms| > 0 {
      hide AddAtom, Flatten;
      var n := |atoms| - 1;
      GroupsFlatten(atoms[..n], columns);
      AddAtomFlatten(Groups(atoms[..n], columns), atoms[n], columns);
      assert atoms == atoms[..n] + [atoms[n]];
    }
  }

  // ----- Optimality -----

  /** Any way to break a line between atoms into non-empty rows that fit the columns. */
  ghost predicate IsWrapping(groups: seq<seq<Atom>>, atoms: seq<Atom>, columns: int)
  {
    && Flatten(groups) == atoms
    && RowsFit(groups, columns)
  }

  ghost predicate RowsFit(groups: seq<seq<Atom>>, columns: int)
  {
    forall i :: 0 <= i < |groups| ==> |groups[i]| > 0 && Cells(groups[i]) <= columns
  }

  lemma CellsSnoc(group: seq<Atom>, atom: Atom)
    ensures Cells(group + [atom]) == Cells(group) + atom.cells
  {
    assert (group + [atom])[..|group|] == group;
  }

  /** When every atom fits, every greedy row fits. */
  lemma {:induction false} GroupsFit(atoms: seq<Atom>, columns: int)
    requires forall i :: 0 <= i < |atoms| ==> atoms[i].cells <= columns
    ensures IsWrapping(Groups(atoms, columns), atoms, columns)
  {
    GroupsFlatten(atoms, columns);
    if |atoms| > 0 {
      var n := |atoms| - 1;
      GroupsFit(atoms[..n], columns);
    }
  }

  /** A wrapping of at least one atom, without its last atom. */
  lemma WrappingInit(groups: seq<seq<Atom>>, atoms: seq<Atom>, columns: int) returns (init: seq<seq<Atom>>)
    requires IsWrapping(groups, atoms, columns) && |atoms| > 0
    ensures |groups| > 0 && IsWrapping(init, atoms[..|atoms| - 1], columns)
    ensures var last := groups[|groups| - 1];
      if |last| == 1 then last == [atoms[|atoms| - 1]] && init == groups[..|groups| - 1]
      else
        && |init| == |groups| && Cells(init[|init| - 1]) + atoms[|atoms| - 1].cells == Cells(last)
  {
    var m := |groups| - 1;
    var last := groups[m];
    var cut := last[..|last| - 1];
    assert groups == groups[..m] + [last];
    FlattenLast(groups[..m], last);
    assert atoms[|atoms| - 1] == last[|last| - 1];
    assert atoms[..|atoms| - 1] == Flatten(groups[..m]) + cut;
    if |last| == 1 {
      init := groups[..m];
      assert cut == [] && Flatten(init) + [] == Flatten(init);
      assert last == [last[0]];
    } else {
      init := groups[..m] + [cut];
      FlattenLast(groups[..m], cut);
      assert Cells(last) == Cells(cut) + last[|last| - 1].cells;
    }
  }

  /** Greedy stays ahead: it never uses more rows, and with as many rows its last row is no fuller. */
  lemma {:induction false} GreedyStaysAhead(atoms: seq<Atom>, columns: int, groups: seq<seq<Atom>>)
    requires IsWrapping(groups, atoms, columns)
    ensures |Groups(atoms, columns)| <= |groups|
    ensures |Groups(atoms, columns)| == |groups| && |groups| > 0 ==>
      Cells(Groups(atoms, columns)[|groups| - 1]) <= Cells(groups[|groups| - 1])
    decreases |atoms|
  {
    if |atoms| > 0 {
      var n := |atoms| - 1;
      var a := atoms[n];
      var g := Groups(atoms[..n], columns);
      var init := WrappingInit(groups, atoms, columns);
      GreedyStaysAhead(atoms[..n], columns, init);
      var k := |g| - 1;
      assert [] + [a] == [a];
      CellsSnoc([], a);
      if k >= 0 { CellsSnoc(g[k], a); }
    }
  }

  /** No wrapping of a line has fewer rows than the greedy one. */
  lemma GreedyOptimal(atoms: seq<Atom>, columns: int)
    ensures forall groups :: IsWrapping(groups, atoms, columns) ==> |Groups(atoms, columns)| <= |groups|
  {
    forall groups | IsWrapping(groups, atoms, columns) ensures |Groups(atoms, columns)| <= |groups| {
      GreedyStaysAhead(atoms, columns, groups);
    }
  }

  // ----- Lines -----

  datatype Line = Line(text: Text, start: nat, end: nat)

  function AtomText(a: Atom): Text { a.text }

  function LineOf(base: nat, group: seq<Atom>): Line
    requires |group| > 0
  {
    Line(Concat(Map(AtomText, group)), base + group[0].start, base + group[|group| - 1].end)
  }

  function LinesOf(base: nat, groups: seq<seq<Atom>>): (r: seq<Line>)
    requires forall i :: 0 <= i < |groups| ==> |groups[i]| > 0
    ensures |r| == |groups|
  {
    seq(|groups|, i requires 0 <= i < |groups| => LineOf(base, groups[i]))
  }

  /** The rows of one source line; an empty source line is one empty row. */
  function WrapLine(base: nat, atoms: seq<Atom>, columns: int): (r: seq<Line>)
    ensures |r| > 0
  {
    if |atoms| == 0 then [Line([], base, base)] else LinesOf(base, Groups(atoms, columns))
  }

  /** `text.split('\n')`. */
  function Split(t: Text): (r: seq<Text>)
    ensures |r| > 0
    decreases |t|
  {
    match IndexOf(t, NEWLINE)
    case None => [t]
    case Some(n) => [t[..n]] + Split(t[n + 1..])
  }

  function WrapLines(base: nat, lines: seq<Text>, columns: int): Result<seq<Line>>
    decreases |lines|
  {
    if |lines| == 0 then Ok([])
    else match Atoms(lines[0], 0)
      case Throws => Throws
      case Ok(atoms) =>
        match WrapLines(base + |lines[0]| + 1, lines[1..], columns)
        case Throws => Throws
        case Ok(rest) => Ok(WrapLine(base, atoms, columns) + rest)
  }

  lemma ConcatSnoc(texts: seq<Text>, t: Text)
    ensures Concat(texts + [t]) == Concat(texts) + t
  {
    ConcatAppend(texts, [t]);
    assert Concat([t]) == t + Concat([][..]);
    assert t + [] == t;
  }

  lemma LineSnoc(base: nat, group: seq<Atom>, atom: Atom)
    ensures LineOf(base, [atom]) == Line(atom.text, base + atom.start, base + atom.end)
    ensures |group| > 0 ==>
      LineOf(base, group + [atom])
        == Line(LineOf(base, group).text + atom.text, LineOf(base, group).start, base + atom.end)
  {
    assert Map(AtomText, [atom]) == [] + [atom.text];
    ConcatSnoc([], atom.text);
    assert [] + atom.text == atom.text;
    assert Map(AtomText, group + [atom]) == Map(AtomText, group) + [atom.text];
    ConcatSnoc(Map(AtomText, group), atom.text);
  }

  /** One atom more: the row that is being filled is closed, or is extended. */
  lemma AddAtomLines(base: nat, groups: seq<seq<Atom>>, atom: Atom, columns: int, wrapped: seq<Line>, row: Line)
    requires |groups| > 0 && forall i :: 0 <= i < |groups| ==> |groups[i]| > 0
    requires wrapped + [row] == LinesOf(base, groups)
    ensures var next, cells := AddAtom(groups, atom, columns), Cells(groups[|groups| - 1]);
      && |next| > 0 && (forall i :: 0 <= i < |next| ==> |next[i]| > 0)
      && if cells + atom.cells > columns then
           && LinesOf(base, next) == wrapped + [row] + [Line(atom.text, base + atom.start, base + atom.end)]
           && Cells(next[|next| - 1]) == atom.cells
         else
           && LinesOf(base, next) == wrapped + [Line(row.text + atom.text, row.start, base + atom.end)]
           && Cells(next[|next| - 1]) == cells + atom.cells
  {
    hide LineOf, Cells;
    var k := |groups| - 1;
    assert groups[..k] + [groups[k]] == groups;
    assert (wrapped + [row])[..k] == wrapped && (wrapped + [row])[k] == row;
    assert LinesOf(base, groups)[..k] == LinesOf(base, groups[..k]);
    LineSnoc(base, groups[k], atom);
    CellsOne(atom);
    CellsSnoc(groups[k], atom);
  }

  lemma CellsOne(atom: Atom)
    ensures Cells([atom]) == atom.cells
  {
    assert Cells([][..]) == 0;
  }

  lemma FirstAtomLines(base: nat, atom: Atom, columns: int)
    ensures LinesOf(base, Groups([atom], columns)) == [Line(atom.text, base + atom.start, base + atom.end)]
    ensures Groups([atom], columns) == [[atom]] && Cells([atom]) == atom.cells
  {
    assert Groups([atom][..0], columns) == [];
    LineSnoc(base, [], atom);
    CellsOne(atom);
  }

  /** The inner loop of `wrapEncodedText`. */
  method WrapAtoms(base: nat, atoms: seq<Atom>, columns: int) returns (wrapped: seq<Line>)
    requires |atoms| > 0 && forall i :: 0 <= i < |atoms| ==> atoms[i].cells > 0
    ensures wrapped == LinesOf(base, Groups(atoms, columns))
  {
    hide AddAtom, Cells, LinesOf;
    wrapped := [];
    var text: Text, cells: nat := [], 0;
    var start: nat := base + atoms[0].start;
    var end: nat := start;
    for i := 0 to |atoms|
      invariant i == 0 ==> wrapped == [] && text == [] && cells == 0 && start == base + atoms[0].start
      invariant i > 0 ==> var g := Groups(atoms[..i], columns);
        && cells > 0 && wrapped + [Line(text, start, end)] == LinesOf(base, g) && cells == Cells(g[|g| - 1])
    {
      var atom := atoms[i];
      assert atoms[..i + 1][..i] == atoms[..i];
      if i == 0 {
        assert atoms[..1] == [atom];
        FirstAtomLines(base, atom, columns);
      } else {
        AddAtomLines(base, Groups(atoms[..i], columns), atom, columns, wrapped, Line(text, start, end));
      }
      if cells > 0 && cells + atom.cells > columns {
        wrapped := wrapped + [Line(text, start, end)];
        text := [];
        cells := 0;
        start := base + atom.start;
      }
      assert [] + atom.text == atom.text;
      text := text + atom.text;
      cells := cells + atom.cells;
      end := base + atom.end;
    }
    assert atoms[..|atoms|] == atoms;
    wrapped := wrapped + [Line(text, start, end)];
  }
}
