/** The "add attributes" modal of the product editor: a form holding a list of
    attribute drafts, the rows that can be appended and removed, the close guard,
    the terms auto-selection rule and the normalisation of the drafts that are
    handed to `onAdd`. */
module AttributeModal {
  import opened Wrappers

  /** A term of a global attribute, as fetched from the attribute-terms store. */
  datatype Term = Term(id: int, name: string, slug: string)

  /** An attribute draft. Global attributes have a non-zero `id` and carry
      `terms`; custom attributes have `id == 0` and carry free-text `options`.
      `terms`, `options` and `visible` may be undefined. */
  datatype Attr = Attr(
    id: int,
    name: string,
    position: int,
    variation: bool,
    terms: Option<seq<Term>>,
    options: Option<seq<string>>,
    visible: Option<bool>)

  /** One slot of the form's `attributes` array. `Null` is an empty row and
      `Draft` a row with an attribute chosen. `NullArray` is the one-element
      array `[null]`, which the single-row remove stores in the slot itself.
      `Cleared` is a falsy non-null value: the `undefined` (or `''`) stored
      when the attribute picker is cleared. `Hole` is an empty slot of a
      sparse array, left before the new slot by a write past the end:
      `forEach`, `some` and `filter` skip it, and a spread turns it into
      `undefined`. */
  datatype Row = Null | Draft(attr: Attr) | NullArray | Cleared | Hole

  /** The form's initial value: one empty row. */
  const InitialRows: seq<Row> := [Null]

  /** No slot of the array is empty. */
  predicate NoHoles(rows: seq<Row>)
  {
    forall k :: 0 <= k < |rows| ==> !rows[k].Hole?
  }

  /** `[...rows]`: the spread reads every slot, so each hole becomes
      `undefined`. */
  function FillHoles(rows: seq<Row>): (r: seq<Row>)
    ensures |r| == |rows|
    ensures forall k :: 0 <= k < |rows| ==> r[k] == if rows[k].Hole? then Cleared else rows[k]
    ensures NoHoles(r)
    ensures NoHoles(rows) ==> r == rows
  {
    if |rows| == 0 then []
    else
      var n := |rows| - 1;
      FillHoles(rows[..n]) + [if rows[n].Hole? then Cleared else rows[n]]
  }

  /** "+ Add another": `[...values.attributes, null]`, the rows with one empty
      row appended and every hole read as `undefined`. */
  function AddAnother(rows: seq<Row>): (r: seq<Row>)
    ensures |r| == |rows| + 1
    ensures forall k :: 0 <= k < |rows| ==> r[k] == if rows[k].Hole? then Cleared else rows[k]
    ensures NoHoles(rows) ==> r[..|rows|] == rows
    ensures r[|rows|] == Null
  {
    FillHoles(rows) + [Null]
  }

  /** Some terms or some options: by term count, so a global attribute has
      terms exactly when it has term names. */
  function HasTermsOrOptions(a: Attr): (b: bool)
    ensures b <==> |MapTermsToOptions(a.terms)| > 0 || (a.options.Some? && a.options.value != [])
  {
    || (a.terms.Some? && |a.terms.value| > 0)
    || (a.options.Some? && |a.options.value| > 0)
  }

  /** Global attributes are the ones with a non-zero id; custom ones have id 0. */
  function IsGlobalAttribute(a: Attr): (b: bool)
    ensures !b <==> a.id == 0
  {
    a.id != 0
  }

  /** The names of the given terms, in order. */
  function TermNames(ts: seq<Term>): (names: seq<string>)
    ensures |names| == |ts|
    ensures forall k :: 0 <= k < |ts| ==> names[k] == ts[k].name
  {
    if |ts| == 0 then [] else [ts[0].name] + TermNames(ts[1..])
  }

  /** Undefined terms map to no options at all. */
  function MapTermsToOptions(terms: Option<seq<Term>>): (options: seq<string>)
    ensures terms.None? ==> options == []
    ensures terms.Some? ==>
      |options| == |terms.value| && forall k :: 0 <= k < |options| ==> options[k] == terms.value[k].name
  {
    match terms
    case None => []
    case Some(ts) => TermNames(ts)
  }

  /** Global attributes take their options from their terms' names; custom
      attributes keep their own options. */
  function GetOptions(a: Attr): (options: Option<seq<string>>)
    ensures a.id == 0 ==> options == a.options
    ensures a.id != 0 && a.terms.None? ==> options == Some([])
    ensures a.id != 0 && a.terms.Some? ==>
      options.Some? && |options.value| == |a.terms.value| &&
      forall k :: 0 <= k < |a.terms.value| ==> options.value[k] == a.terms.value[k].name
  {
    if IsGlobalAttribute(a) then Some(MapTermsToOptions(a.terms)) else a.options
  }

  /** A row is filled out when it holds a draft with a name and some terms or options. */
  function IsAttributeFilledOut(row: Row): (b: bool)
    ensures b ==> row.Draft? && row.attr.name != []
    ensures row.Draft? && row.attr.name != [] && row.attr.terms.Some? && row.attr.terms.value != [] ==> b
    ensures row.Draft? && row.attr.name != [] && row.attr.options.Some? && row.attr.options.value != [] ==> b
    ensures (row.Draft? && (row.attr.terms.None? || row.attr.terms.value == [])
             && (row.attr.options.None? || row.attr.options.value == [])) ==> !b
  {
    row.Draft? && |row.attr.name| > 0 && HasTermsOrOptions(row.attr)
  }

  /** Checking whether a row is filled out reads `.name.length`. On the
      `[null]` array `.name` is `undefined`, and on a cleared slot `.name` is
      read from `undefined` itself: either way a TypeError is thrown. A hole
      is never checked, because `forEach` skips it. */
  predicate FilledOutCheckThrows(row: Row) {
    row.NullArray? || row.Cleared?
  }

  /** The draft's own `visible` when defined, else the modal's default. */
  function GetVisibleOrTrue(a: Attr, defaultVisibility: bool): (visible: bool)
    ensures a.visible.Some? ==> visible == a.visible.value
    ensures a.visible.None? ==> visible == defaultVisibility
  {
    a.visible.GetOr(defaultVisibility)
  }

  /** The attribute handed to `onAdd` for a filled-out draft. */
  function Normalise(a: Attr, defaultVisibility: bool): (r: Attr)
    ensures r.visible == Some(if a.visible.Some? then a.visible.value else defaultVisibility)
    ensures IsGlobalAttribute(a) && a.terms.None? ==> r.options == Some([])
    ensures IsGlobalAttribute(a) && a.terms.Some? ==>
      r.options.Some? && |r.options.value| == |a.terms.value| &&
      forall k :: 0 <= k < |a.terms.value| ==> r.options.value[k] == a.terms.value[k].name
    ensures !IsGlobalAttribute(a) ==> r.options == a.options
    ensures r.(visible := a.visible, options := a.options) == a
  {
    a.(visible := Some(GetVisibleOrTrue(a, defaultVisibility)), options := GetOptions(a))
  }

  /** What one row contributes to the attributes handed to `onAdd`. */
  function EmitRow(row: Row, defaultVisibility: bool): seq<Attr> {
    if IsAttributeFilledOut(row) then [Normalise(row.attr, defaultVisibility)] else []
  }

  /** Reference definition of the attributes handed to `onAdd`: the filled-out
      rows, normalised, in row order. */
  function Emitted(rows: seq<Row>, defaultVisibility: bool): (r: seq<Attr>)
    ensures |r| <= |rows|
  {
    if |rows| == 0 then []
    else Emitted(rows[..|rows| - 1], defaultVisibility) + EmitRow(rows[|rows| - 1], defaultVisibility)
  }

  /** Every attribute handed to `onAdd` has `visible` defined and a name. */
  lemma {:induction false} EmittedAreNamedAndVisible(rows: seq<Row>, defaultVisibility: bool)
    ensures forall k :: 0 <= k < |Emitted(rows, defaultVisibility)| ==>
      Emitted(rows, defaultVisibility)[k].visible.Some? && |Emitted(rows, defaultVisibility)[k].name| > 0
  {
    if |rows| > 0 {
      EmittedAreNamedAndVisible(rows[..|rows| - 1], defaultVisibility);
    }
  }

  /** The positions of the filled-out rows, ascending. */
  function FilledIndices(rows: seq<Row>): (idx: seq<nat>)
    ensures forall k :: 0 <= k < |idx| ==> idx[k] < |rows|
  {
    if |rows| == 0 then [] else FilledIndices(rows[..|rows| - 1]) + LastFilled(rows)
  }

  /** `out` is the normalised image of exactly the filled-out rows, which sit at
      the strictly increasing positions `idx`. */
  ghost predicate SelectsFilled(rows: seq<Row>, defaultVisibility: bool, idx: seq<nat>, out: seq<Attr>) {
    && |idx| == |out|
    && (forall k :: 0 <= k < |idx| ==>
          && idx[k] < |rows|
          && IsAttributeFilledOut(rows[idx[k]])
          && out[k] == Normalise(rows[idx[k]].attr, defaultVisibility))
    && (forall k, l :: 0 <= k < l < |idx| ==> idx[k] < idx[l])
    && (forall i :: 0 <= i < |rows| && IsAttributeFilledOut(rows[i]) ==> i in idx)
  }

  /** The attributes handed to `onAdd` are exactly the filled-out drafts,
      normalised, in their original order. */
  lemma {:induction false} EmittedSelectsFilled(rows: seq<Row>, defaultVisibility: bool)
    ensures SelectsFilled(rows, defaultVisibility, FilledIndices(rows), Emitted(rows, defaultVisibility))
  {
    if |rows| > 0 {
      var n := |rows| - 1;
      EmittedSelectsFilled(rows[..n], defaultVisibility);
      SelectsFilledExtends(rows, defaultVisibility, FilledIndices(rows[..n]), Emitted(rows[..n], defaultVisibility));
    }
  }

  /** The position the last row adds to the filled-out positions. */
  function LastFilled(rows: seq<Row>): seq<nat>
    requires |rows| > 0
  {
    if IsAttributeFilledOut(rows[|rows| - 1]) then [|rows| - 1] else []
  }

  /** One step of the walk keeps the selection property. */
  lemma SelectsFilledExtends(rows: seq<Row>, defaultVisibility: bool, idxP: seq<nat>, outP: seq<Attr>)
    requires |rows| > 0
    requires SelectsFilled(rows[..|rows| - 1], defaultVisibility, idxP, outP)
    ensures SelectsFilled(rows, defaultVisibility, idxP + LastFilled(rows), outP + EmitRow(rows[|rows| - 1], defaultVisibility))
  {
    ExtendPicked(rows, defaultVisibility, idxP, outP);
    ExtendOrdered(rows, idxP);
    ExtendCovers(rows, idxP);
  }

  lemma ExtendPicked(rows: seq<Row>, defaultVisibility: bool, idxP: seq<nat>, outP: seq<Attr>)
    requires |rows| > 0
    requires SelectsFilled(rows[..|rows| - 1], defaultVisibility, idxP, outP)
    ensures
      var idx, out := idxP + LastFilled(rows), outP + EmitRow(rows[|rows| - 1], defaultVisibility);
      && |idx| == |out|
      && forall k :: 0 <= k < |idx| ==>
           && idx[k] < |rows|
           && IsAttributeFilledOut(rows[idx[k]])
           && out[k] == Normalise(rows[idx[k]].attr, defaultVisibility)
  {
    var prefix := rows[..|rows| - 1];
    var idx, out := idxP + LastFilled(rows), outP + EmitRow(rows[|rows| - 1], defaultVisibility);
    forall k | 0 <= k < |idx|
      ensures idx[k] < |rows| && IsAttributeFilledOut(rows[idx[k]])
      ensures out[k] == Normalise(rows[idx[k]].attr, defaultVisibility)
    {
      if k < |idxP| {
        assert idx[k] == idxP[k] && out[k] == outP[k];
        assert prefix[idxP[k]] == rows[idxP[k]];
      }
    }
  }

  lemma ExtendOrdered(rows: seq<Row>, idxP: seq<nat>)
    requires |rows| > 0
    requires forall k :: 0 <= k < |idxP| ==> idxP[k] < |rows| - 1
    requires forall k, l :: 0 <= k < l < |idxP| ==> idxP[k] < idxP[l]
    ensures var idx := idxP + LastFilled(rows); forall k, l :: 0 <= k < l < |idx| ==> idx[k] < idx[l]
  {
    var idx := idxP + LastFilled(rows);
    forall k, l | 0 <= k < l < |idx|
      ensures idx[k] < idx[l]
    {
      assert idx[k] == idxP[k];
      if l < |idxP| {
        assert idx[l] == idxP[l];
      }
    }
  }

  lemma ExtendCovers(rows: seq<Row>, idxP: seq<nat>)
    requires |rows| > 0
    requires forall i :: 0 <= i < |rows| - 1 && IsAttributeFilledOut(rows[..|rows| - 1][i]) ==> i in idxP
    ensures forall i :: 0 <= i < |rows| && IsAttributeFilledOut(rows[i]) ==> i in idxP + LastFilled(rows)
  {
    var prefix := rows[..|rows| - 1];
    forall i | 0 <= i < |rows| && IsAttributeFilledOut(rows[i])
      ensures i in idxP + LastFilled(rows)
    {
      if i < |rows| - 1 {
        assert prefix[i] == rows[i];
      }
    }
  }

  /** Emission distributes over concatenation, so row order is kept. */
  lemma {:induction false} EmittedAppend(a: seq<Row>, b: seq<Row>, defaultVisibility: bool)
    ensures Emitted(a + b, defaultVisibility) == Emitted(a, defaultVisibility) + Emitted(b, defaultVisibility)
    decreases |b|
  {
    if |b| == 0 {
      assert a + b == a;
    } else {
      var n := |b| - 1;
      assert (a + b)[..|a + b| - 1] == a + b[..n];
      assert (a + b)[|a + b| - 1] == b[n];
      EmittedAppend(a, b[..n], defaultVisibility);
      assert Emitted(b, defaultVisibility) == Emitted(b[..n], defaultVisibility) + EmitRow(b[n], defaultVisibility);
      ConcatAssoc(Emitted(a, defaultVisibility), Emitted(b[..n], defaultVisibility), EmitRow(b[n], defaultVisibility));
    }
  }

  /** Reading the holes as `undefined` changes nothing that a completed walk
      emits: neither a hole nor `undefined` is filled out. */
  lemma {:induction false} EmittedFillHoles(rows: seq<Row>, defaultVisibility: bool)
    ensures Emitted(FillHoles(rows), defaultVisibility) == Emitted(rows, defaultVisibility)
  {
    if |rows| > 0 {
      var n := |rows| - 1;
      EmittedFillHoles(rows[..n], defaultVisibility);
      assert FillHoles(rows)[..n] == FillHoles(rows[..n]);
    }
  }

  /** Appending an empty row changes nothing that "Add" emits. */
  lemma AddAnotherEmitsNothingNew(rows: seq<Row>, defaultVisibility: bool)
    ensures Emitted(AddAnother(rows), defaultVisibility) == Emitted(rows, defaultVisibility)
  {
    assert AddAnother(rows)[..|rows|] == FillHoles(rows);
    EmittedFillHoles(rows, defaultVisibility);
  }

  /** "+ Add another" turns every hole into `undefined`, on which "Add" then
      throws. */
  lemma AddAnotherTurnsHolesIntoThrowingRows(rows: seq<Row>, i: nat)
    requires i < |rows| && rows[i].Hole?
    ensures !FilledOutCheckThrows(rows[i])
    ensures FilledOutCheckThrows(AddAnother(rows)[i])
  {
  }

  /** The "Add" button: walks the rows in order, pushing the normalised
      filled-out drafts, and hands them to `onAdd`. `None` means the walk threw
      on a `[null]` row or a cleared slot, and `onAdd` was never called. */
  method OnAddingAttributes(rows: seq<Row>, defaultVisibility: bool) returns (added: Option<seq<Attr>>)
    ensures added.None? <==> exists i :: 0 <= i < |rows| && FilledOutCheckThrows(rows[i])
    ensures added.Some? ==> added.value == Emitted(rows, defaultVisibility)
  {
    var out: seq<Attr> := [];
    var i := 0;
    while i < |rows|
      invariant 0 <= i <= |rows|
      invariant forall j :: 0 <= j < i ==> !FilledOutCheckThrows(rows[j])
      invariant out == Emitted(rows[..i], defaultVisibility)
    {
      if FilledOutCheckThrows(rows[i]) {
        assert 0 <= i < |rows| && FilledOutCheckThrows(rows[i]);
        return None;
      }
      if IsAttributeFilledOut(rows[i]) {
        EmittedPush(rows, i, defaultVisibility);
        out := out + [Normalise(rows[i].attr, defaultVisibility)];
      } else {
        EmittedSkip(rows, i, defaultVisibility);
      }
      i := i + 1;
    }
    assert rows[..i] == rows;
    return Some(out);
  }

  /** One more filled-out row of the walk pushes its normalised attribute. */
  lemma EmittedPush(rows: seq<Row>, i: int, defaultVisibility: bool)
    requires 0 <= i < |rows| && IsAttributeFilledOut(rows[i])
    ensures Emitted(rows[..i + 1], defaultVisibility) == Emitted(rows[..i], defaultVisibility) + [Normalise(rows[i].attr, defaultVisibility)]
  {
    assert rows[..i + 1][..i] == rows[..i];
  }

  /** One more row of the walk that is not filled out pushes nothing. */
  lemma EmittedSkip(rows: seq<Row>, i: int, defaultVisibility: bool)
    requires 0 <= i < |rows| && !IsAttributeFilledOut(rows[i])
    ensures Emitted(rows[..i + 1], defaultVisibility) == Emitted(rows[..i], defaultVisibility)
  {
    assert rows[..i + 1][..i] == rows[..i];
  }

  /** The rows with the holes left out, as `filter` walks them. */
  function DropHoles(rows: seq<Row>): (r: seq<Row>)
    ensures |r| <= |rows|
  {
    if |rows| == 0 then []
    else
      var n := |rows| - 1;
      DropHoles(rows[..n]) + KeepSlot(rows[n])
  }

  /** `filter` leaves no hole, and on an array without holes it is a copy. */
  lemma {:induction false} DropHolesIsDense(rows: seq<Row>)
    ensures NoHoles(DropHoles(rows))
    ensures NoHoles(rows) ==> DropHoles(rows) == rows
  {
    if |rows| > 0 {
      var n := |rows| - 1;
      DropHolesIsDense(rows[..n]);
      assert DropHoles(rows) == DropHoles(rows[..n]) + KeepSlot(rows[n]);
      assert NoHoles(rows) ==> NoHoles(rows[..n]);
    }
  }

  /** Concatenation is associative. */
  lemma ConcatAssoc<T>(a: seq<T>, b: seq<T>, c: seq<T>)
    ensures a + b + c == a + (b + c)
  {
  }

  /** What one slot contributes to the result of `filter`. */
  function KeepSlot(row: Row): seq<Row> {
    if row.Hole? then [] else [row]
  }

  /** Dropping the holes keeps every other row. */
  lemma {:induction false} DropHolesMembers(rows: seq<Row>)
    ensures forall x :: x in DropHoles(rows) <==> x in rows && !x.Hole?
  {
    if |rows| > 0 {
      var n := |rows| - 1;
      DropHolesMembers(rows[..n]);
      assert rows == rows[..n] + [rows[n]];
    }
  }

  /** `rows.filter((val, i) => i !== index)`: the callback sees each slot's
      own position, and `filter` skips the holes, so they are gone from the
      result. */
  function KeepOthers(rows: seq<Row>, index: int): (r: seq<Row>)
    ensures 0 <= index < |rows| ==> r == DropHoles(rows[..index]) + DropHoles(rows[index + 1..])
    ensures !(0 <= index < |rows|) ==> r == DropHoles(rows)
  {
    if |rows| == 0 then []
    else
      var n := |rows| - 1;
      var prev := KeepOthers(rows[..n], index);
      if 0 <= index < n then
        assert rows[..n][..index] == rows[..index];
        assert rows[..n][index + 1..] == rows[index + 1..n];
        KeepOthersInside(rows, index, prev);
        prev + KeepSlot(rows[n])
      else if index == n then
        KeepOthersAtEnd(rows, index, prev);
        prev
      else
        DropHolesOfTail(rows);
        prev + KeepSlot(rows[n])
  }

  /** The `filter` walk past a slot after `index`: the slot is kept unless it
      is a hole. */
  lemma KeepOthersInside(rows: seq<Row>, index: int, prev: seq<Row>)
    requires 0 <= index < |rows| - 1
    requires prev == DropHoles(rows[..index]) + DropHoles(rows[index + 1..|rows| - 1])
    ensures prev + KeepSlot(rows[|rows| - 1]) == DropHoles(rows[..index]) + DropHoles(rows[index + 1..])
  {
    var n := |rows| - 1;
    DropHolesOfTail(rows[index + 1..]);
    assert rows[index + 1..][..n - index - 1] == rows[index + 1..n];
    ConcatAssoc(DropHoles(rows[..index]), DropHoles(rows[index + 1..n]), KeepSlot(rows[n]));
  }

  /** The `filter` walk past the slot at `index`, the last one: it is dropped. */
  lemma KeepOthersAtEnd(rows: seq<Row>, index: int, prev: seq<Row>)
    requires index == |rows| - 1 >= 0
    requires prev == DropHoles(rows[..|rows| - 1])
    ensures prev == DropHoles(rows[..index]) + DropHoles(rows[index + 1..])
  {
    assert rows[index + 1..] == [];
  }

  /** `DropHoles` peels the last slot. */
  lemma DropHolesOfTail(rows: seq<Row>)
    requires |rows| > 0
    ensures DropHoles(rows) == DropHoles(rows[..|rows| - 1]) + KeepSlot(rows[|rows| - 1])
  {
  }

  /** `n` empty slots. */
  function Holes(n: nat): (r: seq<Row>)
    ensures |r| == n
    ensures forall j :: 0 <= j < n ==> r[j] == Hole
  {
    seq(n, _ => Hole)
  }

  /** `setValue('attributes[' + index + ']', row)`: a JavaScript array
      assignment. Inside the array it replaces one slot; past the end it
      lengthens the array, leaving empty slots before the new one. */
  function WriteSlot(rows: seq<Row>, index: nat, row: Row): (r: seq<Row>)
    ensures |r| == if index < |rows| then |rows| else index + 1
    ensures r[index] == row
    ensures forall j :: 0 <= j < |rows| && j != index ==> r[j] == rows[j]
    ensures forall j :: |rows| <= j < index ==> r[j] == Hole
  {
    if index < |rows| then rows[index := row]
    else rows + Holes(index - |rows|) + [row]
  }

  /** The trash button of row `index`. With several rows the row is dropped,
      and with it every hole; otherwise the slot `attributes[index]` is
      overwritten with the array `[null]`, not the list with an empty row. */
  function OnRemove(index: nat, rows: seq<Row>): (r: seq<Row>)
    ensures |rows| > 1 && index < |rows| ==> r == DropHoles(rows[..index]) + DropHoles(rows[index + 1..])
    ensures |rows| > 1 && index >= |rows| ==> r == DropHoles(rows)
    ensures |rows| > 1 && index < |rows| && NoHoles(rows) ==>
      |r| == |rows| - 1 &&
      (forall k :: 0 <= k < index ==> r[k] == rows[k]) &&
      (forall k :: index <= k < |r| ==> r[k] == rows[k + 1])
    ensures |rows| > 1 && index >= |rows| && NoHoles(rows) ==> r == rows
    ensures |rows| > 1 ==> NoHoles(r)
    ensures |rows| > 1 && !rows[0].Hole? && !rows[|rows| - 1].Hole? ==> |r| >= 1
    ensures |rows| == 1 && index == 0 ==> r == [NullArray]
    ensures |rows| <= 1 ==> |r| == (if index < |rows| then |rows| else index + 1)
    ensures |rows| <= 1 ==> r[index] == NullArray && FilledOutCheckThrows(r[index])
  {
    if |rows| > 1 then
      KeepOthersIsDense(rows, index);
      KeepOthersWithoutHoles(rows, index);
      SpliceShifts(rows, index);
      KeepOthersNonEmpty(rows, index);
      KeepOthers(rows, index)
    else WriteSlot(rows, index, NullArray)
  }

  /** On an array without holes, `filter` is the plain splice. */
  lemma KeepOthersWithoutHoles(rows: seq<Row>, index: int)
    ensures NoHoles(rows) && 0 <= index < |rows| ==> KeepOthers(rows, index) == rows[..index] + rows[index + 1..]
    ensures NoHoles(rows) && !(0 <= index < |rows|) ==> KeepOthers(rows, index) == rows
  {
    if NoHoles(rows) {
      if 0 <= index < |rows| {
        assert NoHoles(rows[..index]);
        assert NoHoles(rows[index + 1..]);
        DropHolesIsDense(rows[..index]);
        DropHolesIsDense(rows[index + 1..]);
      } else {
        DropHolesIsDense(rows);
      }
    }
  }

  /** Splicing one element out shifts the later ones down by one. */
  lemma SpliceShifts<T>(s: seq<T>, index: int)
    ensures 0 <= index < |s| ==>
      var r := s[..index] + s[index + 1..];
      && |r| == |s| - 1
      && (forall k :: 0 <= k < index ==> r[k] == s[k])
      && (forall k :: index <= k < |r| ==> r[k] == s[k + 1])
  {
  }

  /** The result of `filter` has no holes. */
  lemma KeepOthersIsDense(rows: seq<Row>, index: int)
    ensures NoHoles(KeepOthers(rows, index))
  {
    if 0 <= index < |rows| {
      DropHolesIsDense(rows[..index]);
      DropHolesIsDense(rows[index + 1..]);
    } else {
      DropHolesIsDense(rows);
    }
  }

  /** Dropping one row of several, and the holes, leaves a row when neither
      the first nor the last slot is empty. */
  lemma KeepOthersNonEmpty(rows: seq<Row>, index: int)
    ensures |rows| > 1 && !rows[0].Hole? && !rows[|rows| - 1].Hole? ==> |KeepOthers(rows, index)| >= 1
  {
    if |rows| <= 1 || rows[0].Hole? || rows[|rows| - 1].Hole? {
    } else if index == 0 {
      DropHolesMembers(rows[1..]);
      assert rows[|rows| - 1] == rows[1..][|rows| - 2];
      assert rows[|rows| - 1] in DropHoles(rows[1..]);
    } else if 0 < index < |rows| {
      DropHolesMembers(rows[..index]);
      assert rows[0] == rows[..index][0];
      assert rows[0] in DropHoles(rows[..index]);
    } else {
      DropHolesMembers(rows);
      assert rows[0] in DropHoles(rows);
    }
  }

  /** Removing the row that "+ Add another" appended gives back the rows,
      with any hole now read as `undefined`. */
  lemma RemoveUndoesAddAnother(rows: seq<Row>)
    requires |rows| >= 1
    ensures OnRemove(|rows|, AddAnother(rows)) == FillHoles(rows)
    ensures NoHoles(rows) ==> OnRemove(|rows|, AddAnother(rows)) == rows
  {
    var r := AddAnother(rows);
    assert r[..|rows|] == FillHoles(rows);
    assert r[|rows| + 1..] == [];
    DropHolesIsDense(FillHoles(rows));
    assert KeepOthers(r, |rows|) == DropHoles(FillHoles(rows)) + DropHoles([]);
  }

  /** A row whose `terms` is a non-empty list. Custom `options` do not count. */
  predicate HasTermValues(row: Row) {
    row.Draft? && row.attr.terms.Some? && |row.attr.terms.value| > 0
  }

  function HasValuesSet(rows: seq<Row>): (b: bool)
    ensures b <==> exists i :: 0 <= i < |rows| && HasTermValues(rows[i])
  {
    if |rows| == 0 then false
    else HasTermValues(rows[0]) || HasValuesSet(rows[1..])
  }

  datatype CloseAction = ShowConfirmClose | Cancel

  /** Closing the modal asks for confirmation iff some row has terms selected. */
  function OnClose(rows: seq<Row>): (r: CloseAction)
    ensures r == ShowConfirmClose <==> exists i :: 0 <= i < |rows| && HasTermValues(rows[i])
    ensures r == Cancel <==> forall i :: 0 <= i < |rows| ==> !HasTermValues(rows[i])
  {
    if HasValuesSet(rows) then ShowConfirmClose else Cancel
  }

  /** A filled-out custom attribute is emitted by "Add", yet closing with it
      does not ask for confirmation. */
  lemma CustomOptionsDoNotGuardClose(name: string, option: string, defaultVisibility: bool)
    requires |name| > 0
    ensures
      var a := Attr(0, name, 0, false, None, Some([option]), None);
      && Emitted([Draft(a)], defaultVisibility) == [Normalise(a, defaultVisibility)]
      && OnClose([Draft(a)]) == Cancel
  {
    var a := Attr(0, name, 0, false, None, Some([option]), None);
    assert !HasTermValues([Draft(a)][0]);
    assert [Draft(a)][..0] == [];
  }

  /** The disabled state of the "Add" button and of every trash button. */
  function ButtonsDisabled(rows: seq<Row>): (b: bool)
    ensures b <==> rows == InitialRows
  {
    |rows| == 1 && rows[0] == Null
  }

  /** Removing the only row leaves "Add" enabled, over a row on which "Add" throws. */
  lemma SingleRowRemoveLeavesAddEnabled(a: Attr)
    ensures
      var r := OnRemove(0, [Draft(a)]);
      && !ButtonsDisabled(r)
      && exists i :: 0 <= i < |r| && FilledOutCheckThrows(r[i])
  {
    assert FilledOutCheckThrows(OnRemove(0, [Draft(a)])[0]);
  }

  /** The ids of the rows that hold a draft, in row order. */
  function DraftIds(rows: seq<Row>): (ids: seq<int>)
    ensures |ids| <= |rows|
    ensures forall x :: x in ids <==> exists i :: 0 <= i < |rows| && rows[i].Draft? && rows[i].attr.id == x
  {
    if |rows| == 0 then []
    else
      var n := |rows| - 1;
      var prefix := rows[..n];
      assert forall i :: 0 <= i < n ==> prefix[i] == rows[i];
      DraftIds(prefix) + (if rows[n].Draft? then [rows[n].attr.id] else [])
  }

  /** Ids are collected in row order. */
  lemma {:induction false} DraftIdsAppend(a: seq<Row>, b: seq<Row>)
    ensures DraftIds(a + b) == DraftIds(a) + DraftIds(b)
    decreases |b|
  {
    if |b| == 0 {
      assert a + b == a;
    } else {
      var n := |b| - 1;
      assert (a + b)[..|a + b| - 1] == a + b[..n];
      DraftIdsAppend(a, b[..n]);
    }
  }

  /** The ids the attribute picker must not offer: the already selected ids,
      followed by the ids of the rows that hold a draft. */
  function IgnoredAttributeIds(selectedAttributeIds: seq<int>, rows: seq<Row>): (r: seq<int>)
    ensures |selectedAttributeIds| <= |r| <= |selectedAttributeIds| + |rows|
    ensures r[..|selectedAttributeIds|] == selectedAttributeIds
    ensures forall x :: x in r <==>
      x in selectedAttributeIds || exists i :: 0 <= i < |rows| && rows[i].Draft? && rows[i].attr.id == x
  {
    selectedAttributeIds + DraftIds(rows)
  }

  /** The `termsAutoSelection` prop. */
  datatype AutoSelection = All | First

  /** The terms auto-selection applied to `selected`, the attribute object built
      for the picked attribute, once its terms have been fetched. */
  function AutoSelectTerms(mode: AutoSelection, selected: Attr, fetched: seq<Term>): (r: Attr)
    ensures r.(terms := selected.terms) == selected
    ensures mode == All ==> r.terms == Some(fetched)
    ensures mode == First && |fetched| > 0 ==> r.terms == Some([fetched[0]])
    ensures mode == First && |fetched| == 0 ==> r == selected
  {
    match mode
    case All => selected.(terms := Some(fetched))
    case First => if |fetched| > 0 then selected.(terms := Some([fetched[0]])) else selected
  }

  /** `'first'` keeps the first term of what `'all'` would keep. */
  lemma FirstIsPrefixOfAll(selected: Attr, fetched: seq<Term>)
    requires |fetched| > 0
    ensures AutoSelectTerms(First, selected, fetched).terms.value
         == AutoSelectTerms(All, selected, fetched).terms.value[..1]
  {
  }

  /** Writing the auto-selected attribute into slot `index` once the fetch
      has resolved. Rows may have been removed meanwhile, so `index` may now
      name another row or lie past the end. */
  function OnAttributeTermsFetched(rows: seq<Row>, index: nat, mode: AutoSelection, selected: Attr, fetched: seq<Term>): (r: seq<Row>)
    ensures |r| == if index < |rows| then |rows| else index + 1
    ensures r[index] == Draft(AutoSelectTerms(mode, selected, fetched))
    ensures r[index].Draft? && r[index].attr.(terms := selected.terms) == selected
    ensures forall j :: 0 <= j < |rows| && j != index ==> r[j] == rows[j]
    ensures forall j :: |rows| <= j < index ==> r[j] == Hole && !FilledOutCheckThrows(r[j])
  {
    WriteSlot(rows, index, Draft(AutoSelectTerms(mode, selected, fetched)))
  }

  /** A named attribute whose fetch returned terms is filled out after
      auto-selection, in either mode, and closing then asks for confirmation. */
  lemma AutoSelectedRowIsFilledOut(rows: seq<Row>, index: nat, mode: AutoSelection, selected: Attr, fetched: seq<Term>)
    requires |selected.name| > 0 && |fetched| > 0
    ensures
      var r := OnAttributeTermsFetched(rows, index, mode, selected, fetched);
      IsAttributeFilledOut(r[index]) && OnClose(r) == ShowConfirmClose
  {
    var r := OnAttributeTermsFetched(rows, index, mode, selected, fetched);
    assert HasTermValues(r[index]);
  }

  /** A walk over empty slots emits nothing. */
  lemma {:induction false} EmittedHoles(n: nat, defaultVisibility: bool)
    ensures Emitted(Holes(n), defaultVisibility) == []
  {
    if n > 0 {
      EmittedHoles(n - 1, defaultVisibility);
      assert Holes(n)[..n - 1] == Holes(n - 1);
    }
  }

  /** A fetch that resolves after rows were removed, for a slot now at or past
      the end, leaves only empty slots before it. They do not block "Add": it
      throws afterwards exactly when it threw before, and it emits what it
      emitted before followed by the fetched row's contribution. */
  lemma LateFetchPastEndKeepsAdd(rows: seq<Row>, index: nat, mode: AutoSelection, selected: Attr, fetched: seq<Term>, defaultVisibility: bool)
    requires index >= |rows|
    ensures
      var r := OnAttributeTermsFetched(rows, index, mode, selected, fetched);
      && ((exists i :: 0 <= i < |r| && FilledOutCheckThrows(r[i])) <==> (exists i :: 0 <= i < |rows| && FilledOutCheckThrows(rows[i])))
      && Emitted(r, defaultVisibility) == Emitted(rows, defaultVisibility) + EmitRow(r[index], defaultVisibility)
  {
    var r := OnAttributeTermsFetched(rows, index, mode, selected, fetched);
    WriteAfterHoles(rows, r, index, defaultVisibility);
    if exists i :: 0 <= i < |r| && FilledOutCheckThrows(r[i]) {
      var i :| 0 <= i < |r| && FilledOutCheckThrows(r[i]);
      assert i < |rows| && FilledOutCheckThrows(rows[i]);
    }
  }

  /** A write past the end is the old rows, a run of holes and the new row. */
  lemma RowsThenHoles(rows: seq<Row>, r: seq<Row>, index: nat)
    requires |rows| <= index && |r| == index + 1
    requires forall j :: 0 <= j < |rows| ==> r[j] == rows[j]
    requires forall j :: |rows| <= j < index ==> r[j] == Hole
    ensures r == rows + Holes(index - |rows|) + [r[index]]
  {
    var s := rows + Holes(index - |rows|) + [r[index]];
    assert |s| == |r|;
    forall j | 0 <= j < |r|
      ensures r[j] == s[j]
    {
      if j < |rows| {
      } else if j < index {
        assert s[j] == Holes(index - |rows|)[j - |rows|];
      }
    }
  }

  /** Emission over the rows, a run of holes and one written row. */
  lemma WriteAfterHoles(rows: seq<Row>, r: seq<Row>, index: nat, defaultVisibility: bool)
    requires |rows| <= index && |r| == index + 1
    requires forall j :: 0 <= j < |rows| ==> r[j] == rows[j]
    requires forall j :: |rows| <= j < index ==> r[j] == Hole
    ensures Emitted(r, defaultVisibility) == Emitted(rows, defaultVisibility) + EmitRow(r[index], defaultVisibility)
  {
    var gap, x := Holes(index - |rows|), r[index];
    RowsThenHoles(rows, r, index);
    EmittedAppend(rows + gap, [x], defaultVisibility);
    EmittedAppend(rows, gap, defaultVisibility);
    EmittedHoles(index - |rows|, defaultVisibility);
    assert [x][..0] == [];
    calc {
      Emitted(r, defaultVisibility);
      Emitted(rows + gap, defaultVisibility) + Emitted([x], defaultVisibility);
      Emitted(rows, defaultVisibility) + Emitted(gap, defaultVisibility) + Emitted([x], defaultVisibility);
      Emitted(rows, defaultVisibility) + [] + EmitRow(x, defaultVisibility);
    }
    assert Emitted(rows, defaultVisibility) + [] == Emitted(rows, defaultVisibility);
  }

  /** What the attribute picker hands to the row's change handler. `NoValue`
      is a falsy value (the picker was cleared); `NewName` is a typed name and
      `Existing` an existing attribute. Each carries `built`, the result of
      `getProductAttributeObject`, which is not part of this model. */
  datatype PickerValue = NoValue | NewName(built: Attr) | Existing(built: Attr)

  /** The synchronous part of the row's change handler. With auto-selection on
      and an existing attribute picked, nothing is written until the terms are
      fetched (see `OnAttributeTermsFetched`); otherwise `value &&
      getProductAttributeObject(value)` is written into the slot, which for a
      cleared picker is the falsy value itself. */
  function OnAttributeChange(rows: seq<Row>, index: nat, autoSelection: Option<AutoSelection>, value: PickerValue): (r: seq<Row>)
    ensures autoSelection.Some? && value.Existing? ==> r == rows
    ensures !(autoSelection.Some? && value.Existing?) ==>
      && |r| == (if index < |rows| then |rows| else index + 1)
      && (value.NoValue? ==> r[index] == Cleared)
      && (!value.NoValue? ==> r[index] == Draft(value.built))
      && (forall j :: 0 <= j < |rows| && j != index ==> r[j] == rows[j])
      && (forall j :: |rows| <= j < index ==> r[j] == Hole)
  {
    if autoSelection.Some? && value.Existing? then rows
    else WriteSlot(rows, index, if value.NoValue? then Cleared else Draft(value.built))
  }

  /** Clearing the picker of a row leaves "Add" enabled, yet "Add" then throws
      on that row; closing does not ask for confirmation on its account and
      the picker ignores no id for it. */
  lemma ClearedRowBlocksAdd(rows: seq<Row>, index: nat, autoSelection: Option<AutoSelection>)
    requires index < |rows|
    ensures
      var r := OnAttributeChange(rows, index, autoSelection, NoValue);
      && !ButtonsDisabled(r)
      && FilledOutCheckThrows(r[index])
      && !HasTermValues(r[index])
      && DraftIds(r) == DraftIds(rows[..index]) + DraftIds(rows[index + 1..])
  {
    var r := OnAttributeChange(rows, index, autoSelection, NoValue);
    assert r == rows[..index] + [Cleared] + rows[index + 1..];
    DraftIdsAppend(rows[..index] + [Cleared], rows[index + 1..]);
    DraftIdsAppend(rows[..index], [Cleared]);
    assert [Cleared][..0] == [];
  }
}
