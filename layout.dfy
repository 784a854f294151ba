/**
 * The flat parameter-vector layout of the quasi-Newton optimizer. Every parameter tensor
 * is flattened, and the flat pieces are concatenated in parameter order into one vector
 * of length n. A trial vector is cut back into pieces by walking a running offset over
 * the parameter sizes. While the network is evaluated at the trial point, each
 * (layer, attribute) slot temporarily holds its piece, and afterwards the original
 * parameter is put back.
 *
 * Tensors are modelled by their flattened values; reshaping to the tensor's shape is not
 * part of this model.
 */
module Layout {
  import opened Wrappers
  import opened LinAlg

  // ------------------------------------------------------------ sizes and offsets

  /** The total number of scalars in tensors of the given sizes. */
  function Total(sizes: seq<nat>): nat {
    if |sizes| == 0 then 0 else sizes[0] + Total(sizes[1..])
  }

  /** Where piece k starts in the flat vector: the total size of the pieces before it. */
  function Offset(sizes: seq<nat>, k: nat): nat
    requires k <= |sizes|
  {
    Total(sizes[..k])
  }

  lemma {:induction false} TotalAppend(a: seq<nat>, b: seq<nat>)
    ensures Total(a + b) == Total(a) + Total(b)
    decreases |a|
  {
    if |a| > 0 {
      assert (a + b)[0] == a[0];
      assert (a + b)[1..] == a[1..] + b;
      TotalAppend(a[1..], b);
      assert Total(a + b) == a[0] + Total(a[1..] + b);
    } else {
      assert a + b == b;
    }
  }

  /** Moving past piece k advances the offset by that piece's size. */
  lemma OffsetNext(sizes: seq<nat>, k: nat)
    requires k < |sizes|
    ensures Offset(sizes, k + 1) == Offset(sizes, k) + sizes[k]
    ensures Offset(sizes, k + 1) <= Total(sizes)
  {
    assert sizes[..k + 1] == sizes[..k] + [sizes[k]];
    TotalAppend(sizes[..k], [sizes[k]]);
    assert Total([sizes[k]]) == sizes[k] + Total([]);
    assert sizes == sizes[..k + 1] + sizes[k + 1..];
    TotalAppend(sizes[..k + 1], sizes[k + 1..]);
  }

  // ---------------------------------------------------------------- concatenation

  /** The sizes of a sequence of flat pieces. */
  function SizesOf(pieces: seq<Vector>): (sizes: seq<nat>)
    ensures |sizes| == |pieces|
    ensures forall k :: 0 <= k < |pieces| ==> sizes[k] == |pieces[k]|
  {
    seq(|pieces|, k requires 0 <= k < |pieces| => |pieces[k]|)
  }

  /** The pieces joined end to end, in order: the flat parameter or gradient vector. */
  function Concat(pieces: seq<Vector>): (v: Vector)
    ensures |v| == Total(SizesOf(pieces))
    decreases |pieces|
  {
    if |pieces| == 0 then []
    else
      assert SizesOf(pieces)[1..] == SizesOf(pieces[1..]);
      pieces[0] + Concat(pieces[1..])
  }

  // ---------------------------------------------------------------------- slicing

  datatype LayoutError = DimensionMismatch

  /** Consecutive pieces of the given sizes taken from the front of v. */
  function Slices(v: Vector, sizes: seq<nat>): (pieces: seq<Vector>)
    requires Total(sizes) <= |v|
    ensures |pieces| == |sizes|
    decreases |sizes|
  {
    if |sizes| == 0 then [] else [v[..sizes[0]]] + Slices(v[sizes[0]..], sizes[1..])
  }

  /**
   * Cutting v into tensors of the given sizes. A vector shorter than the total size is a
   * dimension mismatch; entries past the total size are not read.
   */
  function Split(v: Vector, sizes: seq<nat>): (r: Result<seq<Vector>, LayoutError>)
    ensures r.Ok? <==> Total(sizes) <= |v|
    ensures r.Ok? ==> |r.value| == |sizes|
  {
    if |v| < Total(sizes) then Err(DimensionMismatch) else Ok(Slices(v, sizes))
  }

  /** Piece k of the slicing is exactly the window [Offset(k), Offset(k) + sizes[k]) of v. */
  lemma {:induction false} SlicesAt(v: Vector, sizes: seq<nat>, k: nat)
    requires Total(sizes) <= |v| && k < |sizes|
    ensures Offset(sizes, k) + sizes[k] <= Total(sizes)
    ensures Slices(v, sizes)[k] == v[Offset(sizes, k)..Offset(sizes, k) + sizes[k]]
    decreases k
  {
    OffsetNext(sizes, k);
    if k == 0 {
      assert sizes[..0] == [];
    } else {
      SlicesAt(v[sizes[0]..], sizes[1..], k - 1);
      OffsetTail(sizes, k);
      WindowOfSuffix(v, sizes[0], Offset(sizes[1..], k - 1), sizes[k]);
    }
  }

  lemma WindowOfSuffix(v: Vector, start: nat, a: nat, len: nat)
    requires start + a + len <= |v|
    ensures v[start..][a..a + len] == v[start + a..start + a + len]
  {
  }

  lemma OffsetTail(sizes: seq<nat>, k: nat)
    requires 0 < k <= |sizes|
    ensures Offset(sizes, k) == sizes[0] + Offset(sizes[1..], k - 1)
  {
    assert sizes[..k][0] == sizes[0];
    assert sizes[..k][1..] == sizes[1..][..k - 1];
  }

  /** The pieces are contiguous, do not overlap, have their sizes and together cover [0, n). */
  lemma PiecesTile(v: Vector, sizes: seq<nat>)
    requires Split(v, sizes).Ok?
    ensures Offset(sizes, 0) == 0 && Offset(sizes, |sizes|) == Total(sizes)
    ensures forall k :: 0 <= k < |sizes| ==> Offset(sizes, k) + sizes[k] == Offset(sizes, k + 1)
    ensures forall k :: 0 <= k < |sizes| ==>
      |Split(v, sizes).value[k]| == sizes[k] &&
      Offset(sizes, k) + sizes[k] <= Total(sizes) &&
      Split(v, sizes).value[k] == v[Offset(sizes, k)..Offset(sizes, k) + sizes[k]]
  {
    assert sizes[..|sizes|] == sizes;
    forall k | 0 <= k < |sizes|
      ensures Offset(sizes, k) + sizes[k] == Offset(sizes, k + 1)
      ensures |Split(v, sizes).value[k]| == sizes[k]
      ensures Offset(sizes, k) + sizes[k] <= Total(sizes)
      ensures Split(v, sizes).value[k] == v[Offset(sizes, k)..Offset(sizes, k) + sizes[k]]
    {
      OffsetNext(sizes, k);
      SlicesAt(v, sizes, k);
    }
  }

  /** Slicing a concatenation gives back the pieces. */
  lemma {:induction false} SplitConcat(pieces: seq<Vector>)
    ensures Split(Concat(pieces), SizesOf(pieces)) == Ok(pieces)
    decreases |pieces|
  {
    if |pieces| > 0 {
      var sizes := SizesOf(pieces);
      var v := Concat(pieces);
      assert sizes[1..] == SizesOf(pieces[1..]);
      assert v[..sizes[0]] == pieces[0];
      assert v[sizes[0]..] == Concat(pieces[1..]);
      SplitConcat(pieces[1..]);
      assert pieces == [pieces[0]] + pieces[1..];
    }
  }

  /** Concatenating the slices of a vector of exactly the total size gives back the vector. */
  lemma {:induction false} ConcatSplit(v: Vector, sizes: seq<nat>)
    requires |v| == Total(sizes)
    ensures Split(v, sizes).Ok? && Concat(Split(v, sizes).value) == v
    decreases |sizes|
  {
    if |sizes| > 0 {
      ConcatSplit(v[sizes[0]..], sizes[1..]);
      assert Slices(v, sizes)[1..] == Slices(v[sizes[0]..], sizes[1..]);
      assert v == v[..sizes[0]] + v[sizes[0]..];
    }
  }

  /** Slicing leaves the sizes of the pieces as requested. */
  lemma SplitSizes(v: Vector, sizes: seq<nat>)
    requires Split(v, sizes).Ok?
    ensures SizesOf(Split(v, sizes).value) == sizes
  {
    PiecesTile(v, sizes);
  }

  // ------------------------------------------------------- layer attribute slots

  /** A (layer, attribute name) slot that holds a parameter, e.g. (0, "weight"). */
  datatype Handle = Handle(layer: nat, attr: string)

  /** A parameter: the slot it lives in and its current (flattened) value. */
  datatype ParamEntry = ParamEntry(handle: Handle, value: Vector)

  /** The flat values of the parameters, in parameter order. */
  function Values(entries: seq<ParamEntry>): (values: seq<Vector>)
    ensures |values| == |entries|
    ensures forall k :: 0 <= k < |entries| ==> values[k] == entries[k].value
  {
    seq(|entries|, k requires 0 <= k < |entries| => entries[k].value)
  }

  function Handles(entries: seq<ParamEntry>): set<Handle> {
    set k | 0 <= k < |entries| :: entries[k].handle
  }

  /** The slots after writing pieces[k] into the slot of entries[k], for k in order. */
  function Override(attrs: map<Handle, Vector>, entries: seq<ParamEntry>, pieces: seq<Vector>)
    : (r: map<Handle, Vector>)
    requires |entries| == |pieces|
    ensures r.Keys == attrs.Keys + Handles(entries)
    decreases |entries|
  {
    if |entries| == 0 then attrs
    else
      var last := |entries| - 1;
      assert Handles(entries) == Handles(entries[..last]) + {entries[last].handle};
      Override(attrs, entries[..last], pieces[..last])[entries[last].handle := pieces[last]]
  }

  /** The slots after writing each parameter's own value back into its slot, in order. */
  function Restore(attrs: map<Handle, Vector>, entries: seq<ParamEntry>): (r: map<Handle, Vector>)
    ensures r.Keys == attrs.Keys + Handles(entries)
    decreases |entries|
  {
    if |entries| == 0 then attrs
    else
      var last := |entries| - 1;
      assert Handles(entries) == Handles(entries[..last]) + {entries[last].handle};
      Restore(attrs, entries[..last])[entries[last].handle := entries[last].value]
  }

  /** m1 and m2 hold the same slots with the same values outside the slots in `written`. */
  ghost predicate AgreeOutside(m1: map<Handle, Vector>, m2: map<Handle, Vector>, written: set<Handle>) {
    forall h :: h !in written ==> (h in m1 <==> h in m2) && (h in m1 ==> m1[h] == m2[h])
  }

  /** Every parameter's slot holds that parameter's value. */
  predicate Consistent(attrs: map<Handle, Vector>, entries: seq<ParamEntry>) {
    forall k :: 0 <= k < |entries| ==>
      entries[k].handle in attrs && attrs[entries[k].handle] == entries[k].value
  }

  /** Overriding touches only the parameters' slots, and each of them ends up present. */
  lemma {:induction false} OverrideOnlyWritesHandles(
    attrs: map<Handle, Vector>, entries: seq<ParamEntry>, pieces: seq<Vector>)
    requires |entries| == |pieces|
    ensures AgreeOutside(Override(attrs, entries, pieces), attrs, Handles(entries))
    ensures forall k :: 0 <= k < |entries| ==> entries[k].handle in Override(attrs, entries, pieces)
    decreases |entries|
  {
    if |entries| > 0 {
      var last := |entries| - 1;
      OverrideOnlyWritesHandles(attrs, entries[..last], pieces[..last]);
      assert Handles(entries) == Handles(entries[..last]) + {entries[last].handle};
    }
  }

  /** With distinct slots, the slot of parameter k holds piece k after overriding. */
  lemma {:induction false} OverrideLookup(
    attrs: map<Handle, Vector>, entries: seq<ParamEntry>, pieces: seq<Vector>, k: nat)
    requires |entries| == |pieces| && k < |entries|
    requires forall i, j :: 0 <= i < j < |entries| ==> entries[i].handle != entries[j].handle
    ensures entries[k].handle in Override(attrs, entries, pieces)
    ensures Override(attrs, entries, pieces)[entries[k].handle] == pieces[k]
    decreases |entries|
  {
    var last := |entries| - 1;
    if k < last {
      OverrideLookup(attrs, entries[..last], pieces[..last], k);
    }
  }

  /** The value the last parameter living in slot h puts there. */
  function LastValue(entries: seq<ParamEntry>, h: Handle): Vector
    requires h in Handles(entries)
    decreases |entries|
  {
    var last := |entries| - 1;
    if entries[last].handle == h then entries[last].value
    else
      assert Handles(entries) == Handles(entries[..last]) + {entries[last].handle};
      LastValue(entries[..last], h)
  }

  /** After restoring, each parameter's slot holds the value of the last parameter living there. */
  lemma {:induction false} RestoreAt(attrs: map<Handle, Vector>, entries: seq<ParamEntry>, h: Handle)
    requires h in Handles(entries)
    ensures h in Restore(attrs, entries) && Restore(attrs, entries)[h] == LastValue(entries, h)
    decreases |entries|
  {
    var last := |entries| - 1;
    assert Handles(entries) == Handles(entries[..last]) + {entries[last].handle};
    if entries[last].handle != h {
      RestoreAt(attrs, entries[..last], h);
    }
  }

  /** What Restore produces does not depend on what the parameters' slots held before. */
  lemma RestoreIgnoresHandles(
    m1: map<Handle, Vector>, m2: map<Handle, Vector>, entries: seq<ParamEntry>)
    requires AgreeOutside(m1, m2, Handles(entries))
    ensures Restore(m1, entries) == Restore(m2, entries)
  {
    var r1, r2 := Restore(m1, entries), Restore(m2, entries);
    RestoreOnlyWritesHandles(m1, entries);
    RestoreOnlyWritesHandles(m2, entries);
    forall h | h in Handles(entries) ensures h in r1 && h in r2 && r1[h] == r2[h] {
      RestoreAt(m1, entries, h);
      RestoreAt(m2, entries, h);
    }
    assert forall h :: h in r1 <==> h in r2;
    assert forall h :: h in r1 ==> r1[h] == r2[h];
  }

  lemma {:induction false} RestoreOnlyWritesHandles(attrs: map<Handle, Vector>, entries: seq<ParamEntry>)
    ensures AgreeOutside(Restore(attrs, entries), attrs, Handles(entries))
    decreases |entries|
  {
    if |entries| > 0 {
      var last := |entries| - 1;
      RestoreOnlyWritesHandles(attrs, entries[..last]);
      assert Handles(entries) == Handles(entries[..last]) + {entries[last].handle};
    }
  }

  /** Overriding one more parameter writes its piece into its slot. */
  lemma OverrideStep(attrs: map<Handle, Vector>, entries: seq<ParamEntry>, pieces: seq<Vector>, i: nat)
    requires |entries| == |pieces| && i < |entries|
    ensures Override(attrs, entries[..i + 1], pieces[..i + 1])
         == Override(attrs, entries[..i], pieces[..i])[entries[i].handle := pieces[i]]
  {
    assert entries[..i + 1][..i] == entries[..i];
    assert pieces[..i + 1][..i] == pieces[..i];
  }

  /** Restoring one more parameter writes its value back into its slot. */
  lemma RestoreStep(attrs: map<Handle, Vector>, entries: seq<ParamEntry>, i: nat)
    requires i < |entries|
    ensures Restore(attrs, entries[..i + 1])
         == Restore(attrs, entries[..i])[entries[i].handle := entries[i].value]
  {
    assert entries[..i + 1][..i] == entries[..i];
  }

  /** Overriding and then restoring has the same effect as restoring alone. */
  lemma RestoreAfterOverride(attrs: map<Handle, Vector>, entries: seq<ParamEntry>, pieces: seq<Vector>)
    requires |entries| == |pieces|
    ensures Restore(Override(attrs, entries, pieces), entries) == Restore(attrs, entries)
  {
    OverrideOnlyWritesHandles(attrs, entries, pieces);
    RestoreIgnoresHandles(Override(attrs, entries, pieces), attrs, entries);
  }

  /** When every slot holds its own parameter, restoring changes nothing. */
  lemma {:induction false} RestoreConsistent(attrs: map<Handle, Vector>, entries: seq<ParamEntry>)
    requires Consistent(attrs, entries)
    ensures Restore(attrs, entries) == attrs
    decreases |entries|
  {
    if |entries| > 0 {
      var last := |entries| - 1;
      RestoreConsistent(attrs, entries[..last]);
    }
  }

  // ------------------------------------------------------------ trial evaluation

  /** The parameter vector at step length `step` along `direction`: p + step·d. */
  function TrialPoint(p: Vector, direction: Vector, step: real): (q: Vector)
    requires |p| == |direction|
    ensures |q| == |p|
    ensures forall i :: 0 <= i < |p| ==> q[i] == p[i] + step * direction[i]
  {
    AddV(p, ScaleV(step, direction))
  }

  /** The network's parameter slots, which the trial evaluation overrides and then restores. */
  class Network {
    var attrs: map<Handle, Vector>

    constructor (attrs: map<Handle, Vector>)
      ensures this.attrs == attrs
    {
      this.attrs := attrs;
    }

    /**
     * The network output at p + step·d: each slot temporarily holds its slice of the trial
     * vector while `output` is evaluated, then every slot gets its parameter back.
     */
    method Prediction<O>(entries: seq<ParamEntry>, p: Vector, direction: Vector, step: real,
                         output: map<Handle, Vector> -> O) returns (out: O)
      requires |p| == |direction| == Total(SizesOf(Values(entries)))
      modifies this
      ensures out == output(Override(old(attrs), entries,
                                     Slices(TrialPoint(p, direction, step), SizesOf(Values(entries)))))
      ensures attrs == Restore(old(attrs), entries)
      ensures Consistent(old(attrs), entries) ==> attrs == old(attrs)
    {
      var sizes := SizesOf(Values(entries));
      var updated := TrialPoint(p, direction, step);
      ghost var pieces := Slices(updated, sizes);
      var start := 0;
      var i := 0;
      while i < |entries|
        invariant 0 <= i <= |entries|
        invariant start == Offset(sizes, i) <= Total(sizes)
        invariant attrs == Override(old(attrs), entries[..i], pieces[..i])
      {
        OffsetNext(sizes, i);
        SlicesAt(updated, sizes, i);
        OverrideStep(old(attrs), entries, pieces, i);
        var stop := start + |entries[i].value|;
        attrs := attrs[entries[i].handle := updated[start..stop]];
        start := stop;
        i := i + 1;
      }
      assert entries[..i] == entries && pieces[..i] == pieces;
      out := output(attrs);
      ghost var overridden := attrs;
      i := 0;
      while i < |entries|
        invariant 0 <= i <= |entries|
        invariant attrs == Restore(overridden, entries[..i])
      {
        RestoreStep(overridden, entries, i);
        attrs := attrs[entries[i].handle := entries[i].value];
        i := i + 1;
      }
      assert entries[..i] == entries;
      RestoreAfterOverride(old(attrs), entries, pieces);
      if Consistent(old(attrs), entries) {
        RestoreConsistent(old(attrs), entries);
      }
    }
  }
}
