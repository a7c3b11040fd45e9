/**
  The few operations of the rope library that the text buffer calls, stated over plain
  sequences. A rope is a `seq<char>`; a subset of a string of length n is a `seq<bool>` of
  length n whose `true` positions are the members (for the buffer: the deleted characters).
  An insert-only delta is described by the subset of its result that is newly inserted
  together with the inserted characters, so applying it is an interleaving (`Merge`).

  Where the library asserts that two subsets have the same base length (zipping subsets of
  different lengths panics), the functions here require it.
*/
module Subsets {

  type Subset = seq<bool>
  type Rope = seq<char>

  /** Number of members of the subset. */
  function CountTrue(s: Subset): nat
  {
    if s == [] then 0 else (if s[0] then 1 else 0) + CountTrue(s[1..])
  }

  /** Number of non-members of the subset. */
  function CountFalse(s: Subset): (n: nat)
    ensures n + CountTrue(s) == |s|
  {
    if s == [] then 0 else (if s[0] then 0 else 1) + CountFalse(s[1..])
  }

  /** The first element and the rest of a concatenation whose left part is not empty. */
  lemma HeadTail<T>(a: seq<T>, b: seq<T>)
    requires a != []
    ensures (a + b)[0] == a[0] && (a + b)[1..] == a[1..] + b
  {
    assert (a + b)[1..] == a[1..] + b;
  }

  lemma {:induction false} CountAppend(a: Subset, b: Subset)
    ensures CountTrue(a + b) == CountTrue(a) + CountTrue(b)
    ensures CountFalse(a + b) == CountFalse(a) + CountFalse(b)
  {
    if a == [] {
      assert a + b == b;
    } else {
      HeadTail(a, b);
      CountAppend(a[1..], b);
    }
  }

  /** `Subset::new(n)`: the empty subset of a string of length n. */
  function NewSubset(n: nat): (s: Subset)
    ensures |s| == n && CountTrue(s) == 0
  {
    if n == 0 then [] else [false] + NewSubset(n - 1)
  }

  /** `Subset::is_empty`: the subset has no member. */
  predicate IsEmpty(s: Subset)
  {
    CountTrue(s) == 0
  }

  lemma {:induction false} EmptyHasNoMember(s: Subset, i: int)
    requires IsEmpty(s) && 0 <= i < |s|
    ensures !s[i]
  {
    if i > 0 {
      EmptyHasNoMember(s[1..], i - 1);
    }
  }

  /** `Subset::union`. */
  function Union(a: Subset, b: Subset): (r: Subset)
    requires |a| == |b|
    ensures |r| == |a|
    ensures forall i :: 0 <= i < |r| ==> r[i] == (a[i] || b[i])
  {
    seq(|a|, i requires 0 <= i < |a| => a[i] || b[i])
  }

  /** `Subset::subtract`. */
  function Subtract(a: Subset, b: Subset): (r: Subset)
    requires |a| == |b|
    ensures |r| == |a|
    ensures forall i :: 0 <= i < |r| ==> r[i] == (a[i] && !b[i])
  {
    seq(|a|, i requires 0 <= i < |a| => a[i] && !b[i])
  }

  /** `Subset::bitxor`. */
  function Xor(a: Subset, b: Subset): (r: Subset)
    requires |a| == |b|
    ensures |r| == |a|
    ensures forall i :: 0 <= i < |r| ==> r[i] == (a[i] != b[i])
  {
    seq(|a|, i requires 0 <= i < |a| => a[i] != b[i])
  }

  /** `Subset::complement`. */
  function Complement(a: Subset): (r: Subset)
    ensures |r| == |a|
    ensures forall i :: 0 <= i < |r| ==> r[i] == !a[i]
  {
    seq(|a|, i requires 0 <= i < |a| => !a[i])
  }

  /** Xor with the same mask twice is the identity: an undo revision's `deletes_bitxor`
      turns the new mask back into the old one. */
  lemma XorInverse(a: Subset, b: Subset)
    requires |a| == |b|
    ensures Xor(Xor(a, b), b) == a && Xor(a, Xor(a, b)) == b
  {
  }

  /** `Subset::transform_expand(other)`: `s` is a subset of the string that remains after
      deleting `other`; the result is the same subset in the coordinates of the full string,
      where the positions of `other` are not members. */
  function Expand(s: Subset, other: Subset): (r: Subset)
    requires |s| == CountFalse(other)
    ensures |r| == |other|
    decreases other
  {
    if other == [] then []
    else if other[0] then [false] + Expand(s, other[1..])
    else [s[0]] + Expand(s[1..], other[1..])
  }

  /** Expanding adds only non-members. */
  lemma {:induction false} ExpandCount(s: Subset, other: Subset)
    requires |s| == CountFalse(other)
    ensures CountTrue(Expand(s, other)) == CountTrue(s)
    decreases other
  {
    if other != [] {
      if other[0] {
        ExpandCount(s, other[1..]);
        assert Expand(s, other) == [false] + Expand(s, other[1..]);
      } else {
        ExpandCount(s[1..], other[1..]);
        assert Expand(s, other) == [s[0]] + Expand(s[1..], other[1..]);
      }
    }
  }

  /** `Subset::transform_union(other)`: like `Expand`, but the positions of `other` become
      members. */
  function TransformUnion(s: Subset, other: Subset): (r: Subset)
    requires |s| == CountFalse(other)
    ensures |r| == |other|
    ensures CountTrue(r) == CountTrue(s) + CountTrue(other)
    decreases other
  {
    if other == [] then []
    else if other[0] then [true] + TransformUnion(s, other[1..])
    else [s[0]] + TransformUnion(s[1..], other[1..])
  }

  /** `Subset::transform_shrink(other)`: drop the positions that are members of `other`. */
  function Shrink(s: Subset, other: Subset): (r: Subset)
    requires |s| == |other|
    ensures |r| == CountFalse(other)
    decreases s
  {
    if s == [] then []
    else (if other[0] then [] else [s[0]]) + Shrink(s[1..], other[1..])
  }

  /** `Subset::delete_from_string`: the characters of `u` that are not members of `m`. */
  function Keep(u: Rope, m: Subset): (r: Rope)
    requires |u| == |m|
    ensures |r| == CountFalse(m)
    decreases u
  {
    if u == [] then []
    else (if m[0] then [] else [u[0]]) + Keep(u[1..], m[1..])
  }

  /** The characters of `u` that are members of `m` (what the tombstones rope holds). */
  function Take(u: Rope, m: Subset): (r: Rope)
    requires |u| == |m|
    ensures |r| == CountTrue(m)
    decreases u
  {
    if u == [] then []
    else (if m[0] then [u[0]] else []) + Take(u[1..], m[1..])
  }

  /** Interleave `a` and `b`: non-members of `m` come from `a`, members from `b`, each in order.
      With `a` the text, `b` the tombstones and `m` the deletes-from-union mask this is the
      union string; with `a` a base text, `b` inserted characters and `m` an inserted subset it
      applies an insert-only delta. */
  function Merge(a: Rope, b: Rope, m: Subset): (r: Rope)
    requires |a| == CountFalse(m) && |b| == CountTrue(m)
    ensures |r| == |m|
    decreases m
  {
    if m == [] then []
    else if m[0] then [b[0]] + Merge(a, b[1..], m[1..])
    else [a[0]] + Merge(a[1..], b, m[1..])
  }

  /** `InsertDelta::transform_expand(xform, true)` followed by `inserted_subset()`: `ins` is the
      inserted subset of an insert-only delta over the visible text, `dels` the deletes of the
      union string; the result is the inserted subset of the same delta over the union string.
      Deleted characters at an insertion point come before the inserted ones. */
  function ExpandInserts(ins: Subset, dels: Subset): (r: Subset)
    requires CountFalse(ins) == CountFalse(dels)
    ensures |r| == |dels| + CountTrue(ins)
    ensures CountTrue(r) == CountTrue(ins) && CountFalse(r) == |dels|
    decreases |ins| + |dels|
  {
    if dels != [] && dels[0] then [false] + ExpandInserts(ins, dels[1..])
    else if ins == [] then []
    else if ins[0] then [true] + ExpandInserts(ins[1..], dels)
    else [false] + ExpandInserts(ins[1..], dels[1..])
  }

  // ---------------------------------------------------------------------------------------
  // The union string is split into text and tombstones and put back together without loss.

  lemma {:induction false} KeepMerge(a: Rope, b: Rope, m: Subset)
    requires |a| == CountFalse(m) && |b| == CountTrue(m)
    ensures Keep(Merge(a, b, m), m) == a
    ensures Take(Merge(a, b, m), m) == b
    decreases m
  {
    if m != [] {
      if m[0] {
        KeepMerge(a, b[1..], m[1..]);
      } else {
        KeepMerge(a[1..], b, m[1..]);
      }
    }
  }

  lemma {:induction false} MergeSplit(u: Rope, m: Subset)
    requires |u| == |m|
    ensures Merge(Keep(u, m), Take(u, m), m) == u
    decreases u
  {
    if u != [] {
      var k, t := Keep(u[1..], m[1..]), Take(u[1..], m[1..]);
      MergeSplit(u[1..], m[1..]);
      if m[0] {
        assert Keep(u, m) == k;
        assert Take(u, m) == [u[0]] + t;
        assert (Take(u, m))[1..] == t;
      } else {
        assert Take(u, m) == t;
        assert Keep(u, m) == [u[0]] + k;
        assert (Keep(u, m))[1..] == k;
      }
    }
  }

  /** Keeping the non-members of a union is keeping in two steps. */
  lemma {:induction false} KeepUnion(u: Rope, a: Subset, b: Subset)
    requires |u| == |a| == |b|
    ensures Keep(u, Union(a, b)) == Keep(Keep(u, a), Shrink(b, a))
    decreases u
  {
    if u != [] {
      assert Union(a, b)[1..] == Union(a[1..], b[1..]);
      KeepUnion(u[1..], a[1..], b[1..]);
      var k, sh := Keep(u[1..], a[1..]), Shrink(b[1..], a[1..]);
      if a[0] {
        assert Keep(u, a) == k && Shrink(b, a) == sh;
      } else {
        assert Keep(u, a) == [u[0]] + k && (Keep(u, a))[1..] == k;
        assert Shrink(b, a) == [b[0]] + sh && (Shrink(b, a))[1..] == sh;
      }
    }
  }

  /** Expanding by a subset with no members changes nothing. */
  lemma {:induction false} ExpandByEmpty(s: Subset, other: Subset)
    requires |s| == CountFalse(other) && IsEmpty(other)
    ensures Expand(s, other) == s
    decreases other
  {
    if other != [] {
      ExpandByEmpty(s[1..], other[1..]);
    }
  }

  /** Shrinking undoes expanding (both flavours). */
  lemma {:induction false} ShrinkExpand(s: Subset, other: Subset)
    requires |s| == CountFalse(other)
    ensures Shrink(Expand(s, other), other) == s
    ensures Shrink(TransformUnion(s, other), other) == s
    decreases other
  {
    if other != [] {
      if other[0] {
        ShrinkExpand(s, other[1..]);
      } else {
        ShrinkExpand(s[1..], other[1..]);
      }
    }
  }

  /** Transforming by a subset with no members changes nothing. */
  lemma {:induction false} TransformUnionByEmpty(s: Subset, other: Subset)
    requires |s| == CountFalse(other) && IsEmpty(other)
    ensures TransformUnion(s, other) == s
    decreases other
  {
    if other != [] {
      TransformUnionByEmpty(s[1..], other[1..]);
    }
  }

  /** A union with a subset that has no members is the other operand. */
  lemma {:induction false} UnionWithEmpty(a: Subset, b: Subset)
    requires |a| == |b| && IsEmpty(b)
    ensures Union(a, b) == a
  {
    forall i | 0 <= i < |a|
      ensures Union(a, b)[i] == a[i]
    {
      EmptyHasNoMember(b, i);
    }
  }

  /** Deleting inserted characters again: in a string with characters interleaved at the
      members of `n`, the mask `s` lifted through `n` with the inserted positions as members
      keeps exactly what `s` keeps of the string before the insertion. */
  lemma {:induction false} KeepInsertedDeleted(u: Rope, b: Rope, s: Subset, n: Subset)
    requires |u| == CountFalse(n) && |b| == CountTrue(n) && |s| == |u|
    ensures Keep(Merge(u, b, n), TransformUnion(s, n)) == Keep(u, s)
    decreases n
  {
    if n != [] {
      if n[0] {
        KeepInsertedDeleted(u, b[1..], s, n[1..]);
        var m, t := Merge(u, b[1..], n[1..]), TransformUnion(s, n[1..]);
        HeadTail([b[0]], m);
        HeadTail([true], t);
      } else {
        KeepInsertedDeleted(u[1..], b, s[1..], n[1..]);
        var m, t := Merge(u[1..], b, n[1..]), TransformUnion(s[1..], n[1..]);
        HeadTail([u[0]], m);
        HeadTail([s[0]], t);
        assert Keep(Merge(u, b, n), TransformUnion(s, n)) == (if s[0] then [] else [u[0]]) + Keep(m, t);
      }
    }
  }

  /** Expanding an insert delta to union coordinates and shrinking it back through the
      rebased deletes gives the original delta back (the shrunk delta is what `mk_new_rev`
      applies to the visible text). */
  lemma {:induction false} ExpandInsertsRoundTrip(ins: Subset, dels: Subset)
    requires CountFalse(ins) == CountFalse(dels)
    ensures var n := ExpandInserts(ins, dels);
            Shrink(n, Expand(dels, n)) == ins
    decreases |ins| + |dels|
  {
    if dels != [] && dels[0] {
      ExpandInsertsRoundTrip(ins, dels[1..]);
    } else if ins == [] {
    } else if ins[0] {
      ExpandInsertsRoundTrip(ins[1..], dels);
    } else {
      ExpandInsertsRoundTrip(ins[1..], dels[1..]);
    }
  }

  /** Counting the positions that are neither inserted nor deleted. */
  lemma {:induction false} ShrinkInsertsCount(n: Subset, dels: Subset)
    requires |dels| == CountFalse(n)
    ensures CountFalse(Shrink(n, Expand(dels, n))) == CountFalse(dels)
    ensures CountTrue(Shrink(n, Expand(dels, n))) == CountTrue(n)
    decreases n
  {
    if n != [] {
      if n[0] {
        ShrinkInsertsCount(n[1..], dels);
        assert Expand(dels, n) == [false] + Expand(dels, n[1..]);
        assert Shrink(n, Expand(dels, n)) == [true] + Shrink(n[1..], Expand(dels, n[1..]));
      } else {
        ShrinkInsertsCount(n[1..], dels[1..]);
        ShrinkInsertsCountKept(n, dels);
      }
    }
  }

  /** The step of `ShrinkInsertsCount` for a leading position that is not inserted. */
  lemma {:induction false} ShrinkInsertsCountKept(n: Subset, dels: Subset)
    requires n != [] && !n[0] && |dels| == CountFalse(n)
    requires CountFalse(Shrink(n[1..], Expand(dels[1..], n[1..]))) == CountFalse(dels[1..])
    requires CountTrue(Shrink(n[1..], Expand(dels[1..], n[1..]))) == CountTrue(n[1..])
    ensures CountFalse(Shrink(n, Expand(dels, n))) == CountFalse(dels)
    ensures CountTrue(Shrink(n, Expand(dels, n))) == CountTrue(n)
  {
    var tail := Shrink(n[1..], Expand(dels[1..], n[1..]));
    assert Expand(dels, n) == [dels[0]] + Expand(dels[1..], n[1..]);
    assert Shrink(n, Expand(dels, n)) == (if dels[0] then [] else [false]) + tail;
    CountAppend(if dels[0] then [] else [false], tail);
    CountAppend([dels[0]], dels[1..]);
    assert [dels[0]] + dels[1..] == dels;
  }

  /** The union string after an edit: inserting characters into the visible text and then
      interleaving the tombstones through the rebased mask is the old union string with the
      inserted characters interleaved at the inserted positions. */
  lemma {:induction false} UnionAfterInsert(text: Rope, tomb: Rope, chars: Rope, dels: Subset, n: Subset)
    requires |dels| == CountFalse(n)
    requires |text| == CountFalse(dels) && |tomb| == CountTrue(dels) && |chars| == CountTrue(n)
    ensures var r := Expand(dels, n);
            var shrunk := Shrink(n, r);
            CountFalse(shrunk) == |text| && CountTrue(shrunk) == |chars| &&
            Merge(Merge(text, chars, shrunk), tomb, r) == Merge(Merge(text, tomb, dels), chars, n)
    decreases n
  {
    ShrinkInsertsCount(n, dels);
    if n != [] {
      var r := Expand(dels, n);
      var shrunk := Shrink(n, r);
      if n[0] {
        UnionAfterInsert(text, tomb, chars[1..], dels, n[1..]);
        var r' := Expand(dels, n[1..]);
        var shrunk' := Shrink(n[1..], r');
        ShrinkInsertsCount(n[1..], dels);
        assert r == [false] + r' && r[1..] == r';
        assert shrunk == [true] + shrunk' && shrunk[1..] == shrunk';
        var m := Merge(text, chars[1..], shrunk');
        assert Merge(text, chars, shrunk) == [chars[0]] + m;
        assert Merge(Merge(text, chars, shrunk), tomb, r) == [chars[0]] + Merge(m, tomb, r');
      } else if dels[0] {
        UnionAfterInsert(text, tomb[1..], chars, dels[1..], n[1..]);
        var r' := Expand(dels[1..], n[1..]);
        var shrunk' := Shrink(n[1..], r');
        ShrinkInsertsCount(n[1..], dels[1..]);
        assert r == [true] + r' && r[1..] == r';
        assert shrunk == shrunk';
        var m := Merge(text, tomb[1..], dels[1..]);
        assert Merge(text, tomb, dels) == [tomb[0]] + m;
        assert (Merge(text, tomb, dels))[1..] == m;
      } else {
        UnionAfterInsert(text[1..], tomb, chars, dels[1..], n[1..]);
        var r' := Expand(dels[1..], n[1..]);
        var shrunk' := Shrink(n[1..], r');
        ShrinkInsertsCount(n[1..], dels[1..]);
        assert r == [false] + r' && r[1..] == r';
        assert shrunk == [false] + shrunk' && shrunk[1..] == shrunk';
        var mt := Merge(text[1..], chars, shrunk');
        assert Merge(text, chars, shrunk) == [text[0]] + mt;
        assert (Merge(text, chars, shrunk))[1..] == mt;
        var m := Merge(text[1..], tomb, dels[1..]);
        assert Merge(text, tomb, dels) == [text[0]] + m;
        assert (Merge(text, tomb, dels))[1..] == m;
      }
    }
  }

  /** Expanding commutes with shrinking away the members of `dels`. */
  lemma {:induction false} ShrinkExpandCommute(e: Subset, dels: Subset, n: Subset)
    requires |e| == |dels| == CountFalse(n)
    ensures CountFalse(Shrink(n, Expand(dels, n))) == CountFalse(dels)
    ensures Shrink(Expand(e, n), Expand(dels, n)) == Expand(Shrink(e, dels), Shrink(n, Expand(dels, n)))
    decreases n
  {
    ShrinkInsertsCount(n, dels);
    if n != [] {
      if n[0] {
        ShrinkExpandCommute(e, dels, n[1..]);
        ShrinkInsertsCount(n[1..], dels);
        var sh' := Shrink(n[1..], Expand(dels, n[1..]));
        assert Expand(dels, n) == [false] + Expand(dels, n[1..]);
        assert Shrink(n, Expand(dels, n)) == [true] + sh';
        assert (Shrink(n, Expand(dels, n)))[1..] == sh';
      } else {
        ShrinkExpandCommute(e[1..], dels[1..], n[1..]);
        ShrinkInsertsCount(n[1..], dels[1..]);
        var sh' := Shrink(n[1..], Expand(dels[1..], n[1..]));
        assert Expand(dels, n) == [dels[0]] + Expand(dels[1..], n[1..]);
        assert Expand(e, n) == [e[0]] + Expand(e[1..], n[1..]);
        if dels[0] {
          assert Shrink(n, Expand(dels, n)) == sh';
          assert Shrink(e, dels) == Shrink(e[1..], dels[1..]);
        } else {
          assert Shrink(n, Expand(dels, n)) == [false] + sh';
          assert (Shrink(n, Expand(dels, n)))[1..] == sh';
          assert Shrink(e, dels) == [e[0]] + Shrink(e[1..], dels[1..]);
          assert (Shrink(e, dels))[1..] == Shrink(e[1..], dels[1..]);
        }
      }
    }
  }

  // ---------------------------------------------------------------------------------------
  // Complements swap the roles of text and tombstones.

  lemma {:induction false} ComplementCounts(m: Subset)
    ensures CountFalse(Complement(m)) == CountTrue(m) && CountTrue(Complement(m)) == CountFalse(m)
    decreases m
  {
    if m != [] {
      assert Complement(m)[1..] == Complement(m[1..]);
      ComplementCounts(m[1..]);
    }
  }

  lemma {:induction false} MergeComplement(a: Rope, b: Rope, m: Subset)
    requires |a| == CountFalse(m) && |b| == CountTrue(m)
    ensures CountFalse(Complement(m)) == |b| && CountTrue(Complement(m)) == |a|
    ensures Merge(b, a, Complement(m)) == Merge(a, b, m)
    decreases m
  {
    ComplementCounts(m);
    if m != [] {
      assert Complement(m)[1..] == Complement(m[1..]);
      if m[0] {
        MergeComplement(a, b[1..], m[1..]);
      } else {
        MergeComplement(a[1..], b, m[1..]);
      }
    }
  }

  lemma {:induction false} KeepComplement(u: Rope, m: Subset)
    requires |u| == |m|
    ensures Keep(u, Complement(m)) == Take(u, m)
    decreases u
  {
    if u != [] {
      assert Complement(m)[1..] == Complement(m[1..]);
      KeepComplement(u[1..], m[1..]);
    }
  }

  // ---------------------------------------------------------------------------------------
  // Deltas.

  /** A `RopeDelta` in the form `factor()` returns: the insert-only part, as the inserted
      subset of the text-with-inserts and the inserted characters, and the subset of the base
      text that the delta deletes. */
  datatype Delta = Delta(inserted: Subset, chars: Rope, deletes: Subset)

  /** The delta applies to a base text of length `baseLen`. */
  predicate DeltaOver(d: Delta, baseLen: nat)
  {
    CountFalse(d.inserted) == baseLen && |d.deletes| == baseLen && |d.chars| == CountTrue(d.inserted)
  }

  /** `Delta::apply`: insert the new characters, then drop the deleted base characters (placed
      in the coordinates of the text-with-inserts, where no inserted character is deleted). */
  function Apply(d: Delta, text: Rope): (r: Rope)
    requires DeltaOver(d, |text|)
    ensures |r| + CountTrue(d.deletes) == |text| + |d.chars|
  {
    ExpandCount(d.deletes, d.inserted);
    Keep(Merge(text, d.chars, d.inserted), Expand(d.deletes, d.inserted))
  }

  /** `InsertDelta::transform_shrink(xform)` on the inserted subset: `n` is the inserted subset
      of an insert-only delta over the union string, `xform` the subset of that union string
      being removed; the result is the inserted subset of the same delta over what remains. */
  function ShrinkInserts(n: Subset, xform: Subset): (r: Subset)
    requires |xform| == CountFalse(n)
    ensures |r| == CountFalse(xform) + CountTrue(n) && CountTrue(r) == CountTrue(n)
    ensures CountFalse(r) == CountFalse(xform)
  {
    ShrinkInsertsCount(n, xform);
    Shrink(n, Expand(xform, n))
  }

  /** `Delta::synthesize(tombstones, from, to)`: the delta that turns the string the union
      string shows under deletion mask `from` into the one it shows under `to`, taking revived
      characters from `tombstones`. */
  function Synthesize(tombstones: Rope, from: Subset, to: Subset): (d: Delta)
    requires |from| == |to| && |tombstones| == CountTrue(from)
    ensures DeltaOver(d, CountFalse(from))
    decreases from
  {
    if from == [] then Delta([], [], [])
    else
      var rest := Synthesize(if from[0] then tombstones[1..] else tombstones, from[1..], to[1..]);
      if from[0] && to[0] then rest
      else if from[0] then Delta([true] + rest.inserted, [tombstones[0]] + rest.chars, rest.deletes)
      else Delta([false] + rest.inserted, rest.chars, [to[0]] + rest.deletes)
  }

  /** The synthesized delta does what it is for: applied to the text under `from` it gives the
      text under `to`. */
  lemma {:induction false} ApplySynthesize(text: Rope, tombstones: Rope, from: Subset, to: Subset)
    requires |from| == |to| && |text| == CountFalse(from) && |tombstones| == CountTrue(from)
    ensures Apply(Synthesize(tombstones, from, to), text) == Keep(Merge(text, tombstones, from), to)
    decreases from
  {
    if from != [] {
      var tomb' := if from[0] then tombstones[1..] else tombstones;
      var rest := Synthesize(tomb', from[1..], to[1..]);
      var text' := if from[0] then text else text[1..];
      ApplySynthesize(text', tomb', from[1..], to[1..]);
      var u' := Merge(text', tomb', from[1..]);
      if from[0] {
        assert Merge(text, tombstones, from) == [tombstones[0]] + u';
        assert (Merge(text, tombstones, from))[1..] == u';
        if !to[0] {
          var d := Synthesize(tombstones, from, to);
          assert d == Delta([true] + rest.inserted, [tombstones[0]] + rest.chars, rest.deletes);
          var m' := Merge(text, rest.chars, rest.inserted);
          assert Merge(text, d.chars, d.inserted) == [tombstones[0]] + m';
          assert (Merge(text, d.chars, d.inserted))[1..] == m';
          var e' := Expand(rest.deletes, rest.inserted);
          assert Expand(d.deletes, d.inserted) == [false] + e';
          assert (Expand(d.deletes, d.inserted))[1..] == e';
        }
      } else {
        assert Merge(text, tombstones, from) == [text[0]] + u';
        assert (Merge(text, tombstones, from))[1..] == u';
        var d := Synthesize(tombstones, from, to);
        assert d == Delta([false] + rest.inserted, rest.chars, [to[0]] + rest.deletes);
        var m' := Merge(text[1..], rest.chars, rest.inserted);
        assert Merge(text, d.chars, d.inserted) == [text[0]] + m';
        assert (Merge(text, d.chars, d.inserted))[1..] == m';
        var e' := Expand(rest.deletes, rest.inserted);
        assert Expand(d.deletes, d.inserted) == [to[0]] + e';
        assert (Expand(d.deletes, d.inserted))[1..] == e';
      }
    }
  }

  // ---------------------------------------------------------------------------------------
  // Pointwise facts used to unwind an edit.

  /** Expanded positions of `other` are never members. */
  lemma {:induction false} ExpandAvoidsOther(s: Subset, other: Subset)
    requires |s| == CountFalse(other)
    ensures forall j :: 0 <= j < |other| && other[j] ==> !Expand(s, other)[j]
    decreases other
  {
    if other != [] {
      var s' := if other[0] then s else s[1..];
      ExpandAvoidsOther(s', other[1..]);
      var e := Expand(s, other);
      assert e[1..] == Expand(s', other[1..]);
      forall j | 0 <= j < |other| && other[j]
        ensures !e[j]
      {
        if j > 0 {
          assert e[j] == e[1..][j - 1];
        }
      }
    }
  }

  /** Expanding two disjoint subsets through the same subset keeps them disjoint. */
  lemma {:induction false} ExpandDisjoint(a: Subset, b: Subset, n: Subset)
    requires |a| == |b| == CountFalse(n)
    requires forall j :: 0 <= j < |a| ==> !(a[j] && b[j])
    ensures forall i :: 0 <= i < |n| ==> !(Expand(a, n)[i] && Expand(b, n)[i])
    decreases n
  {
    if n != [] {
      var a', b' := if n[0] then a else a[1..], if n[0] then b else b[1..];
      assert forall j :: 0 <= j < |a'| ==> !(a'[j] && b'[j]) by {
        if !n[0] {
          forall j | 0 <= j < |a'|
            ensures !(a'[j] && b'[j])
          {
            assert a'[j] == a[j + 1] && b'[j] == b[j + 1];
          }
        }
      }
      ExpandDisjoint(a', b', n[1..]);
      var ea, eb := Expand(a, n), Expand(b, n);
      assert ea[1..] == Expand(a', n[1..]) && eb[1..] == Expand(b', n[1..]);
      forall i | 0 <= i < |n|
        ensures !(ea[i] && eb[i])
      {
        if i > 0 {
          assert ea[i] == ea[1..][i - 1] && eb[i] == eb[1..][i - 1];
        }
      }
    }
  }

  /** Shrinking away `m` forgets whatever was added on `m`. */
  lemma {:induction false} ShrinkUnionSelf(a: Subset, m: Subset)
    requires |a| == |m|
    ensures Shrink(Union(a, m), m) == Shrink(a, m)
    decreases a
  {
    if a != [] {
      assert Union(a, m)[1..] == Union(a[1..], m[1..]);
      ShrinkUnionSelf(a[1..], m[1..]);
    }
  }

  /** Taking a disjoint subset back out of a union. */
  lemma SubtractUnionDisjoint(a: Subset, b: Subset)
    requires |a| == |b|
    requires forall i :: 0 <= i < |a| ==> !(a[i] && b[i])
    ensures Subtract(Union(a, b), b) == a
  {
  }

  /** The deletion mask before an edit comes back from the mask after it: the edit's deletes
      only ever cover characters that were visible, and its inserts are shrunk away. */
  lemma UnwindNewEdit(dfu: Subset, deletes: Subset, n: Subset)
    requires |deletes| == CountFalse(dfu) && |dfu| == CountFalse(n)
    ensures var newDeletes := Expand(Expand(deletes, dfu), n);
            var rebased := Expand(dfu, n);
            Shrink(Subtract(Union(rebased, newDeletes), newDeletes), n) == dfu &&
            Shrink(Union(rebased, n), n) == dfu
  {
    var rebased := Expand(dfu, n);
    ShrinkExpand(dfu, n);
    ShrinkUnionSelf(rebased, n);
    ExpandAvoidsOther(deletes, dfu);
    ExpandDisjoint(dfu, Expand(deletes, dfu), n);
    SubtractUnionDisjoint(rebased, Expand(Expand(deletes, dfu), n));
  }

  // ---------------------------------------------------------------------------------------
  // Concatenation.

  /** A subset with every position a member. */
  function AllMembers(n: nat): (s: Subset)
    ensures |s| == n && CountTrue(s) == n
  {
    if n == 0 then [] else [true] + AllMembers(n - 1)
  }

  lemma {:induction false} MergeAppend(a1: Rope, b1: Rope, m1: Subset, a2: Rope, b2: Rope, m2: Subset)
    requires |a1| == CountFalse(m1) && |b1| == CountTrue(m1)
    requires |a2| == CountFalse(m2) && |b2| == CountTrue(m2)
    ensures CountFalse(m1 + m2) == |a1 + a2| && CountTrue(m1 + m2) == |b1 + b2|
    ensures Merge(a1 + a2, b1 + b2, m1 + m2) == Merge(a1, b1, m1) + Merge(a2, b2, m2)
    decreases m1
  {
    CountAppend(m1, m2);
    if m1 == [] {
      assert a1 + a2 == a2 && b1 + b2 == b2 && m1 + m2 == m2;
    } else if m1[0] {
      MergeAppend(a1, b1[1..], m1[1..], a2, b2, m2);
      MergeAppendMember(a1, b1, m1, a2, b2, m2);
    } else {
      MergeAppend(a1[1..], b1, m1[1..], a2, b2, m2);
      MergeAppendNonMember(a1, b1, m1, a2, b2, m2);
    }
  }

  /** The step of `MergeAppend` for a leading member of `m1`. */
  lemma {:induction false} MergeAppendMember(a1: Rope, b1: Rope, m1: Subset, a2: Rope, b2: Rope, m2: Subset)
    requires m1 != [] && m1[0] && |a1| == CountFalse(m1) && |b1| == CountTrue(m1)
    requires |a2| == CountFalse(m2) && |b2| == CountTrue(m2)
    requires CountFalse(m1 + m2) == |a1 + a2| && CountTrue(m1 + m2) == |b1 + b2|
    requires CountFalse(m1[1..] + m2) == |a1 + a2| && CountTrue(m1[1..] + m2) == |b1[1..] + b2|
    requires Merge(a1 + a2, b1[1..] + b2, m1[1..] + m2) == Merge(a1, b1[1..], m1[1..]) + Merge(a2, b2, m2)
    ensures Merge(a1 + a2, b1 + b2, m1 + m2) == Merge(a1, b1, m1) + Merge(a2, b2, m2)
  {
    HeadTail(m1, m2);
    HeadTail(b1, b2);
    calc {
      Merge(a1 + a2, b1 + b2, m1 + m2);
      [b1[0]] + Merge(a1 + a2, b1[1..] + b2, m1[1..] + m2);
      [b1[0]] + (Merge(a1, b1[1..], m1[1..]) + Merge(a2, b2, m2));
      ([b1[0]] + Merge(a1, b1[1..], m1[1..])) + Merge(a2, b2, m2);
    }
  }

  /** The step of `MergeAppend` for a leading non-member of `m1`. */
  lemma {:induction false} MergeAppendNonMember(a1: Rope, b1: Rope, m1: Subset, a2: Rope, b2: Rope, m2: Subset)
    requires m1 != [] && !m1[0] && |a1| == CountFalse(m1) && |b1| == CountTrue(m1)
    requires |a2| == CountFalse(m2) && |b2| == CountTrue(m2)
    requires CountFalse(m1 + m2) == |a1 + a2| && CountTrue(m1 + m2) == |b1 + b2|
    requires CountFalse(m1[1..] + m2) == |a1[1..] + a2| && CountTrue(m1[1..] + m2) == |b1 + b2|
    requires Merge(a1[1..] + a2, b1 + b2, m1[1..] + m2) == Merge(a1[1..], b1, m1[1..]) + Merge(a2, b2, m2)
    ensures Merge(a1 + a2, b1 + b2, m1 + m2) == Merge(a1, b1, m1) + Merge(a2, b2, m2)
  {
    HeadTail(m1, m2);
    HeadTail(a1, a2);
    calc {
      Merge(a1 + a2, b1 + b2, m1 + m2);
      [a1[0]] + Merge(a1[1..] + a2, b1 + b2, m1[1..] + m2);
      [a1[0]] + (Merge(a1[1..], b1, m1[1..]) + Merge(a2, b2, m2));
      ([a1[0]] + Merge(a1[1..], b1, m1[1..])) + Merge(a2, b2, m2);
    }
  }

  lemma {:induction false} ExpandAppend(s1: Subset, o1: Subset, s2: Subset, o2: Subset)
    requires |s1| == CountFalse(o1) && |s2| == CountFalse(o2)
    ensures CountFalse(o1 + o2) == |s1 + s2|
    ensures Expand(s1 + s2, o1 + o2) == Expand(s1, o1) + Expand(s2, o2)
    decreases o1
  {
    CountAppend(o1, o2);
    if o1 == [] {
      assert s1 + s2 == s2 && o1 + o2 == o2;
    } else if o1[0] {
      ExpandAppend(s1, o1[1..], s2, o2);
      ExpandAppendSkip(s1, o1, s2, o2);
    } else {
      ExpandAppend(s1[1..], o1[1..], s2, o2);
      ExpandAppendKeep(s1, o1, s2, o2);
    }
  }

  /** The step of `ExpandAppend` for a leading member of `o1`. */
  lemma {:induction false} ExpandAppendSkip(s1: Subset, o1: Subset, s2: Subset, o2: Subset)
    requires o1 != [] && o1[0] && |s1| == CountFalse(o1[1..]) && |s2| == CountFalse(o2)
    requires CountFalse(o1[1..] + o2) == |s1 + s2|
    requires Expand(s1 + s2, o1[1..] + o2) == Expand(s1, o1[1..]) + Expand(s2, o2)
    ensures CountFalse(o1 + o2) == |s1 + s2|
    ensures Expand(s1 + s2, o1 + o2) == Expand(s1, o1) + Expand(s2, o2)
  {
    var o := o1 + o2;
    HeadTail(o1, o2);
    calc {
      Expand(s1 + s2, o);
      [false] + Expand(s1 + s2, o[1..]);
      [false] + (Expand(s1, o1[1..]) + Expand(s2, o2));
      ([false] + Expand(s1, o1[1..])) + Expand(s2, o2);
    }
  }

  /** The step of `ExpandAppend` for a leading non-member of `o1`. */
  lemma {:induction false} ExpandAppendKeep(s1: Subset, o1: Subset, s2: Subset, o2: Subset)
    requires o1 != [] && !o1[0] && |s1| == CountFalse(o1) && |s2| == CountFalse(o2)
    requires CountFalse(o1[1..] + o2) == |s1[1..] + s2|
    requires Expand(s1[1..] + s2, o1[1..] + o2) == Expand(s1[1..], o1[1..]) + Expand(s2, o2)
    ensures CountFalse(o1 + o2) == |s1 + s2|
    ensures Expand(s1 + s2, o1 + o2) == Expand(s1, o1) + Expand(s2, o2)
  {
    var o, s := o1 + o2, s1 + s2;
    HeadTail(o1, o2);
    HeadTail(s1, s2);
    calc {
      Expand(s, o);
      [s[0]] + Expand(s[1..], o[1..]);
      [s1[0]] + (Expand(s1[1..], o1[1..]) + Expand(s2, o2));
      ([s1[0]] + Expand(s1[1..], o1[1..])) + Expand(s2, o2);
    }
  }

  lemma {:induction false} KeepAppend(u1: Rope, m1: Subset, u2: Rope, m2: Subset)
    requires |u1| == |m1| && |u2| == |m2|
    ensures Keep(u1 + u2, m1 + m2) == Keep(u1, m1) + Keep(u2, m2)
    decreases u1
  {
    if u1 == [] {
      assert u1 + u2 == u2 && m1 + m2 == m2;
    } else {
      HeadTail(u1, u2);
      HeadTail(m1, m2);
      KeepAppend(u1[1..], m1[1..], u2, m2);
    }
  }

  /** Two deltas side by side: the first over one piece of text, the second over the next. */
  function Concat(d1: Delta, d2: Delta): Delta
  {
    Delta(d1.inserted + d2.inserted, d1.chars + d2.chars, d1.deletes + d2.deletes)
  }

  lemma ApplyConcat(d1: Delta, t1: Rope, d2: Delta, t2: Rope)
    requires DeltaOver(d1, |t1|) && DeltaOver(d2, |t2|)
    ensures DeltaOver(Concat(d1, d2), |t1 + t2|)
    ensures Apply(Concat(d1, d2), t1 + t2) == Apply(d1, t1) + Apply(d2, t2)
  {
    MergeAppend(t1, d1.chars, d1.inserted, t2, d2.chars, d2.inserted);
    ExpandAppend(d1.deletes, d1.inserted, d2.deletes, d2.inserted);
    KeepAppend(Merge(t1, d1.chars, d1.inserted), Expand(d1.deletes, d1.inserted),
               Merge(t2, d2.chars, d2.inserted), Expand(d2.deletes, d2.inserted));
  }

  /** Keep `n` characters. */
  function CopyDelta(n: nat): (d: Delta)
    ensures DeltaOver(d, n)
  {
    Delta(NewSubset(n), [], NewSubset(n))
  }

  /** Insert `s` without touching the (empty) base. */
  function InsertDelta(s: Rope): (d: Delta)
    ensures DeltaOver(d, 0)
  {
    Delta(AllMembers(|s|), s, [])
  }

  /** Delete `n` characters. */
  function DeleteDelta(n: nat): (d: Delta)
    ensures DeltaOver(d, n)
  {
    Delta(NewSubset(n), [], AllMembers(n))
  }

  lemma {:induction false} ApplyCopy(t: Rope)
    ensures Apply(CopyDelta(|t|), t) == t
    decreases t
  {
    if t != [] {
      ApplyCopy(t[1..]);
      assert NewSubset(|t|)[1..] == NewSubset(|t| - 1);
    }
  }

  lemma {:induction false} ApplyInsert(s: Rope)
    ensures Apply(InsertDelta(s), []) == s
    decreases s
  {
    if s != [] {
      ApplyInsert(s[1..]);
      assert AllMembers(|s|)[1..] == AllMembers(|s| - 1);
      assert Merge([], s, AllMembers(|s|)) == [s[0]] + Merge([], s[1..], AllMembers(|s| - 1));
    }
  }

  lemma {:induction false} ApplyDelete(t: Rope)
    ensures Apply(DeleteDelta(|t|), t) == []
    decreases t
  {
    if t != [] {
      ApplyDelete(t[1..]);
      assert NewSubset(|t|)[1..] == NewSubset(|t| - 1);
      assert AllMembers(|t|)[1..] == AllMembers(|t| - 1);
    }
  }
}
