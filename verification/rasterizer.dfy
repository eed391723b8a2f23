/** get_grid_points_rotation: the cells a chain passes over. The stepping along the chain's
    direction and the rounding of each position to a cell are not modelled; the two
    sequences of rounded cells they produce, one for the walk backwards from the start
    and one for the walk forwards, are the inputs. What is modelled is what the function
    does with them: drop repeated cells from each half (removeDuplicates_list), reverse the
    backward half and put it in front of the forward half. */
module Rasterizer {
  import opened Base
  import opened Grid

  /** No element occurs twice. */
  ghost predicate NoDuplicates(s: seq<Cell>)
  {
    forall i, j :: 0 <= i < j < |s| ==> s[i] != s[j]
  }

  /** The position of the first occurrence of x in s. */
  function FirstIndex(s: seq<Cell>, x: Cell): (k: nat)
    requires x in s
    ensures k < |s| && s[k] == x
    ensures x !in s[..k]
  {
    if s[0] == x then 0
    else
      var k := 1 + FirstIndex(s[1..], x);
      assert s[..k] == [s[0]] + s[1..][..k - 1];
      k
  }

  /** The reference de-duplication: an element is appended when it has not been seen
      among the elements before it. */
  function Dedup(s: seq<Cell>): (r: seq<Cell>)
    ensures NoDuplicates(r)
    ensures forall x :: x in r <==> x in s
  {
    if s == [] then []
    else
      var p := s[..|s| - 1];
      assert s == p + [s[|s| - 1]];
      var prev := Dedup(p);
      if s[|s| - 1] in prev then prev else prev + [s[|s| - 1]]
  }

  /** removeDuplicates_list: one pass over the list, with the set of elements seen so far. */
  method RemoveDuplicates(s: seq<Cell>) returns (noDups: seq<Cell>)
    ensures noDups == Dedup(s)
    ensures NoDuplicates(noDups)
    ensures forall x :: x in noDups <==> x in s
  {
    var seen: set<Cell> := {};
    noDups := [];
    var i := 0;
    while i < |s|
      invariant 0 <= i <= |s|
      invariant noDups == Dedup(s[..i])
      invariant forall x :: x in seen <==> x in noDups
    {
      assert s[..i + 1][..i] == s[..i];
      if s[i] !in seen {
        noDups := noDups + [s[i]];
        seen := seen + {s[i]};
      }
      i := i + 1;
    }
    assert s[..i] == s;
  }

  /** Occurrences in a prefix are found at the same place once more is appended. */
  lemma {:induction false} FirstIndexAppend(p: seq<Cell>, x: Cell, y: Cell)
    requires y in p
    ensures y in p + [x] && FirstIndex(p + [x], y) == FirstIndex(p, y)
  {
    if p[0] != y {
      assert (p + [x])[1..] == p[1..] + [x];
      FirstIndexAppend(p[1..], x, y);
    }
  }

  /** The de-duplicated elements come in the order of their first occurrences. */
  lemma {:induction false} DedupKeepsFirstOrder(s: seq<Cell>)
    ensures forall a, b :: 0 <= a < b < |Dedup(s)| ==>
              FirstIndex(s, Dedup(s)[a]) < FirstIndex(s, Dedup(s)[b])
  {
    if s != [] {
      var p, x := s[..|s| - 1], s[|s| - 1];
      assert s == p + [x];
      DedupKeepsFirstOrder(p);
      var prev := Dedup(p);
      forall a | 0 <= a < |prev|
        ensures FirstIndex(s, prev[a]) == FirstIndex(p, prev[a])
      {
        FirstIndexAppend(p, x, prev[a]);
      }
      if x !in prev {
        assert Dedup(s) == prev + [x];
        assert x !in p;
        assert FirstIndex(s, x) == |p| by {
          assert s[|p|] == x;
          assert s[..|p|] == p;
        }
      }
    }
  }

  /** A sequence without repeats is left as it is. */
  lemma {:induction false} DedupOfDistinct(s: seq<Cell>)
    requires NoDuplicates(s)
    ensures Dedup(s) == s
  {
    if s != [] {
      var p, x := s[..|s| - 1], s[|s| - 1];
      assert s == p + [x];
      DedupOfDistinct(p);
      assert x !in p;
    }
  }

  /** De-duplicating twice is de-duplicating once. */
  lemma DedupIdempotent(s: seq<Cell>)
    ensures Dedup(Dedup(s)) == Dedup(s)
  {
    DedupOfDistinct(Dedup(s));
  }

  function Reverse(s: seq<Cell>): (r: seq<Cell>)
    ensures |r| == |s|
    ensures forall i :: 0 <= i < |s| ==> r[i] == s[|s| - 1 - i]
  {
    if s == [] then [] else Reverse(s[1..]) + [s[0]]
  }

  /** np.concatenate refuses a one-dimensional empty array beside a two-dimensional one:
      a trace whose one half is empty and the other is not raises ValueError. */
  datatype TraceError = ShapeMismatch

  /** The cells of the chain: the backward half, de-duplicated and reversed (np.flip), then
      the forward half, de-duplicated. When both halves are empty both arrays are empty
      and one-dimensional, and the concatenation is empty. */
  function Trace(back: seq<Cell>, fwd: seq<Cell>): (r: Result<seq<Cell>, TraceError>)
    ensures r.Err? <==> (back == []) != (fwd == [])
    ensures r.Ok? ==> |r.value| == |Dedup(back)| + |Dedup(fwd)|
    ensures r.Ok? ==> forall i :: 0 <= i < |Dedup(back)| ==>
              r.value[i] == Dedup(back)[|Dedup(back)| - 1 - i]
    ensures r.Ok? ==> forall i :: 0 <= i < |Dedup(fwd)| ==>
              r.value[|Dedup(back)| + i] == Dedup(fwd)[i]
  {
    if (back == []) != (fwd == []) then Err(ShapeMismatch)
    else Ok(Reverse(Dedup(back)) + Dedup(fwd))
  }

  /** The trace holds exactly the cells of both halves; each half of it is free of
      repeats. */
  lemma TraceHalves(back: seq<Cell>, fwd: seq<Cell>)
    requires Trace(back, fwd).Ok?
    ensures var t, k := Trace(back, fwd).value, |Dedup(back)|;
      (forall c :: c in t <==> c in back || c in fwd)
      && NoDuplicates(t[..k]) && NoDuplicates(t[k..])
  {
    var t, k := Trace(back, fwd).value, |Dedup(back)|;
    var b, f := Dedup(back), Dedup(fwd);
    assert t[..k] == Reverse(b);
    assert t[k..] == f;
    assert t == Reverse(b) + f;
    forall c
      ensures c in Reverse(b) <==> c in b
    {
      if c in b {
        var i :| 0 <= i < |b| && b[i] == c;
        assert Reverse(b)[|b| - 1 - i] == c;
      }
    }
  }

  /** The whole trace need not be free of repeats. The start is an integer cell, so the
      first 0.33-cell step backward and the first forward both round back to it; whenever
      both halves are non-empty that cell appears twice, side by side, in the middle of the
      trace. */
  lemma TraceMayRepeatAtJunction(c: Cell)
    ensures Trace([c], [c]) == Ok([c, c])
    ensures !NoDuplicates(Trace([c], [c]).value)
  {
    assert Dedup([c]) == [c] by {
      assert [c][..0] == [];
      assert Dedup([]) == [];
    }
    assert Reverse([c]) == [c] by {
      assert [c][1..] == [];
    }
    assert Reverse(Dedup([c])) + Dedup([c]) == [c, c];
    var t := Trace([c], [c]).value;
    assert t[0] == t[1];
  }
}
