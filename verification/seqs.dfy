/** Sequence and string helpers shared by the model: an optional value,
    filtering a sequence by a per-index mask (JavaScript's
    `Array.prototype.filter((_, idx) => ...)`), `find`, concatenation and
    `join`. */
module Seqs {

  /** A value that may be absent: JavaScript's `undefined`/`null`, or NaN
      for a parsed number. */
  datatype Option<+T> = None | Some(value: T)

  /** Number of `true` entries of a mask. */
  function CountTrue(mask: seq<bool>): nat
    decreases |mask|
  {
    if |mask| == 0 then 0
    else CountTrue(mask[..|mask| - 1]) + (if mask[|mask| - 1] then 1 else 0)
  }

  /** Keeps `xs[i]` exactly when `mask[i]`, preserving order. */
  function Select<T>(xs: seq<T>, mask: seq<bool>): (r: seq<T>)
    requires |xs| == |mask|
    ensures |r| == CountTrue(mask)
    decreases |xs|
  {
    if |xs| == 0 then []
    else
      var n := |xs| - 1;
      Select(xs[..n], mask[..n]) + (if mask[n] then [xs[n]] else [])
  }

  /** The indices `i` with `mask[i]`, in increasing order. */
  function Positions(mask: seq<bool>): (r: seq<nat>)
    ensures |r| == CountTrue(mask)
    decreases |mask|
  {
    if |mask| == 0 then []
    else
      var n := |mask| - 1;
      Positions(mask[..n]) + (if mask[n] then [n] else [])
  }

  predicate StrictlyIncreasing(s: seq<nat>)
  {
    forall i, j :: 0 <= i < j < |s| ==> s[i] < s[j]
  }

  /** Extending the inputs by one element extends the selection by at most
      that element. */
  lemma SelectSnoc<T>(xs: seq<T>, mask: seq<bool>, i: nat)
    requires |xs| == |mask| && i < |xs|
    ensures Select(xs[..i + 1], mask[..i + 1])
            == Select(xs[..i], mask[..i]) + (if mask[i] then [xs[i]] else [])
  {
    assert xs[..i + 1][..i] == xs[..i];
    assert mask[..i + 1][..i] == mask[..i];
  }

  /** Selecting up to a marked position appends that element, and an
      unmarked element right after it adds nothing. */
  lemma SelectStep<T>(xs: seq<T>, mask: seq<bool>, i: nat)
    requires |xs| == |mask| && i < |xs| && mask[i]
    ensures Select(xs[..i + 1], mask[..i + 1]) == Select(xs[..i], mask[..i]) + [xs[i]]
    ensures i + 1 < |xs| && !mask[i + 1] ==>
              Select(xs[..i + 2], mask[..i + 2]) == Select(xs[..i], mask[..i]) + [xs[i]]
  {
    SelectSnoc(xs, mask, i);
    if i + 1 < |xs| && !mask[i + 1] {
      SelectSnoc(xs, mask, i + 1);
    }
  }

  /** Selection from three elements, spelled out. */
  lemma SelectThree<T>(xs: seq<T>, mask: seq<bool>)
    requires |xs| == |mask| == 3
    ensures Select(xs, mask)
            == (if mask[0] then [xs[0]] else []) + (if mask[1] then [xs[1]] else [])
               + (if mask[2] then [xs[2]] else [])
  {
    SelectSnoc(xs, mask, 0);
    SelectSnoc(xs, mask, 1);
    SelectSnoc(xs, mask, 2);
    assert xs[..3] == xs && mask[..3] == mask;
    assert xs[..0] == [] && mask[..0] == [];
  }

  /** Selection from four elements, spelled out. */
  lemma SelectFour<T>(xs: seq<T>, mask: seq<bool>)
    requires |xs| == |mask| == 4
    ensures Select(xs, mask)
            == (if mask[0] then [xs[0]] else []) + (if mask[1] then [xs[1]] else [])
               + (if mask[2] then [xs[2]] else []) + (if mask[3] then [xs[3]] else [])
  {
    SelectThree(xs[..3], mask[..3]);
    SelectSnoc(xs, mask, 3);
    assert xs[..4] == xs && mask[..4] == mask;
  }

  /** `Positions` lists exactly the marked indices, in strictly increasing
      order. */
  lemma {:induction false} PositionsAreMarkedIndices(mask: seq<bool>)
    ensures StrictlyIncreasing(Positions(mask))
    ensures forall k :: 0 <= k < |Positions(mask)| ==> Positions(mask)[k] < |mask|
    ensures forall j: nat :: j in Positions(mask) <==> j < |mask| && mask[j]
    decreases |mask|
  {
    if |mask| > 0 {
      var n := |mask| - 1;
      var init := mask[..n];
      var prev := Positions(init);
      var last: seq<nat> := if mask[n] then [n] else [];
      PositionsAreMarkedIndices(init);
      assert Positions(mask) == prev + last;
      forall j: nat
        ensures j in prev + last <==> j < |mask| && mask[j]
      {
        if j < n {
          assert init[j] == mask[j];
        }
      }
      forall i, k | 0 <= i < k < |prev + last|
        ensures (prev + last)[i] < (prev + last)[k]
      {
        if k >= |prev| {
          assert (prev + last)[i] == prev[i] < n;
        }
      }
    }
  }

  /** The k-th selected element is the element at the k-th marked index. */
  lemma {:induction false} SelectFollowsPositions<T>(xs: seq<T>, mask: seq<bool>)
    requires |xs| == |mask|
    ensures |Select(xs, mask)| == |Positions(mask)|
    ensures forall k :: 0 <= k < |Positions(mask)| ==>
              Positions(mask)[k] < |xs| && Select(xs, mask)[k] == xs[Positions(mask)[k]]
    decreases |xs|
  {
    if |xs| > 0 {
      var n := |xs| - 1;
      SelectFollowsPositions(xs[..n], mask[..n]);
      PositionsAreMarkedIndices(mask[..n]);
    }
  }

  /** With every index marked, selection is the identity. */
  lemma {:induction false} SelectAll<T>(xs: seq<T>, mask: seq<bool>)
    requires |xs| == |mask|
    requires forall i :: 0 <= i < |mask| ==> mask[i]
    ensures Select(xs, mask) == xs
    decreases |xs|
  {
    if |xs| > 0 {
      var n := |xs| - 1;
      SelectAll(xs[..n], mask[..n]);
      assert xs[..n] + [xs[n]] == xs;
    }
  }

  /** `ss.join("")`. */
  function Concat(ss: seq<string>): string
    decreases |ss|
  {
    if |ss| == 0 then "" else ss[0] + Concat(ss[1..])
  }

  /** `parts.join(sep)`: separators between consecutive parts only. */
  function Join(parts: seq<string>, sep: string): string
    decreases |parts|
  {
    if |parts| == 0 then ""
    else if |parts| == 1 then parts[0]
    else parts[0] + sep + Join(parts[1..], sep)
  }

  /** A join is at least as long as its first part. */
  lemma JoinStartsWithFirst(parts: seq<string>, sep: string)
    requires |parts| > 0
    ensures |Join(parts, sep)| >= |parts[0]|
  {
  }

  /** Every part followed by `sep`, in order. */
  function Terminated(parts: seq<string>, sep: string): string
    decreases |parts|
  {
    if |parts| == 0 then "" else parts[0] + sep + Terminated(parts[1..], sep)
  }

  /** A non-empty join followed by one more separator puts a separator
      after every part. */
  lemma {:induction false} JoinThenSep(parts: seq<string>, sep: string, tail: string)
    requires |parts| > 0
    ensures Join(parts, sep) + sep + tail == Terminated(parts, sep) + tail
    decreases |parts|
  {
    if |parts| > 1 {
      JoinThenSep(parts[1..], sep, tail);
      calc {
        Join(parts, sep) + sep + tail;
        (parts[0] + sep + Join(parts[1..], sep)) + sep + tail;
        parts[0] + sep + (Join(parts[1..], sep) + sep + tail);
        parts[0] + sep + (Terminated(parts[1..], sep) + tail);
        Terminated(parts, sep) + tail;
      }
    }
  }

  /** `parts.filter(Boolean)` on strings: drops the empty ones. */
  function NonEmpty(parts: seq<string>): (r: seq<string>)
    ensures forall k :: 0 <= k < |r| ==> r[k] != ""
    ensures forall s :: s in r <==> s in parts && s != ""
    decreases |parts|
  {
    if |parts| == 0 then []
    else (if parts[0] == "" then [] else [parts[0]]) + NonEmpty(parts[1..])
  }

  /** Filtering a part in front of the rest. */
  lemma NonEmptyCons(x: string, rest: seq<string>)
    ensures NonEmpty([x] + rest) == (if x == "" then [] else [x]) + NonEmpty(rest)
  {
    assert ([x] + rest)[1..] == rest;
  }

  /** Joining one part, or two. */
  lemma JoinShort(a: string, b: string, sep: string)
    ensures Join([a], sep) == a
    ensures Join([a, b], sep) == a + sep + b
  {
    assert [a, b][1..] == [b];
  }

  /** `xs.find(p)`: the first element satisfying `p`, if any. */
  function Find(xs: seq<nat>, p: nat -> bool): (r: Option<nat>)
    ensures r.Some? <==> exists k :: 0 <= k < |xs| && p(xs[k])
    ensures r.Some? ==> p(r.value)
    ensures r.Some? ==> exists k :: 0 <= k < |xs| && xs[k] == r.value && forall j :: 0 <= j < k ==> !p(xs[j])
    decreases |xs|
  {
    if |xs| == 0 then None
    else if p(xs[0]) then Some(xs[0])
    else
      var r := Find(xs[1..], p);
      if r.Some? then
        var k :| 0 <= k < |xs[1..]| && xs[1..][k] == r.value && forall j :: 0 <= j < k ==> !p(xs[1..][j]);
        assert xs[k + 1] == r.value && forall j :: 0 <= j < k + 1 ==> !p(xs[j]);
        r
      else r
  }

  /** Occurrences of `c` in `s`. */
  function Count(s: string, c: char): nat
    decreases |s|
  {
    if |s| == 0 then 0 else (if s[0] == c then 1 else 0) + Count(s[1..], c)
  }

  lemma {:induction false} CountAppend(a: string, b: string, c: char)
    ensures Count(a + b, c) == Count(a, c) + Count(b, c)
    decreases |a|
  {
    if |a| == 0 {
      assert a + b == b;
    } else {
      assert (a + b)[1..] == a[1..] + b;
      CountAppend(a[1..], b, c);
    }
  }
}
