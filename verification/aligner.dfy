/** The token/segment aligner of the home page: from the token ids of the
    input text and a per-id decode, it builds the index-aligned lists
    `encoding` (ids) and `segments` (texts) handed to the token viewer.

    Ids at or above 900000 are placeholders for a named field. A
    placeholder's text is its own decoded text followed by the decoded text
    of the NEXT original element, and every element whose ORIGINAL
    predecessor is a placeholder is dropped from both lists by one index
    predicate. Two consequences of the code are kept on purpose:
    a placeholder in the last position gets the text "undefined" appended
    (the out-of-range array read printed by a template literal), and in a
    run of consecutive placeholders only the first element survives. */
module Aligner {
  import opened Seqs

  /** Smallest placeholder id. */
  const PlaceholderMin: nat := 900000

  /** What a template literal prints for an array read past the end. */
  const Undefined: string := "undefined"

  predicate IsPlaceholder(id: nat)
  {
    id >= PlaceholderMin
  }

  /** The two lists handed to the viewer. */
  datatype Aligned = Aligned(encoding: seq<nat>, segments: seq<string>)

  /** Element-wise decode of the token ids. */
  function Decoded(tokens: seq<nat>, decode: nat -> string): (segs: seq<string>)
    ensures |segs| == |tokens|
  {
    seq(|tokens|, i requires 0 <= i < |tokens| => decode(tokens[i]))
  }

  /** The text following position `idx`: the next decoded segment, or
      "undefined" past the end. */
  function Next(segs: seq<string>, idx: nat): string
  {
    if idx + 1 < |segs| then segs[idx + 1] else Undefined
  }

  /** Text at position `idx` after the placeholder merge. */
  function MergedText(tokens: seq<nat>, segs: seq<string>, idx: nat): (r: string)
    requires |segs| == |tokens| && idx < |tokens|
    ensures !IsPlaceholder(tokens[idx]) ==> r == segs[idx]
    ensures IsPlaceholder(tokens[idx]) && idx + 1 < |tokens| ==> r == segs[idx] + segs[idx + 1]
    ensures IsPlaceholder(tokens[idx]) && idx + 1 == |tokens| ==> r == segs[idx] + "undefined"
  {
    if IsPlaceholder(tokens[idx]) then segs[idx] + Next(segs, idx) else segs[idx]
  }

  function Merged(tokens: seq<nat>, segs: seq<string>): (r: seq<string>)
    requires |segs| == |tokens|
    ensures |r| == |tokens|
  {
    seq(|tokens|, idx requires 0 <= idx < |tokens| => MergedText(tokens, segs, idx))
  }

  /** The filter predicate shared by both lists: position `idx` survives
      unless its original predecessor is a placeholder. */
  predicate Kept(tokens: seq<nat>, idx: nat)
    requires idx < |tokens|
  {
    !(idx > 0 && IsPlaceholder(tokens[idx - 1]))
  }

  function KeepMask(tokens: seq<nat>): (mask: seq<bool>)
    ensures |mask| == |tokens|
  {
    seq(|tokens|, idx requires 0 <= idx < |tokens| => Kept(tokens, idx))
  }

  /** Original positions of the surviving elements, in order. */
  function Origins(tokens: seq<nat>): seq<nat>
  {
    Positions(KeepMask(tokens))
  }

  /** The aligner itself: both lists are filtered by the same mask, so they
      always have equal length. */
  function Align(tokens: seq<nat>, decode: nat -> string): (r: Aligned)
    ensures |r.encoding| == |r.segments|
  {
    var segs := Decoded(tokens, decode);
    var mask := KeepMask(tokens);
    Aligned(Select(tokens, mask), Select(Merged(tokens, segs), mask))
  }

  /** The output is the image of the strictly increasing list of surviving
      positions; position `j` survives iff `j == 0` or the original
      `tokens[j - 1]` is not a placeholder; each surviving id is the
      original id and each surviving text is the merged text there. */
  lemma AlignIsOrderPreservingSubsequence(tokens: seq<nat>, decode: nat -> string)
    ensures var a := Align(tokens, decode);
            var o := Origins(tokens);
            && |a.encoding| == |o| && |a.segments| == |o|
            && StrictlyIncreasing(o)
            && (forall j: nat :: j in o <==> j < |tokens| && (j == 0 || tokens[j - 1] < PlaceholderMin))
            && (forall k :: 0 <= k < |o| ==>
                  && o[k] < |tokens|
                  && a.encoding[k] == tokens[o[k]]
                  && a.segments[k] == MergedText(tokens, Decoded(tokens, decode), o[k]))
  {
    var segs := Decoded(tokens, decode);
    var mask := KeepMask(tokens);
    SelectFollowsPositions(tokens, mask);
    SelectFollowsPositions(Merged(tokens, segs), mask);
    PositionsAreMarkedIndices(mask);
  }

  /** The first element always survives, unchanged apart from the merge. */
  lemma FirstSurvives(tokens: seq<nat>, decode: nat -> string)
    requires |tokens| > 0
    ensures var a := Align(tokens, decode);
            |a.encoding| > 0 && a.encoding[0] == tokens[0]
            && a.segments[0] == MergedText(tokens, Decoded(tokens, decode), 0)
  {
    AlignIsOrderPreservingSubsequence(tokens, decode);
    var o := Origins(tokens);
    assert 0 in o;
    var k :| 0 <= k < |o| && o[k] == 0;
  }

  /** Without placeholders the aligner is the element-wise decode. */
  lemma NoPlaceholdersIsDecode(tokens: seq<nat>, decode: nat -> string)
    requires forall i :: 0 <= i < |tokens| ==> !IsPlaceholder(tokens[i])
    ensures Align(tokens, decode) == Aligned(tokens, Decoded(tokens, decode))
  {
    var segs := Decoded(tokens, decode);
    var mask := KeepMask(tokens);
    SelectAll(tokens, mask);
    assert Merged(tokens, segs) == segs;
    SelectAll(segs, mask);
  }

  /** A surviving placeholder at `i` with a successor keeps its own id,
      carries its text followed by the successor's text, and the successor
      is absent from both lists. */
  lemma PlaceholderAbsorbsSuccessor(tokens: seq<nat>, decode: nat -> string, i: nat)
    requires i + 1 < |tokens|
    requires IsPlaceholder(tokens[i])
    requires i == 0 || !IsPlaceholder(tokens[i - 1])
    ensures var a := Align(tokens, decode);
            var o := Origins(tokens);
            && i + 1 !in o
            && exists k :: 0 <= k < |o| && o[k] == i
                 && a.encoding[k] == tokens[i]
                 && a.segments[k] == decode(tokens[i]) + decode(tokens[i + 1])
  {
    AlignIsOrderPreservingSubsequence(tokens, decode);
    var o := Origins(tokens);
    assert i in o;
    var k :| 0 <= k < |o| && o[k] == i;
  }

  /** A surviving placeholder in the last position carries the text
      "undefined" after its own. */
  lemma TrailingPlaceholderGetsUndefined(tokens: seq<nat>, decode: nat -> string)
    requires |tokens| > 0
    requires IsPlaceholder(tokens[|tokens| - 1])
    requires |tokens| == 1 || !IsPlaceholder(tokens[|tokens| - 2])
    ensures var a := Align(tokens, decode);
            && |a.encoding| > 0
            && a.encoding[|a.encoding| - 1] == tokens[|tokens| - 1]
            && a.segments[|a.segments| - 1] == decode(tokens[|tokens| - 1]) + Undefined
  {
  }

  /** Placeholders among a prefix. */
  function PlaceholderCount(ids: seq<nat>): nat
    decreases |ids|
  {
    if |ids| == 0 then 0
    else PlaceholderCount(ids[..|ids| - 1]) + (if IsPlaceholder(ids[|ids| - 1]) then 1 else 0)
  }

  lemma {:induction false} KeptCount(tokens: seq<nat>)
    ensures CountTrue(KeepMask(tokens))
            == if |tokens| == 0 then 0 else |tokens| - PlaceholderCount(tokens[..|tokens| - 1])
    decreases |tokens|
  {
    var n := |tokens|;
    if n > 1 {
      var init := tokens[..n - 1];
      KeptCount(init);
      assert KeepMask(tokens)[..n - 1] == KeepMask(init);
      assert init[..n - 2] == tokens[..n - 2];
    } else if n == 1 {
      assert KeepMask(tokens)[..0] == [];
    }
  }

  /** The output length is the input length minus the number of
      placeholders among all positions but the last. */
  lemma AlignLength(tokens: seq<nat>, decode: nat -> string)
    ensures |Align(tokens, decode).encoding|
            == if |tokens| == 0 then 0 else |tokens| - PlaceholderCount(tokens[..|tokens| - 1])
  {
    KeptCount(tokens);
  }

  /** `data.encoding.find((i) => i >= 900_000)` as a condition: the found
      id is truthy whenever it exists, since it is at least 900000. */
  function PlaceholderNoteShown(encoding: seq<nat>): (shown: bool)
    ensures shown <==> exists k :: 0 <= k < |encoding| && encoding[k] >= 900000
  {
    var found := Find(encoding, IsPlaceholder);
    found.Some? && found.value != 0
  }

  /** The placeholder note is shown iff some surviving id is a placeholder,
      that is iff some placeholder sits at a kept original position. */
  lemma PlaceholderNoteIff(tokens: seq<nat>, decode: nat -> string)
    ensures var a := Align(tokens, decode);
            && (PlaceholderNoteShown(a.encoding) <==> exists k :: 0 <= k < |a.encoding| && IsPlaceholder(a.encoding[k]))
            && (PlaceholderNoteShown(a.encoding) <==>
                  exists j :: 0 <= j < |tokens| && Kept(tokens, j) && IsPlaceholder(tokens[j]))
  {
    var a := Align(tokens, decode);
    var o := Origins(tokens);
    AlignIsOrderPreservingSubsequence(tokens, decode);
    if exists j :: 0 <= j < |tokens| && Kept(tokens, j) && IsPlaceholder(tokens[j]) {
      var j :| 0 <= j < |tokens| && Kept(tokens, j) && IsPlaceholder(tokens[j]);
      assert j in o;
      var k :| 0 <= k < |o| && o[k] == j;
      assert IsPlaceholder(a.encoding[k]);
    }
    if exists k :: 0 <= k < |a.encoding| && IsPlaceholder(a.encoding[k]) {
      var k :| 0 <= k < |a.encoding| && IsPlaceholder(a.encoding[k]);
      assert o[k] in o;
    }
  }

  /** No two placeholders stand next to each other. */
  predicate NoAdjacentPlaceholders(tokens: seq<nat>)
  {
    forall i :: 0 <= i && i + 1 < |tokens| ==> !(IsPlaceholder(tokens[i]) && IsPlaceholder(tokens[i + 1]))
  }

  /** The merge read as a one-hop, index-skipping walk over any
      per-position list: position `i` is taken, a placeholder there absorbs
      exactly the next element, and the walk resumes after it. */
  function Walk<T>(tokens: seq<nat>, xs: seq<T>, i: nat): seq<T>
    requires |xs| == |tokens|
    decreases |tokens| - i
  {
    if i >= |tokens| then []
    else [xs[i]] + Walk(tokens, xs, if IsPlaceholder(tokens[i]) then i + 2 else i + 1)
  }

  /** The walk visits the same positions whatever list it reads. */
  lemma {:induction false} WalkSameLength<T, U>(tokens: seq<nat>, xs: seq<T>, ys: seq<U>, i: nat)
    requires |xs| == |tokens| && |ys| == |tokens|
    ensures |Walk(tokens, xs, i)| == |Walk(tokens, ys, i)|
    decreases |tokens| - i
  {
    if i < |tokens| {
      WalkSameLength(tokens, xs, ys, if IsPlaceholder(tokens[i]) then i + 2 else i + 1);
    }
  }

  /** The one-hop reading of the aligner from position `i`: the walk over
      the ids and the walk over the merged texts, of equal length. */
  function OneHop(tokens: seq<nat>, segs: seq<string>, i: nat): (r: Aligned)
    requires |segs| == |tokens|
    ensures |r.encoding| == |r.segments|
  {
    var merged := Merged(tokens, segs);
    WalkSameLength(tokens, tokens, merged, i);
    Aligned(Walk(tokens, tokens, i), Walk(tokens, merged, i))
  }

  /** The walk from a clean position `i` (the start, or just after a
      non-placeholder) completes the filtered prefix before `i` to the
      whole filtered list. */
  lemma {:induction false} WalkFrom<T>(tokens: seq<nat>, xs: seq<T>, i: nat)
    requires |xs| == |tokens| && i <= |tokens|
    requires NoAdjacentPlaceholders(tokens)
    requires i == 0 || !IsPlaceholder(tokens[i - 1])
    ensures Select(xs[..i], KeepMask(tokens)[..i]) + Walk(tokens, xs, i) == Select(xs, KeepMask(tokens))
    decreases |tokens| - i
  {
    var n := |tokens|;
    var mask := KeepMask(tokens);
    if i == n {
      assert xs[..i] == xs && mask[..i] == mask;
    } else {
      assert mask[i];
      var j := if IsPlaceholder(tokens[i]) then i + 2 else i + 1;
      var done := Select(xs[..i], mask[..i]);
      var rest := Walk(tokens, xs, j);
      assert Walk(tokens, xs, i) == [xs[i]] + rest;
      assert done + ([xs[i]] + rest) == (done + [xs[i]]) + rest;
      if j <= n {
        if j == i + 2 {
          assert !mask[i + 1];
        }
        SelectStep(xs, mask, i);
        assert Select(xs[..j], mask[..j]) == done + [xs[i]];
        WalkFrom(tokens, xs, j);
      } else {
        SelectStep(xs, mask, i);
        assert rest == [];
        assert xs[..i + 1] == xs && mask[..i + 1] == mask;
      }
    }
  }

  /** When placeholders are never adjacent, dropping by ORIGINAL
      predecessor is the same as the one-hop walk. */
  lemma OneHopMatchesAlign(tokens: seq<nat>, decode: nat -> string)
    requires NoAdjacentPlaceholders(tokens)
    ensures OneHop(tokens, Decoded(tokens, decode), 0) == Align(tokens, decode)
  {
    var segs := Decoded(tokens, decode);
    WalkFrom(tokens, tokens, 0);
    WalkFrom(tokens, Merged(tokens, segs), 0);
  }

  /** Adjacent placeholders: only the first of `[900001, 900002, 5]`
      survives, and the text of the third element is lost, whereas the
      one-hop walk would keep it. */
  lemma ChainedPlaceholdersLoseText(decode: nat -> string)
    ensures Align([900001, 900002, 5], decode)
            == Aligned([900001], [decode(900001) + decode(900002)])
    ensures OneHop([900001, 900002, 5], Decoded([900001, 900002, 5], decode), 0).encoding
            == [900001, 5]
  {
    var t: seq<nat> := [900001, 900002, 5];
    var segs := Decoded(t, decode);
    var mask := KeepMask(t);
    assert mask == [true, false, false];
    var m := Merged(t, segs);
    assert m[0] == decode(900001) + decode(900002);
    SelectThree(t, mask);
    SelectThree(m, mask);
  }

  /** Merging a placeholder in the middle: `[100, 900001, 200, 300]`
      aligns to ids `[100, 900001, 300]`, with the placeholder carrying the
      text of 200. */
  lemma MergeExample(decode: nat -> string)
    ensures Align([100, 900001, 200, 300], decode)
            == Aligned([100, 900001, 300], [decode(100), decode(900001) + decode(200), decode(300)])
  {
    var t: seq<nat> := [100, 900001, 200, 300];
    var segs := Decoded(t, decode);
    var mask := KeepMask(t);
    assert mask == [true, true, false, true];
    var m := Merged(t, segs);
    assert m[0] == decode(100) && m[1] == decode(900001) + decode(200) && m[3] == decode(300);
    SelectFour(t, mask);
    SelectFour(m, mask);
  }

  /** The one-hop walk from any position loses no text when no placeholder
      is last. */
  lemma {:induction false} OneHopConcat(tokens: seq<nat>, segs: seq<string>, i: nat)
    requires |segs| == |tokens| && i <= |tokens|
    requires |tokens| == 0 || !IsPlaceholder(tokens[|tokens| - 1])
    ensures Concat(OneHop(tokens, segs, i).segments) == Concat(segs[i..])
    decreases |tokens| - i
  {
    var merged := Merged(tokens, segs);
    if i < |tokens| {
      assert segs[i..][1..] == segs[i + 1..];
      if IsPlaceholder(tokens[i]) {
        assert i + 1 < |tokens|;
        OneHopConcat(tokens, segs, i + 2);
        assert Walk(tokens, merged, i) == [segs[i] + segs[i + 1]] + Walk(tokens, merged, i + 2);
        assert segs[i + 1..][1..] == segs[i + 2..];
      } else {
        OneHopConcat(tokens, segs, i + 1);
        assert Walk(tokens, merged, i) == [segs[i]] + Walk(tokens, merged, i + 1);
      }
    }
  }

  /** If placeholders are never adjacent and never last, the surviving
      segments spell out exactly the decoded text. */
  lemma SegmentsPreserveText(tokens: seq<nat>, decode: nat -> string)
    requires NoAdjacentPlaceholders(tokens)
    requires |tokens| == 0 || !IsPlaceholder(tokens[|tokens| - 1])
    ensures Concat(Align(tokens, decode).segments) == Concat(Decoded(tokens, decode))
  {
    var segs := Decoded(tokens, decode);
    OneHopMatchesAlign(tokens, decode);
    OneHopConcat(tokens, segs, 0);
    assert segs[0..] == segs;
  }
}
