/** The token viewer's data-dependent display rules: the token count, the
    palette colour of each unit in the segment view and in the id view, the
    whitespace display flag, and the shared hover index both views set and
    read. */
module TokenView {
  import opened Seqs
  import Whitespace

  /** The fixed palette; a unit's slot is its index modulo its size. */
  const Colors: seq<string> := [
    "bg-sky-200", "bg-amber-200", "bg-blue-200", "bg-green-200",
    "bg-orange-200", "bg-cyan-200", "bg-gray-200", "bg-purple-200",
    "bg-indigo-200", "bg-lime-200", "bg-rose-200", "bg-violet-200",
    "bg-yellow-200", "bg-emerald-200", "bg-zinc-200", "bg-red-200",
    "bg-fuchsia-200", "bg-pink-200", "bg-teal-200"
  ]

  /** A token as the viewer receives it: its id and its position. */
  datatype TokenRef = TokenRef(id: nat, idx: nat)

  /** A displayed unit: its text and the tokens it covers. */
  datatype Segment = Segment(text: string, tokens: seq<TokenRef>)

  /** `reduce((memo, i) => memo + i.tokens.length, memo)`, left to right. */
  function SumTokens(data: seq<Segment>, memo: nat): nat
    decreases |data|
  {
    if |data| == 0 then memo else SumTokens(data[1..], memo + |data[0].tokens|)
  }

  /** `tokenCount`: the number of ids the id view lists; no data counts
      as zero. */
  function TokenCount(data: Option<seq<Segment>>): (n: nat)
    ensures data.None? ==> n == 0
    ensures data.Some? ==> n == |AllIds(data.value)|
  {
    match data
    case None => 0
    case Some(segments) =>
      SumTokensCountsIds(segments, 0);
      SumTokens(segments, 0)
  }

  /** All token ids in display order, as the id view lists them. */
  function AllIds(data: seq<Segment>): seq<nat>
    decreases |data|
  {
    if |data| == 0 then []
    else seq(|data[0].tokens|, k requires 0 <= k < |data[0].tokens| => data[0].tokens[k].id) + AllIds(data[1..])
  }

  lemma {:induction false} SumTokensCountsIds(data: seq<Segment>, memo: nat)
    ensures SumTokens(data, memo) == memo + |AllIds(data)|
    decreases |data|
  {
    if |data| > 0 {
      SumTokensCountsIds(data[1..], memo + |data[0].tokens|);
    }
  }

  /** The token count is the number of ids the id view lists, and it adds
      up over consecutive runs of segments. */
  lemma TokenCountIsIdCount(data: seq<Segment>, more: seq<Segment>)
    ensures TokenCount(Some(data)) == |AllIds(data)|
    ensures TokenCount(Some(data + more)) == TokenCount(Some(data)) + TokenCount(Some(more))
  {
    AllIdsAppend(data, more);
  }

  lemma {:induction false} AllIdsAppend(a: seq<Segment>, b: seq<Segment>)
    ensures AllIds(a + b) == AllIds(a) + AllIds(b)
    decreases |a|
  {
    if |a| == 0 {
      assert a + b == b;
    } else {
      assert (a + b)[1..] == a[1..] + b;
      AllIdsAppend(a[1..], b);
    }
  }

  /** `props.data && tokenCount > 0`: the id view is drawn exactly when
      some segment carries a token. */
  function IdViewShown(data: Option<seq<Segment>>): (shown: bool)
    ensures shown <==> data.Some? && exists k :: 0 <= k < |data.value| && |data.value[k].tokens| > 0
  {
    match data
    case None => false
    case Some(segments) =>
      SomeIdIffSomeToken(segments);
      TokenCount(data) > 0
  }

  lemma {:induction false} SomeIdIffSomeToken(data: seq<Segment>)
    ensures |AllIds(data)| > 0 <==> exists k :: 0 <= k < |data| && |data[k].tokens| > 0
    decreases |data|
  {
    if |data| > 0 {
      SomeIdIffSomeToken(data[1..]);
      if exists k :: 0 <= k < |data[1..]| && |data[1..][k].tokens| > 0 {
        var k :| 0 <= k < |data[1..]| && |data[1..][k].tokens| > 0;
        assert |data[k + 1].tokens| > 0;
      }
      if exists k :: 0 <= k < |data| && |data[k].tokens| > 0 {
        var k :| 0 <= k < |data| && |data[k].tokens| > 0;
        if k > 0 {
          assert |data[1..][k - 1].tokens| > 0;
        }
      }
    }
  }

  /** Palette slot of unit `idx`. */
  function Slot(idx: nat): nat
  {
    idx % |Colors|
  }

  /** Segment view colour: every unit while nothing is hovered, otherwise
      only the hovered unit. */
  function SegmentColor(hover: Option<nat>, idx: nat): (slot: Option<nat>)
    ensures slot.Some? <==> hover.None? || hover == Some(idx)
    ensures slot.Some? ==> slot.value < |Colors| && slot.value == idx % 19
  {
    if hover.None? || hover.value == idx then Some(Slot(idx)) else None
  }

  /** Id view colour: only the tokens of the hovered unit. */
  function IdColor(hover: Option<nat>, segmentIdx: nat): (slot: Option<nat>)
    ensures slot.Some? <==> hover == Some(segmentIdx)
    ensures slot.Some? ==> slot.value < |Colors| && slot.value == segmentIdx % 19
  {
    if hover == Some(segmentIdx) then Some(Slot(segmentIdx)) else None
  }

  /** While unit `h` is hovered, both views colour exactly unit `h`, with
      the same palette slot. */
  lemma HoverLockstep(h: nat, idx: nat)
    ensures SegmentColor(Some(h), idx).Some? <==> idx == h
    ensures IdColor(Some(h), idx).Some? <==> idx == h
    ensures idx == h ==> SegmentColor(Some(h), idx) == IdColor(Some(h), idx) == Some(h % 19)
    ensures SegmentColor(Some(h), idx).Some? ==> Colors[SegmentColor(Some(h), idx).value] == Colors[h % 19]
  {
  }

  /** With nothing hovered the segment view shows every unit in its
      rotating colour and the id view colours none. */
  lemma NoHoverDefaultBand(idx: nat)
    ensures SegmentColor(None, idx) == Some(idx % 19) && idx % 19 < |Colors|
    ensures IdColor(None, idx) == None
  {
  }

  /** Whether unit `idx` is shown whitespace-encoded. */
  predicate ShowsEncoded(showWhitespace: bool, hover: Option<nat>, idx: nat)
  {
    showWhitespace || hover == Some(idx)
  }

  /** The text the segment view shows for unit `idx`: blank-free when
      encoded, the text itself otherwise. */
  function SegmentDisplay(showWhitespace: bool, hover: Option<nat>, idx: nat, text: string): (shown: string)
    ensures ShowsEncoded(showWhitespace, hover, idx) ==> ' ' !in shown && '\t' !in shown
    ensures !ShowsEncoded(showWhitespace, hover, idx) ==> shown == text
  {
    if ShowsEncoded(showWhitespace, hover, idx) then Whitespace.EncodeWhitespace(text) else text
  }

  /** Without the whitespace switch, exactly the hovered unit is shown
      encoded; with it, every unit is. */
  lemma EncodedDisplayFollowsHover(hover: Option<nat>, idx: nat, text: string)
    ensures SegmentDisplay(true, hover, idx, text) == Whitespace.EncodeWhitespace(text)
    ensures hover == Some(idx) ==> SegmentDisplay(false, hover, idx, text) == Whitespace.EncodeWhitespace(text)
    ensures hover != Some(idx) ==> SegmentDisplay(false, hover, idx, text) == text
  {
  }

  /** Pointer events of the two views. */
  datatype PointerEvent =
    | EnterSegment(idx: nat)
    | EnterToken(segmentIdx: nat, tokenIdx: nat)
    | Leave

  /** The single hover cell both views write. */
  function OnPointer(hover: Option<nat>, event: PointerEvent): (r: Option<nat>)
    ensures event.Leave? ==> r.None?
    ensures event.EnterSegment? ==> r == Some(event.idx)
    ensures event.EnterToken? ==> r == Some(event.segmentIdx)
  {
    match event
    case EnterSegment(idx) => Some(idx)
    case EnterToken(segmentIdx, _) => Some(segmentIdx)
    case Leave => None
  }

  /** Entering unit `k` from either view, whatever was hovered before,
      leaves both views highlighting exactly unit `k`; leaving restores the
      default band. */
  lemma EitherViewSelectsSameUnit(before: Option<nat>, k: nat, tokenIdx: nat, idx: nat)
    ensures OnPointer(before, EnterSegment(k)) == OnPointer(None, EnterToken(k, tokenIdx))
    ensures var h := OnPointer(before, EnterToken(k, tokenIdx));
            && (SegmentColor(h, idx).Some? <==> idx == k)
            && (IdColor(h, idx).Some? <==> idx == k)
    ensures SegmentColor(OnPointer(before, Leave), idx) == Some(Slot(idx))
  {
  }
}
