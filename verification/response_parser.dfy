/** `parseAiResponse`: the one-shot extraction of every tool call from a
    complete response. Blocks are found left to right without overlap;
    a block whose four fields are not all present, or whose parameters do
    not parse, is dropped. The call id stays text. */
module ResponseParser {
  import opened Wrappers
  import opened Text
  import opened JsonValue
  import opened CallBlock

  /** The tags a results report is wrapped in. */
  const ApiResultTag: string := "<mfcs_result>"
  const ApiResultEndTag: string := "</mfcs_result>"

  /** One extracted call: instructions, call id, name and parameters. */
  type ApiCall = Fields

  /** The successive matches of the global block pattern from `from`: the
      first block, then the blocks after its end (see `BlocksInOrder` and
      `BlocksAreFirstMatches`). */
  function Blocks(s: string, from: nat): seq<Match>
    decreases |s| - from
  {
    FindDelimitedBounds(s, CallOpen, CallClose, from, false);
    match FindDelimited(s, CallOpen, CallClose, from, false)
    case None => []
    case Some(m) => [m] + Blocks(s, m.end)
  }

  /** Blocks lie inside the text, at or after `from`, in text order, and
      never overlap. */
  lemma {:induction false} BlocksInOrder(s: string, from: nat)
    ensures var r := Blocks(s, from);
            && (forall i :: 0 <= i < |r| ==> from <= r[i].start && r[i].start < r[i].end <= |s|)
            && (forall i, j :: 0 <= i < j < |r| ==> r[i].end <= r[j].start)
    decreases |s| - from
  {
    FindDelimitedBounds(s, CallOpen, CallClose, from, false);
    match FindDelimited(s, CallOpen, CallClose, from, false)
    case None =>
      BlocksStop(s, from);
    case Some(m) =>
      BlocksInOrder(s, m.end);
      BlocksStep(s, from, m);
      var rest := Blocks(s, m.end);
      var r := [m] + rest;
      assert forall i :: 1 <= i < |r| ==> r[i] == rest[i - 1];
  }

  /** `r` is what repeated `exec` of the global block pattern reports from
      `from`: each block is the first delimited match after the previous
      block's end, and after the last there is no complete block. */
  predicate IsScan(s: string, from: nat, r: seq<Match>)
    decreases |r|
  {
    if r == [] then NoDelimitedFrom(s, CallOpen, CallClose, from, false)
    else IsFirstDelimited(s, CallOpen, CallClose, from, false, r[0]) && IsScan(s, r[0].end, r[1..])
  }

  lemma {:induction false} BlocksAreFirstMatches(s: string, from: nat)
    ensures IsScan(s, from, Blocks(s, from))
    decreases |s| - from
  {
    FindDelimitedIsFirst(s, CallOpen, CallClose, from, false);
    FindDelimitedBounds(s, CallOpen, CallClose, from, false);
    match FindDelimited(s, CallOpen, CallClose, from, false)
    case None =>
    case Some(m) =>
      BlocksAreFirstMatches(s, m.end);
      var r := Blocks(s, from);
      assert r == [m] + Blocks(s, m.end);
      assert r[1..] == Blocks(s, m.end);
  }

  /** The scan is the only sequence of successive first matches. */
  lemma {:induction false} ScanUnique(s: string, from: nat, r: seq<Match>, r': seq<Match>)
    requires IsScan(s, from, r) && IsScan(s, from, r')
    ensures r == r'
    decreases |r|
  {
    if r != [] && r' != [] {
      FirstDelimitedUnique(s, CallOpen, CallClose, from, false, r[0], r'[0]);
      ScanUnique(s, r[0].end, r[1..], r'[1..]);
      assert r == [r[0]] + r[1..] && r' == [r'[0]] + r'[1..];
    } else if r != [] {
      NoDelimitedExcludesFirst(s, from, r[0]);
    } else if r' != [] {
      NoDelimitedExcludesFirst(s, from, r'[0]);
    }
  }

  lemma NoDelimitedExcludesFirst(s: string, from: nat, m: Match)
    requires IsFirstDelimited(s, CallOpen, CallClose, from, false, m)
    ensures !NoDelimitedFrom(s, CallOpen, CallClose, from, false)
  {
    assert from <= m.start <= |s| && m.start + |CallOpen| <= m.end - |CallClose| <= |s|;
    assert MatchesAt(s, m.start, CallOpen, false) && MatchesAt(s, m.end - |CallClose|, CallClose, false);
  }

  /** The calls of the successive blocks, in block order. */
  function Collect(blocks: seq<Match>, jsonParse: string -> Option<Json>): (r: seq<ApiCall>)
    ensures |r| <= |blocks|
  {
    if blocks == [] then []
    else ToSeq(ExtractFields(blocks[0].inner, false, jsonParse)) + Collect(blocks[1..], jsonParse)
  }

  /** `parseAiResponse(response)`, with `JSON.parse` as `jsonParse`. */
  function ParseAiResponse(response: string, jsonParse: string -> Option<Json>): (r: seq<ApiCall>)
    ensures |r| <= |Blocks(response, 0)|
    ensures NoDelimitedFrom(response, CallOpen, CallClose, 0, false) ==> r == []
  {
    FindDelimitedSpec(response, CallOpen, CallClose, 0, false);
    Collect(Blocks(response, 0), jsonParse)
  }

  /** Every returned call has its instructions, id and name trimmed. */
  lemma {:induction false} CollectTrimmed(blocks: seq<Match>, jsonParse: string -> Option<Json>)
    ensures forall c :: c in Collect(blocks, jsonParse) ==> IsTrimmed(c.instructions) && IsTrimmed(c.callId) && IsTrimmed(c.name)
  {
    if blocks != [] {
      CollectTrimmed(blocks[1..], jsonParse);
    }
  }

  lemma ParseAiResponseTrimmed(response: string, jsonParse: string -> Option<Json>)
    ensures forall c :: c in ParseAiResponse(response, jsonParse) ==> IsTrimmed(c.instructions) && IsTrimmed(c.callId) && IsTrimmed(c.name)
  {
    CollectTrimmed(Blocks(response, 0), jsonParse);
  }

  // ---------------------------------------------------------------------
  // Positions do not matter: a prefix shifts the blocks and nothing else

  function Shift(k: nat, ms: seq<Match>): (r: seq<Match>)
    ensures |r| == |ms|
  {
    if ms == [] then [] else [Match(k + ms[0].start, k + ms[0].end, ms[0].inner)] + Shift(k, ms[1..])
  }

  lemma BlocksStep(s: string, from: nat, m: Match)
    requires FindDelimited(s, CallOpen, CallClose, from, false) == Some(m)
    ensures Blocks(s, from) == [m] + Blocks(s, m.end)
  {
  }

  lemma BlocksStepAt(s: string, from: nat, start: nat, end: nat, inner: string)
    requires FindDelimited(s, CallOpen, CallClose, from, false) == Some(Match(start, end, inner))
    ensures Blocks(s, from) == [Match(start, end, inner)] + Blocks(s, end)
  {
    BlocksStep(s, from, Match(start, end, inner));
  }

  lemma BlocksStop(s: string, from: nat)
    requires FindDelimited(s, CallOpen, CallClose, from, false) == None
    ensures Blocks(s, from) == []
  {
  }

  lemma ShiftCons(k: nat, m: Match, ms: seq<Match>)
    ensures Shift(k, [m] + ms) == [Match(k + m.start, k + m.end, m.inner)] + Shift(k, ms)
  {
    assert ([m] + ms)[1..] == ms;
  }

  /** One step of `BlocksShift`, stated over the sequences alone. */
  lemma ShiftStep(k: nat, m: Match, x: seq<Match>, xt: seq<Match>, y: seq<Match>, yt: seq<Match>)
    requires x == [Match(k + m.start, k + m.end, m.inner)] + xt
    requires y == [m] + yt
    requires xt == Shift(k, yt)
    ensures x == Shift(k, y)
  {
    ShiftCons(k, m, yt);
  }

  /** The first step of the two scans `BlocksShift` relates: both stop, or
      both find the same block, `a`'s length apart. */
  lemma BlocksShiftFirst(a: string, t: string, from: nat) returns (o: Option<Match>)
    ensures o.None? ==> Blocks(t, from) == [] && Blocks(a + t, |a| + from) == []
    ensures o.Some? ==> from < o.value.end && Blocks(t, from) == [o.value] + Blocks(t, o.value.end)
    ensures o.Some? ==> (Blocks(a + t, |a| + from)
                         == [Match(|a| + o.value.start, |a| + o.value.end, o.value.inner)] + Blocks(a + t, |a| + o.value.end))
  {
    FindDelimitedShift(a, t, CallOpen, CallClose, from, false);
    FindDelimitedBounds(t, CallOpen, CallClose, from, false);
    o := FindDelimited(t, CallOpen, CallClose, from, false);
    if o.None? {
      BlocksStop(t, from);
      BlocksStop(a + t, |a| + from);
    } else {
      BlocksStep(t, from, o.value);
      BlocksStepAt(a + t, |a| + from, |a| + o.value.start, |a| + o.value.end, o.value.inner);
    }
  }

  /** Scanning past a prefix finds the blocks of the rest, shifted. */
  lemma {:induction false} BlocksShift(a: string, t: string, from: nat)
    ensures Blocks(a + t, |a| + from) == Shift(|a|, Blocks(t, from))
    decreases |t| - from
  {
    var o := BlocksShiftFirst(a, t, from);
    if o.Some? {
      var m := o.value;
      BlocksShift(a, t, m.end);
      ShiftStep(|a|, m, Blocks(a + t, |a| + from), Blocks(a + t, |a| + m.end), Blocks(t, from), Blocks(t, m.end));
    }
  }

  /** Only the captured bodies matter to the calls collected. */
  lemma {:induction false} CollectShift(k: nat, ms: seq<Match>, jsonParse: string -> Option<Json>)
    ensures Collect(Shift(k, ms), jsonParse) == Collect(ms, jsonParse)
  {
    if ms != [] {
      CollectShift(k, ms[1..], jsonParse);
      assert Shift(k, ms)[1..] == Shift(k, ms[1..]);
    }
  }

  /** A response that starts with a complete block yields that block's call
      (if it has one) before the calls of the rest, in order. */
  lemma ParseLeadingBlock(b: string, rest: string, jsonParse: string -> Option<Json>)
    requires IsCallBlock(b)
    ensures ParseAiResponse(b + rest, jsonParse)
         == ToSeq(ExtractFields(Body(b), false, jsonParse)) + ParseAiResponse(rest, jsonParse)
  {
    LeadingBlockMatch(b, rest);
    BlocksShift(b, rest, 0);
    assert |b| + 0 == |b|;
    var bs := Blocks(b + rest, 0);
    assert bs == [Match(0, |b|, Body(b))] + Shift(|b|, Blocks(rest, 0));
    CollectShift(|b|, Blocks(rest, 0), jsonParse);
    assert bs[1..] == Shift(|b|, Blocks(rest, 0));
  }

  /** A leading complete block that yields no fields contributes no call. */
  lemma FruitlessLeadingBlock(b: string, rest: string, jsonParse: string -> Option<Json>)
    requires IsCallBlock(b) && ExtractFields(Body(b), false, jsonParse) == None
    ensures ParseAiResponse(b + rest, jsonParse) == ParseAiResponse(rest, jsonParse)
  {
    ParseLeadingBlock(b, rest, jsonParse);
    assert [] + ParseAiResponse(rest, jsonParse) == ParseAiResponse(rest, jsonParse);
  }

  /** A complete block lacking one of its four tag pairs contributes no
      call. */
  lemma IncompleteBlockDropped(b: string, rest: string, jsonParse: string -> Option<Json>)
    requires IsCallBlock(b) && !HasAllFields(Body(b), false)
    ensures ParseAiResponse(b + rest, jsonParse) == ParseAiResponse(rest, jsonParse)
  {
    AllFieldsPresent(Body(b), false);
    ExtractFieldsCases(Body(b), false, jsonParse);
    FruitlessLeadingBlock(b, rest, jsonParse);
  }

  /** A complete block whose parameters are not JSON contributes no call. */
  lemma UnparsableBlockDropped(b: string, rest: string, jsonParse: string -> Option<Json>)
    requires IsCallBlock(b) && FieldsPresent(Body(b), false)
    requires jsonParse(Field(Body(b), ParametersName, false).value).None?
    ensures ParseAiResponse(b + rest, jsonParse) == ParseAiResponse(rest, jsonParse)
  {
    ExtractFieldsCases(Body(b), false, jsonParse);
    FruitlessLeadingBlock(b, rest, jsonParse);
  }

  /** Rendering a call as a block and parsing the response gives the call
      back, ahead of the calls of whatever follows. */
  lemma ParseRendered(f: ApiCall, paramsText: string, rest: string, jsonParse: string -> Option<Json>)
    requires IsPlain(f.instructions) && IsPlain(f.callId) && IsPlain(f.name) && IsPlain(paramsText)
    requires jsonParse(paramsText) == Some(f.parameters)
    ensures ParseAiResponse(RenderBlock(f, paramsText) + rest, jsonParse) == [f] + ParseAiResponse(rest, jsonParse)
  {
    RenderedIsCallBlock(f, paramsText);
    ExtractRendered(f, paramsText, false, jsonParse);
    ParseLeadingBlock(RenderBlock(f, paramsText), rest, jsonParse);
  }
}
