/** The streaming parser `AiResponseParser`: a buffer that chunks are
    appended to, the calls extracted from it so far and the results reported
    for them, each in a map keyed by call id, and whether the last chunk has
    been seen. The class's methods become pure steps from one state to the
    next that return the events the class would emit, in order. */
module StreamParser {
  import opened Wrappers
  import opened Text
  import opened JsonValue
  import opened CallBlock
  import Numbers
  import JsMap
  import ResultReport
  import ResponseParser

  /** A call as the streaming parser stores it; the id has been read with
      `parseInt`, and `None` stands for `NaN`. */
  datatype ApiCallParameters = ApiCallParameters(instructions: string, callId: Option<int>, name: string, parameters: Json)

  /** What the parser emits: `apiCall` with a call, or `apiResults` with a
      report or `null`. */
  datatype Event =
    | ApiCallEvent(call: ApiCallParameters)
    | ApiResultsEvent(report: Option<string>)

  type CallMap = seq<JsMap.Entry<Option<int>, ApiCallParameters>>
  type ResultMap = seq<JsMap.Entry<int, ResultReport.ApiResult>>

  datatype Parser = Parser(buffer: string, apiCalls: CallMap, apiResults: ResultMap, isComplete: bool)

  /** A step's new state and the events it emitted. */
  datatype Outcome = Outcome(parser: Parser, events: seq<Event>)

  /** A freshly constructed parser. */
  const Initial: Parser := Parser([], [], [], false)

  /** Every call is stored under its own id. */
  predicate CallsKeyed(m: CallMap) {
    forall i :: 0 <= i < |m| ==> m[i].key == m[i].value.callId
  }

  /** Every result is stored under its own id. */
  predicate ResultsKeyed(m: ResultMap) {
    forall i :: 0 <= i < |m| ==> m[i].key == m[i].value.callId
  }

  /** What every reachable state satisfies: each map holds one entry per id,
      under that id. */
  predicate Valid(p: Parser) {
    JsMap.Valid(p.apiCalls) && CallsKeyed(p.apiCalls)
    && JsMap.Valid(p.apiResults) && ResultsKeyed(p.apiResults)
  }

  // ---------------------------------------------------------------------
  // parseCallApiContent

  /** `parseCallApiContent`: the fields of a block with its tags matched
      ignoring ASCII case and the id read by `parseInt(…, 10)`; nothing when
      a tag pair is missing or the parameters are not JSON. */
  function ParseCallContent(content: string, jsonParse: string -> Option<Json>): (r: Option<ApiCallParameters>)
    ensures r.None? <==> ExtractFields(content, true, jsonParse).None?
    ensures r.Some? ==> IsTrimmed(r.value.instructions) && IsTrimmed(r.value.name)
  {
    match ExtractFields(content, true, jsonParse)
    case None => None
    case Some(f) => Some(ApiCallParameters(f.instructions, Numbers.ParseInt(f.callId), f.name, f.parameters))
  }

  /** The call a block's fields become once the id is read as a number. */
  function CallOf(f: Fields, id: Option<int>): ApiCallParameters {
    ApiCallParameters(f.instructions, id, f.name, f.parameters)
  }

  /** A rendered block whose id is a rendered integer is read back as that
      call, with the id as a number, whatever the case of the field tags. */
  lemma ParseRenderedContent(f: Fields, paramsText: string, n: int, jsonParse: string -> Option<Json>)
    requires IsPlain(f.instructions) && IsPlain(f.name) && IsPlain(paramsText)
    requires f.callId == Numbers.IntToString(n)
    requires jsonParse(paramsText) == Some(f.parameters)
    ensures ParseCallContent(RenderContent(f, paramsText), jsonParse) == Some(CallOf(f, Some(n)))
  {
    RenderedIdIsPlain(n);
    var content := RenderContent(f, paramsText);
    ExtractRendered(f, paramsText, true, jsonParse);
    ParseCallContentOf(content, f, jsonParse);
    Numbers.ParseIntOfRenderedAlone(n);
  }

  lemma ParseCallContentOf(content: string, f: Fields, jsonParse: string -> Option<Json>)
    requires ExtractFields(content, true, jsonParse) == Some(f)
    ensures ParseCallContent(content, jsonParse) == Some(CallOf(f, Numbers.ParseInt(f.callId)))
  {
  }

  lemma RenderedIdIsPlain(n: int)
    ensures IsPlain(Numbers.IntToString(n))
  {
    Numbers.IntToStringChars(n);
  }

  // ---------------------------------------------------------------------
  // parseCallApiBlocks

  /** The text of the block a search found occurs in the buffer, so
      `replace` removes something. */
  lemma FoundBlockOccurs(buffer: string, from: nat, m: Match)
    requires FindDelimited(buffer, CallOpen, CallClose, from, false) == Some(m)
    ensures m.start < m.end <= |buffer|
    ensures Find(buffer, buffer[m.start..m.end], 0, false).Some?
    ensures buffer[m.start] == '<' && m.start + 1 < m.end && buffer[m.start + 1] == 'm'
  {
    FindDelimitedBounds(buffer, CallOpen, CallClose, from, false);
    SliceOccurs(buffer, m.start, m.end);
    FindDelimitedIsFirst(buffer, CallOpen, CallClose, from, false);
    MatchesAtFirstTwo(buffer, m.start, CallOpen);
  }

  /** The `exec` loop of `parseCallApiBlocks` from `lastIndex`: each block
      found is parsed, then the first occurrence of its text is cut out of
      the buffer, and the search goes on from the old `lastIndex` in the
      shortened buffer. Gives the remaining buffer and the calls parsed, in
      order. */
  function ScanBlocks(buffer: string, lastIndex: nat, jsonParse: string -> Option<Json>): (r: (string, seq<ApiCallParameters>))
    ensures |r.0| <= |buffer|
    ensures FindDelimited(buffer, CallOpen, CallClose, lastIndex, false).None? ==> r == (buffer, [])
    decreases |buffer|
  {
    match FindDelimited(buffer, CallOpen, CallClose, lastIndex, false)
    case None => (buffer, [])
    case Some(m) =>
      FoundBlockOccurs(buffer, lastIndex, m);
      var shorter := RemoveFirst(buffer, buffer[m.start..m.end]);
      var rest := ScanBlocks(shorter, m.end, jsonParse);
      (rest.0, ToSeq(ParseCallContent(m.inner, jsonParse)) + rest.1)
  }

  /** Cutting a leading block's text out of the buffer leaves what follows. */
  lemma RemoveLeadingBlock(b: string, rest: string)
    requires IsCallBlock(b)
    ensures RemoveFirst(b + rest, (b + rest)[0..|b|]) == rest
  {
    var s := b + rest;
    assert s[0..|b|] == b;
    MatchesAtExact(s, 0, b);
    FindIs(s, b, 0, false, 0);
    var r := RemoveFirst(s, b);
    assert r[..0] + b + r[0..] == s;
    assert r == s[|b|..];
  }

  /** A buffer that starts with a complete block yields that block's call
      (if it has one) first; the block's text is cut out even when it yields
      nothing, and the rest is then searched from the block's length on,
      not from its start. */
  lemma LeadingBlockScanned(b: string, rest: string, jsonParse: string -> Option<Json>)
    requires IsCallBlock(b)
    ensures ScanBlocks(b + rest, 0, jsonParse)
         == (ScanBlocks(rest, |b|, jsonParse).0,
             ToSeq(ParseCallContent(Body(b), jsonParse)) + ScanBlocks(rest, |b|, jsonParse).1)
  {
    LeadingBlockMatch(b, rest);
    RemoveLeadingBlock(b, rest);
  }

  /** The prose a response carries around its blocks: text in which every
      `<` is followed by a character other than `m`. It may hold other
      markup (`a < b`, `<br>`, `<call_api>`), but no `<mfcs_call>` can
      begin inside it, whatever follows it. */
  predicate IsProse(s: string) {
    && (|s| > 0 ==> s[|s| - 1] != '<')
    && forall i, j :: 0 <= i < |s| && j == i + 1 < |s| && s[i] == '<' ==> s[j] != 'm'
  }

  /** A pattern that begins with `<m` occurs at no position of leading
      prose. */
  lemma NoMatchInProse(pre: string, t: string, pat: string)
    requires IsProse(pre) && |pat| >= 2 && pat[0] == '<' && pat[1] == 'm'
    ensures forall j :: 0 <= j < |pre| ==> !MatchesAt(pre + t, j, pat, false)
  {
    forall j | 0 <= j < |pre| ensures !MatchesAt(pre + t, j, pat, false) {
      assert (pre + t)[j] == pre[j];
      if j + 1 < |pre| {
        assert (pre + t)[j + 1] == pre[j + 1];
      }
      MatchesAtFirstTwo(pre + t, j, pat);
    }
  }

  lemma BlockStartsTag(b: string)
    requires IsCallBlock(b)
    ensures |b| >= 2 && b[0] == '<' && b[1] == 'm'
  {
    assert b[..|CallOpen|][0] == b[0];
    assert b[..|CallOpen|][1] == b[1];
  }

  /** The first block a search of `pre + b + rest` finds is `b`. */
  lemma ProseBlockMatch(pre: string, b: string, rest: string)
    requires IsProse(pre) && IsCallBlock(b)
    ensures FindDelimited(pre + b + rest, CallOpen, CallClose, 0, false) == Some(Match(|pre|, |pre| + |b|, Body(b)))
    ensures (pre + b + rest)[|pre|..|pre| + |b|] == b
  {
    NoMatchInProse(pre, b + rest, CallOpen);
    BlockAfterNoOpen(pre, b, rest);
  }

  lemma BlockAfterNoOpen(pre: string, b: string, rest: string)
    requires IsCallBlock(b)
    requires forall j :: 0 <= j < |pre| ==> !MatchesAt(pre + (b + rest), j, CallOpen, false)
    ensures FindDelimited(pre + b + rest, CallOpen, CallClose, 0, false) == Some(Match(|pre|, |pre| + |b|, Body(b)))
    ensures (pre + b + rest)[|pre|..|pre| + |b|] == b
  {
    FindDelimitedPastPrefix(pre, b + rest, CallOpen, CallClose, false);
    LeadingBlockMatch(b, rest);
    assert pre + b + rest == pre + (b + rest);
  }

  /** Cutting the block's text out of `pre + b + rest` leaves the prose
      and what follows the block. */
  lemma RemoveProseBlock(pre: string, b: string, rest: string)
    requires IsProse(pre) && IsCallBlock(b)
    ensures RemoveFirst(pre + b + rest, b) == pre + rest
  {
    var s := pre + b + rest;
    assert s == pre + (b + rest);
    assert s[|pre|..|pre| + |b|] == b;
    BlockStartsTag(b);
    NoMatchInProse(pre, b + rest, b);
    MatchesAtExact(s, |pre|, b);
    FindIs(s, b, 0, false, |pre|);
    var r := RemoveFirst(s, b);
    assert r[..|pre|] + b + r[|pre|..] == s;
    assert r[..|pre|] == s[..|pre|] == pre;
    assert r[|pre|..] == s[|pre| + |b|..] == rest;
    assert r == r[..|pre|] + r[|pre|..];
  }

  /** A scan of prose, a complete block and whatever follows: the block's
      call (if it has one) comes first; the block's text is cut out even
      when it yields nothing, the prose stays, and the rest is searched from
      the block's old end on. */
  lemma BlockScanned(pre: string, b: string, rest: string, jsonParse: string -> Option<Json>)
    requires IsProse(pre) && IsCallBlock(b)
    ensures ScanBlocks(pre + b + rest, 0, jsonParse)
         == (ScanBlocks(pre + rest, |pre| + |b|, jsonParse).0,
             ToSeq(ParseCallContent(Body(b), jsonParse)) + ScanBlocks(pre + rest, |pre| + |b|, jsonParse).1)
  {
    ProseBlockFound(pre, b, rest);
    BlockFoundScanned(pre, b, rest, jsonParse);
  }

  lemma BlockFoundScanned(pre: string, b: string, rest: string, jsonParse: string -> Option<Json>)
    requires IsCallBlock(b)
    requires FindDelimited(pre + b + rest, CallOpen, CallClose, 0, false) == Some(Match(|pre|, |pre| + |b|, Body(b)))
    requires RemoveFirst(pre + b + rest, (pre + b + rest)[|pre|..|pre| + |b|]) == pre + rest
    ensures ScanBlocks(pre + b + rest, 0, jsonParse)
         == (ScanBlocks(pre + rest, |pre| + |b|, jsonParse).0,
             ToSeq(ParseCallContent(Body(b), jsonParse)) + ScanBlocks(pre + rest, |pre| + |b|, jsonParse).1)
  {
    ScanFound(pre + b + rest, 0, |pre|, |pre| + |b|, Body(b), pre + rest, jsonParse);
  }

  /** The search finds the block after the prose, and cutting out its text
      leaves the prose and what follows. */
  lemma ProseBlockFound(pre: string, b: string, rest: string)
    requires IsProse(pre) && IsCallBlock(b)
    ensures FindDelimited(pre + b + rest, CallOpen, CallClose, 0, false) == Some(Match(|pre|, |pre| + |b|, Body(b)))
    ensures RemoveFirst(pre + b + rest, (pre + b + rest)[|pre|..|pre| + |b|]) == pre + rest
  {
    ProseBlockMatch(pre, b, rest);
    RemoveProseBlock(pre, b, rest);
  }

  lemma BlockScannedAs(pre: string, b: string, rest: string, s: string, shorter: string, jsonParse: string -> Option<Json>)
    requires IsProse(pre) && IsCallBlock(b) && s == pre + b + rest && shorter == pre + rest
    ensures ScanBlocks(s, 0, jsonParse)
         == (ScanBlocks(shorter, |pre| + |b|, jsonParse).0,
             ToSeq(ParseCallContent(Body(b), jsonParse)) + ScanBlocks(shorter, |pre| + |b|, jsonParse).1)
  {
    BlockScanned(pre, b, rest, jsonParse);
  }

  /** One round of the scan: the block found, then the scan of the
      shortened buffer from the block's old end. */
  lemma ScanFound(s: string, lastIndex: nat, start: nat, end: nat, inner: string, shorter: string,
                  jsonParse: string -> Option<Json>)
    requires FindDelimited(s, CallOpen, CallClose, lastIndex, false) == Some(Match(start, end, inner))
    requires start <= end <= |s| && shorter == RemoveFirst(s, s[start..end])
    ensures ScanBlocks(s, lastIndex, jsonParse)
         == (ScanBlocks(shorter, end, jsonParse).0,
             ToSeq(ParseCallContent(inner, jsonParse)) + ScanBlocks(shorter, end, jsonParse).1)
  {
  }

  /** Prose followed by one complete block: the scan yields the block's
      call, if any, and leaves exactly the prose. */
  lemma ScanProseBlock(pre: string, b: string, jsonParse: string -> Option<Json>)
    requires IsProse(pre) && IsCallBlock(b)
    ensures ScanBlocks(pre + b, 0, jsonParse) == (pre, ToSeq(ParseCallContent(Body(b), jsonParse)))
  {
    var x := ToSeq(ParseCallContent(Body(b), jsonParse));
    assert x + [] == x;
    ScanPastEnd(pre, |pre| + |b|, jsonParse);
    BlockScannedAs(pre, b, [], pre + b, pre, jsonParse);
  }

  /** Prose at the head of the buffer is never cut: every block a scan
      removes lies after it, so the remaining buffer still starts with it. */
  lemma {:induction false} ProseKept(pre: string, x: string, lastIndex: nat, jsonParse: string -> Option<Json>)
    requires IsProse(pre)
    ensures |pre| <= |ScanBlocks(pre + x, lastIndex, jsonParse).0|
    ensures ScanBlocks(pre + x, lastIndex, jsonParse).0[..|pre|] == pre
    decreases |x|
  {
    var s := pre + x;
    match FindDelimited(s, CallOpen, CallClose, lastIndex, false)
    case None =>
      assert s[..|pre|] == pre;
    case Some(m) =>
      FoundBlockOccurs(s, lastIndex, m);
      var shorter := RemoveFirst(s, s[m.start..m.end]);
      CutAfterProse(pre, x, s[m.start..m.end]);
      ScanFound(s, lastIndex, m.start, m.end, m.inner, shorter, jsonParse);
      ProseKept(pre, shorter[|pre|..], m.end, jsonParse);
  }

  /** Cutting out a pattern that begins with `<m` leaves leading prose in
      place. */
  lemma CutAfterProse(pre: string, x: string, pat: string)
    requires IsProse(pre) && |pat| >= 2 && pat[0] == '<' && pat[1] == 'm' && Find(pre + x, pat, 0, false).Some?
    ensures |pre| <= |RemoveFirst(pre + x, pat)|
    ensures RemoveFirst(pre + x, pat) == pre + RemoveFirst(pre + x, pat)[|pre|..]
  {
    var s := pre + x;
    NoMatchInProse(pre, x, pat);
    FindIsFirst(s, pat, 0, false);
    var i := Find(s, pat, 0, false).value;
    var shorter := RemoveFirst(s, pat);
    assert shorter[..i] + pat + shorter[i..] == s;
    assert shorter[..|pre|] == s[..|pre|] == pre;
    assert shorter == shorter[..|pre|] + shorter[|pre|..];
  }

  /** A search that starts at or past the end of the buffer finds nothing. */
  lemma ScanPastEnd(buffer: string, lastIndex: nat, jsonParse: string -> Option<Json>)
    requires |buffer| <= lastIndex
    ensures ScanBlocks(buffer, lastIndex, jsonParse) == (buffer, [])
  {
  }

  /** Once a leading block `b1` is cut out, the search resumes at `|b1|`,
      so whatever begins in the following text `rest` before that point is
      passed over in this scan: when the opening tag is not found in `rest`
      from `|b1|` on, the scan yields only `b1`'s call (if any) and keeps
      all of `rest`. */
  lemma AfterBlockSkipped(b1: string, rest: string, jsonParse: string -> Option<Json>)
    requires IsCallBlock(b1) && Find(rest, CallOpen, |b1|, false) == None
    ensures ScanBlocks(b1 + rest, 0, jsonParse) == (rest, ToSeq(ParseCallContent(Body(b1), jsonParse)))
  {
    LeadingBlockScanned(b1, rest, jsonParse);
    NoDelimitedOfNoOpen(rest, CallOpen, CallClose, |b1|, false);
    var first := ToSeq(ParseCallContent(Body(b1), jsonParse));
    assert first + [] == first;
  }

  /** The search resumed at `|b1|` over `gap + b2` is the search of `b2`
      from `|b1| - |gap|`. */
  lemma SkippedTailNoOpen(b1: string, gap: string, b2: string)
    requires |gap| < |b1| && Find(b2, CallOpen, |b1| - |gap|, false) == None
    ensures Find(gap + b2, CallOpen, |b1|, false) == None
  {
    FindShiftNone(gap, b2, CallOpen, |b1| - |gap|, false);
    assert |gap| + (|b1| - |gap|) == |b1|;
  }

  /** A complete block `b2` that begins fewer than `|b1|` characters after
      a block `b1`, whatever its length and whatever text `gap` lies
      between, is skipped by the same scan and left in the buffer, provided
      the opening tag is not found again inside `b2` past the point where
      the search resumes. */
  lemma AdjacentBlockSkipped(b1: string, gap: string, b2: string, jsonParse: string -> Option<Json>)
    requires IsCallBlock(b1) && IsCallBlock(b2) && |gap| < |b1|
    requires Find(b2, CallOpen, |b1| - |gap|, false) == None
    ensures ScanBlocks(b1 + (gap + b2), 0, jsonParse) == (gap + b2, ToSeq(ParseCallContent(Body(b1), jsonParse)))
  {
    SkippedTailNoOpen(b1, gap, b2);
    assert Find(gap + b2, CallOpen, |b1|, false) == None;
    AfterBlockSkipped(b1, gap + b2, jsonParse);
  }

  /** A block that yields no call (a missing tag pair, or parameters that
      are not JSON) still has its text cut out of the buffer, and nothing is
      reported for it. */
  lemma FruitlessBlockRemoved(pre: string, b: string, rest: string, jsonParse: string -> Option<Json>)
    requires IsProse(pre) && IsCallBlock(b) && ExtractFields(Body(b), true, jsonParse).None?
    ensures ScanBlocks(pre + b + rest, 0, jsonParse) == ScanBlocks(pre + rest, |pre| + |b|, jsonParse)
  {
    BlockScanned(pre, b, rest, jsonParse);
    var after := ScanBlocks(pre + rest, |pre| + |b|, jsonParse);
    assert [] + after.1 == after.1;
  }

  /** In particular a block missing one of its four tag pairs. */
  lemma IncompleteBlockRemoved(pre: string, b: string, rest: string, jsonParse: string -> Option<Json>)
    requires IsProse(pre) && IsCallBlock(b) && !HasAllFields(Body(b), true)
    ensures ScanBlocks(pre + b + rest, 0, jsonParse) == ScanBlocks(pre + rest, |pre| + |b|, jsonParse)
  {
    ExtractFieldsSpec(Body(b), true, jsonParse);
    FruitlessBlockRemoved(pre, b, rest, jsonParse);
  }

  /** In particular a block whose parameters are not JSON. */
  lemma UnparsableBlockRemoved(pre: string, b: string, rest: string, jsonParse: string -> Option<Json>)
    requires IsProse(pre) && IsCallBlock(b) && FieldsPresent(Body(b), true)
    requires jsonParse(Field(Body(b), ParametersName, true).value).None?
    ensures ScanBlocks(pre + b + rest, 0, jsonParse) == ScanBlocks(pre + rest, |pre| + |b|, jsonParse)
  {
    ExtractFieldsCases(Body(b), true, jsonParse);
    FruitlessBlockRemoved(pre, b, rest, jsonParse);
  }

  /** Every call a scan yields has its instructions and name trimmed. */
  lemma {:induction false} ScannedCallsTrimmed(buffer: string, lastIndex: nat, jsonParse: string -> Option<Json>)
    ensures forall c :: c in ScanBlocks(buffer, lastIndex, jsonParse).1 ==> IsTrimmed(c.instructions) && IsTrimmed(c.name)
    decreases |buffer|
  {
    match FindDelimited(buffer, CallOpen, CallClose, lastIndex, false)
    case None =>
    case Some(m) =>
      FoundBlockOccurs(buffer, lastIndex, m);
      var shorter := RemoveFirst(buffer, buffer[m.start..m.end]);
      ScannedCallsTrimmed(shorter, m.end, jsonParse);
  }

  /** `map.set` of every call, in order. */
  function StoreCalls(m: CallMap, calls: seq<ApiCallParameters>): CallMap
    decreases |calls|
  {
    if calls == [] then m else StoreCalls(JsMap.Set(m, calls[0].callId, calls[0]), calls[1..])
  }

  /** The last of `calls` with id `id`, if any. */
  function LastWithId(calls: seq<ApiCallParameters>, id: Option<int>): (r: Option<ApiCallParameters>)
    ensures r.Some? ==> r.value in calls && r.value.callId == id
    ensures r.None? ==> forall c :: c in calls ==> c.callId != id
  {
    if calls == [] then None
    else if calls[|calls| - 1].callId == id then Some(calls[|calls| - 1])
    else
      var r := LastWithId(calls[..|calls| - 1], id);
      assert forall c :: c in calls ==> c in calls[..|calls| - 1] || c == calls[|calls| - 1];
      r
  }

  /** A later call with the same id overwrites an earlier one: after the
      calls are stored, each id maps to the last call carrying it, and ids
      no call carries are untouched. */
  lemma {:induction false} StoreCallsGet(m: CallMap, calls: seq<ApiCallParameters>, id: Option<int>)
    ensures JsMap.Get(StoreCalls(m, calls), id)
         == if LastWithId(calls, id).Some? then LastWithId(calls, id) else JsMap.Get(m, id)
    decreases |calls|
  {
    if calls != [] {
      var m' := JsMap.Set(m, calls[0].callId, calls[0]);
      StoreCallsGet(m', calls[1..], id);
      JsMap.GetSet(m, calls[0].callId, calls[0], id);
      LastWithIdCons(calls, id);
    }
  }

  lemma {:induction false} LastWithIdCons(calls: seq<ApiCallParameters>, id: Option<int>)
    requires calls != []
    ensures LastWithId(calls, id)
         == if LastWithId(calls[1..], id).Some? then LastWithId(calls[1..], id)
            else if calls[0].callId == id then Some(calls[0]) else None
    decreases |calls|
  {
    if |calls| > 1 && calls[|calls| - 1].callId != id {
      var front := calls[..|calls| - 1];
      LastWithIdCons(front, id);
      assert front[1..] == calls[1..][..|calls[1..]| - 1];
      assert front[0] == calls[0];
    }
  }

  /** Storing calls keeps one entry per id, each under its call's id. */
  lemma {:induction false} StoreCallsValid(m: CallMap, calls: seq<ApiCallParameters>)
    requires JsMap.Valid(m) && CallsKeyed(m)
    ensures JsMap.Valid(StoreCalls(m, calls)) && CallsKeyed(StoreCalls(m, calls))
    decreases |calls|
  {
    if calls != [] {
      var m' := JsMap.Set(m, calls[0].callId, calls[0]);
      JsMap.SetValid(m, calls[0].callId, calls[0]);
      JsMap.SetEntries(m, calls[0].callId, calls[0]);
      assert CallsKeyed(m');
      StoreCallsValid(m', calls[1..]);
    }
  }

  /** One `apiCall` event per call, in order. */
  function CallEvents(calls: seq<ApiCallParameters>): (r: seq<Event>)
    ensures |r| == |calls|
    ensures forall i :: 0 <= i < |r| ==> r[i] == ApiCallEvent(calls[i])
  {
    if calls == [] then [] else [ApiCallEvent(calls[0])] + CallEvents(calls[1..])
  }

  /** `parseCallApiBlocks`: a fresh search from position 0; every call found
      is stored and announced, in scan order. The buffer becomes what the
      scan leaves, the calls are stored in scan order (so each id found maps
      to the last call found with it, as `StoreCallsGet` states), and
      nothing else changes. */
  function ParseCallApiBlocks(p: Parser, jsonParse: string -> Option<Json>): (r: Outcome)
    ensures var scan := ScanBlocks(p.buffer, 0, jsonParse);
            && r.parser.buffer == scan.0
            && r.parser.apiCalls == StoreCalls(p.apiCalls, scan.1)
            && r.events == CallEvents(scan.1)
    ensures r.parser.apiResults == p.apiResults && r.parser.isComplete == p.isComplete
    ensures |r.parser.buffer| <= |p.buffer|
  {
    var scan := ScanBlocks(p.buffer, 0, jsonParse);
    Outcome(p.(buffer := scan.0, apiCalls := StoreCalls(p.apiCalls, scan.1)), CallEvents(scan.1))
  }

  // ---------------------------------------------------------------------
  // emitApiResults, processChunk, addApiResult

  /** `emitApiResults`: `null` when no call was seen; nothing while the
      number of results differs from the number of calls; otherwise the
      report of all results. Only the sizes of the two maps are compared. */
  function EmitApiResults(p: Parser, stringify: Json -> string): (r: seq<Event>)
    ensures |r| <= 1
    ensures forall i :: 0 <= i < |r| ==> r[i].ApiResultsEvent?
    ensures r == [] <==> |p.apiCalls| != 0 && |p.apiCalls| != |p.apiResults|
    ensures r == [ApiResultsEvent(None)] <==> |p.apiCalls| == 0
    ensures |p.apiCalls| != 0 ==> forall i :: 0 <= i < |r| ==> r[i].report.Some?
  {
    if |p.apiCalls| == 0 then [ApiResultsEvent(None)]
    else if |p.apiCalls| != |p.apiResults| then []
    else [ApiResultsEvent(Some(ResultReport.Report(JsMap.Values(p.apiResults), stringify)))]
  }

  /** `processChunk(chunk, isLast)`; `None` stands for `null` or
      `undefined`. */
  function ProcessChunk(p: Parser, chunk: Option<string>, isLast: bool,
                        jsonParse: string -> Option<Json>, stringify: Json -> string): (r: Outcome)
    ensures r.parser.apiResults == p.apiResults
    ensures r.parser.isComplete == (p.isComplete || isLast)
    ensures (chunk.None? || chunk == Some([])) ==> r.parser.buffer == p.buffer && r.parser.apiCalls == p.apiCalls
    ensures !isLast ==> forall i :: 0 <= i < |r.events| ==> r.events[i].ApiCallEvent?
    ensures isLast ==> (var check := EmitApiResults(r.parser, stringify);
                        && |check| <= |r.events| && r.events[|r.events| - |check|..] == check
                        && forall i :: 0 <= i < |r.events| - |check| ==> r.events[i].ApiCallEvent?)
  {
    var scanned :=
      if chunk.Some? && chunk.value != [] then ParseCallApiBlocks(p.(buffer := p.buffer + chunk.value), jsonParse)
      else Outcome(p, []);
    if isLast then
      var done := scanned.parser.(isComplete := true);
      var check := EmitApiResults(done, stringify);
      CallsThenCheck(scanned.events, check);
      Outcome(done, scanned.events + check)
    else scanned
  }

  /** Call events followed by the results check: the check is the tail and
      everything before it is a call event. */
  lemma CallsThenCheck(calls: seq<Event>, check: seq<Event>)
    requires forall i :: 0 <= i < |calls| ==> calls[i].ApiCallEvent?
    ensures |check| <= |calls + check| && (calls + check)[|calls + check| - |check|..] == check
    ensures forall i :: 0 <= i < |calls + check| - |check| ==> (calls + check)[i].ApiCallEvent?
  {
    assert (calls + check)[|calls|..] == check;
  }

  /** `addApiResult(callId, name, result)`: stores the result, replacing any
      earlier one for the id, and runs the completion check only once the
      last chunk has been seen and the two maps are the same size. */
  function AddApiResult(p: Parser, callId: int, name: string, result: Json, stringify: Json -> string): (r: Outcome)
    ensures r.parser == p.(apiResults := r.parser.apiResults)
    ensures |r.events| <= 1
    ensures forall i :: 0 <= i < |r.events| ==> r.events[i].ApiResultsEvent? && r.events[i].report.Some?
    ensures !p.isComplete ==> r.events == []
    ensures r.events != [] <==> p.isComplete && |p.apiCalls| == |r.parser.apiResults|
    ensures r.events != [] ==> r.events == EmitApiResults(r.parser, stringify)
  {
    var results := JsMap.Set(p.apiResults, callId, ResultReport.ApiResult(callId, name, result));
    var stored := p.(apiResults := results);
    if p.isComplete && |p.apiCalls| == |results| then Outcome(stored, EmitApiResults(stored, stringify))
    else Outcome(stored, [])
  }

  /** `addApiResult` stores the result under its id, replacing any earlier
      result for that id, and leaves every other id's result alone. */
  lemma AddApiResultStores(p: Parser, callId: int, name: string, result: Json, stringify: Json -> string, id: int)
    ensures JsMap.Get(AddApiResult(p, callId, name, result, stringify).parser.apiResults, id)
         == if id == callId then Some(ResultReport.ApiResult(callId, name, result)) else JsMap.Get(p.apiResults, id)
  {
    JsMap.GetSet(p.apiResults, callId, ResultReport.ApiResult(callId, name, result), id);
  }

  // ---------------------------------------------------------------------
  // What the steps preserve and promise

  /** Processing a chunk keeps the maps well formed. */
  lemma ProcessChunkValid(p: Parser, chunk: Option<string>, isLast: bool,
                          jsonParse: string -> Option<Json>, stringify: Json -> string)
    requires Valid(p)
    ensures Valid(ProcessChunk(p, chunk, isLast, jsonParse, stringify).parser)
  {
    if chunk.Some? && chunk.value != [] {
      StoreCallsValid(p.apiCalls, ScanBlocks(p.buffer + chunk.value, 0, jsonParse).1);
    }
  }

  /** Adding a result keeps the maps well formed. */
  lemma AddApiResultValid(p: Parser, callId: int, name: string, result: Json, stringify: Json -> string)
    requires Valid(p)
    ensures Valid(AddApiResult(p, callId, name, result, stringify).parser)
  {
    var v := ResultReport.ApiResult(callId, name, result);
    var results := JsMap.Set(p.apiResults, callId, v);
    assert AddApiResult(p, callId, name, result, stringify).parser == p.(apiResults := results);
    JsMap.SetValid(p.apiResults, callId, v);
    JsMap.SetEntries(p.apiResults, callId, v);
    assert ResultsKeyed(results);
  }

  /** Stored results, one per id, have distinct ids. */
  lemma StoredResultsDistinct(m: ResultMap)
    requires JsMap.Valid(m) && ResultsKeyed(m)
    ensures ResultReport.DistinctIds(JsMap.Values(m))
  {
  }

  /** When `emitApiResults` emits a report, the report holds one line per stored
      result in ascending id order between the result tags. */
  lemma EmittedReport(p: Parser, sorted: seq<ResultReport.ApiResult>, stringify: Json -> string)
    requires Valid(p) && |p.apiCalls| == |p.apiResults| > 0
    requires ResultReport.StrictlyAscending(sorted) && multiset(sorted) == multiset(JsMap.Values(p.apiResults))
    ensures EmitApiResults(p, stringify)
         == [ApiResultsEvent(Some(ResponseParser.ApiResultTag + "\n" + ResultReport.Lines(sorted, stringify) + ResponseParser.ApiResultEndTag))]
  {
    StoredResultsDistinct(p.apiResults);
    ResultReport.ReportOfAscending(JsMap.Values(p.apiResults), sorted, stringify);
  }

  /** A non-empty chunk that is not the last: the scan of the extended
      buffer decides the new buffer, the new calls and the events. */
  lemma ChunkScanned(p: Parser, chunk: string, jsonParse: string -> Option<Json>, stringify: Json -> string)
    requires chunk != []
    ensures var scan := ScanBlocks(p.buffer + chunk, 0, jsonParse);
            ProcessChunk(p, Some(chunk), false, jsonParse, stringify)
            == Outcome(p.(buffer := scan.0, apiCalls := StoreCalls(p.apiCalls, scan.1)), CallEvents(scan.1))
  {
  }

  /** A non-empty last chunk is appended and scanned exactly as any other
      chunk; then the complete flag is set and the results check runs on
      the updated state, after the scan's call events. */
  lemma LastChunkScanned(p: Parser, chunk: string, jsonParse: string -> Option<Json>, stringify: Json -> string)
    requires chunk != []
    ensures var scan := ScanBlocks(p.buffer + chunk, 0, jsonParse);
            var done := p.(buffer := scan.0, apiCalls := StoreCalls(p.apiCalls, scan.1), isComplete := true);
            ProcessChunk(p, Some(chunk), true, jsonParse, stringify)
            == Outcome(done, CallEvents(scan.1) + EmitApiResults(done, stringify))
  {
  }

  /** A chunk that completes no block is only appended. */
  lemma NoBlockAppended(p: Parser, chunk: string, jsonParse: string -> Option<Json>, stringify: Json -> string)
    requires chunk != [] && NoDelimitedFrom(p.buffer + chunk, CallOpen, CallClose, 0, false)
    ensures ProcessChunk(p, Some(chunk), false, jsonParse, stringify) == Outcome(p.(buffer := p.buffer + chunk), [])
  {
    FindDelimitedSpec(p.buffer + chunk, CallOpen, CallClose, 0, false);
  }

  /** The last chunk runs the completion check even when it is empty. */
  lemma EmptyLastChunkChecks(p: Parser, chunk: Option<string>, jsonParse: string -> Option<Json>, stringify: Json -> string)
    requires chunk.None? || chunk == Some([])
    ensures ProcessChunk(p, chunk, true, jsonParse, stringify)
         == Outcome(p.(isComplete := true), EmitApiResults(p.(isComplete := true), stringify))
  {
  }

  /** An empty chunk that is not the last changes nothing and emits
      nothing. */
  lemma EmptyChunkIgnored(p: Parser, chunk: Option<string>, jsonParse: string -> Option<Json>, stringify: Json -> string)
    requires chunk.None? || chunk == Some([])
    ensures ProcessChunk(p, chunk, false, jsonParse, stringify) == Outcome(p, [])
  {
  }

  /** A rendered block fed to a parser whose buffer holds only prose is
      consumed whole while the prose stays: its call is stored under the
      number its id reads as, replacing any earlier call with that id, and
      announced once. Fed as the last chunk, the results check follows the
      announcement. */
  lemma FeedRenderedBlock(p: Parser, f: Fields, paramsText: string, n: int, isLast: bool,
                          jsonParse: string -> Option<Json>, stringify: Json -> string)
    requires IsProse(p.buffer)
    requires IsPlain(f.instructions) && IsPlain(f.name) && IsPlain(paramsText)
    requires f.callId == Numbers.IntToString(n)
    requires jsonParse(paramsText) == Some(f.parameters)
    ensures var r := ProcessChunk(p, Some(RenderBlock(f, paramsText)), isLast, jsonParse, stringify);
            && r.parser.buffer == p.buffer
            && r.parser.isComplete == (p.isComplete || isLast)
            && r.events == [ApiCallEvent(CallOf(f, Some(n)))] + (if isLast then EmitApiResults(r.parser, stringify) else [])
            && JsMap.Get(r.parser.apiCalls, Some(n)) == Some(CallOf(f, Some(n)))
            && forall id :: id != Some(n) ==> JsMap.Get(r.parser.apiCalls, id) == JsMap.Get(p.apiCalls, id)
  {
    ScanRenderedBlock(p.buffer, f, paramsText, n, jsonParse);
    OneCallChunk(p, RenderBlock(f, paramsText), CallOf(f, Some(n)), isLast, jsonParse, stringify);
  }

  /** A chunk whose scan yields one call and leaves the buffer as it was. */
  lemma OneCallChunk(p: Parser, chunk: string, call: ApiCallParameters, isLast: bool,
                     jsonParse: string -> Option<Json>, stringify: Json -> string)
    requires chunk != [] && ScanBlocks(p.buffer + chunk, 0, jsonParse) == (p.buffer, [call])
    ensures var r := ProcessChunk(p, Some(chunk), isLast, jsonParse, stringify);
            && r.parser.buffer == p.buffer
            && r.parser.isComplete == (p.isComplete || isLast)
            && r.events == [ApiCallEvent(call)] + (if isLast then EmitApiResults(r.parser, stringify) else [])
            && JsMap.Get(r.parser.apiCalls, call.callId) == Some(call)
            && forall id :: id != call.callId ==> JsMap.Get(r.parser.apiCalls, id) == JsMap.Get(p.apiCalls, id)
  {
    ChunkScannedTo(p, chunk, p.buffer, [call], isLast, jsonParse, stringify);
    StoreOneCall(p.apiCalls, call);
  }

  /** Any chunk, last or not, once its scan is known. */
  lemma ChunkScannedTo(p: Parser, chunk: string, rest: string, calls: seq<ApiCallParameters>, isLast: bool,
                       jsonParse: string -> Option<Json>, stringify: Json -> string)
    requires chunk != [] && ScanBlocks(p.buffer + chunk, 0, jsonParse) == (rest, calls)
    ensures var r := ProcessChunk(p, Some(chunk), isLast, jsonParse, stringify);
            && r.parser == p.(buffer := rest, apiCalls := StoreCalls(p.apiCalls, calls), isComplete := p.isComplete || isLast)
            && r.events == CallEvents(calls) + (if isLast then EmitApiResults(r.parser, stringify) else [])
  {
    if isLast {
      LastChunkScanned(p, chunk, jsonParse, stringify);
    } else {
      ChunkScanned(p, chunk, jsonParse, stringify);
      assert CallEvents(calls) + [] == CallEvents(calls);
    }
  }

  /** The whole response at once, as the last chunk of a fresh parser: the
      prose stays in the buffer, the one call is stored and announced, and
      nothing else is emitted, since no result is in yet. Reporting the
      result for that id then emits the report of that one result. */
  lemma WholeResponseAtOnce(pre: string, f: Fields, paramsText: string, n: int, name: string, result: Json,
                            jsonParse: string -> Option<Json>, stringify: Json -> string)
    requires IsProse(pre)
    requires IsPlain(f.instructions) && IsPlain(f.name) && IsPlain(paramsText)
    requires f.callId == Numbers.IntToString(n)
    requires jsonParse(paramsText) == Some(f.parameters)
    ensures var r := ProcessChunk(Initial, Some(pre + RenderBlock(f, paramsText)), true, jsonParse, stringify);
            && r.parser == Parser(pre, [JsMap.Entry(Some(n), CallOf(f, Some(n)))], [], true)
            && r.events == [ApiCallEvent(CallOf(f, Some(n)))]
            && AddApiResult(r.parser, n, name, result, stringify).events
               == [ApiResultsEvent(Some(ResultReport.Report([ResultReport.ApiResult(n, name, result)], stringify)))]
  {
    var chunk := pre + RenderBlock(f, paramsText);
    RenderedIsCallBlock(f, paramsText);
    assert Initial.buffer + chunk == chunk;
    ScanRenderedBlock(pre, f, paramsText, n, jsonParse);
    FreshLastOneCall(chunk, pre, CallOf(f, Some(n)), n, name, result, jsonParse, stringify);
  }

  /** A fresh parser given, as its last chunk, text whose scan yields one
      call with id `n`. */
  lemma FreshLastOneCall(chunk: string, rest: string, call: ApiCallParameters, n: int, name: string, result: Json,
                         jsonParse: string -> Option<Json>, stringify: Json -> string)
    requires chunk != [] && call.callId == Some(n) && ScanBlocks(Initial.buffer + chunk, 0, jsonParse) == (rest, [call])
    ensures var r := ProcessChunk(Initial, Some(chunk), true, jsonParse, stringify);
            && r.parser == Parser(rest, [JsMap.Entry(Some(n), call)], [], true)
            && r.events == [ApiCallEvent(call)]
            && AddApiResult(r.parser, n, name, result, stringify).events
               == [ApiResultsEvent(Some(ResultReport.Report([ResultReport.ApiResult(n, name, result)], stringify)))]
  {
    ChunkScannedTo(Initial, chunk, rest, [call], true, jsonParse, stringify);
    var done := Parser(rest, [JsMap.Entry(Some(n), call)], [], true);
    assert StoreCalls([], [call]) == [JsMap.Entry(Some(n), call)];
    assert EmitApiResults(done, stringify) == [];
    assert [ApiCallEvent(call)] + [] == [ApiCallEvent(call)];
    CompletingResultReports(done, n, name, result, stringify);
    var after := AddApiResult(done, n, name, result, stringify);
    assert after.parser.apiResults == [JsMap.Entry(n, ResultReport.ApiResult(n, name, result))];
  }

  /** Scanning prose and a rendered block consumes the block, keeps the
      prose and yields the block's call. */
  lemma ScanRenderedBlock(pre: string, f: Fields, paramsText: string, n: int, jsonParse: string -> Option<Json>)
    requires IsProse(pre)
    requires IsPlain(f.instructions) && IsPlain(f.name) && IsPlain(paramsText)
    requires f.callId == Numbers.IntToString(n)
    requires jsonParse(paramsText) == Some(f.parameters)
    ensures ScanBlocks(pre + RenderBlock(f, paramsText), 0, jsonParse) == (pre, [CallOf(f, Some(n))])
  {
    var b := RenderBlock(f, paramsText);
    RenderedIsCallBlock(f, paramsText);
    ParseRenderedContent(f, paramsText, n, jsonParse);
    assert Body(b) == RenderContent(f, paramsText);
    ScanProseBlock(pre, b, jsonParse);
  }

  /** Storing one call sets its id and leaves every other id alone. */
  lemma StoreOneCall(m: CallMap, call: ApiCallParameters)
    ensures JsMap.Get(StoreCalls(m, [call]), call.callId) == Some(call)
    ensures forall id :: id != call.callId ==> JsMap.Get(StoreCalls(m, [call]), id) == JsMap.Get(m, id)
  {
    assert StoreCalls(m, [call]) == JsMap.Set(m, call.callId, call);
    JsMap.GetSet(m, call.callId, call, call.callId);
    forall id | id != call.callId ensures JsMap.Get(JsMap.Set(m, call.callId, call), id) == JsMap.Get(m, id) {
      JsMap.GetSet(m, call.callId, call, id);
    }
  }

  /** A block skipped as in `AdjacentBlockSkipped` is deferred: the chunk
      holding both blocks yields only the first block's call and leaves the
      prose gap and the second block in the buffer, and the next non-empty
      chunk, whose scan starts afresh at position 0, yields it first. */
  lemma AdjacentBlockDeferred(p: Parser, b1: string, gap: string, b2: string, chunk: string,
                              jsonParse: string -> Option<Json>, stringify: Json -> string)
    requires p.buffer == [] && IsCallBlock(b1) && IsProse(gap) && IsCallBlock(b2) && |gap| < |b1|
    requires Find(b2, CallOpen, |b1| - |gap|, false) == None && chunk != []
    ensures var first := ProcessChunk(p, Some(b1 + (gap + b2)), false, jsonParse, stringify);
            && first.parser.buffer == gap + b2
            && first.events == CallEvents(ToSeq(ParseCallContent(Body(b1), jsonParse)))
            && ProcessChunk(first.parser, Some(chunk), false, jsonParse, stringify).events
               == CallEvents(ToSeq(ParseCallContent(Body(b2), jsonParse))
                             + ScanBlocks(gap + chunk, |gap| + |b2|, jsonParse).1)
  {
    assert p.buffer + (b1 + (gap + b2)) == b1 + (gap + b2);
    ChunkScanned(p, b1 + (gap + b2), jsonParse, stringify);
    AdjacentBlockSkipped(b1, gap, b2, jsonParse);
    var first := ProcessChunk(p, Some(b1 + (gap + b2)), false, jsonParse, stringify);
    ChunkScanned(first.parser, chunk, jsonParse, stringify);
    BlockScanned(gap, b2, chunk, jsonParse);
  }

  /** A proper prefix of a complete block holds no complete block. */
  lemma BlockPrefixIncomplete(b: string, k: nat)
    requires IsCallBlock(b) && k < |b|
    ensures NoDelimitedFrom(b[..k], CallOpen, CallClose, 0, false)
  {
    var a := b[..k];
    assert a + b[k..] == b;
    forall i, j | 0 <= i <= |a| && i + |CallOpen| <= j <= |a| && MatchesAt(a, i, CallOpen, false)
      ensures !MatchesAt(a, j, CallClose, false)
    {
      if j + |CallClose| <= |a| {
        MatchesAtPrefix(a, b[k..], j, CallClose, false);
      }
    }
  }

  /** Once complete with as many results as calls, every further result
      (even one for an id already answered) and every further last chunk
      emits the report again: nothing limits it to one emission. */
  lemma ReportRepeats(p: Parser, callId: int, name: string, result: Json,
                      jsonParse: string -> Option<Json>, stringify: Json -> string)
    requires p.isComplete && |p.apiCalls| == |p.apiResults| > 0
    requires JsMap.Get(p.apiResults, callId).Some?
    ensures var r := AddApiResult(p, callId, name, result, stringify);
            && |r.events| == 1 && r.events[0].report.Some?
            && r.parser.isComplete && |r.parser.apiCalls| == |r.parser.apiResults| > 0
    ensures var r := ProcessChunk(p, None, true, jsonParse, stringify);
            && |r.events| == 1 && r.events[0].report.Some?
            && r.parser == p
  {
  }

  /** The readiness test counts entries and does not compare ids: a result for an id
      no call carries still completes it when the counts then agree. */
  lemma SizesNotIdsCompared(p: Parser, callId: int, name: string, result: Json, stringify: Json -> string)
    requires p.isComplete && |p.apiCalls| == |p.apiResults| + 1
    requires JsMap.Get(p.apiResults, callId).None? && JsMap.Get(p.apiCalls, Some(callId)).None?
    ensures var r := AddApiResult(p, callId, name, result, stringify);
            |r.events| == 1 && r.events[0].report.Some?
  {
  }

  /** The result that brings the number of results level with the number
      of calls, once the last chunk has been seen, emits the report of all
      stored results, including the new one; in the ordinary case it is the
      answer to the last unanswered call. */
  lemma CompletingResultReports(p: Parser, callId: int, name: string, result: Json, stringify: Json -> string)
    requires p.isComplete && |p.apiCalls| == |p.apiResults| + 1
    requires JsMap.Get(p.apiResults, callId).None?
    ensures var r := AddApiResult(p, callId, name, result, stringify);
            && JsMap.Get(r.parser.apiResults, callId) == Some(ResultReport.ApiResult(callId, name, result))
            && r.events == [ApiResultsEvent(Some(ResultReport.Report(JsMap.Values(r.parser.apiResults), stringify)))]
  {
    AddApiResultStores(p, callId, name, result, stringify, callId);
  }

  // ---------------------------------------------------------------------
  // Sequences of calls on one parser

  /** One call of the class's public methods. */
  datatype Step =
    | ChunkStep(chunk: Option<string>, isLast: bool)
    | ResultStep(callId: int, name: string, result: Json)

  function Apply(p: Parser, step: Step, jsonParse: string -> Option<Json>, stringify: Json -> string): Outcome {
    match step
    case ChunkStep(chunk, isLast) => ProcessChunk(p, chunk, isLast, jsonParse, stringify)
    case ResultStep(callId, name, result) => AddApiResult(p, callId, name, result, stringify)
  }

  /** The steps applied in order; the events of each follow those of the
      one before. */
  function Run(p: Parser, steps: seq<Step>, jsonParse: string -> Option<Json>, stringify: Json -> string): (r: Outcome)
    ensures steps == [] ==> r == Outcome(p, [])
    decreases |steps|
  {
    if steps == [] then Outcome(p, [])
    else
      var o := Apply(p, steps[0], jsonParse, stringify);
      var rest := Run(o.parser, steps[1..], jsonParse, stringify);
      Outcome(rest.parser, o.events + rest.events)
  }

  lemma ApplyValid(p: Parser, step: Step, jsonParse: string -> Option<Json>, stringify: Json -> string)
    requires Valid(p)
    ensures Valid(Apply(p, step, jsonParse, stringify).parser)
  {
    if step.ChunkStep? {
      ProcessChunkValid(p, step.chunk, step.isLast, jsonParse, stringify);
    } else {
      AddApiResultValid(p, step.callId, step.name, step.result, stringify);
    }
  }

  /** Every state reachable from a valid one is valid. */
  lemma {:induction false} RunValid(p: Parser, steps: seq<Step>, jsonParse: string -> Option<Json>, stringify: Json -> string)
    requires Valid(p)
    ensures Valid(Run(p, steps, jsonParse, stringify).parser)
    decreases |steps|
  {
    if steps != [] {
      var o := Apply(p, steps[0], jsonParse, stringify);
      ApplyValid(p, steps[0], jsonParse, stringify);
      RunValid(o.parser, steps[1..], jsonParse, stringify);
    }
  }

  /** No step is a last chunk. */
  predicate NoLastChunk(steps: seq<Step>) {
    forall i :: 0 <= i < |steps| ==> !(steps[i].ChunkStep? && steps[i].isLast)
  }

  /** Only `apiCall` events. */
  predicate OnlyCallEvents(events: seq<Event>) {
    forall i :: 0 <= i < |events| ==> events[i].ApiCallEvent?
  }

  lemma ApplyBeforeLast(p: Parser, step: Step, jsonParse: string -> Option<Json>, stringify: Json -> string)
    requires !p.isComplete && !(step.ChunkStep? && step.isLast)
    ensures !Apply(p, step, jsonParse, stringify).parser.isComplete
    ensures OnlyCallEvents(Apply(p, step, jsonParse, stringify).events)
  {
  }

  lemma OnlyCallEventsConcat(a: seq<Event>, b: seq<Event>)
    requires OnlyCallEvents(a) && OnlyCallEvents(b)
    ensures OnlyCallEvents(a + b)
  {
    assert forall i :: |a| <= i < |a + b| ==> (a + b)[i] == b[i - |a|];
  }

  /** Until a last chunk arrives the parser is not complete and emits only
      `apiCall` events: no report and no `null`, however many results are
      added. */
  lemma {:induction false} NoReportBeforeLast(p: Parser, steps: seq<Step>, jsonParse: string -> Option<Json>, stringify: Json -> string)
    requires !p.isComplete && NoLastChunk(steps)
    ensures !Run(p, steps, jsonParse, stringify).parser.isComplete
    ensures OnlyCallEvents(Run(p, steps, jsonParse, stringify).events)
    decreases |steps|
  {
    if steps != [] {
      var o := Apply(p, steps[0], jsonParse, stringify);
      ApplyBeforeLast(p, steps[0], jsonParse, stringify);
      assert NoLastChunk(steps[1..]) by {
        forall i | 0 <= i < |steps[1..]| ensures !(steps[1..][i].ChunkStep? && steps[1..][i].isLast) {
          assert steps[1..][i] == steps[i + 1];
        }
      }
      NoReportBeforeLast(o.parser, steps[1..], jsonParse, stringify);
      OnlyCallEventsConcat(o.events, Run(o.parser, steps[1..], jsonParse, stringify).events);
    }
  }

  /** Every state reachable from a fresh parser is valid. */
  lemma ReachableValid(steps: seq<Step>, jsonParse: string -> Option<Json>, stringify: Json -> string)
    ensures Valid(Run(Initial, steps, jsonParse, stringify).parser)
  {
    RunValid(Initial, steps, jsonParse, stringify);
  }

  // ---------------------------------------------------------------------
  // A block delivered in pieces

  /** One `processChunk(c, false)` per piece, in order. */
  function ChunkSteps(cs: seq<string>): (r: seq<Step>)
    ensures |r| == |cs|
    ensures forall i :: 0 <= i < |cs| ==> r[i] == ChunkStep(Some(cs[i]), false)
  {
    if cs == [] then [] else [ChunkStep(Some(cs[0]), false)] + ChunkSteps(cs[1..])
  }

  /** The pieces joined. */
  function Concat(cs: seq<string>): (r: string)
    ensures cs == [] ==> r == []
  {
    if cs == [] then [] else cs[0] + Concat(cs[1..])
  }

  lemma {:induction false} ConcatSplit(cs: seq<string>, k: nat)
    requires k <= |cs|
    ensures Concat(cs[..k]) + Concat(cs[k..]) == Concat(cs)
    decreases k
  {
    if k > 0 {
      ConcatSplit(cs[1..], k - 1);
      assert cs[..k][1..] == cs[1..][..k - 1];
      assert cs[1..][k - 1..] == cs[k..];
    } else {
      assert cs[..0] == [] && cs[0..] == cs;
    }
  }

  lemma RunChunksStep(p: Parser, cs: seq<string>, jsonParse: string -> Option<Json>, stringify: Json -> string)
    requires cs != []
    ensures var o := ProcessChunk(p, Some(cs[0]), false, jsonParse, stringify);
            var rest := Run(o.parser, ChunkSteps(cs[1..]), jsonParse, stringify);
            Run(p, ChunkSteps(cs), jsonParse, stringify) == Outcome(rest.parser, o.events + rest.events)
  {
    assert ChunkSteps(cs)[1..] == ChunkSteps(cs[1..]);
  }

  /** Pieces that join to nothing change nothing. */
  lemma {:induction false} EmptyPiecesIgnored(p: Parser, cs: seq<string>, jsonParse: string -> Option<Json>, stringify: Json -> string)
    requires Concat(cs) == []
    ensures Run(p, ChunkSteps(cs), jsonParse, stringify) == Outcome(p, [])
    decreases |cs|
  {
    if cs != [] {
      RunChunksStep(p, cs, jsonParse, stringify);
      assert |cs[0]| + |Concat(cs[1..])| == 0;
      EmptyChunkIgnored(p, Some(cs[0]), jsonParse, stringify);
      EmptyPiecesIgnored(p, cs[1..], jsonParse, stringify);
    }
  }

  /** Prose in front of a text with no complete block adds none. */
  lemma ProseAddsNoBlock(pre: string, t: string)
    requires IsProse(pre) && NoDelimitedFrom(t, CallOpen, CallClose, 0, false)
    ensures NoDelimitedFrom(pre + t, CallOpen, CallClose, 0, false)
  {
    NoMatchInProse(pre, t, CallOpen);
    FindDelimitedPastPrefix(pre, t, CallOpen, CallClose, false);
    FindDelimitedSpec(t, CallOpen, CallClose, 0, false);
    FindDelimitedSpec(pre + t, CallOpen, CallClose, 0, false);
  }

  /** Appending one more piece of a block that stays incomplete. */
  lemma PieceHeld(p: Parser, pre: string, b: string, t: string, c: string,
                  jsonParse: string -> Option<Json>, stringify: Json -> string)
    requires IsProse(pre) && IsCallBlock(b)
    requires p.buffer == pre + t && |t + c| < |b| && t + c == b[..|t + c|]
    ensures ProcessChunk(p, Some(c), false, jsonParse, stringify) == Outcome(p.(buffer := pre + (t + c)), [])
  {
    if c == [] {
      EmptyChunkIgnored(p, Some(c), jsonParse, stringify);
      assert t + c == t;
    } else {
      BlockPrefixIncomplete(b, |t + c|);
      ProseAddsNoBlock(pre, t + c);
      assert p.buffer + c == pre + (t + c);
      NoBlockAppended(p, c, jsonParse, stringify);
    }
  }

  /** While the pieces delivered after prose and the start `t` of a block
      still fall short of the block, each is only appended and nothing is
      emitted. */
  lemma {:induction false} PiecesHeld(p: Parser, pre: string, b: string, t: string, cs: seq<string>,
                                      jsonParse: string -> Option<Json>, stringify: Json -> string)
    requires IsProse(pre) && IsCallBlock(b) && p.buffer == pre + t
    requires |t + Concat(cs)| < |b| && t + Concat(cs) == b[..|t + Concat(cs)|]
    ensures Run(p, ChunkSteps(cs), jsonParse, stringify) == Outcome(p.(buffer := p.buffer + Concat(cs)), [])
    decreases |cs|
  {
    if cs == [] {
      assert p.buffer + [] == p.buffer;
    } else {
      var c, tail := cs[0], Concat(cs[1..]);
      var t' := t + c;
      assert Concat(cs) == c + tail;
      assert t' + tail == t + Concat(cs);
      assert (pre + t') + tail == (pre + t) + Concat(cs);
      assert t' == (t + Concat(cs))[..|t'|];
      var q := p.(buffer := pre + t');
      HeldStep(p, pre, b, t, cs, jsonParse, stringify);
      PiecesHeld(q, pre, b, t', cs[1..], jsonParse, stringify);
    }
  }

  /** A piece that leaves the block incomplete hands the rest of the run
      a parser whose buffer holds that piece as well. */
  lemma HeldStep(p: Parser, pre: string, b: string, t: string, cs: seq<string>,
                 jsonParse: string -> Option<Json>, stringify: Json -> string)
    requires IsProse(pre) && IsCallBlock(b) && p.buffer == pre + t && cs != []
    requires |t + cs[0]| < |b| && t + cs[0] == b[..|t + cs[0]|]
    ensures Run(p, ChunkSteps(cs), jsonParse, stringify)
         == Run(p.(buffer := pre + (t + cs[0])), ChunkSteps(cs[1..]), jsonParse, stringify)
  {
    RunChunksStep(p, cs, jsonParse, stringify);
    PieceHeld(p, pre, b, t, cs[0], jsonParse, stringify);
    var rest := Run(p.(buffer := pre + (t + cs[0])), ChunkSteps(cs[1..]), jsonParse, stringify);
    assert [] + rest.events == rest.events;
  }

  /** The piece that completes the block: the block is scanned after the
      prose, its call stored and announced, and the prose stays. */
  lemma LastPieceDelivered(p: Parser, pre: string, b: string, t: string, c: string,
                           jsonParse: string -> Option<Json>, stringify: Json -> string)
    requires IsProse(pre) && IsCallBlock(b) && p.buffer == pre + t && |t| < |b| && t + c == b
    ensures var calls := ToSeq(ParseCallContent(Body(b), jsonParse));
            ProcessChunk(p, Some(c), false, jsonParse, stringify)
            == Outcome(p.(buffer := pre, apiCalls := StoreCalls(p.apiCalls, calls)), CallEvents(calls))
  {
    assert p.buffer + c == pre + b;
    ChunkScanned(p, c, jsonParse, stringify);
    ScanProseBlock(pre, b, jsonParse);
  }

  /** The piece that completes the block, after which only empty pieces
      follow. */
  lemma LastStep(p: Parser, pre: string, b: string, t: string, cs: seq<string>,
                 jsonParse: string -> Option<Json>, stringify: Json -> string)
    requires IsProse(pre) && IsCallBlock(b) && p.buffer == pre + t && cs != []
    requires |t| < |b| && t + cs[0] == b && Concat(cs[1..]) == []
    ensures var calls := ToSeq(ParseCallContent(Body(b), jsonParse));
            Run(p, ChunkSteps(cs), jsonParse, stringify)
            == Outcome(p.(buffer := pre, apiCalls := StoreCalls(p.apiCalls, calls)), CallEvents(calls))
  {
    var calls := ToSeq(ParseCallContent(Body(b), jsonParse));
    RunChunksStep(p, cs, jsonParse, stringify);
    LastPieceDelivered(p, pre, b, t, cs[0], jsonParse, stringify);
    var o := ProcessChunk(p, Some(cs[0]), false, jsonParse, stringify);
    EmptyPiecesIgnored(o.parser, cs[1..], jsonParse, stringify);
    assert CallEvents(calls) + [] == CallEvents(calls);
  }

  /** The pieces after prose and the start `t` of a block complete it: the
      block's call is stored and announced once, and the buffer is back to
      the prose. */
  lemma {:induction false} PiecesDelivered(p: Parser, pre: string, b: string, t: string, cs: seq<string>,
                                           jsonParse: string -> Option<Json>, stringify: Json -> string)
    requires IsProse(pre) && IsCallBlock(b) && p.buffer == pre + t
    requires |t| < |b| && t + Concat(cs) == b
    ensures var calls := ToSeq(ParseCallContent(Body(b), jsonParse));
            Run(p, ChunkSteps(cs), jsonParse, stringify)
            == Outcome(p.(buffer := pre, apiCalls := StoreCalls(p.apiCalls, calls)), CallEvents(calls))
    decreases |cs|
  {
    var calls := ToSeq(ParseCallContent(Body(b), jsonParse));
    var c := cs[0];
    var t' := t + c;
    assert Concat(cs) == c + Concat(cs[1..]);
    assert t' + Concat(cs[1..]) == b;
    if |t'| < |b| {
      assert t' == b[..|t'|];
      var q := p.(buffer := pre + t');
      HeldStep(p, pre, b, t, cs, jsonParse, stringify);
      PiecesDelivered(q, pre, b, t', cs[1..], jsonParse, stringify);
    } else {
      assert t' == b;
      LastStep(p, pre, b, t, cs, jsonParse, stringify);
    }
  }

  /** However a complete block is cut into chunks and delivered after
      prose already in the buffer, once the pieces make up the whole block
      its call, if it has one, is stored and announced exactly once and the
      buffer holds the prose again. */
  lemma SplitBlockDelivered(p: Parser, b: string, cs: seq<string>,
                            jsonParse: string -> Option<Json>, stringify: Json -> string)
    requires IsProse(p.buffer) && IsCallBlock(b) && Concat(cs) == b
    ensures var calls := ToSeq(ParseCallContent(Body(b), jsonParse));
            Run(p, ChunkSteps(cs), jsonParse, stringify)
            == Outcome(p.(apiCalls := StoreCalls(p.apiCalls, calls)), CallEvents(calls))
  {
    assert p.buffer + [] == p.buffer;
    assert [] + Concat(cs) == b;
    PiecesDelivered(p, p.buffer, b, [], cs, jsonParse, stringify);
  }

  /** Until then, that is for the first `k` pieces of such a delivery
      while they fall short of the block, every chunk is only appended and
      nothing is emitted. */
  lemma SplitBlockHeld(p: Parser, b: string, cs: seq<string>, k: nat,
                       jsonParse: string -> Option<Json>, stringify: Json -> string)
    requires IsProse(p.buffer) && IsCallBlock(b) && Concat(cs) == b
    requires k <= |cs| && |Concat(cs[..k])| < |b|
    ensures Run(p, ChunkSteps(cs[..k]), jsonParse, stringify) == Outcome(p.(buffer := p.buffer + Concat(cs[..k])), [])
  {
    var front := cs[..k];
    var t := Concat(front);
    ConcatSplit(cs, k);
    assert t == b[..|t|];
    assert [] + t == t;
    assert p.buffer + [] == p.buffer;
    PiecesHeld(p, p.buffer, b, [], front, jsonParse, stringify);
  }
}
