/** The wire format of a tool call, shared by both parsers:
    `<mfcs_call>` … `</mfcs_call>` around four tagged fields
    `<instructions>`, `<call_id>`, `<name>` and `<parameters>`. Each field is
    the body of the FIRST pair of its tags in the block, trimmed; the
    parameters body must be JSON. */
module CallBlock {
  import opened Wrappers
  import opened Text
  import opened JsonValue

  const CallOpen: string := "<mfcs_call>"
  const CallClose: string := "</mfcs_call>"

  const InstructionsName: string := "instructions"
  const CallIdName: string := "call_id"
  const NameName: string := "name"
  const ParametersName: string := "parameters"

  function OpenTag(name: string): (r: string)
    ensures |r| == |name| + 2 && r[0] == '<' && r[1..|r| - 1] == name && r[|r| - 1] == '>'
  {
    "<" + name + ">"
  }

  function CloseTag(name: string): (r: string)
    ensures |r| == |name| + 3 && r[0] == '<' && r[1] == '/' && r[2..|r| - 1] == name && r[|r| - 1] == '>'
  {
    "</" + name + ">"
  }

  /** The four fields of a block, as text except the parsed parameters. */
  datatype Fields = Fields(instructions: string, callId: string, name: string, parameters: Json)

  /** `/<name>([\s\S]*?)<\/name>/.exec(content)` followed by `trim()` of
      the group: the trimmed body of the first `<name>…</name>` pair, or
      nothing when the content holds no such pair (see `FieldIsFirst`). */
  function Field(content: string, name: string, ignoreCase: bool): (r: Option<string>)
    ensures r.Some? ==> IsTrimmed(r.value)
  {
    match FindDelimited(content, OpenTag(name), CloseTag(name), 0, ignoreCase)
    case None => None
    case Some(m) => Some(Trim(m.inner))
  }

  /** A field is missing exactly when its tags never enclose anything, and
      otherwise it is the trimmed body of the first pair. */
  lemma FieldIsFirst(content: string, name: string, ignoreCase: bool)
    ensures Field(content, name, ignoreCase).None? <==> NoDelimitedFrom(content, OpenTag(name), CloseTag(name), 0, ignoreCase)
    ensures forall m :: IsFirstDelimited(content, OpenTag(name), CloseTag(name), 0, ignoreCase, m)
              ==> Field(content, name, ignoreCase) == Some(Trim(m.inner))
  {
    FindDelimitedSpec(content, OpenTag(name), CloseTag(name), 0, ignoreCase);
  }


  /** With case folding, a field's tags are found whatever the case they
      are written in: reading the field `name` reads the field under any
      ASCII case variant of its name. */
  lemma FieldIgnoresTagCase(content: string, name: string, name': string)
    requires SameUpToCase(name, name')
    ensures Field(content, name, true) == Field(content, name', true)
  {
    TagsSameUpToCase(name, name');
    FindDelimitedIgnoresPatternCase(content, OpenTag(name), CloseTag(name), OpenTag(name'), CloseTag(name'), 0);
  }

  lemma TagsSameUpToCase(name: string, name': string)
    requires SameUpToCase(name, name')
    ensures SameUpToCase(OpenTag(name), OpenTag(name'))
    ensures SameUpToCase(CloseTag(name), CloseTag(name'))
  {
    var o, o' := OpenTag(name), OpenTag(name');
    forall k | 0 <= k < |o| ensures UpperAscii(o[k]) == UpperAscii(o'[k]) {
      if 0 < k < |o| - 1 {
        assert o[k] == name[k - 1] && o'[k] == name'[k - 1];
      }
    }
    var c, c' := CloseTag(name), CloseTag(name');
    forall k | 0 <= k < |c| ensures UpperAscii(c[k]) == UpperAscii(c'[k]) {
      if 1 < k < |c| - 1 {
        assert c[k] == name[k - 2] && c'[k] == name'[k - 2];
      }
    }
  }

  /** All four tag pairs occur in the content. */
  predicate HasAllFields(content: string, ignoreCase: bool) {
    && !NoDelimitedFrom(content, OpenTag(InstructionsName), CloseTag(InstructionsName), 0, ignoreCase)
    && !NoDelimitedFrom(content, OpenTag(CallIdName), CloseTag(CallIdName), 0, ignoreCase)
    && !NoDelimitedFrom(content, OpenTag(NameName), CloseTag(NameName), 0, ignoreCase)
    && !NoDelimitedFrom(content, OpenTag(ParametersName), CloseTag(ParametersName), 0, ignoreCase)
  }

  /** The fields of a block's content: nothing when a tag pair is missing
      or the trimmed parameters body is not JSON (the failed parse is
      caught, never thrown to the caller); see `ExtractFieldsCases`. */
  function ExtractFields(content: string, ignoreCase: bool, jsonParse: string -> Option<Json>): (r: Option<Fields>)
    ensures r.Some? ==> IsTrimmed(r.value.instructions) && IsTrimmed(r.value.callId) && IsTrimmed(r.value.name)
  {
    var instructions := Field(content, InstructionsName, ignoreCase);
    var callId := Field(content, CallIdName, ignoreCase);
    var name := Field(content, NameName, ignoreCase);
    var parameters := Field(content, ParametersName, ignoreCase);
    if instructions.None? || callId.None? || name.None? || parameters.None? then None
    else
      match jsonParse(parameters.value)
      case None => None
      case Some(json) => Some(Fields(instructions.value, callId.value, name.value, json))
  }

  /** All four fields are present. */
  predicate FieldsPresent(content: string, ignoreCase: bool) {
    && Field(content, InstructionsName, ignoreCase).Some?
    && Field(content, CallIdName, ignoreCase).Some?
    && Field(content, NameName, ignoreCase).Some?
    && Field(content, ParametersName, ignoreCase).Some?
  }

  /** A block yields fields exactly when all four are present and the
      parameters parse; the fields are then the values read. */
  lemma ExtractFieldsCases(content: string, ignoreCase: bool, jsonParse: string -> Option<Json>)
    ensures !FieldsPresent(content, ignoreCase) ==> ExtractFields(content, ignoreCase, jsonParse) == None
    ensures FieldsPresent(content, ignoreCase) ==>
              (ExtractFields(content, ignoreCase, jsonParse).Some?
               <==> jsonParse(Field(content, ParametersName, ignoreCase).value).Some?)
    ensures match ExtractFields(content, ignoreCase, jsonParse)
            case None => true
            case Some(f) =>
              && Field(content, InstructionsName, ignoreCase) == Some(f.instructions)
              && Field(content, CallIdName, ignoreCase) == Some(f.callId)
              && Field(content, NameName, ignoreCase) == Some(f.name)
              && jsonParse(Field(content, ParametersName, ignoreCase).value) == Some(f.parameters)
  {
  }

  /** A field is present exactly when its tag pair encloses something. */
  lemma AllFieldsPresent(content: string, ignoreCase: bool)
    ensures HasAllFields(content, ignoreCase) <==> FieldsPresent(content, ignoreCase)
  {
    FieldIsFirst(content, InstructionsName, ignoreCase);
    FieldIsFirst(content, CallIdName, ignoreCase);
    FieldIsFirst(content, NameName, ignoreCase);
    FieldIsFirst(content, ParametersName, ignoreCase);
  }

  /** A block yields fields exactly when all four tag pairs enclose
      something (the four regex matches exist) and the trimmed parameters
      body parses; each field is then the trimmed body of the first pair of
      its tags. */
  lemma ExtractFieldsSpec(content: string, ignoreCase: bool, jsonParse: string -> Option<Json>)
    ensures ExtractFields(content, ignoreCase, jsonParse).Some?
        <==> HasAllFields(content, ignoreCase)
             && (match Field(content, ParametersName, ignoreCase)
                 case Some(t) => jsonParse(t).Some?
                 case None => false)
    ensures forall m :: ExtractFields(content, ignoreCase, jsonParse).Some?
              && IsFirstDelimited(content, OpenTag(CallIdName), CloseTag(CallIdName), 0, ignoreCase, m)
              ==> ExtractFields(content, ignoreCase, jsonParse).value.callId == Trim(m.inner)
    ensures forall m :: ExtractFields(content, ignoreCase, jsonParse).Some?
              && IsFirstDelimited(content, OpenTag(ParametersName), CloseTag(ParametersName), 0, ignoreCase, m)
              ==> jsonParse(Trim(m.inner)) == Some(ExtractFields(content, ignoreCase, jsonParse).value.parameters)
  {
    AllFieldsPresent(content, ignoreCase);
    FieldIsFirst(content, CallIdName, ignoreCase);
    FieldIsFirst(content, ParametersName, ignoreCase);
  }

  // ---------------------------------------------------------------------
  // Rendering a block, and reading it back

  /** `<name>v</name>`. */
  function Tagged(name: string, v: string): string {
    OpenTag(name) + v + CloseTag(name)
  }

  /** A field value that reads back as itself: trimmed, and without `<`,
      so that no tag can start inside it. */
  predicate IsPlain(v: string) {
    IsTrimmed(v) && forall i :: 0 <= i < |v| ==> v[i] != '<'
  }

  /** The content of a block carrying `f`, with its parameters written as
      `paramsText`, fields in the order the prompts ask for. */
  function RenderContent(f: Fields, paramsText: string): string {
    Tagged(InstructionsName, f.instructions) + Tagged(CallIdName, f.callId)
    + Tagged(NameName, f.name) + Tagged(ParametersName, paramsText)
  }

  /** A complete call block carrying `f`. */
  function RenderBlock(f: Fields, paramsText: string): string {
    CallOpen + RenderContent(f, paramsText) + CallClose
  }

  /** Every `<` in `s` is followed, inside `s`, by a character that does
      not match `c`: no tag whose name starts with `c` begins in `s`. */
  predicate NoTagStart(s: string, c: char, ignoreCase: bool) {
    forall j :: 0 <= j < |s| && s[j] == '<' ==> j + 1 < |s| && !CharMatches(s[j + 1], c, ignoreCase)
  }

  lemma NoTagStartConcat(a: string, b: string, c: char, ignoreCase: bool)
    requires NoTagStart(a, c, ignoreCase) && NoTagStart(b, c, ignoreCase)
    ensures NoTagStart(a + b, c, ignoreCase)
  {
    var s := a + b;
    forall j | 0 <= j < |s| && s[j] == '<' ensures j + 1 < |s| && !CharMatches(s[j + 1], c, ignoreCase) {
      if j < |a| {
        assert a[j] == '<';
      } else {
        assert b[j - |a|] == '<';
      }
    }
  }

  /** Only two `<` occur in `<n>v</n>` when `v` and `n` hold none: one
      before the name and one before the `/`. */
  lemma NoTagStartTagged(name: string, v: string, c: char, ignoreCase: bool)
    requires name != [] && name[0] != '<' && (forall i :: 0 <= i < |name| ==> name[i] != '<')
    requires IsPlain(v)
    requires !CharMatches(name[0], c, ignoreCase) && !CharMatches('/', c, ignoreCase)
    ensures NoTagStart(Tagged(name, v), c, ignoreCase)
  {
    var o := OpenTag(name);
    var cl := CloseTag(name);
    var s := Tagged(name, v);
    assert s == o + v + cl;
    assert forall k :: 0 < k < |o| ==> s[k] == o[k];
    assert forall k :: |o| <= k < |o| + |v| ==> s[k] == v[k - |o|];
    assert forall k :: |o| + |v| + 1 < k < |s| ==> s[k] == cl[k - |o| - |v|];
    forall j | 0 <= j < |s| && s[j] == '<' ensures j + 1 < |s| && !CharMatches(s[j + 1], c, ignoreCase) {
      if j == 0 {
        assert s[1] == name[0];
      } else {
        assert j == |o| + |v|;
        assert s[j + 1] == '/';
      }
    }
  }

  /** No opening tag `<n>` begins in a prefix where no tag starting with
      `n[0]` begins. */
  lemma NoOpenTagInPrefix(pre: string, t: string, name: string, ignoreCase: bool)
    requires name != [] && NoTagStart(pre, name[0], ignoreCase)
    ensures forall j :: 0 <= j < |pre| ==> !MatchesAt(pre + t, j, OpenTag(name), ignoreCase)
  {
    var s := pre + t;
    var o := OpenTag(name);
    forall j | 0 <= j < |pre| ensures !MatchesAt(s, j, o, ignoreCase) {
      if MatchesAt(s, j, o, ignoreCase) {
        MatchesAtHead(s, j, o, ignoreCase);
        assert false;
      }
    }
  }

  /** A field search passes over a prefix in which none of its tags begins. */
  lemma FieldSkipsPrefix(pre: string, t: string, name: string, ignoreCase: bool)
    requires name != [] && NoTagStart(pre, name[0], ignoreCase)
    ensures Field(pre + t, name, ignoreCase) == Field(t, name, ignoreCase)
  {
    var s := pre + t;
    var o := OpenTag(name);
    NoOpenTagInPrefix(pre, t, name, ignoreCase);
    FindDelimitedPastPrefix(pre, t, o, CloseTag(name), ignoreCase);
  }

  /** A search for a tag from `from` finds it at `q` when it occurs there
      and no `<` lies between. */
  lemma FindTagAfterPlain(s: string, pat: string, from: nat, q: nat, ignoreCase: bool)
    requires |pat| >= 2 && pat[0] == '<'
    requires from <= q && q + |pat| <= |s| && s[q..q + |pat|] == pat
    requires forall k :: from <= k < q ==> s[k] != '<'
    ensures Find(s, pat, from, ignoreCase) == Some(q)
  {
    MatchesAtExact(s, q, pat);
    if ignoreCase { ExactMatchIsCaselessMatch(s, q, pat); }
    forall j | from <= j < q ensures !MatchesAt(s, j, pat, ignoreCase) {
      if MatchesAt(s, j, pat, ignoreCase) {
        MatchesAtHead(s, j, pat, ignoreCase);
        PunctuationMatchesOnlyItself(s[j], '<', ignoreCase);
        assert false;
      }
    }
    FindIs(s, pat, from, ignoreCase, q);
  }

  lemma OpenOfLeading(name: string, v: string, post: string, ignoreCase: bool)
    ensures Find(Tagged(name, v) + post, OpenTag(name), 0, ignoreCase) == Some(0)
  {
    var o := OpenTag(name);
    var s := Tagged(name, v) + post;
    assert s == o + (v + CloseTag(name) + post);
    assert s[0..|o|] == o;
    FindTagAfterPlain(s, o, 0, 0, ignoreCase);
  }

  lemma CloseOfLeading(name: string, v: string, post: string, ignoreCase: bool)
    requires forall i :: 0 <= i < |v| ==> v[i] != '<'
    ensures Find(Tagged(name, v) + post, CloseTag(name), |OpenTag(name)|, ignoreCase)
         == Some(|OpenTag(name)| + |v|)
  {
    var o := OpenTag(name);
    var cl := CloseTag(name);
    var s := Tagged(name, v) + post;
    var q := |o| + |v|;
    assert s == o + v + (cl + post);
    assert s[q..q + |cl|] == cl;
    assert forall k :: |o| <= k < q ==> s[k] == v[k - |o|];
    FindTagAfterPlain(s, cl, |o|, q, ignoreCase);
  }

  lemma DelimitedOfLeading(name: string, v: string, post: string, ignoreCase: bool)
    requires forall i :: 0 <= i < |v| ==> v[i] != '<'
    ensures FindDelimited(Tagged(name, v) + post, OpenTag(name), CloseTag(name), 0, ignoreCase)
         == Some(Match(0, |OpenTag(name)| + |v| + |CloseTag(name)|, v))
  {
    var o := OpenTag(name);
    var cl := CloseTag(name);
    var s := Tagged(name, v) + post;
    var q := |o| + |v|;
    OpenOfLeading(name, v, post, ignoreCase);
    CloseOfLeading(name, v, post, ignoreCase);
    assert s == o + v + (cl + post);
    assert s[|o|..q] == v;
    FindDelimitedOfSearchesAs(s, o, cl, 0, ignoreCase, 0, |o|, q, q + |cl|, v);
  }

  /** A block's content that starts with `<n>v</n>` yields `v` for field `n`. */
  lemma FieldOfLeading(name: string, v: string, post: string, ignoreCase: bool)
    requires IsPlain(v)
    ensures Field(Tagged(name, v) + post, name, ignoreCase) == Some(v)
  {
    DelimitedOfLeading(name, v, post, ignoreCase);
    TrimOfPadded([], v, []);
    assert [] + v + [] == v;
  }

  /** A plain value tagged with one of the four field names starts no tag
      of another field: the other names begin with other letters, in
      either case. */
  lemma NoOtherTagStart(name: string, v: string, other: string, ignoreCase: bool)
    requires name in [InstructionsName, CallIdName, NameName, ParametersName]
    requires other in [InstructionsName, CallIdName, NameName, ParametersName]
    requires name != other
    requires IsPlain(v)
    ensures NoTagStart(Tagged(name, v), other[0], ignoreCase)
  {
    NoTagStartTagged(name, v, other[0], ignoreCase);
  }

  /** The parts of a rendered content, one per field. */
  function Parts(f: Fields, paramsText: string): (r: seq<string>)
    ensures |r| == 4 && RenderContent(f, paramsText) == r[0] + r[1] + r[2] + r[3]
  {
    [Tagged(InstructionsName, f.instructions), Tagged(CallIdName, f.callId),
     Tagged(NameName, f.name), Tagged(ParametersName, paramsText)]
  }

  lemma Regroup(a: string, b: string, c: string, d: string)
    ensures a + b + c + d == a + (b + c + d) == a + (b + (c + d))
    ensures a + b + c + d == (a + b) + (c + d) == (a + b + c) + (d + [])
  {
    assert d + [] == d;
  }

  lemma InstructionsOfRendered(f: Fields, paramsText: string, ignoreCase: bool)
    requires IsPlain(f.instructions)
    ensures Field(RenderContent(f, paramsText), InstructionsName, ignoreCase) == Some(f.instructions)
  {
    var t := Parts(f, paramsText);
    Regroup(t[0], t[1], t[2], t[3]);
    FieldOfLeading(InstructionsName, f.instructions, t[1] + t[2] + t[3], ignoreCase);
  }

  lemma CallIdOfRendered(f: Fields, paramsText: string, ignoreCase: bool)
    requires IsPlain(f.instructions) && IsPlain(f.callId)
    ensures Field(RenderContent(f, paramsText), CallIdName, ignoreCase) == Some(f.callId)
  {
    var t := Parts(f, paramsText);
    Regroup(t[0], t[1], t[2], t[3]);
    NoOtherTagStart(InstructionsName, f.instructions, CallIdName, ignoreCase);
    FieldSkipsPrefix(t[0], t[1] + (t[2] + t[3]), CallIdName, ignoreCase);
    FieldOfLeading(CallIdName, f.callId, t[2] + t[3], ignoreCase);
  }

  lemma NameOfRendered(f: Fields, paramsText: string, ignoreCase: bool)
    requires IsPlain(f.instructions) && IsPlain(f.callId) && IsPlain(f.name)
    ensures Field(RenderContent(f, paramsText), NameName, ignoreCase) == Some(f.name)
  {
    var t := Parts(f, paramsText);
    Regroup(t[0], t[1], t[2], t[3]);
    NoOtherTagStart(InstructionsName, f.instructions, NameName, ignoreCase);
    NoOtherTagStart(CallIdName, f.callId, NameName, ignoreCase);
    NoTagStartConcat(t[0], t[1], NameName[0], ignoreCase);
    FieldSkipsPrefix(t[0] + t[1], t[2] + t[3], NameName, ignoreCase);
    FieldOfLeading(NameName, f.name, t[3], ignoreCase);
  }

  lemma ParametersOfRendered(f: Fields, paramsText: string, ignoreCase: bool)
    requires IsPlain(f.instructions) && IsPlain(f.callId) && IsPlain(f.name) && IsPlain(paramsText)
    ensures Field(RenderContent(f, paramsText), ParametersName, ignoreCase) == Some(paramsText)
  {
    var t := Parts(f, paramsText);
    Regroup(t[0], t[1], t[2], t[3]);
    NoOtherTagStart(InstructionsName, f.instructions, ParametersName, ignoreCase);
    NoOtherTagStart(CallIdName, f.callId, ParametersName, ignoreCase);
    NoOtherTagStart(NameName, f.name, ParametersName, ignoreCase);
    NoTagStartConcat(t[0], t[1], ParametersName[0], ignoreCase);
    NoTagStartConcat(t[0] + t[1], t[2], ParametersName[0], ignoreCase);
    FieldSkipsPrefix(t[0] + t[1] + t[2], t[3] + [], ParametersName, ignoreCase);
    FieldOfLeading(ParametersName, paramsText, [], ignoreCase);
  }

  /** Rendering fields into a block's content and extracting them again
      gives the fields back, for values that are trimmed and hold no `<`,
      and a parameters text that parses to the parameters. */
  lemma ExtractRendered(f: Fields, paramsText: string, ignoreCase: bool, jsonParse: string -> Option<Json>)
    requires IsPlain(f.instructions) && IsPlain(f.callId) && IsPlain(f.name) && IsPlain(paramsText)
    requires jsonParse(paramsText) == Some(f.parameters)
    ensures ExtractFields(RenderContent(f, paramsText), ignoreCase, jsonParse) == Some(f)
  {
    InstructionsOfRendered(f, paramsText, ignoreCase);
    CallIdOfRendered(f, paramsText, ignoreCase);
    NameOfRendered(f, paramsText, ignoreCase);
    ParametersOfRendered(f, paramsText, ignoreCase);
  }

  // ---------------------------------------------------------------------
  // Complete call blocks

  /** `b` is one complete call block: the opening tag, a body in which no
      closing tag occurs, and the closing tag. */
  predicate IsCallBlock(b: string) {
    && |CallOpen| + |CallClose| <= |b|
    && b[..|CallOpen|] == CallOpen
    && b[|b| - |CallClose|..] == CallClose
    && forall j :: |CallOpen| <= j < |b| - |CallClose| ==> !MatchesAt(b, j, CallClose, false)
  }

  /** The body of a call block, between its tags. */
  function Body(b: string): string
    requires IsCallBlock(b)
  {
    b[|CallOpen|..|b| - |CallClose|]
  }

  lemma BlockOpenFound(b: string, rest: string)
    requires IsCallBlock(b)
    ensures Find(b + rest, CallOpen, 0, false) == Some(0)
  {
    var s := b + rest;
    assert s[0..|CallOpen|] == CallOpen;
    MatchesAtExact(s, 0, CallOpen);
    FindIs(s, CallOpen, 0, false, 0);
  }

  lemma BlockCloseFound(b: string, rest: string)
    requires IsCallBlock(b)
    ensures Find(b + rest, CallClose, |CallOpen|, false) == Some(|b| - |CallClose|)
  {
    var s := b + rest;
    var q := |b| - |CallClose|;
    assert s[q..q + |CallClose|] == CallClose;
    MatchesAtExact(s, q, CallClose);
    forall j | |CallOpen| <= j < q ensures !MatchesAt(s, j, CallClose, false) {
      MatchesAtPrefix(b, rest, j, CallClose, false);
    }
    FindIs(s, CallClose, |CallOpen|, false, q);
  }

  lemma BodyInText(b: string, rest: string)
    requires IsCallBlock(b)
    ensures (b + rest)[|CallOpen|..|b| - |CallClose|] == Body(b)
  {
  }

  /** A search from the start of a text that begins with a complete block
      matches exactly that block. */
  lemma LeadingBlockMatch(b: string, rest: string)
    requires IsCallBlock(b)
    ensures FindDelimited(b + rest, CallOpen, CallClose, 0, false) == Some(Match(0, |b|, Body(b)))
  {
    var s := b + rest;
    var q := |b| - |CallClose|;
    BlockOpenFound(b, rest);
    BlockCloseFound(b, rest);
    BodyInText(b, rest);
    FindDelimitedOfSearchesAs(s, CallOpen, CallClose, 0, false, 0, |CallOpen|, q, |b|, Body(b));
  }

  /** Every `</` in `s` is followed, inside `s`, by something other than
      `m`, and no `<` ends `s`: no `</mfcs_call>` begins in `s`. */
  predicate NoCallCloseStart(s: string) {
    forall j :: 0 <= j < |s| && s[j] == '<' ==> j + 2 < |s| && (s[j + 1] != '/' || s[j + 2] != 'm')
  }

  lemma NoCallCloseStartConcat(a: string, b: string)
    requires NoCallCloseStart(a) && NoCallCloseStart(b)
    ensures NoCallCloseStart(a + b)
  {
    var s := a + b;
    forall j | 0 <= j < |s| && s[j] == '<' ensures j + 2 < |s| && (s[j + 1] != '/' || s[j + 2] != 'm') {
      if j < |a| {
        assert a[j] == '<';
      } else {
        assert b[j - |a|] == '<';
      }
    }
  }

  lemma NoCallCloseStartTagged(name: string, v: string)
    requires name != [] && name[0] != 'm' && name[0] != '/' && (forall i :: 0 <= i < |name| ==> name[i] != '<')
    requires IsPlain(v)
    ensures NoCallCloseStart(Tagged(name, v))
  {
    var o := OpenTag(name);
    var cl := CloseTag(name);
    var s := Tagged(name, v);
    assert s == o + v + cl;
    assert forall k :: 0 < k < |o| ==> s[k] == o[k];
    assert forall k :: |o| <= k < |o| + |v| ==> s[k] == v[k - |o|];
    assert forall k :: |o| + |v| + 1 < k < |s| ==> s[k] == cl[k - |o| - |v|];
    forall j | 0 <= j < |s| && s[j] == '<' ensures j + 2 < |s| && (s[j + 1] != '/' || s[j + 2] != 'm') {
      if j == 0 {
        assert s[1] == name[0];
      } else {
        assert j == |o| + |v|;
        assert s[j + 2] == name[0];
      }
    }
  }

  lemma NoCallCloseInBody(body: string)
    requires NoCallCloseStart(body)
    ensures IsCallBlock(CallOpen + body + CallClose)
  {
    var b := CallOpen + body + CallClose;
    assert b[..|CallOpen|] == CallOpen;
    assert b[|b| - |CallClose|..] == CallClose;
    forall j | |CallOpen| <= j < |b| - |CallClose| ensures !MatchesAt(b, j, CallClose, false) {
      MatchesAtExact(b, j, CallClose);
      var k := j - |CallOpen|;
      assert b[j] == body[k];
      if body[k] == '<' {
        assert b[j + 1] == body[k + 1] && b[j + 2] == body[k + 2];
        assert b[j..j + |CallClose|][1] == b[j + 1] && b[j..j + |CallClose|][2] == b[j + 2];
      } else {
        assert b[j..j + |CallClose|][0] == b[j];
      }
    }
  }

  /** A rendered block is a complete call block whose body is the rendered
      content. */
  lemma RenderedIsCallBlock(f: Fields, paramsText: string)
    requires IsPlain(f.instructions) && IsPlain(f.callId) && IsPlain(f.name) && IsPlain(paramsText)
    ensures IsCallBlock(RenderBlock(f, paramsText))
    ensures Body(RenderBlock(f, paramsText)) == RenderContent(f, paramsText)
  {
    var t := Parts(f, paramsText);
    NoCallCloseStartTagged(InstructionsName, f.instructions);
    NoCallCloseStartTagged(CallIdName, f.callId);
    NoCallCloseStartTagged(NameName, f.name);
    NoCallCloseStartTagged(ParametersName, paramsText);
    NoCallCloseStartConcat(t[0], t[1]);
    NoCallCloseStartConcat(t[0] + t[1], t[2]);
    NoCallCloseStartConcat(t[0] + t[1] + t[2], t[3]);
    NoCallCloseInBody(RenderContent(f, paramsText));
  }
}
