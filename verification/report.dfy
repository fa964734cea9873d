/** The results report `emitApiResults` builds: the results sorted by call
    id, one line each, between `<mfcs_result>` and `</mfcs_result>`. */
module ResultReport {
  import opened Wrappers
  import opened JsonValue
  import Numbers
  import ResponseParser

  /** One stored result: the id it answers, the tool's name and its value. */
  datatype ApiResult = ApiResult(callId: int, name: string, result: Json)

  // ---------------------------------------------------------------------
  // Sorting by call id

  /** Ids never decrease along `rs`. */
  predicate SortedById(rs: seq<ApiResult>) {
    forall i, j :: 0 <= i < j < |rs| ==> rs[i].callId <= rs[j].callId
  }

  /** Ids strictly increase along `rs`. */
  predicate StrictlyAscending(rs: seq<ApiResult>) {
    forall i, j :: 0 <= i < j < |rs| ==> rs[i].callId < rs[j].callId
  }

  /** No id occurs twice in `rs`. */
  predicate DistinctIds(rs: seq<ApiResult>) {
    forall i, j :: 0 <= i < j < |rs| ==> rs[i].callId != rs[j].callId
  }

  /** `x` inserted into sorted `rs` after every result whose id is not
      larger: a stable insertion. */
  function Insert(x: ApiResult, rs: seq<ApiResult>): (r: seq<ApiResult>)
    ensures |r| == |rs| + 1
  {
    if rs == [] then [x]
    else if x.callId < rs[0].callId then [x] + rs
    else [rs[0]] + Insert(x, rs[1..])
  }

  /** `Array.prototype.sort` with the comparator `a.call_id - b.call_id`:
      a stable sort by ascending id. */
  function SortById(rs: seq<ApiResult>): (r: seq<ApiResult>)
    ensures |r| == |rs|
  {
    if rs == [] then [] else Insert(rs[|rs| - 1], SortById(rs[..|rs| - 1]))
  }

  lemma {:induction false} InsertPermutes(x: ApiResult, rs: seq<ApiResult>)
    ensures multiset(Insert(x, rs)) == multiset(rs) + multiset{x}
  {
    if rs != [] && x.callId >= rs[0].callId {
      InsertPermutes(x, rs[1..]);
      assert rs == [rs[0]] + rs[1..];
    }
  }

  /** A lower bound of `x` and of every id in `rs` bounds the insertion. */
  lemma {:induction false} InsertBounded(x: ApiResult, rs: seq<ApiResult>, lo: int)
    requires lo <= x.callId
    requires forall i :: 0 <= i < |rs| ==> lo <= rs[i].callId
    ensures forall k :: 0 <= k < |Insert(x, rs)| ==> lo <= Insert(x, rs)[k].callId
  {
    if rs != [] && x.callId >= rs[0].callId {
      InsertBounded(x, rs[1..], lo);
      var t := Insert(x, rs[1..]);
      assert Insert(x, rs) == [rs[0]] + t;
    }
  }

  lemma {:induction false} InsertSorted(x: ApiResult, rs: seq<ApiResult>)
    requires SortedById(rs)
    ensures SortedById(Insert(x, rs))
  {
    if rs != [] && x.callId >= rs[0].callId {
      InsertSorted(x, rs[1..]);
      InsertBounded(x, rs[1..], rs[0].callId);
      var t := Insert(x, rs[1..]);
      var r := [rs[0]] + t;
      assert forall k :: 1 <= k < |r| ==> r[k] == t[k - 1];
    }
  }

  /** The sort reorders and never loses or duplicates a result, and the
      ids come out in ascending order. */
  lemma {:induction false} SortByIdSpec(rs: seq<ApiResult>)
    ensures multiset(SortById(rs)) == multiset(rs)
    ensures SortedById(SortById(rs))
  {
    if rs != [] {
      var front := rs[..|rs| - 1];
      SortByIdSpec(front);
      InsertPermutes(rs[|rs| - 1], SortById(front));
      InsertSorted(rs[|rs| - 1], SortById(front));
      assert rs == front + [rs[|rs| - 1]];
    }
  }

  /** With distinct ids, the sorted results have strictly ascending ids. */
  lemma SortByIdStrict(rs: seq<ApiResult>)
    requires DistinctIds(rs)
    ensures StrictlyAscending(SortById(rs))
  {
    SortByIdSpec(rs);
    var s := SortById(rs);
    forall i, j | 0 <= i < j < |s| ensures s[i].callId < s[j].callId {
      assert s[i].callId != s[j].callId by {
        DistinctAfterPermutation(rs, s, i, j);
      }
    }
  }

  /** Two positions of a permutation of results with distinct ids carry
      different ids. */
  lemma DistinctAfterPermutation(rs: seq<ApiResult>, s: seq<ApiResult>, i: nat, j: nat)
    requires DistinctIds(rs) && multiset(s) == multiset(rs)
    requires i < j < |s|
    ensures s[i].callId != s[j].callId
  {
    if s[i].callId == s[j].callId {
      assert s[i] in multiset(rs) && s[j] in multiset(rs);
      var a :| 0 <= a < |rs| && rs[a] == s[i];
      var b :| 0 <= b < |rs| && rs[b] == s[j];
      if a == b {
        // the same result twice in `s` needs two copies in `rs`
        assert s == s[..j] + [s[j]] + s[j + 1..];
        assert s[i] in s[..j];
        assert multiset(s)[s[i]] >= 2 by {
          assert multiset(s) == multiset(s[..j]) + multiset{s[j]} + multiset(s[j + 1..]);
          assert multiset(s[..j])[s[i]] >= 1;
        }
        OnlyOneCopy(rs, a);
        assert false;
      }
    }
  }

  /** A result of `rs` with distinct ids occurs in it exactly once. */
  lemma {:induction false} OnlyOneCopy(rs: seq<ApiResult>, a: nat)
    requires DistinctIds(rs) && a < |rs|
    ensures multiset(rs)[rs[a]] == 1
  {
    var x := rs[a];
    var pre, post := rs[..a], rs[a + 1..];
    assert rs == pre + [x] + post;
    forall k | 0 <= k < |pre| ensures pre[k] != x {
      assert rs[k].callId != rs[a].callId;
    }
    forall k | 0 <= k < |post| ensures post[k] != x {
      assert rs[a + 1 + k].callId != rs[a].callId;
    }
    assert x !in pre && x !in post;
    assert multiset(rs) == multiset(pre) + multiset{x} + multiset(post);
  }

  /** The first of a strictly ascending sequence has the smallest id. */
  lemma HeadIsLeast(s: seq<ApiResult>, x: ApiResult)
    requires StrictlyAscending(s) && x in multiset(s)
    ensures s[0].callId <= x.callId
    ensures x.callId == s[0].callId ==> x == s[0]
  {
    var a :| 0 <= a < |s| && s[a] == x;
    assert a == 0 || s[0].callId < s[a].callId;
  }

  /** Removing the same first element from sequences with the same
      elements leaves sequences with the same elements. */
  lemma SameTails(s: seq<ApiResult>, t: seq<ApiResult>)
    requires s != [] && t != [] && s[0] == t[0]
    requires multiset(s) == multiset(t)
    ensures multiset(s[1..]) == multiset(t[1..])
  {
    assert s == [s[0]] + s[1..] && t == [t[0]] + t[1..];
    assert multiset(s[1..]) == multiset(s) - multiset{s[0]};
    assert multiset(t[1..]) == multiset(t) - multiset{t[0]};
  }

  /** Strictly ascending sequences with the same elements are equal: sorted
      output does not depend on the order the results arrived in. */
  lemma {:induction false} AscendingUnique(s: seq<ApiResult>, t: seq<ApiResult>)
    requires StrictlyAscending(s) && StrictlyAscending(t)
    requires multiset(s) == multiset(t)
    ensures s == t
    decreases |s|
  {
    if s == [] || t == [] {
      assert |multiset(s)| == |s| && |multiset(t)| == |t|;
    } else {
      assert s[0] in multiset(t) && t[0] in multiset(s);
      HeadIsLeast(t, s[0]);
      HeadIsLeast(s, t[0]);
      SameTails(s, t);
      AscendingUnique(s[1..], t[1..]);
      assert s == [s[0]] + s[1..] && t == [t[0]] + t[1..];
    }
  }

  // ---------------------------------------------------------------------
  // Rendering

  /** A string result is written as it is; any other value as its
      `JSON.stringify` text. */
  function Payload(r: ApiResult, stringify: Json -> string): (p: string)
    ensures r.result.JString? ==> p == r.result.s
    ensures !r.result.JString? ==> p == stringify(r.result)
  {
    match r.result
    case JString(s) => s
    case _ => stringify(r.result)
  }

  const LinePrefix: string := "[call_id: "
  const NameLabel: string := " name: "

  /** `[call_id: N name: X] payload` and a newline. */
  function Line(r: ApiResult, stringify: Json -> string): string {
    LinePrefix + Numbers.IntToString(r.callId) + NameLabel + r.name + "] " + Payload(r, stringify) + "\n"
  }

  function Lines(rs: seq<ApiResult>, stringify: Json -> string): string {
    if rs == [] then [] else Line(rs[0], stringify) + Lines(rs[1..], stringify)
  }

  /** The report `emitApiResults` emits for the stored results `rs`. */
  function Report(rs: seq<ApiResult>, stringify: Json -> string): (text: string)
    ensures |text| >= |ResponseParser.ApiResultTag| + 1 + |ResponseParser.ApiResultEndTag|
    ensures text[..|ResponseParser.ApiResultTag| + 1] == ResponseParser.ApiResultTag + "\n"
    ensures text[|text| - |ResponseParser.ApiResultEndTag|..] == ResponseParser.ApiResultEndTag
  {
    var body := Lines(SortById(rs), stringify);
    var text := ResponseParser.ApiResultTag + "\n" + body + ResponseParser.ApiResultEndTag;
    assert text[..|ResponseParser.ApiResultTag| + 1] == ResponseParser.ApiResultTag + "\n";
    text
  }

  /** The report is the tags around one line per result in ascending id
      order: for results with distinct ids, any strictly ascending
      arrangement of them gives the report's lines. */
  lemma ReportOfAscending(rs: seq<ApiResult>, sorted: seq<ApiResult>, stringify: Json -> string)
    requires DistinctIds(rs)
    requires StrictlyAscending(sorted) && multiset(sorted) == multiset(rs)
    ensures Report(rs, stringify)
         == ResponseParser.ApiResultTag + "\n" + Lines(sorted, stringify) + ResponseParser.ApiResultEndTag
  {
    SortByIdStrict(rs);
    SortByIdSpec(rs);
    AscendingUnique(SortById(rs), sorted);
  }

  /** The report does not depend on the order the results were stored in. */
  lemma ReportIndependentOfOrder(rs: seq<ApiResult>, rs': seq<ApiResult>, stringify: Json -> string)
    requires DistinctIds(rs) && multiset(rs') == multiset(rs)
    ensures Report(rs, stringify) == Report(rs', stringify)
  {
    SortByIdStrict(rs);
    SortByIdSpec(rs);
    var s := SortById(rs);
    forall i, j | 0 <= i < j < |rs'| ensures rs'[i].callId != rs'[j].callId {
      DistinctAfterPermutation(rs, rs', i, j);
    }
    ReportOfAscending(rs, s, stringify);
    ReportOfAscending(rs', s, stringify);
  }

  /** Reading a report line from just after `[call_id: ` with `parseInt`
      gives back the line's id. */
  lemma LineId(r: ApiResult, stringify: Json -> string)
    ensures Numbers.ParseInt(Line(r, stringify)[|LinePrefix|..]) == Some(r.callId)
  {
    var rest := NameLabel + r.name + "] " + Payload(r, stringify) + "\n";
    assert Line(r, stringify)[|LinePrefix|..] == [] + Numbers.IntToString(r.callId) + rest;
    Numbers.ParseIntOfIntToString(r.callId, [], rest);
  }
}
