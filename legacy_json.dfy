/** The untyped records of the first two servers (main.go and nicotrans.go):
    the comment server's answer decoded into `[]interface{}`, the comments
    picked out of it by type assertions, and the positional write of the
    translated bodies back into the records. */
module LegacyJson {
  import opened Common
  import opened Http

  /** The most bytes the translator accepts in one request; both servers
      pack their items into buffers of at most this many bytes. */
  const MaxChunkLength: int := 5000

  /** A decoded JSON value, as `encoding/json` stores it in an
      `interface{}`: numbers keep their literal text (they are never looked
      at), strings are their bytes, objects are `map[string]interface{}`. */
  datatype Json =
    | JNull
    | JBool(truth: bool)
    | JNumber(literal: string)
    | JString(text: bytes)
    | JArray(elements: seq<Json>)
    | JObject(members: map<string, Json>)

  /** A comment picked out of the records: the position of its record and
      its text (`Chat` in main.go, `Reply` in nicotrans.go). */
  datatype Comment = Comment(index: int, content: bytes)

  /** The texts of the comments, in order. */
  function Texts(comments: seq<Comment>): seq<bytes>
  {
    seq(|comments|, k requires 0 <= k < |comments| => comments[k].content)
  }

  // ---------------------------------------------------------------- picking comments out

  /** What the extraction loop does with record `v` at position `i`:
      `v.(map[string]interface{})` and `chat.(map[string]interface{})` and
      `content.(string)` panic on a value of another type (JSON `null`
      included); a record without `chat`, and a chat whose `content` is
      missing or the empty string, are skipped. */
  function Pick(v: Json, i: int): Outcome<Option<Comment>>
  {
    if !v.JObject? then Panicked(TypeAssertion)
    else if "chat" !in v.members then Returned(None)
    else
      var chat := v.members["chat"];
      if !chat.JObject? then Panicked(TypeAssertion)
      else if "content" !in chat.members || chat.members["content"] == JString([]) then Returned(None)
      else if !chat.members["content"].JString? then Panicked(TypeAssertion)
      else Returned(Some(Comment(i, chat.members["content"].text)))
  }

  /** The extraction loop over all records, in order; it stops at the first
      record that panics. */
  function Extract(items: seq<Json>): Outcome<seq<Comment>>
  {
    if items == [] then Returned([])
    else
      var n := |items| - 1;
      match Extract(items[..n])
      case Panicked(p) => Panicked(p)
      case Returned(cs) =>
        match Pick(items[n], n)
        case Panicked(p) => Panicked(p)
        case Returned(None) => Returned(cs)
        case Returned(Some(c)) => Returned(cs + [c])
  }

  /** A record the extraction loop cannot get past: not an object, or a
      `chat` that is not an object, or a `content` that is neither missing,
      nor "", nor a string. */
  predicate Malformed(v: Json)
  {
    !v.JObject?
    || ("chat" in v.members
        && (!v.members["chat"].JObject?
            || ("content" in v.members["chat"].members
                && v.members["chat"].members["content"] != JString([])
                && !v.members["chat"].members["content"].JString?)))
  }

  /** Record `v` carries the non-empty comment text `c`. */
  predicate Carries(v: Json, c: bytes)
  {
    v.JObject? && "chat" in v.members && v.members["chat"].JObject?
    && "content" in v.members["chat"].members
    && v.members["chat"].members["content"] == JString(c) && c != []
  }

  /** The extraction loop of `fetchMessage` and `fetchComments`. */
  method ExtractComments(items: seq<Json>) returns (out: Outcome<seq<Comment>>)
    ensures out == Extract(items)
  {
    var comments: seq<Comment> := [];
    for i := 0 to |items|
      invariant Extract(items[..i]) == Returned(comments)
    {
      assert items[..i + 1][..i] == items[..i];
      var v := items[i];
      if !v.JObject? {
        ExtractStops(items, i + 1);
        return Panicked(TypeAssertion);
      }
      if "chat" !in v.members {
        continue;
      }
      var chat := v.members["chat"];
      if !chat.JObject? {
        ExtractStops(items, i + 1);
        return Panicked(TypeAssertion);
      }
      if "content" !in chat.members || chat.members["content"] == JString([]) {
        continue;
      }
      var content := chat.members["content"];
      if !content.JString? {
        ExtractStops(items, i + 1);
        return Panicked(TypeAssertion);
      }
      comments := comments + [Comment(i, content.text)];
    }
    assert items[..|items|] == items;
    return Returned(comments);
  }

  // ---------------------------------------------------------------- writing translations back

  /** `v.(map[string]interface{})["chat"].(map[string]interface{})["content"] = content`:
      a record that is not an object, or whose `chat` is missing or not an
      object, panics. */
  function SetContent(v: Json, content: bytes): Outcome<Json>
  {
    if !v.JObject? || "chat" !in v.members || !v.members["chat"].JObject? then Panicked(TypeAssertion)
    else
      var chat := v.members["chat"];
      Returned(JObject(v.members["chat" := JObject(chat.members["content" := JString(content)])]))
  }

  /** The write-back loop: the k-th match becomes the content of the record
      of the k-th comment. A match past the last comment, or a comment
      naming no record, panics. */
  function Rewrite(items: seq<Json>, comments: seq<Comment>, matches: seq<bytes>): Outcome<seq<Json>>
  {
    if matches == [] then Returned(items)
    else
      var line := |matches| - 1;
      match Rewrite(items, comments, matches[..line])
      case Panicked(p) => Panicked(p)
      case Returned(current) =>
        if line >= |comments| || !(0 <= comments[line].index < |current|) then Panicked(IndexOutOfRange)
        else
          var index := comments[line].index;
          match SetContent(current[index], matches[line])
          case Panicked(p) => Panicked(p)
          case Returned(v) => Returned(current[index := v])
  }

  /** The write-back loop of both handlers. */
  method ApplyMatches(items: seq<Json>, comments: seq<Comment>, matches: seq<bytes>)
    returns (out: Outcome<seq<Json>>)
    ensures out == Rewrite(items, comments, matches)
  {
    var current := items;
    for line := 0 to |matches|
      invariant Rewrite(items, comments, matches[..line]) == Returned(current)
    {
      assert matches[..line + 1][..line] == matches[..line];
      if line >= |comments| || !(0 <= comments[line].index < |current|) {
        RewriteStops(items, comments, matches, line + 1);
        return Panicked(IndexOutOfRange);
      }
      var index := comments[line].index;
      var v := SetContent(current[index], matches[line]);
      if v.Panicked? {
        RewriteStops(items, comments, matches, line + 1);
        return Panicked(v.panic);
      }
      current := current[index := v.value];
    }
    assert matches[..|matches|] == matches;
    return Returned(current);
  }

  /** The end of both handlers: `json.Marshal` of the records, whose error
      is raised as a panic, and the bytes written with status 200 and the
      `Access-Control-Allow-Origin: *` header. */
  function Encoded(items: seq<Json>, encode: seq<Json> -> Result<bytes, Error>): Response
  {
    match encode(items)
    case Failure(e) => Aborted(Raised(e))
    case Success(body) => Reply(StatusOK, Some("*"), body)
  }

  // ---------------------------------------------------------------- properties

  /** Once extraction has panicked, later records change nothing. */
  lemma {:induction false} ExtractStops(items: seq<Json>, k: nat)
    requires k <= |items|
    requires Extract(items[..k]).Panicked?
    ensures Extract(items) == Extract(items[..k])
    decreases |items|
  {
    if k < |items| {
      var n := |items| - 1;
      assert items[..n][..k] == items[..k];
      ExtractStops(items[..n], k);
    } else {
      assert items[..k] == items;
    }
  }

  /** Extraction panics exactly when some record is malformed, and then
      with a failed type assertion. Otherwise it yields, in record order,
      one comment per record that carries a non-empty text, with that
      record's position and text. */
  lemma {:induction false} ExtractSpec(items: seq<Json>)
    ensures Extract(items).Panicked? <==> exists i :: 0 <= i < |items| && Malformed(items[i])
    ensures Extract(items).Panicked? ==> Extract(items).panic == TypeAssertion
    ensures Extract(items).Returned? ==>
              forall k :: 0 <= k < |Extract(items).value| ==>
                0 <= Extract(items).value[k].index < |items|
                && Carries(items[Extract(items).value[k].index], Extract(items).value[k].content)
    ensures Extract(items).Returned? ==>
              forall k1, k2 :: 0 <= k1 < k2 < |Extract(items).value| ==>
                Extract(items).value[k1].index < Extract(items).value[k2].index
    ensures Extract(items).Returned? ==>
              forall i, c :: 0 <= i < |items| && Carries(items[i], c) ==>
                exists k :: 0 <= k < |Extract(items).value| && Extract(items).value[k] == Comment(i, c)
  {
    ExtractPanicSpec(items);
    if Extract(items).Returned? {
      ExtractReturnSpec(items);
    }
  }

  /** The panic half of `ExtractSpec`. */
  lemma {:induction false} ExtractPanicSpec(items: seq<Json>)
    ensures Extract(items).Panicked? <==> exists i :: 0 <= i < |items| && Malformed(items[i])
    ensures Extract(items).Panicked? ==> Extract(items).panic == TypeAssertion
  {
    if items != [] {
      var n := |items| - 1;
      var prev := items[..n];
      ExtractPanicSpec(prev);
      PickSpec(items[n], n);
      if Extract(prev).Panicked? {
        var i :| 0 <= i < n && Malformed(prev[i]);
        assert prev[i] == items[i];
      } else {
        forall i | 0 <= i < n ensures !Malformed(items[i]) {
          assert prev[i] == items[i];
        }
      }
    }
  }

  /** The comment half of `ExtractSpec`. */
  lemma ExtractReturnSpec(items: seq<Json>)
    requires Extract(items).Returned?
    ensures forall k :: 0 <= k < |Extract(items).value| ==>
              0 <= Extract(items).value[k].index < |items|
              && Carries(items[Extract(items).value[k].index], Extract(items).value[k].content)
    ensures forall k1, k2 :: 0 <= k1 < k2 < |Extract(items).value| ==>
              Extract(items).value[k1].index < Extract(items).value[k2].index
    ensures forall i, c :: 0 <= i < |items| && Carries(items[i], c) ==>
              exists k :: 0 <= k < |Extract(items).value| && Extract(items).value[k] == Comment(i, c)
  {
    ExtractCarried(items);
    ExtractAscending(items);
    ExtractComplete(items);
  }

  lemma {:induction false} ExtractCarried(items: seq<Json>)
    requires Extract(items).Returned?
    ensures forall k :: 0 <= k < |Extract(items).value| ==>
              0 <= Extract(items).value[k].index < |items|
              && Carries(items[Extract(items).value[k].index], Extract(items).value[k].content)
  {
    if items != [] {
      var n := |items| - 1;
      var prev := items[..n];
      ExtractLast(items);
      ExtractCarried(prev);
      PickSpec(items[n], n);
      var ps := Extract(prev).value;
      var cs := Extract(items).value;
      forall k | 0 <= k < |cs|
        ensures 0 <= cs[k].index < |items| && Carries(items[cs[k].index], cs[k].content)
      {
        if k < |ps| {
          assert cs[k] == ps[k];
          assert prev[ps[k].index] == items[ps[k].index];
        }
      }
    }
  }

  lemma {:induction false} ExtractAscending(items: seq<Json>)
    requires Extract(items).Returned?
    ensures forall k1, k2 :: 0 <= k1 < k2 < |Extract(items).value| ==>
              Extract(items).value[k1].index < Extract(items).value[k2].index
  {
    if items != [] {
      var n := |items| - 1;
      var prev := items[..n];
      ExtractLast(items);
      ExtractAscending(prev);
      ExtractCarried(prev);
      PickSpec(items[n], n);
      var ps := Extract(prev).value;
      var cs := Extract(items).value;
      forall k1, k2 | 0 <= k1 < k2 < |cs| ensures cs[k1].index < cs[k2].index {
        assert cs[k1] == ps[k1];
        if k2 < |ps| {
          assert cs[k2] == ps[k2];
        }
      }
    }
  }

  lemma {:induction false} ExtractComplete(items: seq<Json>)
    requires Extract(items).Returned?
    ensures forall i, c :: 0 <= i < |items| && Carries(items[i], c) ==>
              exists k :: 0 <= k < |Extract(items).value| && Extract(items).value[k] == Comment(i, c)
  {
    if items != [] {
      var n := |items| - 1;
      var prev := items[..n];
      ExtractLast(items);
      ExtractComplete(prev);
      PickSpec(items[n], n);
      var ps := Extract(prev).value;
      var cs := Extract(items).value;
      forall i, c | 0 <= i < |items| && Carries(items[i], c)
        ensures exists k :: 0 <= k < |cs| && cs[k] == Comment(i, c)
      {
        if i < n {
          assert prev[i] == items[i];
          var k :| 0 <= k < |ps| && ps[k] == Comment(i, c);
          assert cs[k] == Comment(i, c);
        } else {
          assert cs[|ps|] == Comment(i, c);
        }
      }
    }
  }

  /** One step of extraction that did not panic: the comments so far, and
      the last record's comment if it has one. */
  lemma ExtractLast(items: seq<Json>)
    requires items != [] && Extract(items).Returned?
    ensures Extract(items[..|items| - 1]).Returned? && Pick(items[|items| - 1], |items| - 1).Returned?
    ensures var o := Pick(items[|items| - 1], |items| - 1).value;
            Extract(items).value == Extract(items[..|items| - 1]).value + if o.Some? then [o.value] else []
  {
  }

  /** The record-level facts behind `ExtractSpec`. */
  lemma PickSpec(v: Json, i: int)
    ensures Pick(v, i).Panicked? <==> Malformed(v)
    ensures Pick(v, i).Panicked? ==> Pick(v, i).panic == TypeAssertion
    ensures Pick(v, i).Returned? && Pick(v, i).value.Some? ==>
              Pick(v, i).value.value.index == i && Carries(v, Pick(v, i).value.value.content)
    ensures forall c :: Carries(v, c) ==> Pick(v, i) == Returned(Some(Comment(i, c)))
  {
  }

  /** Once the write-back has panicked, later matches change nothing. */
  lemma {:induction false} RewriteStops(items: seq<Json>, comments: seq<Comment>, matches: seq<bytes>, k: nat)
    requires k <= |matches|
    requires Rewrite(items, comments, matches[..k]).Panicked?
    ensures Rewrite(items, comments, matches) == Rewrite(items, comments, matches[..k])
    decreases |matches|
  {
    if k < |matches| {
      var n := |matches| - 1;
      assert matches[..n][..k] == matches[..k];
      RewriteStops(items, comments, matches[..n], k);
    } else {
      assert matches[..k] == matches;
    }
  }

  /** A record that carries a comment takes any new content, and then
      carries that content; nothing else in the record changes. */
  lemma SetContentSpec(v: Json, c: bytes, content: bytes)
    requires Carries(v, c)
    ensures SetContent(v, content).Returned?
    ensures content != [] ==> Carries(SetContent(v, content).value, content)
    ensures SetContent(v, c) == Returned(v)
    ensures SetContent(v, content).value.members.Keys == v.members.Keys
    ensures forall key :: key in v.members && key != "chat" ==> SetContent(v, content).value.members[key] == v.members[key]
  {
    var chat := v.members["chat"];
    assert chat.members["content" := JString(c)] == chat.members;
    assert v.members["chat" := JObject(chat.members)] == v.members;
  }

  /** With the comments extraction found, the write-back panics exactly
      when there are more matches than comments. Otherwise the record of
      the k-th comment takes the k-th match, for every match, and every
      other record is left as it was. */
  lemma {:induction false} RewriteSpec(items: seq<Json>, comments: seq<Comment>, matches: seq<bytes>)
    requires Extract(items) == Returned(comments)
    ensures Rewrite(items, comments, matches).Panicked? <==> |matches| > |comments|
    ensures Rewrite(items, comments, matches).Returned? ==>
              |Rewrite(items, comments, matches).value| == |items|
              && (forall k :: 0 <= k < |matches| ==>
                    k < |comments| && 0 <= comments[k].index < |items|
                    && SetContent(items[comments[k].index], matches[k])
                       == Returned(Rewrite(items, comments, matches).value[comments[k].index]))
              && (forall i :: 0 <= i < |items| && (forall k :: 0 <= k < |matches| ==> comments[k].index != i) ==>
                    Rewrite(items, comments, matches).value[i] == items[i])
  {
    ExtractCarried(items);
    ExtractAscending(items);
    if matches != [] {
      var line := |matches| - 1;
      var prev := matches[..line];
      RewriteSpec(items, comments, prev);
      if |matches| <= |comments| {
        var current := Rewrite(items, comments, prev).value;
        var index := comments[line].index;
        assert current[index] == items[index] by {
          forall k | 0 <= k < |prev| ensures comments[k].index != index {
            assert comments[k].index < comments[line].index;
          }
        }
        SetContentSpec(items[index], comments[line].content, matches[line]);
        var r := Rewrite(items, comments, matches).value;
        assert r == current[index := SetContent(items[index], matches[line]).value];
        forall k | 0 <= k < |matches|
          ensures SetContent(items[comments[k].index], matches[k]) == Returned(r[comments[k].index])
        {
          if k < line {
            assert comments[k].index < comments[line].index;
            assert prev[k] == matches[k];
          }
        }
        forall i | 0 <= i < |items| && (forall k :: 0 <= k < |matches| ==> comments[k].index != i)
          ensures r[i] == items[i]
        {
          assert comments[line].index != i;
          assert current[i] == items[i];
        }
      } else if |prev| <= |comments| {
        assert Rewrite(items, comments, matches).Panicked?;
      }
    }
  }
}
