/** How the web server takes an incoming request apart: the method and the request target
    are the first two space-separated fields of the request text (in the style of the
    request-line of section 3 of RFC 9112); the path is the target up to the first '?', and
    the query is the text between the first and second '?' (in the style of the query
    component of section 3.4 of RFC 3986); the query becomes a map from the '&'-separated
    `key=value` segments. Every split is Python's `str.split` with one separator. */
module HttpRequest {
  import opened Text

  type QueryMap = map<string, string>

  /** The ways handling a request or registering a handler raises. Registration's failure
      is declared here too, so that both the server's operations share one `Result` type. */
  datatype Error =
    | MissingTarget                      // the request text has no space: no field 1
    | MalformedQuery(segment: string)    // a query segment with two or more '='
    | UnsupportedMethod(name: string)  // registration with a method outside the four

  datatype Result<T> = Ok(value: T) | Err(error: Error) {
    predicate IsFailure() {
      Err?
    }

    function PropagateFailure<U>(): Result<U>
      requires Err?
    {
      Err(error)
    }

    function Extract(): T
      requires Ok?
    {
      value
    }
  }

  // ---------------------------------------------------------------------------------------
  // Request line and target

  /** The method and the raw target: fields 0 and 1 of the request split on ' '. */
  function RequestLine(request: string): (r: Result<(string, string)>)
    ensures r.Err? <==> ' ' !in request
    ensures r.Err? ==> r.error == MissingTarget
    ensures r.Ok? ==> OpensWith(request, r.value.0, ' ', r.value.1)
  {
    var fields := Split(request, ' ');
    assert ' ' in request ==> |fields| >= 2 && OpensWith(request, fields[0], ' ', fields[1]) by {
      SplitFirst(request, ' ');
      if ' ' in request {
        SplitFirstTwo(request, ' ');
      }
    }
    if |fields| < 2 then Err(MissingTarget) else Ok((fields[0], fields[1]))
  }

  /** A request that opens with `method`, a space and `target` (up to the next space or the
      end) is read as exactly that method and target. */
  lemma RequestLineOpensWith(request: string, methodName: string, target: string)
    requires OpensWith(request, methodName, ' ', target)
    ensures RequestLine(request) == Ok((methodName, target))
  {
    OpensWithUnique(request, methodName, ' ', target);
  }

  /** The path and the query of a target: fields 0 and 1 of the target split on '?', the
      query being empty when there is no '?'. */
  function SplitTarget(target: string): (r: (string, string))
    ensures '?' !in r.0 && '?' !in r.1
    ensures '?' !in target ==> r == (target, "")
    ensures '?' in target ==> OpensWith(target, r.0, '?', r.1)
  {
    var parts := Split(target, '?');
    SplitFirst(target, '?');
    assert '?' in target ==> OpensWith(target, parts[0], '?', parts[1]) by {
      if '?' in target {
        SplitFirstTwo(target, '?');
      }
    }
    (parts[0], if |parts| > 1 then parts[1] else "")
  }

  /** A target that opens with `path`, '?' and `query` (up to the next '?' or the end) is
      read as exactly that path and query. */
  lemma SplitTargetOpensWith(target: string, path: string, query: string)
    requires OpensWith(target, path, '?', query)
    ensures SplitTarget(target) == (path, query)
  {
    OpensWithUnique(target, path, '?', query);
  }

  // ---------------------------------------------------------------------------------------
  // Query

  /** A segment contributes to the query map only when it holds an '='. */
  predicate Contributes(segment: string)
  {
    '=' in segment
  }

  /** A segment splits into exactly a key and a value when it holds at most one '='. */
  predicate WellFormed(segment: string)
  {
    multiset(segment)['='] <= 1
  }

  /** The text before the first '='. */
  function Key(segment: string): string
    requires Contributes(segment)
  {
    segment[..IndexOf(segment, '=')]
  }

  /** The text after the first '='. */
  function Value(segment: string): string
    requires Contributes(segment)
  {
    segment[IndexOf(segment, '=') + 1..]
  }

  /** No later contributing segment repeats the key of segment `i`. */
  ghost predicate LastWithKey(segments: seq<string>, i: nat)
    requires i < |segments| && Contributes(segments[i])
  {
    forall j :: i < j < |segments| && Contributes(segments[j]) ==> Key(segments[j]) != Key(segments[i])
  }

  /** A contributing segment splits on '=' into two fields exactly when it is well formed,
      and then the fields are its key and its value. */
  lemma SegmentFields(segment: string)
    requires Contributes(segment)
    ensures |Split(segment, '=')| == 2 <==> WellFormed(segment)
    ensures WellFormed(segment) ==> Split(segment, '=') == [Key(segment), Value(segment)]
  {
    var i := IndexOf(segment, '=');
    var tail := segment[i + 1..];
    assert Split(segment, '=') == [segment[..i]] + Split(tail, '=');
    SplitCount(segment, '=');
    if WellFormed(segment) {
      assert '=' !in tail;
      SplitFirst(tail, '=');
    }
  }

  /** The dictionary built from the segments in order, each contributing segment adding or
      replacing its key; the first contributing segment that does not split into exactly two
      fields aborts the construction. */
  function Collect(segments: seq<string>): (r: Result<QueryMap>)
    ensures r.Err? ==> r.error.MalformedQuery? && r.error.segment in segments && !WellFormed(r.error.segment)
    decreases |segments|
  {
    if segments == [] then Ok(map[])
    else
      var prior :- Collect(segments[..|segments| - 1]);
      var segment := segments[|segments| - 1];
      if !Contributes(segment) then Ok(prior)
      else
        var kv := Split(segment, '=');
        assert |kv| != 2 ==> !WellFormed(segment) by {
          SegmentFields(segment);
        }
        if |kv| != 2 then Err(MalformedQuery(segment)) else Ok(prior[kv[0] := kv[1]])
  }

  /** The query map of a query string. It fails only on an '&'-free stretch of the query
      with two or more '=', so only a query with two or more '=' can fail; a query without
      '=' gives the empty map. */
  function ParseQuery(query: string): (r: Result<QueryMap>)
    ensures r.Err? ==> r.error.MalformedQuery? && '&' !in r.error.segment && !WellFormed(r.error.segment)
    ensures r.Err? ==> multiset(r.error.segment) <= multiset(query) && multiset(query)['='] >= 2
    ensures '=' !in query ==> r == Ok(map[])
  {
    var segments := Split(query, '&');
    assert forall k :: 0 <= k < |segments| ==> multiset(segments[k]) <= multiset(query) by {
      SplitPartsWithin(query, '&');
    }
    assert '=' !in query ==> Collect(segments) == Ok(map[]) by {
      if '=' !in query {
        NoPairs(segments);
      }
    }
    Collect(segments)
  }

  /** Segments without any '=' build the empty map. */
  lemma NoPairs(segments: seq<string>)
    requires forall k :: 0 <= k < |segments| ==> multiset(segments[k])['='] == 0
    ensures Collect(segments) == Ok(map[])
  {
    CollectOk(segments);
    CollectKeys(segments);
    assert Collect(segments).value.Keys == {};
  }

  /** The query map is built exactly when every segment is well formed. */
  lemma {:induction false} CollectOk(segments: seq<string>)
    ensures Collect(segments).Ok? <==> forall i :: 0 <= i < |segments| ==> WellFormed(segments[i])
    decreases |segments|
  {
    if segments != [] {
      var n := |segments|;
      var init := segments[..n - 1];
      CollectOk(init);
      assert forall i :: 0 <= i < n - 1 ==> init[i] == segments[i];
      if Contributes(segments[n - 1]) {
        SegmentFields(segments[n - 1]);
      } else {
        assert multiset(segments[n - 1])['='] == 0;
      }
    }
  }

  /** On failure the error names the first segment that is not well formed. */
  lemma {:induction false} CollectError(segments: seq<string>)
    requires Collect(segments).Err?
    ensures exists i :: (0 <= i < |segments| && !WellFormed(segments[i])
      && Collect(segments).error == MalformedQuery(segments[i])
      && forall j :: 0 <= j < i ==> WellFormed(segments[j]))
    decreases |segments|
  {
    var n := |segments|;
    var init := segments[..n - 1];
    var last := segments[n - 1];
    assert forall i :: 0 <= i < n - 1 ==> init[i] == segments[i];
    if Collect(init).Err? {
      CollectError(init);
      var i :| 0 <= i < n - 1 && !WellFormed(init[i]) && Collect(init).error == MalformedQuery(init[i])
        && forall j :: 0 <= j < i ==> WellFormed(init[j]);
      assert segments[i] == init[i];
    } else {
      CollectOk(init);
      SegmentFields(last);
      assert Collect(segments).error == MalformedQuery(last);
    }
  }

  /** The keys of the query map are the keys of the contributing segments; segments without
      '=' add nothing. */
  lemma {:induction false} CollectKeys(segments: seq<string>)
    requires Collect(segments).Ok?
    ensures forall k :: k in Collect(segments).value <==>
      (exists i :: 0 <= i < |segments| && Contributes(segments[i]) && Key(segments[i]) == k)
    decreases |segments|
  {
    if segments != [] {
      var n := |segments|;
      var init := segments[..n - 1];
      var last := segments[n - 1];
      var m := Collect(segments).value;
      var m0 := Collect(init).value;
      CollectKeys(init);
      assert forall i :: 0 <= i < n - 1 ==> init[i] == segments[i];
      if Contributes(last) {
        SegmentFields(last);
        assert m == m0[Key(last) := Value(last)];
      }
      forall k
        ensures k in m <==> exists i :: 0 <= i < n && Contributes(segments[i]) && Key(segments[i]) == k
      {
        if k in m0 {
          var i :| 0 <= i < n - 1 && Contributes(init[i]) && Key(init[i]) == k;
          assert Contributes(segments[i]) && Key(segments[i]) == k;
        }
        if exists i :: 0 <= i < n && Contributes(segments[i]) && Key(segments[i]) == k {
          var i :| 0 <= i < n && Contributes(segments[i]) && Key(segments[i]) == k;
          if i < n - 1 {
            assert Contributes(init[i]) && Key(init[i]) == k;
          }
        }
      }
    }
  }

  /** When a key repeats, the value of its last contributing segment is the one kept. */
  lemma {:induction false} CollectLastWins(segments: seq<string>, i: nat)
    requires Collect(segments).Ok?
    requires i < |segments| && Contributes(segments[i]) && LastWithKey(segments, i)
    ensures Key(segments[i]) in Collect(segments).value
    ensures Collect(segments).value[Key(segments[i])] == Value(segments[i])
    decreases |segments|
  {
    var n := |segments|;
    var init := segments[..n - 1];
    var last := segments[n - 1];
    var m0 := Collect(init).value;
    if Contributes(last) {
      SegmentFields(last);
      assert Collect(segments).value == m0[Key(last) := Value(last)];
    }
    if i < n - 1 {
      assert init[i] == segments[i];
      forall j | i < j < n - 1 && Contributes(init[j])
        ensures Key(init[j]) != Key(init[i])
      {
        assert init[j] == segments[j];
      }
      CollectLastWins(init, i);
    }
  }
}
