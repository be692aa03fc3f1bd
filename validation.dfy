/**
 * The allow-lists of `helpers.py` and the validators that apply them to the
 * request: filter keys, annotation keys, related-count fields, the model name,
 * the reserved POST keys and the page numbers.
 */
module Validation {
  import opened Wrappers
  import opened PyStr
  import opened Request
  import opened Records

  const AllowedModels: seq<string> := ["Reply", "Category", "Topic"]
  const AllowedFilterParams: seq<string> := ["topic__slug", "category__slug", "author_id"]
  const AllowedAnnotations: seq<string> := ["author_name", "replies"]

  /** The prefix that marks a query-string key as an annotation request. */
  const AnnotatePrefix: string := "annotate_"

  /** POST keys that steer the endpoint and are never filters. */
  const ReservedKeys: seq<string> := ["page", "per_page", "model", "related_counts", "count"]

  const DefaultPage: int := 1
  const DefaultPerPage: int := 7

  /** A `JsonResponse({'error': message}, status=status)`. */
  datatype JsonError = JsonError(message: string, status: int)

  // ---------------------------------------------------------------------------
  // validate_filter_params
  // ---------------------------------------------------------------------------

  /**
   * Walks `params.items()` and keeps the keys that are allowed filter paths,
   * each with the last value sent for it; everything else is dropped without
   * error.
   */
  method ValidateFilterParams(params: seq<Pair>) returns (valid: map<string, string>)
    ensures forall k :: k in valid <==> k in AllowedFilterParams && Get(params, k).Some?
    ensures forall k :: k in valid ==> Get(params, k) == Some(valid[k])
  {
    var items := Items(params);
    valid := map[];
    for i := 0 to |items|
      invariant forall k :: k in valid <==> k in AllowedFilterParams && Get(items[..i], k).Some?
      invariant forall k :: k in valid ==> Get(items[..i], k) == Some(valid[k])
    {
      var (key, value) := items[i];
      forall k
        ensures Get(items[..i + 1], k) == if key == k then Some(value) else Get(items[..i], k)
      {
        LastOfStep(items, i, {k});
      }
      if key in AllowedFilterParams {
        valid := valid[key := value];
      }
    }
    forall k ensures Get(items[..|items|], k) == Get(params, k) {
      LastOfAll(items, {k});
      ItemsGet(params, k);
    }
  }

  /** In a dict, every allowed key keeps exactly the value it was sent with. */
  lemma FilterParamKept(params: seq<Pair>, valid: map<string, string>, i: nat)
    requires UniqueKeys(params)
    requires i < |params| && params[i].0 in AllowedFilterParams
    requires forall k :: k in valid <==> k in AllowedFilterParams && Get(params, k).Some?
    requires forall k :: k in valid ==> Get(params, k) == Some(valid[k])
    ensures params[i].0 in valid && valid[params[i].0] == params[i].1
  {
    GetUnique(params, i);
  }

  // ---------------------------------------------------------------------------
  // validate_annotations
  // ---------------------------------------------------------------------------

  /** The keys that request annotation `name`: its prefixed and its bare form. */
  function AnnotationKeys(name: string): set<string> {
    {AnnotatePrefix + name, name}
  }

  /**
   * The annotation a key requests, if any: `annotate_k` requests k and a bare
   * allowed name requests itself, in both cases only when the name is allowed.
   */
  lemma AnnotationKeyRequests(key: string, name: string)
    ensures (if StartsWith(key, AnnotatePrefix)
             then key[|AnnotatePrefix|..] == name && name in AllowedAnnotations
             else key == name && name in AllowedAnnotations)
        <==> name in AllowedAnnotations && key in AnnotationKeys(name)
  {
    var prefixed := AnnotatePrefix + name;
    assert prefixed[..|AnnotatePrefix|] == AnnotatePrefix;
    assert prefixed[|AnnotatePrefix|..] == name;
    assert !StartsWith("author_name", AnnotatePrefix) by {
      assert "author_name"[..|AnnotatePrefix|][1] != AnnotatePrefix[1];
    }
    assert !StartsWith("replies", AnnotatePrefix) by {
      assert |"replies"| < |AnnotatePrefix|;
    }
    if StartsWith(key, AnnotatePrefix) && key[|AnnotatePrefix|..] == name {
      assert key == key[..|AnnotatePrefix|] + key[|AnnotatePrefix|..];
    }
  }

  /**
   * Walks `params.items()` and keeps the annotation requests for allowed
   * names, each under the bare name with value `F(value)`; when both
   * `annotate_k` and `k` are sent, the one that comes later in `items()`
   * wins.
   */
  method ValidateAnnotations(params: seq<Pair>) returns (valid: map<string, Expr>)
    ensures forall n :: n in valid <==> n in AllowedAnnotations && LastOf(Items(params), AnnotationKeys(n)).Some?
    ensures forall n :: n in valid ==> valid[n] == F(LastOf(Items(params), AnnotationKeys(n)).value)
  {
    var items := Items(params);
    valid := map[];
    for i := 0 to |items|
      invariant forall n :: n in valid <==> n in AllowedAnnotations && LastOf(items[..i], AnnotationKeys(n)).Some?
      invariant forall n :: n in valid ==> valid[n] == F(LastOf(items[..i], AnnotationKeys(n)).value)
    {
      var (key, value) := items[i];
      forall n
        ensures LastOf(items[..i + 1], AnnotationKeys(n)) ==
          if key in AnnotationKeys(n) then Some(value) else LastOf(items[..i], AnnotationKeys(n))
        ensures StartsWith(key, AnnotatePrefix) ==>
          (n in AllowedAnnotations && key in AnnotationKeys(n) <==>
           key[|AnnotatePrefix|..] == n && n in AllowedAnnotations)
        ensures !StartsWith(key, AnnotatePrefix) ==>
          (n in AllowedAnnotations && key in AnnotationKeys(n) <==> key == n && n in AllowedAnnotations)
      {
        LastOfStep(items, i, AnnotationKeys(n));
        AnnotationKeyRequests(key, n);
      }
      if StartsWith(key, AnnotatePrefix) {
        var annotationKey := key[|AnnotatePrefix|..];
        if annotationKey in AllowedAnnotations {
          valid := valid[annotationKey := F(value)];
        }
      } else if key in AllowedAnnotations {
        valid := valid[key := F(value)];
      }
    }
    forall n ensures LastOf(items[..|items|], AnnotationKeys(n)) == LastOf(items, AnnotationKeys(n)) {
      LastOfAll(items, AnnotationKeys(n));
    }
  }

  /**
   * An annotation is requested exactly when its prefixed or its bare key was
   * sent, and its value is the last value sent under one of those keys.
   */
  lemma AnnotationFromSentKey(params: seq<Pair>, name: string)
    ensures LastOf(Items(params), AnnotationKeys(name)).None? <==>
      Get(params, AnnotatePrefix + name).None? && Get(params, name).None?
    ensures LastOf(Items(params), AnnotationKeys(name)).Some? ==>
      LastOf(Items(params), AnnotationKeys(name)) == Get(params, AnnotatePrefix + name) ||
      LastOf(Items(params), AnnotationKeys(name)) == Get(params, name)
  {
    var items := Items(params);
    var keys := AnnotationKeys(name);
    LastOfNone(items, keys);
    if Get(params, AnnotatePrefix + name).Some? {
      assert AnnotatePrefix + name in Keys(params);
    }
    if Get(params, name).Some? {
      assert name in Keys(params);
    }
    var found := LastOf(items, keys);
    if found.Some? {
      LastOfIsLast(items, keys, found.value);
    }
  }

  /**
   * When `annotate_k` and `k` are both sent, the one whose first occurrence
   * comes later is the one validated, with the last value sent under it.
   */
  lemma LaterAnnotationWins(params: seq<Pair>, name: string, i: nat, j: nat)
    requires i < j < |Items(params)|
    requires Items(params)[i].0 in AnnotationKeys(name) && Items(params)[j].0 in AnnotationKeys(name)
    ensures SentBefore(params, Items(params)[i].0, Items(params)[j].0)
    ensures LastOf(Items(params), AnnotationKeys(name)) == Get(params, Items(params)[j].0)
  {
    var items := Items(params);
    var keys := AnnotationKeys(name);
    KeysInFirstOccurrenceOrder(params);
    assert forall k :: j < k < |items| ==> items[k].0 !in keys by {
      forall k | j < k < |items| ensures items[k].0 !in keys {
        assert items[k].0 != items[i].0 && items[k].0 != items[j].0;
      }
    }
    LastOfIsLast(items, keys, items[j].1);
  }

  /**
   * `?annotate_replies=a&replies=b&annotate_replies=c`: `items()` yields
   * `annotate_replies` first (with its last value "c") and `replies` second,
   * so `replies` wins with "b".
   */
  lemma RepeatedAnnotationKey()
    ensures var params := [("annotate_replies", "a"), ("replies", "b"), ("annotate_replies", "c")];
      Items(params) == [("annotate_replies", "c"), ("replies", "b")] &&
      LastOf(Items(params), AnnotationKeys("replies")) == Some("b")
  {
    var params := [("annotate_replies", "a"), ("replies", "b"), ("annotate_replies", "c")];
    var first := [("annotate_replies", "a")];
    var two := [("annotate_replies", "a"), ("replies", "b")];
    assert first[..0] == [];
    assert Keys(first) == ["annotate_replies"];
    assert two[..1] == first;
    assert Keys(two) == ["annotate_replies", "replies"];
    assert params[..2] == two;
    assert Keys(params) == ["annotate_replies", "replies"];
    assert AnnotatePrefix + "replies" == "annotate_replies";
  }

  /**
   * The value of an annotation is not screened: any attribute path the client
   * sends under an allowed name is accepted as `F(path)`.
   */
  lemma AnnotationValueUnchecked(path: string)
    ensures var params := [(AnnotatePrefix + "author_name", path)];
      "author_name" in AllowedAnnotations &&
      LastOf(Items(params), AnnotationKeys("author_name")) == Some(path)
  {
    var params := [(AnnotatePrefix + "author_name", path)];
    assert params[..0] == [];
    assert Keys(params) == [AnnotatePrefix + "author_name"];
  }

  // ---------------------------------------------------------------------------
  // validate_related_counts
  // ---------------------------------------------------------------------------

  const RelatedCountError: string := "Invalid related count field: "

  /**
   * `message` is `prefix` followed by the first comma-separated piece of the
   * request that is not an allowed annotation name.
   */
  predicate NamesFirstRejected(relatedCountsRequest: string, message: string, prefix: string) {
    var pieces := Split(relatedCountsRequest, ',');
    exists i :: 0 <= i < |pieces| && pieces[i] !in AllowedAnnotations &&
      (forall j :: 0 <= j < i ==> pieces[j] in AllowedAnnotations) &&
      message == prefix + pieces[i]
  }

  /** A message naming the first rejected piece still does so behind a further prefix. */
  lemma NamesFirstRejectedPrefixed(relatedCountsRequest: string, message: string, prefix: string, outer: string)
    requires NamesFirstRejected(relatedCountsRequest, message, prefix)
    ensures NamesFirstRejected(relatedCountsRequest, outer + message, outer + prefix)
    ensures StartsWith(outer + message, outer + prefix)
  {
    var pieces := Split(relatedCountsRequest, ',');
    var i :| 0 <= i < |pieces| && pieces[i] !in AllowedAnnotations &&
      (forall j :: 0 <= j < i ==> pieces[j] in AllowedAnnotations) &&
      message == prefix + pieces[i];
    assert outer + message == (outer + prefix) + pieces[i];
  }

  /**
   * Splits the request on commas; succeeds with every piece, in order, when
   * all of them are allowed annotation names, and otherwise fails naming the
   * first piece that is not, with no partial list.
   */
  method ValidateRelatedCounts(relatedCountsRequest: string) returns (r: Result<seq<string>, string>)
    ensures var pieces := Split(relatedCountsRequest, ',');
      r.Ok? <==> forall p :: p in pieces ==> p in AllowedAnnotations
    ensures r.Ok? ==> r.value == Split(relatedCountsRequest, ',')
    ensures r.Err? ==> NamesFirstRejected(relatedCountsRequest, r.error, RelatedCountError)
  {
    var relatedCounts := Split(relatedCountsRequest, ',');
    var validRelatedCounts: seq<string> := [];
    for i := 0 to |relatedCounts|
      invariant validRelatedCounts == relatedCounts[..i]
      invariant forall j :: 0 <= j < i ==> relatedCounts[j] in AllowedAnnotations
    {
      var field := relatedCounts[i];
      if field in AllowedAnnotations {
        validRelatedCounts := validRelatedCounts + [field];
      } else {
        return Err(RelatedCountError + field);
      }
    }
    assert relatedCounts[..|relatedCounts|] == relatedCounts;
    return Ok(validRelatedCounts);
  }

  /** An empty request or a trailing comma leaves an empty piece, which is never allowed. */
  lemma EmptyPieceRejected(relatedCountsRequest: string)
    requires |relatedCountsRequest| == 0 || relatedCountsRequest[|relatedCountsRequest| - 1] == ','
    ensures exists p :: p in Split(relatedCountsRequest, ',') && p !in AllowedAnnotations
  {
    SplitHasEmptyPiece(relatedCountsRequest, ',');
    assert "" !in AllowedAnnotations;
  }

  /** A list of allowed names joined with commas is accepted as exactly that list. */
  lemma JoinedAllowedAccepted(fields: seq<string>)
    requires |fields| >= 1
    requires forall f :: f in fields ==> f in AllowedAnnotations
    ensures Split(Join(fields, ','), ',') == fields
  {
    AllowedNamesHaveNoComma();
    SplitJoin(fields, ',');
  }

  lemma AllowedNamesHaveNoComma()
    ensures forall f :: f in AllowedAnnotations ==> ',' !in f
  {
    assert forall i :: 0 <= i < |"author_name"| ==> "author_name"[i] != ',';
    assert forall i :: 0 <= i < |"replies"| ==> "replies"[i] != ',';
  }

  // ---------------------------------------------------------------------------
  // validate_model and get_model
  // ---------------------------------------------------------------------------

  const InvalidModelError: JsonError := JsonError("Invalid or disallowed model", 400)

  /** The model name check: a missing or empty name, or one not allowed, is an error. */
  function ValidateModel(modelName: Option<string>): (r: Option<JsonError>)
    ensures r.None? <==> exists kind :: modelName == Some(KindName(kind))
    ensures r.Some? ==> r.value == InvalidModelError
  {
    if modelName.None? || modelName.value == "" || modelName.value !in AllowedModels then
      Some(InvalidModelError)
    else
      assert modelName.value == KindName(Reply) || modelName.value == KindName(Category) ||
             modelName.value == KindName(Topic);
      None
  }

  /**
   * `apps.get_model('forumapp', name)`: the name is looked up in lower case,
   * so every letter case of a model's name finds that model (see
   * LowerEqualsIgnoringCase for the link to `lower()`).
   */
  function AppModel(modelName: string): (r: Option<ModelKind>)
    ensures r.Some? <==> exists kind :: EqualsIgnoringCase(modelName, KindName(kind))
    ensures r.Some? ==> EqualsIgnoringCase(modelName, KindName(r.value))
  {
    if EqualsIgnoringCase(modelName, KindName(Category)) then Some(Category)
    else if EqualsIgnoringCase(modelName, KindName(Topic)) then Some(Topic)
    else if EqualsIgnoringCase(modelName, KindName(Reply)) then Some(Reply)
    else None
  }

  /**
   * Resolves an allowed model name to its kind; fails exactly when
   * ValidateModel does, and never reaches the "does not exist" branch.
   */
  function GetModel(modelName: Option<string>): (r: Result<ModelKind, JsonError>)
    ensures r.Ok? <==> ValidateModel(modelName).None?
    ensures r.Ok? ==> modelName == Some(KindName(r.value))
    ensures r.Err? ==> r.error == InvalidModelError
  {
    if modelName.None? || modelName.value == "" || modelName.value !in AllowedModels then
      Err(InvalidModelError)
    else
      var name := modelName.value;
      assert EqualsIgnoringCase(name, name);
      assert !EqualsIgnoringCase("Topic", "Reply") by {
        assert LowerChar("Topic"[0]) != LowerChar("Reply"[0]);
      }
      assert !EqualsIgnoringCase("Reply", "Topic") by {
        assert LowerChar("Reply"[0]) != LowerChar("Topic"[0]);
      }
      match AppModel(name)
      case Some(kind) => Ok(kind)
      case None => assert false; Err(JsonError("Model " + name + " does not exist", 400))
  }

  /**
   * `apps.get_model` alone would accept "topic", but `get_model` checks the
   * exact allow-list first and rejects it.
   */
  lemma ExactModelNameRequired()
    ensures AppModel("topic") == Some(Topic)
    ensures GetModel(Some("topic")) == Err(InvalidModelError)
  {
    assert EqualsIgnoringCase("topic", "Topic");
    assert "topic" != KindName(Topic);
  }

  // ---------------------------------------------------------------------------
  // get_filter_params
  // ---------------------------------------------------------------------------

  /** The pairs whose key is not reserved, in their order. */
  function DropReserved(pairs: seq<Pair>): (r: seq<Pair>)
    ensures forall p :: p in r <==> p in pairs && p.0 !in ReservedKeys
    ensures forall k :: k !in ReservedKeys ==> Get(r, k) == Get(pairs, k)
    ensures forall k :: k in ReservedKeys ==> Get(r, k) == None
    ensures UniqueKeys(pairs) ==> UniqueKeys(r)
  {
    if |pairs| == 0 then []
    else
      var init := pairs[..|pairs| - 1];
      var last := pairs[|pairs| - 1];
      assert UniqueKeys(pairs) ==> UniqueKeys(init) by {
        assert forall i :: 0 <= i < |init| ==> init[i] == pairs[i];
      }
      var rest := DropReserved(init);
      assert pairs == init + [last];
      if last.0 in ReservedKeys then rest
      else
        assert (rest + [last])[..|rest|] == rest;
        assert UniqueKeys(pairs) ==> UniqueKeys(rest + [last]) by {
          if UniqueKeys(pairs) {
            forall q | q in init ensures q.0 != last.0 {
              var m :| 0 <= m < |init| && init[m] == q;
              assert pairs[m] == q;
            }
            assert forall i :: 0 <= i < |rest| ==> rest[i] in rest;
          }
        }
        rest + [last]
  }

  /**
   * The dict built from the POST `items()` without the reserved keys: one
   * pair per remaining key, with the last value sent for it.
   */
  function GetFilterParams(post: seq<Pair>): (r: seq<Pair>)
    ensures UniqueKeys(r)
    ensures forall p :: p in r <==> p in Items(post) && p.0 !in ReservedKeys
    ensures forall k :: k !in ReservedKeys ==> Get(r, k) == Get(post, k)
    ensures forall k :: k in ReservedKeys ==> Get(r, k) == None
  {
    assert forall k :: Get(Items(post), k) == Get(post, k) by {
      forall k ensures Get(Items(post), k) == Get(post, k) {
        ItemsGet(post, k);
      }
    }
    DropReserved(Items(post))
  }

  /** `author_id=1&author_id=2` gives the single filter `author_id: '2'`. */
  lemma RepeatedFilterKey()
    ensures GetFilterParams([("author_id", "1"), ("author_id", "2")]) == [("author_id", "2")]
  {
    var post := [("author_id", "1"), ("author_id", "2")];
    assert post[..1] == [("author_id", "1")];
    assert post[..1][..0] == [];
    assert Keys(post) == ["author_id"];
    var items := [("author_id", "2")];
    assert Items(post) == items;
    assert items[..0] == [];
  }

  // ---------------------------------------------------------------------------
  // validate_page_and_per_page
  // ---------------------------------------------------------------------------

  /**
   * `int(post.get(key, default))`: the default when the key is absent, the
   * parsed value when it is sent as an integer literal, None where `int`
   * raises.
   */
  function IntParam(post: seq<Pair>, key: string, default: int): (r: Option<int>)
    ensures Get(post, key).None? ==> r == Some(default)
    ensures Get(post, key).Some? ==> (r.Some? <==> IsIntLiteral(Get(post, key).value))
    ensures forall n :: Get(post, key) == Some(ShowInt(n)) ==> r == Some(n)
  {
    match Get(post, key)
    case None => Some(default)
    case Some(s) =>
      assert forall n :: s == ShowInt(n) ==> ParseInt(s) == Some(n) by {
        forall n | s == ShowInt(n) ensures ParseInt(s) == Some(n) {
          ParseShowInt(n);
        }
      }
      ParseInt(s)
  }

  /**
   * Both page numbers, or (None, None) when either is not an integer or is
   * below 1; on success both are at least 1 and are the parsed parameters.
   */
  function ValidatePageAndPerPage(post: seq<Pair>): (r: (Option<int>, Option<int>))
    ensures r.0.Some? <==> r.1.Some?
    ensures r.0.Some? ==> r.0.value >= 1 && r.1.value >= 1
    ensures r.0.Some? ==> r == (IntParam(post, "page", DefaultPage), IntParam(post, "per_page", DefaultPerPage))
    ensures r.0.None? <==>
      (IntParam(post, "page", DefaultPage).None? || IntParam(post, "page", DefaultPage).value < 1 ||
       IntParam(post, "per_page", DefaultPerPage).None? || IntParam(post, "per_page", DefaultPerPage).value < 1)
  {
    var page := IntParam(post, "page", DefaultPage);
    var perPage := IntParam(post, "per_page", DefaultPerPage);
    if page.None? || perPage.None? then (None, None)
    else if page.value < 1 || perPage.value < 1 then (None, None)
    else (page, perPage)
  }

  /** With neither key sent, the first page of seven. */
  lemma PageDefaults(post: seq<Pair>)
    requires forall i :: 0 <= i < |post| ==> post[i].0 != "page" && post[i].0 != "per_page"
    ensures ValidatePageAndPerPage(post) == (Some(1), Some(7))
  {
    LastOfNone(post, {"page"});
    LastOfNone(post, {"per_page"});
  }

  /** Positive numbers sent in decimal come back as those numbers. */
  lemma PageRoundTrip(post: seq<Pair>, page: int, perPage: int)
    requires page >= 1 && perPage >= 1
    requires Get(post, "page") == Some(ShowInt(page))
    requires Get(post, "per_page") == Some(ShowInt(perPage))
    ensures ValidatePageAndPerPage(post) == (Some(page), Some(perPage))
  {
    ParseShowInt(page);
    ParseShowInt(perPage);
  }

  /** A page or page size below 1, such as `page=0`, is rejected, not clamped. */
  lemma PageBelowOneRejected(post: seq<Pair>, key: string, n: int)
    requires key == "page" || key == "per_page"
    requires n < 1
    requires Get(post, key) == Some(ShowInt(n))
    ensures ValidatePageAndPerPage(post) == (None, None)
  {
    ParseShowInt(n);
  }
}
