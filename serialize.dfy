/**
 * Serialisation and response shaping: each row of the page becomes a plain
 * field map without the sensitive fields, with the requested annotations and
 * the optional date formatting; the list is wrapped with `has_next` and,
 * when asked for, a `count`.
 */
module Serialize {
  import opened Wrappers
  import opened PyStr
  import opened Request
  import opened Records
  import Validation
  import Query

  /** Fields never sent to the client. */
  const SensitiveFields: seq<string> := ["author_email", "password"]

  const CreatedAt: string := "created_at"

  type Dict = map<string, Value>

  // ---------------------------------------------------------------------------
  // safe_model_to_dict
  // ---------------------------------------------------------------------------

  /** The fields `exclude_fields or []` names. */
  function ExcludedSet(excludeFields: Option<seq<string>>): set<string> {
    set f | f in excludeFields.GetOr([])
  }

  /**
   * The model's field map with exactly the excluded fields that are present
   * removed; every other key keeps its value.
   */
  method SafeModelToDict(fields: Dict, excludeFields: Option<seq<string>>) returns (data: Dict)
    ensures data.Keys == fields.Keys - ExcludedSet(excludeFields)
    ensures forall k :: k in data ==> data[k] == fields[k]
  {
    var exclude := excludeFields.GetOr([]);
    data := fields;
    for i := 0 to |exclude|
      invariant data.Keys == fields.Keys - set j | 0 <= j < i :: exclude[j]
      invariant forall k :: k in data ==> data[k] == fields[k]
    {
      var field := exclude[i];
      if field in data {
        data := data - {field};
      }
    }
    assert (set j | 0 <= j < |exclude| :: exclude[j]) == ExcludedSet(excludeFields) by {
      forall f | f in ExcludedSet(excludeFields) ensures f in set j | 0 <= j < |exclude| :: exclude[j] {
        var j :| 0 <= j < |exclude| && exclude[j] == f;
      }
    }
  }

  // ---------------------------------------------------------------------------
  // add_annotated_fields_to_obj_attrs
  // ---------------------------------------------------------------------------

  /**
   * Copies each annotation's attribute of the row into the dict; fails with
   * AttributeError, as `getattr` does, when the row lacks one of them.
   */
  method AddAnnotatedFields(objDict: Dict, obj: Obj, annotations: set<string>) returns (r: Result<Dict, Raised>)
    ensures r.Ok? <==> annotations <= obj.attrs.Keys
    ensures r.Ok? ==> r.value.Keys == objDict.Keys + annotations
    ensures r.Ok? ==> forall a :: a in annotations ==> r.value[a] == obj.attrs[a]
    ensures r.Ok? ==> forall k :: k in objDict && k !in annotations ==> r.value[k] == objDict[k]
    ensures r.Err? ==> r.error.AttributeError? && r.error.name in annotations && r.error.name !in obj.attrs
  {
    var d := objDict;
    var todo := annotations;
    while todo != {}
      invariant todo <= annotations
      invariant annotations - todo <= obj.attrs.Keys
      invariant d.Keys == objDict.Keys + (annotations - todo)
      invariant forall a :: a in annotations - todo ==> d[a] == obj.attrs[a]
      invariant forall k :: k in objDict && k !in annotations - todo ==> d[k] == objDict[k]
      decreases todo
    {
      var annotation :| annotation in todo;
      if annotation !in obj.attrs {
        return Err(AttributeError(annotation));
      }
      d := d[annotation := obj.attrs[annotation]];
      todo := todo - {annotation};
    }
    return Ok(d);
  }

  // ---------------------------------------------------------------------------
  // get_format_function and format_date_field
  // ---------------------------------------------------------------------------

  /** The format functions a request may select. */
  datatype FormatFunction = DatetimeFormat

  /**
   * The function named by `format_function`, if it names one, and the
   * `format_args[]` list unchanged; an unknown or missing name selects none.
   */
  function GetFormatFunction(formatFunctionName: Option<string>, formatArgs: seq<string>)
    : (r: (Option<FormatFunction>, seq<string>))
    ensures r.0.Some? <==> formatFunctionName == Some("datetime_format")
    ensures r.1 == formatArgs
  {
    var available := map["datetime_format" := DatetimeFormat];
    if formatFunctionName.Some? && formatFunctionName.value in available then
      (Some(available[formatFunctionName.value]), formatArgs)
    else (None, formatArgs)
  }

  /**
   * Writes the formatted creation time of the row under the given name; the
   * rest of the dict is unchanged. Fails when the row has no `created_at`.
   */
  function FormatDateField(objDict: Dict, obj: Obj, dateFieldName: string): (r: Result<Dict, Raised>)
    ensures r.Ok? <==> CreatedAt in obj.attrs
    ensures r.Ok? ==> r.value.Keys == objDict.Keys + {dateFieldName}
    ensures r.Ok? ==> r.value[dateFieldName] == Formatted(obj.attrs[CreatedAt])
    ensures r.Ok? ==> forall k :: k in objDict && k != dateFieldName ==> r.value[k] == objDict[k]
    ensures r.Err? ==> r.error == AttributeError(CreatedAt)
  {
    if CreatedAt in obj.attrs then Ok(objDict[dateFieldName := Formatted(obj.attrs[CreatedAt])])
    else Err(AttributeError(CreatedAt))
  }

  /**
   * `format_function(obj_dict, obj, *format_args)`: `format_date_field` takes
   * exactly one argument besides the dict and the row.
   */
  function CallFormatFunction(fn: FormatFunction, objDict: Dict, obj: Obj, formatArgs: seq<string>)
    : (r: Result<Dict, Raised>)
    ensures r.Ok? <==> |formatArgs| == 1 && CreatedAt in obj.attrs
    ensures |formatArgs| != 1 ==> r == Err(TypeError(2 + |formatArgs|))
    ensures |formatArgs| == 1 ==> r == FormatDateField(objDict, obj, formatArgs[0])
    ensures |formatArgs| == 1 && CreatedAt !in obj.attrs ==> r == Err(AttributeError(CreatedAt))
  {
    match fn
    case DatetimeFormat =>
      if |formatArgs| != 1 then Err(TypeError(2 + |formatArgs|))
      else FormatDateField(objDict, obj, formatArgs[0])
  }

  // ---------------------------------------------------------------------------
  // serialize_objects
  // ---------------------------------------------------------------------------

  /** The row can be serialised without an exception. */
  predicate Serializable(o: Obj, annotations: set<string>, addAnnotations: bool,
                         fn: Option<FormatFunction>, formatArgs: seq<string>) {
    (addAnnotations ==> annotations <= o.attrs.Keys) &&
    (fn.Some? ==> |formatArgs| == 1 && CreatedAt in o.attrs)
  }

  /**
   * `e` is the exception serialising `o` raises: `getattr`'s AttributeError
   * for a missing annotation attribute comes first; otherwise the format call
   * raises TypeError for a wrong argument count, or AttributeError when the
   * row has no `created_at`.
   */
  predicate RaisedBy(e: Raised, o: Obj, annotations: set<string>, addAnnotations: bool,
                     fn: Option<FormatFunction>, formatArgs: seq<string>) {
    if addAnnotations && !(annotations <= o.attrs.Keys) then
      e.AttributeError? && e.name in annotations && e.name !in o.attrs
    else
      fn.Some? &&
      e == if |formatArgs| != 1 then TypeError(2 + |formatArgs|) else AttributeError(CreatedAt)
  }

  /**
   * `d` is the serialised form of `o`: its fields without the sensitive ones,
   * then the annotations (when added), then the formatted date (when a format
   * function is given), each later step overwriting the earlier.
   */
  predicate SerializedAs(d: Dict, o: Obj, annotations: set<string>, addAnnotations: bool,
                         fn: Option<FormatFunction>, formatArgs: seq<string>)
    requires Serializable(o, annotations, addAnnotations, fn, formatArgs)
  {
    var added := if addAnnotations then annotations else {};
    var formatted := if fn.Some? then {formatArgs[0]} else {};
    && d.Keys == (o.fields.Keys - ExcludedSet(Some(SensitiveFields))) + added + formatted
    && (forall k :: k in formatted ==> d[k] == Formatted(o.attrs[CreatedAt]))
    && (forall k :: k in added && k !in formatted ==> d[k] == o.attrs[k])
    && (forall k :: k in d && k !in added && k !in formatted ==> d[k] == o.fields[k])
  }

  /** The serialised form of a row, built step by step as `serialize_objects` does. */
  function SerializedDict(o: Obj, annotations: set<string>, addAnnotations: bool,
                          fn: Option<FormatFunction>, formatArgs: seq<string>): (d: Dict)
    requires Serializable(o, annotations, addAnnotations, fn, formatArgs)
  {
    var safe := o.fields - ExcludedSet(Some(SensitiveFields));
    var annotated := if addAnnotations then safe + map a | a in annotations :: o.attrs[a] else safe;
    if fn.Some? then annotated[formatArgs[0] := Formatted(o.attrs[CreatedAt])] else annotated
  }

  /** SerializedDict builds the serialised form described by SerializedAs. */
  lemma SerializedDictIsSerializedAs(o: Obj, annotations: set<string>, addAnnotations: bool,
                                     fn: Option<FormatFunction>, formatArgs: seq<string>)
    requires Serializable(o, annotations, addAnnotations, fn, formatArgs)
    ensures SerializedAs(SerializedDict(o, annotations, addAnnotations, fn, formatArgs),
                         o, annotations, addAnnotations, fn, formatArgs)
  {
  }

  /** The serialised form is determined by the row and the request. */
  lemma SerializedAsUnique(d1: Dict, d2: Dict, o: Obj, annotations: set<string>, addAnnotations: bool,
                           fn: Option<FormatFunction>, formatArgs: seq<string>)
    requires Serializable(o, annotations, addAnnotations, fn, formatArgs)
    requires SerializedAs(d1, o, annotations, addAnnotations, fn, formatArgs)
    requires SerializedAs(d2, o, annotations, addAnnotations, fn, formatArgs)
    ensures d1 == d2
  {
    assert d1.Keys == d2.Keys;
    forall k | k in d1 ensures d1[k] == d2[k] {
    }
  }

  /**
   * The sensitive fields never reach the client, unless an annotation or the
   * formatted date is written under that very name.
   */
  lemma SensitiveFieldsStripped(o: Obj, annotations: set<string>, addAnnotations: bool,
                                fn: Option<FormatFunction>, formatArgs: seq<string>, k: string)
    requires Serializable(o, annotations, addAnnotations, fn, formatArgs)
    requires k in SensitiveFields
    requires !(addAnnotations && k in annotations) && !(fn.Some? && formatArgs[0] == k)
    ensures k !in SerializedDict(o, annotations, addAnnotations, fn, formatArgs)
  {
  }

  /**
   * No annotation the validators let through is named like a sensitive field,
   * so no annotation key overwrites or restores a stripped key. This is about
   * names only: see AnnotatedPathSerialized for what the values may hold.
   */
  lemma ValidatedNamesNotSensitive(fields: seq<string>)
    requires forall f :: f in fields ==> f in Validation.AllowedAnnotations
    ensures forall k :: k in Validation.AllowedAnnotations ==> k !in SensitiveFields
    ensures forall k :: k in Query.RelatedCountAnnotations(fields) ==> k !in SensitiveFields
  {
    forall k | k in Query.RelatedCountAnnotations(fields) ensures k !in SensitiveFields {
      var f :| f in fields && k == f + Query.CountSuffix;
      assert f == "author_name" || f == "replies";
    }
  }

  /**
   * Whatever attribute path an annotation names, its value reaches the client:
   * a row annotated with `author_name = F(path)` serialises with the value at
   * `path` under `author_name`, even when `path` leads to a sensitive field
   * such as `author__password`.
   */
  lemma AnnotatedPathSerialized(o: Obj, path: string)
    requires path in o.attrs
    ensures var row := Query.AnnotateOne(o, map["author_name" := F(path)]);
      Serializable(row, {"author_name"}, true, None, []) &&
      SerializedDict(row, {"author_name"}, true, None, [])["author_name"] == o.attrs[path]
  {
    var row := Query.AnnotateOne(o, map["author_name" := F(path)]);
    assert row.attrs["author_name"] == o.attrs[path];
    SerializedDictIsSerializedAs(row, {"author_name"}, true, None, []);
  }

  /**
   * One dict per row, in page order. Fails exactly when some row cannot be
   * serialised (a missing annotation attribute, or a format call that raises);
   * otherwise the i-th dict is the serialised form of the i-th row.
   */
  method SerializeObjects(page: seq<Obj>, annotations: map<string, Expr>, relatedCountsRequest: string,
                          fn: Option<FormatFunction>, formatArgs: seq<string>)
    returns (r: Result<seq<Dict>, Raised>)
    ensures var add := |annotations| > 0 || relatedCountsRequest != "";
      r.Ok? <==> forall i :: 0 <= i < |page| ==> Serializable(page[i], annotations.Keys, add, fn, formatArgs)
    ensures r.Ok? ==> |r.value| == |page|
    ensures var add := |annotations| > 0 || relatedCountsRequest != "";
      r.Ok? ==> forall i :: 0 <= i < |page| ==>
        Serializable(page[i], annotations.Keys, add, fn, formatArgs) &&
        r.value[i] == SerializedDict(page[i], annotations.Keys, add, fn, formatArgs)
    ensures var add := |annotations| > 0 || relatedCountsRequest != "";
      r.Err? ==> exists i :: (0 <= i < |page| && !Serializable(page[i], annotations.Keys, add, fn, formatArgs) &&
                              (forall j :: 0 <= j < i ==> Serializable(page[j], annotations.Keys, add, fn, formatArgs)) &&
                              RaisedBy(r.error, page[i], annotations.Keys, add, fn, formatArgs))
  {
    var add := |annotations| > 0 || relatedCountsRequest != "";
    var objectsData: seq<Dict> := [];
    for i := 0 to |page|
      invariant |objectsData| == i
      invariant forall j :: 0 <= j < i ==>
        Serializable(page[j], annotations.Keys, add, fn, formatArgs) &&
        objectsData[j] == SerializedDict(page[j], annotations.Keys, add, fn, formatArgs)
    {
      var objDict := SerializeObject(page[i], annotations.Keys, add, fn, formatArgs);
      if objDict.Err? {
        return Err(objDict.error);
      }
      objectsData := objectsData + [objDict.value];
    }
    return Ok(objectsData);
  }

  /** The body of the loop in `serialize_objects`, for one row. */
  method SerializeObject(obj: Obj, annotations: set<string>, add: bool,
                         fn: Option<FormatFunction>, formatArgs: seq<string>)
    returns (r: Result<Dict, Raised>)
    ensures r.Ok? <==> Serializable(obj, annotations, add, fn, formatArgs)
    ensures r.Ok? ==> r.value == SerializedDict(obj, annotations, add, fn, formatArgs)
    ensures r.Err? ==> RaisedBy(r.error, obj, annotations, add, fn, formatArgs)
  {
    var objDict := SafeModelToDict(obj.fields, Some(SensitiveFields));
    if add {
      var added := AddAnnotatedFields(objDict, obj, annotations);
      if added.Err? {
        return Err(added.error);
      }
      objDict := added.value;
    }
    if fn.Some? {
      var formatted := CallFormatFunction(fn.value, objDict, obj, formatArgs);
      if formatted.Err? {
        return Err(formatted.error);
      }
      objDict := formatted.value;
    }
    SerializedDictIsSerializedAs(obj, annotations, add, fn, formatArgs);
    SerializedAsUnique(objDict, SerializedDict(obj, annotations, add, fn, formatArgs), obj, annotations, add, fn, formatArgs);
    return Ok(objDict);
  }

  // ---------------------------------------------------------------------------
  // create_response_data
  // ---------------------------------------------------------------------------

  /** The JSON body: `objects`, `has_next` and the optional `count`. */
  datatype ResponseData = ResponseData(objects: seq<Dict>, hasNext: bool, count: Option<nat>)

  /**
   * Wraps the serialised objects; adds their number as `count` exactly when
   * the POST `count` parameter is "true" in any letter case.
   */
  method CreateResponseData(objectsData: seq<Dict>, hasNext: bool, post: seq<Pair>)
    returns (responseData: ResponseData)
    ensures responseData.objects == objectsData && responseData.hasNext == hasNext
    ensures responseData.count.Some? <==>
      Get(post, "count").Some? && Lower(Get(post, "count").value) == "true"
    ensures responseData.count.Some? ==> responseData.count.value == |objectsData|
  {
    responseData := ResponseData(objectsData, hasNext, None);
    var countRequest := Lower(Get(post, "count").GetOr("false")) == "true";
    if countRequest {
      responseData := responseData.(count := Some(|objectsData|));
    }
  }

  /** The count is requested exactly when `count` is sent as "true" in any letter case. */
  lemma CountRequestedIgnoringCase(post: seq<Pair>)
    ensures Lower(Get(post, "count").GetOr("false")) == "true" <==>
      match Get(post, "count")
      case None => false
      case Some(v) =>
        |v| == 4 && v[0] in {'t', 'T'} && v[1] in {'r', 'R'} && v[2] in {'u', 'U'} && v[3] in {'e', 'E'}
  {
    LowerIsTrue(Get(post, "count").GetOr("false"));
  }
}
