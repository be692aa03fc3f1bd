/**
 * `fetch_objects`: the query the helpers assemble over the rows of one entity
 * kind. The ORM's `filter`, `annotate` and `exclude` are modelled as
 * operations on a sequence of rows: exact-match AND filtering, per-row
 * annotation, and removal of the hidden "MyTopics" category.
 */
module Query {
  import opened Wrappers
  import opened PyStr
  import opened Records
  import opened Validation

  const CountSuffix: string := "_count"
  const HiddenCategorySlug: string := "MyTopics"
  const FetchErrorPrefix: string := "Error filtering objects: "

  // ---------------------------------------------------------------------------
  // The ORM operations the query is built from
  // ---------------------------------------------------------------------------

  /**
   * A POST value matches a column value as an exact lookup compares them: text
   * by equality, a number by the integer the text spells.
   */
  predicate MatchesLookup(v: Value, s: string) {
    v == Text(s) || (v.Number? && ParseInt(s) == Some(v.number))
  }

  predicate MatchesFilters(o: Obj, filters: map<string, string>) {
    forall k :: k in filters ==> k in o.attrs && MatchesLookup(o.attrs[k], filters[k])
  }

  /** `filter(**filters)`: the rows that match every filter, in their order. */
  function Filter(rows: seq<Obj>, filters: map<string, string>): (r: seq<Obj>)
    ensures forall o :: o in r <==> o in rows && MatchesFilters(o, filters)
    ensures |r| <= |rows|
  {
    if |rows| == 0 then []
    else (if MatchesFilters(rows[0], filters) then [rows[0]] else []) + Filter(rows[1..], filters)
  }

  /** The value the database computes for an annotation expression on a row. */
  function Evaluate(e: Expr, o: Obj): Value {
    match e
    case F(field) => if field in o.attrs then o.attrs[field] else Null
    case Count(relation) => Number(if relation in o.related then o.related[relation] else 0)
  }

  /** The value of every annotation on a row, under the annotation's name. */
  function Evaluated(o: Obj, annotations: map<string, Expr>): map<string, Value> {
    map n | n in annotations :: Evaluate(annotations[n], o)
  }

  /** A row with the annotations added to its attributes. */
  function AnnotateOne(o: Obj, annotations: map<string, Expr>): (r: Obj)
    ensures r.fields == o.fields && r.related == o.related
    ensures r.attrs.Keys == o.attrs.Keys + annotations.Keys
    ensures forall n :: n in annotations ==> r.attrs[n] == Evaluate(annotations[n], o)
    ensures forall a :: a in o.attrs && a !in annotations ==> r.attrs[a] == o.attrs[a]
  {
    o.(attrs := o.attrs + Evaluated(o, annotations))
  }

  /** `annotate(**annotations)`: every row annotated, none added or dropped. */
  function Annotate(rows: seq<Obj>, annotations: map<string, Expr>): (r: seq<Obj>)
    ensures |r| == |rows|
    ensures forall i :: 0 <= i < |rows| ==> r[i] == AnnotateOne(rows[i], annotations)
  {
    if |rows| == 0 then [] else [AnnotateOne(rows[0], annotations)] + Annotate(rows[1..], annotations)
  }

  /** The row is the category whose slug is "MyTopics". */
  predicate IsHiddenCategory(o: Obj) {
    "slug" in o.attrs && o.attrs["slug"] == Text(HiddenCategorySlug)
  }

  /** `exclude(slug='MyTopics')`: every row but the hidden category, in order. */
  function ExcludeHidden(rows: seq<Obj>): (r: seq<Obj>)
    ensures forall o :: o in r <==> o in rows && !IsHiddenCategory(o)
  {
    if |rows| == 0 then []
    else (if IsHiddenCategory(rows[0]) then [] else [rows[0]]) + ExcludeHidden(rows[1..])
  }

  // ---------------------------------------------------------------------------
  // Related counts
  // ---------------------------------------------------------------------------

  /** `{f'{field}_count': Count(field) for field in fields}`. */
  function RelatedCountAnnotations(fields: seq<string>): (r: map<string, Expr>)
    ensures forall f :: f in fields ==> f + CountSuffix in r && r[f + CountSuffix] == Count(f)
    ensures forall k :: k in r ==> exists f :: f in fields && k == f + CountSuffix
    ensures forall k :: k in r ==> r[k].Count?
  {
    if |fields| == 0 then map[]
    else
      var f := fields[|fields| - 1];
      assert fields == fields[..|fields| - 1] + [f];
      SuffixInjective(f, CountSuffix);
      RelatedCountAnnotations(fields[..|fields| - 1])[f + CountSuffix := Count(f)]
  }

  /** Distinct field names give distinct count names. */
  lemma SuffixInjective(f: string, suffix: string)
    ensures forall g :: g + suffix == f + suffix ==> g == f
  {
    forall g | g + suffix == f + suffix ensures g == f {
      assert |g| == |f|;
      assert g == (g + suffix)[..|g|];
      assert f == (f + suffix)[..|f|];
    }
  }

  /**
   * Merged over the existing annotations, each related count is named
   * `<field>_count` and overrides an annotation of that name; every other
   * annotation is kept.
   */
  lemma RelatedCountsOverride(annotations: map<string, Expr>, fields: seq<string>, k: string)
    requires k in annotations || k in RelatedCountAnnotations(fields)
    ensures var merged := annotations + RelatedCountAnnotations(fields);
      k in merged &&
      merged[k] == if exists f :: f in fields && k == f + CountSuffix then Count(k[..|k| - |CountSuffix|])
                   else annotations[k]
  {
    if f :| f in fields && k == f + CountSuffix {
      assert k[..|k| - |CountSuffix|] == f;
    }
  }

  /** Counts look only at a row's related rows, not at its attributes. */
  lemma CountsIgnoreAttrs(o: Obj, p: Obj, counts: map<string, Expr>)
    requires o.related == p.related
    requires forall k :: k in counts ==> counts[k].Count?
    ensures Evaluated(o, counts) == Evaluated(p, counts)
  {
  }

  /** Evaluating a merged map is merging the evaluations, the right one overriding. */
  lemma EvaluatedMerge(o: Obj, left: map<string, Expr>, right: map<string, Expr>)
    ensures Evaluated(o, left + right) == Evaluated(o, left) + Evaluated(o, right)
  {
  }

  /**
   * Annotating first with some expressions and then with counts is annotating
   * once with the merged map, the counts overriding.
   */
  lemma AnnotateThenCount(o: Obj, annotations: map<string, Expr>, counts: map<string, Expr>)
    requires forall k :: k in counts ==> counts[k].Count?
    ensures AnnotateOne(AnnotateOne(o, annotations), counts) == AnnotateOne(o, annotations + counts)
  {
    var byAnnotations := Evaluated(o, annotations);
    var byCounts := Evaluated(o, counts);
    CountsIgnoreAttrs(o, AnnotateOne(o, annotations), counts);
    EvaluatedMerge(o, annotations, counts);
    assert (o.attrs + byAnnotations) + byCounts == o.attrs + (byAnnotations + byCounts);
  }

  /** Annotating with nothing leaves a row unchanged. */
  lemma AnnotateNothing(o: Obj)
    ensures AnnotateOne(o, map[]) == o
  {
    assert AnnotateOne(o, map[]).attrs == o.attrs;
  }

  /** The annotated matches of a filter are exactly the annotations of the matching rows. */
  lemma AnnotatedMatches(table: seq<Obj>, filters: map<string, string>, objects: seq<Obj>,
                         annotations: map<string, Expr>)
    requires |objects| == |Filter(table, filters)|
    requires forall i :: 0 <= i < |objects| ==> objects[i] == AnnotateOne(Filter(table, filters)[i], annotations)
    ensures forall o :: o in objects <==>
      exists t :: t in table && MatchesFilters(t, filters) && o == AnnotateOne(t, annotations)
  {
    var matching := Filter(table, filters);
    forall o | o in objects
      ensures exists t :: t in table && MatchesFilters(t, filters) && o == AnnotateOne(t, annotations)
    {
      var i :| 0 <= i < |objects| && objects[i] == o;
      assert matching[i] in matching;
    }
    forall t | t in table && MatchesFilters(t, filters) ensures AnnotateOne(t, annotations) in objects {
      var i :| 0 <= i < |matching| && matching[i] == t;
      assert objects[i] == AnnotateOne(t, annotations);
    }
  }

  // ---------------------------------------------------------------------------
  // fetch_objects
  // ---------------------------------------------------------------------------

  /**
   * Filters the rows of `kind`, annotates them, validates and adds the related
   * counts, and hides the "MyTopics" category from anonymous requests. Fails
   * exactly when a non-empty related-count request names a field that is not
   * allowed; on success returns the rows and the merged annotations.
   */
  method FetchObjects(kind: ModelKind, table: seq<Obj>, filterParams: map<string, string>,
                      annotations: map<string, Expr>, relatedCountsRequest: string, authenticated: bool)
    returns (r: Result<(seq<Obj>, map<string, Expr>), string>)
    ensures r.Err? <==>
      (relatedCountsRequest != "" && exists p :: p in Split(relatedCountsRequest, ',') && p !in AllowedAnnotations)
    ensures r.Err? ==> StartsWith(r.error, FetchErrorPrefix + RelatedCountError)
    ensures r.Err? ==> NamesFirstRejected(relatedCountsRequest, r.error, FetchErrorPrefix + RelatedCountError)
    ensures r.Ok? ==>
      r.value.1 == if relatedCountsRequest == "" then annotations
                   else annotations + RelatedCountAnnotations(Split(relatedCountsRequest, ','))
    ensures r.Ok? ==> forall o :: o in r.value.0 <==>
      (exists t :: t in table && MatchesFilters(t, filterParams) && o == AnnotateOne(t, r.value.1)) &&
      !(kind == Category && !authenticated && IsHiddenCategory(o))
    ensures r.Ok? && kind == Category && !authenticated ==>
      forall o :: o in r.value.0 ==> !IsHiddenCategory(o)
  {
    var objects := Filter(table, filterParams);
    ghost var matching := objects;
    if |annotations| > 0 {
      objects := Annotate(objects, annotations);
    } else {
      forall i | 0 <= i < |matching| ensures objects[i] == AnnotateOne(matching[i], annotations) {
        AnnotateNothing(matching[i]);
      }
    }
    var merged := annotations;
    if relatedCountsRequest != "" {
      var relatedCounts := ValidateRelatedCounts(relatedCountsRequest);
      if relatedCounts.Err? {
        var message := FetchErrorPrefix + relatedCounts.error;
        NamesFirstRejectedPrefixed(relatedCountsRequest, relatedCounts.error, RelatedCountError, FetchErrorPrefix);
        return Err(message);
      }
      var relatedCountsDict := RelatedCountAnnotations(relatedCounts.value);
      merged := annotations + relatedCountsDict;
      ghost var before := objects;
      objects := Annotate(objects, relatedCountsDict);
      forall i | 0 <= i < |matching| ensures objects[i] == AnnotateOne(matching[i], merged) {
        AnnotateThenCount(matching[i], annotations, relatedCountsDict);
      }
    }
    AnnotatedMatches(table, filterParams, objects, merged);
    if kind == Category && !authenticated {
      objects := ExcludeHidden(objects);
    }
    return Ok((objects, merged));
  }
}
