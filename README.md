# Forum object-loading helpers in Dafny

This project models `forum/forumapp/helpers.py` from a small Django forum.
That file holds the parameter-validation and result-shaping layer behind the
generic `load_objects` endpoint, which serves categories, topics and replies
to the browser. The request names a model kind, filters, annotations, related
counts, page numbers and an optional date format. The helpers do three jobs:

- They screen every parameter against fixed allow-lists.
- They build the ORM query.
- They turn the resulting page of rows into plain dicts with the sensitive
  fields stripped.

Modules:

- `Wrappers`: `Option` and `Result`.
- `PyStr`: the Python string built-ins the helpers call. These are
  `str.split(',')` with its inverse `join`, `int(str)` with its inverse
  `str(int)`, and ASCII `str.lower()`.
- `Request`: a `QueryDict` as the sequence of the (key, value) pairs sent,
  in order, where a key may repeat. `get` takes the last value sent for a
  key. `items()` yields each key once, in the order of its first occurrence,
  with that last value. A plain dict is a sequence with unique keys, and is
  its own `items()` view.
- `Records`: model kinds, field values, `F`/`Count` expressions, rows, and
  the exceptions that escape.
- `Validation`: the allow-lists and the validators
  (`validate_filter_params`, `validate_annotations`,
  `validate_related_counts`, `validate_model`, `get_model`,
  `get_filter_params`, `validate_page_and_per_page`).
- `Query`: `fetch_objects` over a sequence of rows. Here `filter`,
  `annotate` and `exclude(slug='MyTopics')` are sequence operations.
- `Serialize`: `safe_model_to_dict`, `add_annotated_fields_to_obj_attrs`,
  `get_format_function`, `format_date_field`, `serialize_objects` and
  `create_response_data`.

Failures are modelled as error values:

- A Python exception raised in serialisation becomes a `Raised` value:
  `AttributeError` for a missing attribute, `TypeError` for a wrong number of
  arguments. Nothing in `helpers.py` catches these.
- A rejected model name becomes a `JsonError`, as the source returns a
  `JsonResponse`.
- A rejected related-count request becomes an error string. The source
  raises `ValueError`, and `fetch_objects` catches it and wraps the message.

The validators screen annotation names, not annotation values. Any
attribute path a client sends under an allowed name is accepted as `F(path)`
and serialised under that name. This includes paths that lead to the
sensitive fields the serialiser strips, such as `author__password`
(`Validation.AnnotationValueUnchecked`, `Serialize.AnnotatedPathSerialized`).

## Model

| member | source | states |
|---|---|---|
| Validation.ValidateFilterParams | forum/forumapp/helpers.py:36-42 | walking `items()`, a key is kept iff it is an allowed filter path that was sent; its value is the last value sent for it; everything else is dropped silently |
| Validation.FilterParamKept | forum/forumapp/helpers.py:39-41 | in a dict with unique keys, every allowed key that was sent appears in the result with exactly the value it was sent with |
| Validation.AnnotationKeyRequests | forum/forumapp/helpers.py:49-53 | the if/elif on the key selects annotation `n` iff `n` is allowed and the key is `annotate_n` or the bare `n` |
| Validation.ValidateAnnotations | forum/forumapp/helpers.py:45-55 | walking `items()`, an annotation name is kept iff it is allowed and was requested in prefixed or bare form; its value is `F` of the value of the later such key in `items()`; it is stored under the bare name |
| Validation.AnnotationFromSentKey | forum/forumapp/helpers.py:48-54 | an annotation is requested iff its prefixed or bare key was sent, and its value is the last value sent under one of them |
| Validation.LaterAnnotationWins | forum/forumapp/helpers.py:48-54 | when both `annotate_k` and `k` are sent, the key whose first occurrence is later decides the `F` value, with the last value sent under it |
| Validation.RepeatedAnnotationKey | forum/forumapp/helpers.py:48-54 | for `?annotate_replies=a&replies=b&annotate_replies=c`, `items()` yields `annotate_replies` (value "c") then `replies`, so `replies` is `F("b")` |
| Validation.AnnotationValueUnchecked | forum/forumapp/helpers.py:49-52 | any attribute path sent as `annotate_author_name` is accepted as the value of the allowed annotation `author_name` |
| Validation.ValidateRelatedCounts | forum/forumapp/helpers.py:58-69 | succeeds iff every comma-separated piece is an allowed name, and then returns all pieces in order; otherwise fails with no partial list, naming the first piece that is not allowed |
| Validation.EmptyPieceRejected | forum/forumapp/helpers.py:60-67 | an empty request or one with a trailing comma leaves an empty piece, so it is rejected |
| Validation.JoinedAllowedAccepted | forum/forumapp/helpers.py:60-65 | a comma-joined list of allowed names splits back into exactly that list, so it is accepted as is |
| Validation.NamesFirstRejectedPrefixed | forum/forumapp/helpers.py:67 | a message naming the first rejected piece still names it, and starts with the longer prefix, after a further prefix is put in front |
| Validation.ValidateModel | forum/forumapp/helpers.py:72-76 | no error iff the name is present and is one of Reply, Category, Topic; otherwise the 400 "Invalid or disallowed model" error |
| Validation.AppModel | forum/forumapp/helpers.py:111 | `apps.get_model` finds a model iff the name equals Reply, Category or Topic ignoring letter case, and then finds the kind of that name |
| Validation.ExactModelNameRequired | forum/forumapp/helpers.py:107-111 | `apps.get_model` alone finds Topic for "topic", but `get_model` rejects "topic" with the 400 error, because it checks the exact allow-list first |
| Validation.GetModel | forum/forumapp/helpers.py:106-114 | resolves exactly the names ValidateModel accepts, to the kind of that name; every failure is the same 400 "Invalid or disallowed model" error |
| Validation.DropReserved | forum/forumapp/helpers.py:92 | the comprehension's `if` keeps exactly the pairs whose key is not page, per_page, model, related_counts or count, and keeps the keys unique |
| Validation.GetFilterParams | forum/forumapp/helpers.py:91-92 | a dict with unique keys holding exactly the pairs of the POST `items()` whose key is not reserved; lookups of other keys give the last value sent, and lookups of reserved keys find nothing |
| Validation.RepeatedFilterKey | forum/forumapp/helpers.py:92 | `author_id=1&author_id=2` gives the single filter `author_id: '2'` |
| Validation.IntParam | forum/forumapp/helpers.py:97-98 | an absent key gives the default; a sent value parses iff it is an integer literal; the decimal form of n parses to n |
| Validation.ValidatePageAndPerPage | forum/forumapp/helpers.py:95-103 | both numbers or neither; on success both are at least 1 and equal the parsed parameters (defaults 1 and 7); (None, None) exactly when a value does not parse or is below 1 |
| Validation.PageDefaults | forum/forumapp/helpers.py:97-98 | with neither key sent, the result is page 1 of size 7 |
| Validation.PageRoundTrip | forum/forumapp/helpers.py:97-101 | positive numbers sent in decimal come back as those numbers |
| Validation.PageBelowOneRejected | forum/forumapp/helpers.py:99-103 | a page or page size below 1 is rejected, not clamped |
| Request.Keys | forum/forumapp/helpers.py:39 | the keys of `items()` are distinct and are exactly the keys that were sent |
| Request.KeysInFirstOccurrenceOrder | forum/forumapp/helpers.py:39 | `items()` lists a key before another only when the first occurrence of the one was sent before the first occurrence of the other |
| Request.Items | forum/forumapp/helpers.py:39 | `items()` has one pair per distinct key, with unique keys, each carrying the last value sent for the key |
| Request.ItemsGet | forum/forumapp/helpers.py:39-41 | looking a key up in `items()` gives what `get` gives |
| Request.ItemsOfDict | forum/forumapp/helpers.py:39 | a sequence with unique keys, a plain dict, is its own `items()` view |
| Request.LastOfIsLast | forum/forumapp/helpers.py:39-41 | a lookup over the items yields v iff some pair with the key carries v and no later pair carries the key (later assignments overwrite earlier ones) |
| Request.LastOfNone | forum/forumapp/helpers.py:97 | a lookup finds nothing iff no pair carries the key, which is when `.get` falls back to its default |
| Request.GetUnique | forum/forumapp/helpers.py:39 | in a dict with unique keys, looking up a key gives the value paired with it |
| PyStr.StartsWith | forum/forumapp/helpers.py:49 | `key.startswith(prefix)` iff the key is the prefix followed by the rest of the key |
| PyStr.Split | forum/forumapp/helpers.py:60 | `split(',')` returns at least one piece, and no piece contains the separator |
| PyStr.JoinSplit | forum/forumapp/helpers.py:60 | joining the pieces of a split with the separator gives back the original request string |
| PyStr.SplitJoin | forum/forumapp/helpers.py:60 | splitting the join of separator-free pieces gives back the pieces |
| PyStr.SplitHasEmptyPiece | forum/forumapp/helpers.py:60 | an empty string, or one ending in the separator, splits with an empty piece |
| PyStr.ParseInt | forum/forumapp/helpers.py:97-98 | `int(s)` succeeds iff s is an optional sign followed by decimal digits |
| PyStr.ParseShowInt | forum/forumapp/helpers.py:97-98 | `int(str(n)) == n` for every integer n |
| PyStr.Lower | forum/forumapp/helpers.py:160 | `lower()` keeps the length and lowers each character |
| PyStr.LowerEqualsIgnoringCase | forum/forumapp/helpers.py:111 | two strings are equal after `lower()` iff they agree character by character up to letter case, the comparison `apps.get_model` makes |
| PyStr.LowerIsTrue | forum/forumapp/helpers.py:160 | `s.lower() == 'true'` holds exactly for the four-letter case variants of "true" |
| Query.Filter | forum/forumapp/helpers.py:119 | a row is in the result iff it is in the table and matches every filter exactly; no row is added |
| Query.AnnotateOne | forum/forumapp/helpers.py:121 | annotating a row adds each annotation's value under its name; fields, related rows and other attributes are unchanged (an annotation named after a model field is refused by Django and is not modelled) |
| Query.Annotate | forum/forumapp/helpers.py:120-121 | annotation keeps the rows and their order and annotates each one |
| Query.ExcludeHidden | forum/forumapp/helpers.py:130 | a row is kept iff it is not the category whose slug is "MyTopics" |
| Query.RelatedCountAnnotations | forum/forumapp/helpers.py:125 | each requested field f gives `f_count` bound to `Count(f)`, and every key comes from a requested field |
| Query.RelatedCountsOverride | forum/forumapp/helpers.py:126 | in the merged annotations a `<field>_count` key counts that field, overriding an earlier annotation of that name; every other annotation is kept |
| Query.AnnotateThenCount | forum/forumapp/helpers.py:121-127 | annotating first with the validated annotations and then with the counts is annotating once with the merged map |
| Query.AnnotateNothing | forum/forumapp/helpers.py:120 | skipping `annotate` when there are no annotations is the same as annotating with none |
| Query.AnnotatedMatches | forum/forumapp/helpers.py:119-121 | the annotated filter result holds exactly the annotated rows of the table that match the filters |
| Query.FetchObjects | forum/forumapp/helpers.py:117-134 | fails iff a non-empty related-count request names a field that is not allowed, with "Error filtering objects: Invalid related count field: " followed by the first piece that is not allowed; otherwise returns the merged annotations and exactly the annotated rows that match the filters, minus the "MyTopics" category when an anonymous request loads categories |
| Serialize.SafeModelToDict | forum/forumapp/helpers.py:79-88 | the keys are the model's fields minus the excluded ones (a missing exclusion list excludes nothing); every kept field keeps its value |
| Serialize.AddAnnotatedFields | forum/forumapp/helpers.py:18-21 | succeeds iff the row has every annotation attribute, then writes each one's value over the dict and keeps other keys; otherwise raises AttributeError naming a missing one |
| Serialize.GetFormatFunction | forum/forumapp/helpers.py:24-33 | a format function is selected iff `format_function` is "datetime_format"; the `format_args[]` list is returned unchanged |
| Serialize.FormatDateField | forum/forumapp/helpers.py:13-15 | writes the formatted `created_at` under the given name and leaves the other keys alone; raises AttributeError when the row has no `created_at` |
| Serialize.CallFormatFunction | forum/forumapp/helpers.py:146-147 | with exactly one format argument the call is `format_date_field` with that name, raising AttributeError when the row has no `created_at`; any other argument count raises TypeError; it succeeds iff one argument is given and the row has `created_at` |
| Serialize.SerializedDictIsSerializedAs | forum/forumapp/helpers.py:140-149 | a row's serialised dict has the non-sensitive fields, then the annotations when they are added, then the formatted date when a format function is given, each later step overriding the earlier one |
| Serialize.SensitiveFieldsStripped | forum/forumapp/helpers.py:141 | `author_email` and `password` never appear in a serialised dict unless an annotation or the date is written under that name |
| Serialize.ValidatedNamesNotSensitive | forum/forumapp/helpers.py:10 | no allowed annotation name and no related-count name is a sensitive field name (names only, not the values behind them) |
| Serialize.AnnotatedPathSerialized | forum/forumapp/helpers.py:121 | a row annotated with `author_name = F(path)` serialises with the value at `path` under `author_name`, whatever the path, sensitive fields included |
| Serialize.SerializeObject | forum/forumapp/helpers.py:141-149 | one row serialises iff it is serialisable, and then to its serialised dict; otherwise it raises getattr's AttributeError for a missing annotation attribute first, and only then the format call's TypeError (wrong argument count) or AttributeError (no `created_at`) |
| Serialize.SerializeObjects | forum/forumapp/helpers.py:137-151 | succeeds iff every row of the page can be serialised; then returns one dict per row, in page order, each the row's serialised form; annotations are added when any were requested or counted; on failure the exception is the one the first unserialisable row raises |
| Serialize.CreateResponseData | forum/forumapp/helpers.py:154-164 | the response carries the objects and has_next unchanged; it carries `count` iff the POST `count` parameter lowers to "true", and then the count is the number of objects |
| Serialize.CountRequestedIgnoringCase | forum/forumapp/helpers.py:160 | the count is requested exactly when the `count` parameter is sent as a case variant of "true"; an absent parameter does not request it |

## Left out

- The views, models, forms, URLs, templates and the rest of the application are not part of this model. This includes `load_objects` itself, the paginator and the slug generation in `models.py`. `has_next` is taken as a parameter of `CreateResponseData`.
- Query.AnnotateOne: Django refuses an annotation whose name clashes with a field of the model. For example, `annotate(replies=...)` on Topic clashes with its reverse relation `replies`, and `fetch_objects` turns the `ValueError` into a 400. The model adds such an annotation like any other.
- Serialize.AddAnnotatedFields: reads a row's annotations from the same map as the database's lookup paths, so a name such as `topic__slug` would succeed where `getattr` raises. The helpers call it only with validated annotation names, so this case does not arise.
- The database is a sequence of rows. `filter` compares exactly: text by equality, a number by the integer its text spells. Other lookup types and field coercions are left out.
- Query.Evaluate: is the model's definition of what the database computes, not an operation of `helpers.py`, and carries no contract. `F(path)` reads the row's value at `path`, and `Count(relation)` reads the number of the row's related rows. An unknown path or relation evaluates to null or 0 instead of raising `FieldError`.
- Query.FetchObjects: the `except Exception` branch is modelled only for the one failure the helpers raise themselves, the rejected related-count request. ORM errors are not modelled. The source's except branch returns a bare `JsonResponse` where the success path returns a pair; the model returns an `Err` value instead.
- Query.FetchObjects: states which rows are returned, not their order. The ORM's query laziness and ordering are not modelled.
- Validation.GetModel: the `LookupError` branch is unreachable, because every allowed name is a model of the app. The model shows that it is dead and does not return its message.
- PyStr.ParseInt: accepts an optional sign followed by ASCII digits. Python's `int()` also accepts surrounding whitespace, underscores between digits and non-ASCII digits. Python 3.11 and later (and patched 3.7 to 3.10) also reject a decimal literal of more than 4300 digits with `ValueError`, so such a `page` or `per_page` gives (None, None) where the model returns the number. An integer value passed as the default is modelled by the default itself.
- PyStr.Lower: lowers only ASCII letters. Python lowers all Unicode cased letters.
- Serialize.AddAnnotatedFields: iterates over the annotation names in an unspecified order. Python iterates in the dict's insertion order. The order only decides which missing attribute the `AttributeError` names.
- Serialize.FormatDateField: the locale-dependent `formats.date_format` result is the opaque value `Formatted(raw)`.
- In-place updates of the dicts (`obj_dict[...] = ...`, `del data[field]`) are modelled as functions and methods that return the new dict. Aliasing of the caller's dict is not modelled.
- `request.GET.getlist('format_args[]', [])` is taken as the input sequence `formatArgs`, and `request.user.is_authenticated` as the input `authenticated`.
