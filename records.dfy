/**
 * The database side as the helpers see it: the three loadable entity kinds,
 * the values a record holds, the query expressions `F(...)` and `Count(...)`,
 * and the exceptions that escape serialisation.
 */
module Records {

  /** The entity kinds `load_objects` may name. */
  datatype ModelKind = Reply | Category | Topic

  /** The class name that selects a kind. */
  function KindName(kind: ModelKind): string {
    match kind
    case Reply => "Reply"
    case Category => "Category"
    case Topic => "Topic"
  }

  /**
   * A field or attribute value. `Formatted(raw)` is the locale-dependent text
   * that `formats.date_format` makes of `raw`, kept opaque.
   */
  datatype Value = Null | Text(text: string) | Number(number: int) | Formatted(raw: Value)

  /** An annotation expression: `F(field)` copies a column, `Count(relation)` counts related rows. */
  datatype Expr = F(field: string) | Count(relation: string)

  /**
   * One database row of the selected kind.
   * - fields: what `model_to_dict` returns for it (its editable fields);
   * - attrs: every value the database resolves for it by name: its columns,
   *   `created_at`, lookup paths such as `topic__slug` (which `filter` and
   *   `F` follow), and the annotations added by the query. `getattr` on the
   *   row reads only the attribute names among them; the helpers call it
   *   only for annotation names, which the validators restrict to
   *   `author_name`, `replies` and their `_count` forms;
   * - related: the number of related rows behind each reverse relation.
   */
  datatype Obj = Obj(fields: map<string, Value>, attrs: map<string, Value>, related: map<string, nat>)

  /**
   * An exception raised by Python code that nothing catches: a missing
   * attribute, or a call with the wrong number of positional arguments.
   */
  datatype Raised = AttributeError(name: string) | TypeError(positional: nat)
}
