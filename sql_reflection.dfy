/** The post-processing step of the SQL reflection workflow: the reviewing
    model's reply is decoded, and the feedback and the refined query are
    taken from it, with fallbacks for a reply that is not a JSON object and
    for a missing or empty refined query. */
module SqlReflection {
  import opened PyBase
  import opened PyStr

  /** `(feedback, refined_sql)` from the model's reply `content` for the
      original query `sqlQuery`. Everything inside the `try` that can raise
      (the decode, and `.get` on a decoded value that is not a dict) falls
      back to the stripped reply and the original query. Feedback is always
      trimmed; the refined query is the original one, or a trimmed
      non-empty text, so it is never empty when the original is not. */
  function ReflectionOutcome(content: string, sqlQuery: string, loads: JsonLoads): (r: (string, string))
    ensures Trimmed(r.0)
    ensures r.1 == sqlQuery || (r.1 != "" && Trimmed(r.1))
    ensures sqlQuery != "" ==> r.1 != ""
  {
    match loads(content)
    case Failure(_) => (Strip(content), sqlQuery)
    case Success(NonObject) => (Strip(content), sqlQuery)
    case Success(Object(f)) =>
      var feedback := Strip(Str(if "feedback" in f then f["feedback"] else JStr("")));
      var refined := Strip(Str(if "refined_sql" in f then f["refined_sql"] else JStr(sqlQuery)));
      (feedback, if refined == "" then sqlQuery else refined)
  }

  /** A reply that does not decode to a JSON object yields the stripped
      reply as feedback and the original query unchanged. */
  lemma ParseFailureKeepsQuery(content: string, sqlQuery: string, loads: JsonLoads)
    requires loads(content).Failure? || loads(content) == Success(NonObject)
    ensures ReflectionOutcome(content, sqlQuery, loads) == (Strip(content), sqlQuery)
  {
  }

  /** For a decoded object: the feedback is its stripped `feedback` field,
      `""` without one; the refined query is its stripped `refined_sql`
      field when that is not blank, the stripped original query when the
      field is absent (the original itself if that strips to nothing), and
      the original query, unstripped, when the field is blank. */
  lemma ObjectFields(content: string, sqlQuery: string, loads: JsonLoads)
    requires loads(content).Success? && loads(content).value.Object?
    ensures var f := loads(content).value.fields;
      var r := ReflectionOutcome(content, sqlQuery, loads);
      && ("feedback" in f ==> r.0 == Strip(Str(f["feedback"])))
      && ("feedback" !in f ==> r.0 == "")
      && ("refined_sql" in f && Strip(Str(f["refined_sql"])) != "" ==> r.1 == Strip(Str(f["refined_sql"])))
      && ("refined_sql" in f && Strip(Str(f["refined_sql"])) == "" ==> r.1 == sqlQuery)
      && ("refined_sql" !in f ==> r.1 == if Strip(sqlQuery) == "" then sqlQuery else Strip(sqlQuery))
  {
  }

  /** The refined query differs from the original only by what the model
      supplied: it is either the original query, its stripped form, or the
      stripped text of a non-blank `refined_sql` field. */
  lemma RefinedComesFromReplyOrQuery(content: string, sqlQuery: string, loads: JsonLoads)
    ensures var r := ReflectionOutcome(content, sqlQuery, loads);
      || r.1 == sqlQuery
      || r.1 == Strip(sqlQuery)
      || (loads(content).Success? && loads(content).value.Object?
          && "refined_sql" in loads(content).value.fields
          && r.1 == Strip(Str(loads(content).value.fields["refined_sql"])) != "")
  {
  }

  /** When the original query is already trimmed, a reply without a usable
      `refined_sql` field hands it back exactly. */
  lemma TrimmedQuerySurvivesFallback(content: string, sqlQuery: string, loads: JsonLoads)
    requires Trimmed(sqlQuery)
    requires !(loads(content).Success? && loads(content).value.Object?
               && "refined_sql" in loads(content).value.fields
               && Strip(Str(loads(content).value.fields["refined_sql"])) != "")
    ensures ReflectionOutcome(content, sqlQuery, loads).1 == sqlQuery
  {
  }
}
