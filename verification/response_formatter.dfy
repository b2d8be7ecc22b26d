/**
 * `ResponseFormatter` of the query service: turns database rows into task records, resolves
 * the template variables proposed for a query, and renders the final response, falling back
 * to a fixed message whenever the template cannot be rendered.
 */
module ResponseFormatter {
  import opened Wrappers
  import opened Values
  import opened Template

  /** The variable value that stands for the number of result rows. */
  const COUNT_PLACEHOLDER: string := "len(results)"

  const SUCCESS_MESSAGE: string := "Query executed successfully"

  /** A database row: a positional tuple of column values. */
  type Row = seq<Value>

  /** The dictionary `format_task_results` builds for one row. */
  datatype TaskRecord = TaskRecord(id: Value, title: Value, description: Value, priority: Value, category: Value)

  /** The dictionary `format_response` returns; its five fields are the five keys. */
  datatype FormattedResponse = FormattedResponse(
    message: string,
    query: string,
    response: string,
    results: seq<TaskRecord>,
    count: Value)

  /** `format_task_results`: one record per row, in order, until the first row with fewer
      than five fields, whose `IndexError` ends the loop and is swallowed. */
  method FormatTaskResults(rows: seq<Row>) returns (records: seq<TaskRecord>)
    ensures |records| <= |rows|
    ensures forall k :: 0 <= k < |records| ==>
      && |rows[k]| >= 5
      && records[k] == TaskRecord(rows[k][0], rows[k][1], rows[k][2], rows[k][3], rows[k][4])
    ensures |records| < |rows| ==> |rows[|records|]| < 5
    ensures (forall k :: 0 <= k < |rows| ==> |rows[k]| >= 5) ==> |records| == |rows|
  {
    records := [];
    var i := 0;
    while i < |rows|
      invariant i <= |rows| && |records| == i
      invariant forall k :: 0 <= k < i ==>
        && |rows[k]| >= 5
        && records[k] == TaskRecord(rows[k][0], rows[k][1], rows[k][2], rows[k][3], rows[k][4])
    {
      var row := rows[i];
      if |row| < 5 {
        break;
      }
      records := records + [TaskRecord(row[0], row[1], row[2], row[3], row[4])];
      i := i + 1;
    }
  }

  function Resolve(v: Value, resultCount: nat): Value {
    if v == StrV(COUNT_PLACEHOLDER) then IntV(resultCount) else v
  }

  /** The variables `process_template_variables` returns for `resultCount` result rows. */
  function ResolvedVariables(vars: map<string, Value>, resultCount: nat): (r: map<string, Value>)
    ensures r.Keys == vars.Keys + {"count"}
    ensures forall key :: key in vars && vars[key] == StrV(COUNT_PLACEHOLDER) ==> r[key] == IntV(resultCount)
    ensures forall key :: key in vars && vars[key] != StrV(COUNT_PLACEHOLDER) ==> r[key] == vars[key]
    ensures "count" !in vars ==> r["count"] == IntV(resultCount)
    ensures forall key :: key in r ==> r[key] != StrV(COUNT_PLACEHOLDER)
  {
    var resolved := map key | key in vars :: Resolve(vars[key], resultCount);
    if "count" in resolved then resolved else resolved["count" := IntV(resultCount)]
  }

  /** `process_template_variables`: copies the variables one key at a time, replacing each
      placeholder by the row count, then adds `count` if it is still missing. */
  method ProcessTemplateVariables(templateVars: map<string, Value>, results: seq<TaskRecord>)
    returns (processed: map<string, Value>)
    ensures processed == ResolvedVariables(templateVars, |results|)
  {
    processed := map[];
    var pending := templateVars.Keys;
    while pending != {}
      invariant pending <= templateVars.Keys
      invariant processed.Keys == templateVars.Keys - pending
      invariant forall key :: key in processed ==> processed[key] == Resolve(templateVars[key], |results|)
      decreases pending
    {
      var key :| key in pending;
      var value := templateVars[key];
      if value.StrV? && value.s == COUNT_PLACEHOLDER {
        processed := processed[key := IntV(|results|)];
      } else {
        processed := processed[key := value];
      }
      pending := pending - {key};
    }
    if "count" !in processed {
      processed := processed["count" := IntV(|results|)];
    }
  }

  /** Resolving twice changes nothing: no placeholder survives the first pass and `count`
      is already present. */
  lemma ResolveIdempotent(vars: map<string, Value>, resultCount: nat)
    ensures ResolvedVariables(ResolvedVariables(vars, resultCount), resultCount)
         == ResolvedVariables(vars, resultCount)
  {
    var once := ResolvedVariables(vars, resultCount);
    var twice := ResolvedVariables(once, resultCount);
    assert twice.Keys == once.Keys;
    forall key | key in once ensures twice[key] == once[key] {
      assert once[key] != StrV(COUNT_PLACEHOLDER);
    }
  }

  /** The resolved `count` is the row count when it was missing or was the placeholder, and
      the caller's own value otherwise. */
  lemma ResolvedCount(vars: map<string, Value>, resultCount: nat)
    ensures "count" !in vars || vars["count"] == StrV(COUNT_PLACEHOLDER) ==>
      ResolvedVariables(vars, resultCount)["count"] == IntV(resultCount)
    ensures "count" in vars && vars["count"] != StrV(COUNT_PLACEHOLDER) ==>
      ResolvedVariables(vars, resultCount)["count"] == vars["count"]
  {
  }

  /** The message used when the template cannot be rendered. */
  function FallbackMessage(count: Value): string {
    "Found " + ToString(count) + " matching tasks."
  }

  /** `format_response`: total — it returns a response for every input. */
  function FormatResponse(template: string, templateVars: map<string, Value>,
                          results: seq<TaskRecord>, query: string): (r: FormattedResponse)
    ensures r.message == SUCCESS_MESSAGE
    ensures r.query == query && r.results == results
    ensures r.count == ResolvedVariables(templateVars, |results|)["count"]
  {
    var vars := ResolvedVariables(templateVars, |results|);
    var response := match Render(template, vars)
      case Some(text) => text
      case None => FallbackMessage(vars["count"]);
    FormattedResponse(SUCCESS_MESSAGE, query, response, results, vars["count"])
  }

  /** A template that parses and names only the caller's variables or `count` is rendered
      with the resolved values. */
  lemma ResponseRendered(template: string, templateVars: map<string, Value>,
                         results: seq<TaskRecord>, query: string)
    requires Parse(template).Some?
    requires FieldNames(Parse(template).value) <= templateVars.Keys + {"count"}
    ensures var vars := ResolvedVariables(templateVars, |results|);
      FormatResponse(template, templateVars, results, query).response
        == Substitute(Parse(template).value, vars).value
  {
  }

  /** A template that does not parse, or names a variable the caller did not supply (other
      than `count`), gives the fallback message with the resolved count. */
  lemma ResponseFallsBack(template: string, templateVars: map<string, Value>,
                          results: seq<TaskRecord>, query: string)
    requires Parse(template).None? || !(FieldNames(Parse(template).value) <= templateVars.Keys + {"count"})
    ensures var r := FormatResponse(template, templateVars, results, query);
      r.response == FallbackMessage(r.count)
  {
  }

  /** With the prompt's variables `{"count": "len(results)"}`, a template holding one
      `{count}` field renders the number of result rows, which is also the returned count. */
  lemma CountTemplateRendered(before: string, after: string, results: seq<TaskRecord>, query: string)
    requires '{' !in before && '}' !in before && '{' !in after && '}' !in after
    ensures FormatResponse(before + "{count}" + after, map["count" := StrV(COUNT_PLACEHOLDER)], results, query)
         == FormattedResponse(SUCCESS_MESSAGE, query, before + IntToString(|results|) + after,
                              results, IntV(|results|))
  {
    var vars := ResolvedVariables(map["count" := StrV(COUNT_PLACEHOLDER)], |results|);
    assert vars["count"] == IntV(|results|);
    EscapeBraceFree(before);
    EscapeBraceFree(after);
    assert before + "{count}" + after == Escape(before) + "{" + "count" + "}" + Escape(after);
    assert !AllDigits("count") by { assert !('0' <= "count"[0] <= '9'); }
    RenderOneField(before, "count", after, vars);
  }

  /** The prompt's own format: template `Found {count} tasks.` with no results. */
  lemma ZeroResultsExample(query: string)
    ensures FormatResponse("Found {count} tasks.", map["count" := StrV(COUNT_PLACEHOLDER)], [], query)
         == FormattedResponse(SUCCESS_MESSAGE, query, "Found 0 tasks.", [], IntV(0))
  {
    CountTemplateText();
    CountTemplateRendered("Found ", " tasks.", [], query);
  }

  /** A template whose one field names neither a supplied variable nor `count` gives the
      fallback message. */
  lemma UnknownFieldFallsBack(before: string, name: string, after: string,
                              templateVars: map<string, Value>, results: seq<TaskRecord>, query: string)
    requires '{' !in before && '}' !in before && '{' !in after && '}' !in after
    requires IsPlainName(name) && name !in templateVars && name != "count"
    ensures var r := FormatResponse(before + "{" + name + "}" + after, templateVars, results, query);
      r.response == FallbackMessage(ResolvedVariables(templateVars, |results|)["count"])
  {
    var vars := ResolvedVariables(templateVars, |results|);
    assert name !in vars;
    EscapeBraceFree(before);
    EscapeBraceFree(after);
    RenderOneField(before, name, after, vars);
  }

  /** The fallback on an unknown placeholder, with the prompt's variables. */
  lemma UnknownPlaceholderExample(results: seq<TaskRecord>, query: string)
    ensures FormatResponse("Found {total} tasks.", map["count" := StrV(COUNT_PLACEHOLDER)], results, query).response
         == "Found " + IntToString(|results|) + " matching tasks."
  {
    TotalTemplateText();
    UnknownFieldFallsBack("Found ", "total", " tasks.", map["count" := StrV(COUNT_PLACEHOLDER)], results, query);
  }

  lemma TotalTemplateText()
    ensures IsPlainName("total")
    ensures "Found " + "{" + "total" + "}" + " tasks." == "Found {total} tasks."
  {
    assert !('0' <= "total"[0] <= '9');
  }

  lemma CountTemplateText()
    ensures "Found " + "{count}" + " tasks." == "Found {count} tasks."
    ensures "Found " + IntToString(0) + " tasks." == "Found 0 tasks."
  {
    assert IntToString(0) == "0";
  }
}
