// The request-validation middleware (server/middleware/validation.js): how a
// schema's failure details become the field map of a ValidationError, and the
// constants of the course, publish-status and announcement schemas. The schema
// engine itself is an oracle: it is given here as its result.

module RequestValidation {
  import opened Wrappers
  import Strings
  import Errors
  import CourseModel

  /** One failure detail of the schema engine: the path to the field (array positions as their decimal text) and the message. */
  datatype Detail = Detail(path: seq<string>, message: string)

  /** `detail.path.join('.')`. */
  function FieldOf(d: Detail): (r: string)
    ensures |d.path| == 1 ==> r == d.path[0]
  {
    Strings.Join(d.path, ".")
  }

  /** `message.replace(/"/g, '')`: every double quote removed, everything else kept in order. */
  function RemoveQuotes(s: string): (r: string)
    ensures '"' !in r
    ensures '"' !in s ==> r == s
  {
    if s == [] then []
    else (if s[0] == '"' then [] else [s[0]]) + RemoveQuotes(s[1..])
  }

  /** Removing the quotes keeps every other character. */
  lemma {:induction false} RemoveQuotesKeeps(s: string)
    ensures forall c :: c in RemoveQuotes(s) <==> c in s && c != '"'
  {
    if s != [] {
      RemoveQuotesKeeps(s[1..]);
      assert s == [s[0]] + s[1..];
    }
  }

  lemma {:induction false} RemoveQuotesConcat(a: string, b: string)
    ensures RemoveQuotes(a + b) == RemoveQuotes(a) + RemoveQuotes(b)
  {
    if a != [] {
      assert (a + b)[0] == a[0] && (a + b)[1..] == a[1..] + b;
      RemoveQuotesConcat(a[1..], b);
    } else {
      assert a + b == b;
    }
  }

  /** The field map `validateRequest` builds: each detail in turn sets its field's message. */
  function ErrorMap(details: seq<Detail>): map<string, string>
    decreases |details|
  {
    if details == [] then map[]
    else
      var last := details[|details| - 1];
      ErrorMap(details[..|details| - 1])[FieldOf(last) := RemoveQuotes(last.message)]
  }

  /** No message in the map has a double quote left. */
  lemma {:induction false} ErrorMapUnquoted(details: seq<Detail>)
    ensures forall k :: k in ErrorMap(details) ==> '"' !in ErrorMap(details)[k]
    decreases |details|
  {
    if details != [] {
      ErrorMapUnquoted(details[..|details| - 1]);
    }
  }

  /** The map has a key for exactly the fields some detail names. */
  lemma {:induction false} ErrorMapKeys(details: seq<Detail>, k: string)
    ensures k in ErrorMap(details) <==> exists i :: 0 <= i < |details| && FieldOf(details[i]) == k
    decreases |details|
  {
    if details != [] {
      var n := |details| - 1;
      ErrorMapKeys(details[..n], k);
      if k in ErrorMap(details[..n]) {
        var i :| 0 <= i < n && FieldOf(details[..n][i]) == k;
        assert details[i] == details[..n][i];
      }
      if exists i :: 0 <= i < |details| && FieldOf(details[i]) == k {
        var i :| 0 <= i < |details| && FieldOf(details[i]) == k;
        if i < n {
          assert details[..n][i] == details[i];
        }
      }
    }
  }

  /** For a field named more than once, the message of its last detail is the one kept. */
  lemma {:induction false} LastDetailWins(details: seq<Detail>, i: nat)
    requires i < |details|
    requires forall j :: i < j < |details| ==> FieldOf(details[j]) != FieldOf(details[i])
    ensures FieldOf(details[i]) in ErrorMap(details)
    ensures ErrorMap(details)[FieldOf(details[i])] == RemoveQuotes(details[i].message)
    decreases |details|
  {
    var n := |details| - 1;
    if i < n {
      var init := details[..n];
      assert init[i] == details[i];
      assert forall j :: i < j < |init| ==> FieldOf(init[j]) != FieldOf(init[i]) by {
        forall j | i < j < |init| ensures FieldOf(init[j]) != FieldOf(init[i]) {
          assert init[j] == details[j];
        }
      }
      LastDetailWins(init, i);
      assert FieldOf(details[n]) != FieldOf(details[i]);
    }
  }

  /** What the schema engine returns for a request part: the validated value, or its failure details. */
  datatype SchemaResult<V> = Accepted(value: V) | Invalid(details: seq<Detail>)

  /** What the middleware does: replace the request part with the value and call `next()`, or pass a ValidationError. */
  datatype Outcome<V> = Replaced(value: V) | Failed(error: Errors.ValidationError)

  /**
   * `validateRequest(schema, source)` on one request, given the schema's verdict: on success the
   * validated value replaces the request part; on failure a fresh ValidationError carries one
   * entry per failing field, built detail by detail.
   */
  method ValidateRequest<V>(result: SchemaResult<V>) returns (o: Outcome<V>)
    ensures result.Accepted? ==> o == Replaced(result.value)
    ensures result.Invalid? ==> (o.Failed? && fresh(o.error) &&
      o.error.message == "Validation failed" && o.error.errors == ErrorMap(result.details))
    ensures result.Invalid? ==> Errors.ErrorHandler(o.error.AsThrown()).status == 422
  {
    if result.Accepted? {
      return Replaced(result.value);
    }
    var details := result.details;
    var v := new Errors.ValidationError(Some("Validation failed"));
    var i := 0;
    while i < |details|
      invariant 0 <= i <= |details|
      invariant fresh(v) && v.message == "Validation failed"
      invariant v.errors == ErrorMap(details[..i])
    {
      var d := details[i];
      v.AddValidationError(FieldOf(d), RemoveQuotes(d.message));
      assert details[..i + 1][..i] == details[..i];
      i := i + 1;
    }
    assert details[..i] == details;
    o := Failed(v);
  }

  // ---------------------------------------------------------------------------
  // Schema constants

  /** courseSchema's `level` and `category` values. */
  const CourseSchemaLevels: seq<string> := ["beginner", "intermediate", "advanced"]
  const CourseSchemaCategories: seq<string> := ["frontend", "backend", "devops"]

  /**
   * The course schema and the course model disagree: no category the schema accepts is one
   * the model accepts, and the model's level 'all' is refused by the schema.
   */
  lemma CourseSchemaDisagreesWithModel()
    ensures forall c :: c in CourseSchemaCategories ==> c !in CourseModel.AllowedCategories
    ensures "all" in CourseModel.AllowedLevels && "all" !in CourseSchemaLevels
    ensures forall l :: l in CourseSchemaLevels ==> l in CourseModel.AllowedLevels
  {
  }

  const ActionOnly := Detail(["action"], "Action must be either publish or unpublish")

  /** The engine's own detail for an empty string, which quotes the field name. */
  function EmptyDetail(field: string): Detail
  {
    Detail([field], "\"" + field + "\" is not allowed to be empty")
  }

  /**
   * publishStatusSchema: the action must be 'publish' or 'unpublish'. The engine tests the
   * allowed values before the string type, and with every error collected an empty action
   * fails both: the custom message first, then the engine's own empty-string message.
   */
  function PublishActionDetails(action: Option<string>): (r: seq<Detail>)
    ensures r == [] <==> action == Some("publish") || action == Some("unpublish")
    ensures action.None? ==> r == [Detail(["action"], "Action is required")]
    ensures action.Some? && action.value != "" && r != [] ==> r == [ActionOnly]
    ensures action == Some("") ==> r == [ActionOnly, EmptyDetail("action")]
  {
    match action
    case None => [Detail(["action"], "Action is required")]
    case Some(a) =>
      if a == "publish" || a == "unpublish" then []
      else if a == "" then [ActionOnly, EmptyDetail("action")]
      else [ActionOnly]
  }

  /** An empty action is reported with the engine's message, which comes last and so replaces the custom one. */
  lemma EmptyActionEntry()
    ensures ErrorMap(PublishActionDetails(Some(""))) == map["action" := "action" + " is not allowed to be empty"]
  {
    var f := "action";
    assert '"' !in f by {
      assert f == ['a', 'c', 't', 'i', 'o', 'n'];
    }
    assert PublishActionDetails(Some("")) == [ActionOnly, EmptyDetail(f)];
    EmptyAfterOther(ActionOnly, f);
  }

  /** A field's empty-string detail after another detail for the same field is the one the map keeps. */
  lemma EmptyAfterOther(first: Detail, field: string)
    requires first.path == [field] && '"' !in field
    ensures ErrorMap([first, EmptyDetail(field)]) == map[field := field + " is not allowed to be empty"]
  {
    var ds := [first, EmptyDetail(field)];
    var m := ErrorMap(ds);
    assert field in m && m[field] == field + " is not allowed to be empty" by {
      EmptyMessageUnquoted(field);
      assert FieldOf(ds[1]) == field;
      LastDetailWins(ds, 1);
    }
    assert forall k :: k in m ==> k == field by {
      assert FieldOf(ds[0]) == field && FieldOf(ds[1]) == field;
      OnlyFieldKey(ds, field);
    }
    SingleKey(m, field);
  }

  lemma SingleKey(m: map<string, string>, k: string)
    requires k in m && forall j :: j in m ==> j == k
    ensures m == map[k := m[k]]
  {
  }

  lemma EmptyMessageUnquoted(field: string)
    requires '"' !in field
    ensures RemoveQuotes(EmptyDetail(field).message) == field + " is not allowed to be empty"
  {
    var rest := " is not allowed to be empty";
    assert EmptyDetail(field).message == "\"" + field + ("\"" + rest);
    UnquoteLabel(field, rest);
  }

  /** Details that all name one field give a map with that key alone. */
  lemma OnlyFieldKey(ds: seq<Detail>, field: string)
    requires forall i :: 0 <= i < |ds| ==> FieldOf(ds[i]) == field
    ensures forall k :: k in ErrorMap(ds) ==> k == field
  {
    forall k | k in ErrorMap(ds)
      ensures k == field
    {
      ErrorMapKeys(ds, k);
    }
  }

  /**
   * A required string field with length bounds and custom messages: missing, empty (the
   * engine's own message, which quotes the field name), too short, too long.
   */
  function TextFieldDetails(field: string, caption: string, value: Option<string>, min: nat, max: nat): (r: seq<Detail>)
    requires 0 < min <= max
    ensures r == [] <==> value.Some? && min <= |value.value| <= max
    ensures |r| <= 1 && forall d :: d in r ==> d.path == [field]
    ensures value.None? ==> r == [Detail([field], caption + " is required")]
  {
    match value
    case None => [Detail([field], caption + " is required")]
    case Some(v) =>
      if v == "" then [Detail([field], "\"" + field + "\" is not allowed to be empty")]
      else if |v| < min then [Detail([field], caption + " must be at least " + Strings.NatString(min) + " characters")]
      else if |v| > max then [Detail([field], caption + " cannot exceed " + Strings.NatString(max) + " characters")]
      else []
  }

  /** announcementSchema: every failing field is reported, the title's before the message's. */
  function AnnouncementDetails(title: Option<string>, message: Option<string>): (r: seq<Detail>)
    ensures r == [] <==> (title.Some? && 5 <= |title.value| <= 100 && message.Some? && 10 <= |message.value| <= 1000)
    ensures |r| <= 2
  {
    TextFieldDetails("title", "Title", title, 5, 100) + TextFieldDetails("message", "Message", message, 10, 1000)
  }

  /** The engine's own messages quote the field name; the map holds them with the quotes gone. */
  lemma {:induction false} UnquoteLabel(field: string, rest: string)
    requires '"' !in field && '"' !in rest
    ensures RemoveQuotes("\"" + field + ("\"" + rest)) == field + rest
  {
    var q := "\"";
    assert RemoveQuotes(q) == [];
    assert RemoveQuotes(q + field) == field by {
      RemoveQuotesConcat(q, field);
    }
    assert RemoveQuotes(q + rest) == rest by {
      RemoveQuotesConcat(q, rest);
    }
    RemoveQuotesConcat(q + field, q + rest);
  }

  /** An empty required field is reported under its own name, with the engine's message unquoted. */
  lemma EmptyFieldEntry(field: string, caption: string, min: nat, max: nat)
    requires 0 < min <= max && '"' !in field
    ensures ErrorMap(TextFieldDetails(field, caption, Some(""), min, max)) == map[field := field + " is not allowed to be empty"]
  {
    var rest := " is not allowed to be empty";
    var msg := "\"" + field + "\" is not allowed to be empty";
    var d := Detail([field], msg);
    assert TextFieldDetails(field, caption, Some(""), min, max) == [d];
    assert RemoveQuotes(msg) == field + rest by {
      assert msg == "\"" + field + ("\"" + rest);
      UnquoteLabel(field, rest);
    }
    assert ErrorMap([d]) == map[field := field + rest] by {
      assert [d][..0] == [];
      assert FieldOf(d) == field;
    }
  }

  /** Details for two different fields, one list per field: the map has a key for each field that has a detail, and no other key. */
  lemma TwoFieldKeys(t: seq<Detail>, u: seq<Detail>, f1: string, f2: string)
    requires f1 != f2
    requires forall d :: d in t ==> d.path == [f1]
    requires forall d :: d in u ==> d.path == [f2]
    ensures var m := ErrorMap(t + u);
      (f1 in m <==> t != []) && (f2 in m <==> u != []) && forall k :: k in m ==> k == f1 || k == f2
  {
    var ds := t + u;
    assert forall i :: 0 <= i < |ds| ==> FieldOf(ds[i]) == (if i < |t| then f1 else f2) by {
      forall i | 0 <= i < |ds| ensures FieldOf(ds[i]) == (if i < |t| then f1 else f2) {
        if i < |t| {
          assert ds[i] in t;
        } else {
          assert ds[i] == u[i - |t|] && ds[i] in u;
        }
      }
    }
    assert f1 in ErrorMap(ds) <==> t != [] by {
      ErrorMapKeys(ds, f1);
      if t != [] {
        assert FieldOf(ds[0]) == f1;
      }
    }
    assert f2 in ErrorMap(ds) <==> u != [] by {
      ErrorMapKeys(ds, f2);
      if u != [] {
        assert FieldOf(ds[|t|]) == f2;
      }
    }
    forall k | k in ErrorMap(ds) ensures k == f1 || k == f2 {
      ErrorMapKeys(ds, k);
    }
  }

  /** A rejected announcement reports exactly its failing fields, each under its own name. */
  lemma AnnouncementKeys(title: Option<string>, message: Option<string>)
    ensures var m := ErrorMap(AnnouncementDetails(title, message));
      ("title" in m <==> !(title.Some? && 5 <= |title.value| <= 100)) &&
      ("message" in m <==> !(message.Some? && 10 <= |message.value| <= 1000)) &&
      forall k :: k in m ==> k == "title" || k == "message"
  {
    var t := TextFieldDetails("title", "Title", title, 5, 100);
    var u := TextFieldDetails("message", "Message", message, 10, 1000);
    TwoFieldKeys(t, u, "title", "message");
  }

}
