/**
 * What happens when "Ask" is pressed: the schema text and the question go
 * into the prompt template, the model is invoked, and its reply is turned
 * into the one SQL string that would be executed, or into the message shown
 * instead. The model call is a parameter; execution itself is not modelled.
 */
module Querystream {
  import opened Wrappers
  import opened Strings
  import opened Schema
  import opened Response
  import opened SqlRepair

  /** How one press of "Ask" ends. */
  datatype Outcome =
    | NotAsked          // empty question: nothing happens
    | ClientUnavailable // no model client: "An error occurred while initializing Groq Mixtral model"
    | GenerationFailed  // an exception before any SQL: "Error generating SQL query"
    | UnexpectedShape   // "Unexpected response format from the model."
    | SilentEmpty       // a recognised reply with empty text: nothing more is shown
    | NoQueryFound      // "No SQL query found in the response."
    | NoQueryGenerated  // "No SQL query was generated."
    | Execute(sql: string)

  /** From the model reply to the outcome: shape selection, extraction, repair. */
  function Respond(reply: Reply): (r: Outcome)
    ensures r.Execute? ==> r.sql != [] && !IsSpace(r.sql[0])
    ensures r != NotAsked && r != ClientUnavailable && r != GenerationFailed
  {
    var selected := SelectContent(reply);
    if selected.unexpected then UnexpectedShape
    else if selected.content == "" then SilentEmpty
    else match ExtractQuery(selected.content)
      case None => NoQueryFound
      case Some(query) =>
        var sql := RepairCount(query);
        if sql == "" then NoQueryGenerated
        else
          assert Guarded(query) ==> sql[..|Guard|][0] == query[..|Guard|][0];
          Execute(sql)
  }

  /**
   * Each outcome of a reply, told apart by the reply alone: the shape, then
   * whether its text is empty, then whether a fenced block is found, then
   * whether that block is blank. What is executed is the repaired, stripped
   * body of the first fenced block.
   */
  lemma RespondBranches(reply: Reply)
    ensures var c := SelectContent(reply).content;
      && (Respond(reply) == UnexpectedShape <==> reply.Other?)
      && (Respond(reply) == SilentEmpty <==> !reply.Other? && c == "")
      && (Respond(reply) == NoQueryFound <==>
            !reply.Other? && c != "" && forall p, q :: !FenceAt(c, p, q))
      && (Respond(reply) == NoQueryGenerated <==>
            !reply.Other? && c != "" && FencedBody(c).Some? && AllSpace(FencedBody(c).value))
      && (Respond(reply).Execute? <==>
            !reply.Other? && c != "" && FencedBody(c).Some? && !AllSpace(FencedBody(c).value))
      && (Respond(reply).Execute? ==> Respond(reply).sql == RepairCount(Strip(FencedBody(c).value)))
  {
    var c := SelectContent(reply).content;
    if !reply.Other? && c != "" && FencedBody(c).Some? {
      var query := Strip(FencedBody(c).value);
      assert RepairCount(query) == [] <==> query == [];
    }
  }

  /**
   * A reply whose text is `a`, an opening fence, `body`, a closing fence and
   * `c`, with no opening fence starting inside `a` and no closing fence
   * starting inside `body`, yields `body` stripped: a lone block, or the first
   * of several, is the one taken.
   */
  lemma FirstBlockTaken(a: string, body: string, c: string)
    requires var s := a + OpenFence + body + CloseFence + c;
      forall k :: 0 <= k < |a| ==> !OccursAt(OpenFence, s, k)
    requires var s := a + OpenFence + body + CloseFence + c;
      forall k :: |a| + |OpenFence| <= k < |a| + |OpenFence| + |body| ==> !OccursAt(CloseFence, s, k)
    ensures ExtractQuery(a + OpenFence + body + CloseFence + c) == Some(Strip(body))
  {
    var s := a + OpenFence + body + CloseFence + c;
    var p0 := |a|;
    var q0 := |a| + |OpenFence| + |body|;
    assert s[p0..p0 + |OpenFence|] == OpenFence;
    assert s[q0..q0 + |CloseFence|] == CloseFence;
    assert FenceAt(s, p0, q0);
    var (p, q) := SearchFence(s).value;
    assert p == p0;
    assert q == q0;
    assert s[p + |OpenFence|..q] == body;
  }

  /** The prompt template, up to the schema text. */
  const Indent: string := "                                "
  const PromptHead: string :=
    "You are given the following database schema:\n\n" + Indent + "Given the schema:\n\n" + Indent
  /** Between the schema text and the question. */
  const PromptMiddle: string :=
    "\n\n" + Indent + "Write an SQL query to answer this question:\n\n" + Indent
  /** After the question. */
  const PromptTail: string :=
    "\n\n" + Indent + "**Guidelines:**\n"
    + Indent + "1. Analyze the schema to understand table structures.\n"
    + Indent + "2. Interpret the question and generate the SQL query accordingly.\n"
    + Indent + "3. Provide only the SQL query."

  /** `prompt_template.format(schema=..., question=...)`: both substituted verbatim. */
  function Prompt(schemaText: string, question: string): (r: string)
    ensures |r| == |PromptHead| + |schemaText| + |PromptMiddle| + |question| + |PromptTail|
    ensures r[|PromptHead|..|PromptHead| + |schemaText|] == schemaText
    ensures r[|r| - |PromptTail| - |question|..|r| - |PromptTail|] == question
  {
    PromptHead + schemaText + PromptMiddle + question + PromptTail
  }

  /**
   * One press of "Ask". `modelReady` is whether a model client was built;
   * `invoke` stands for `llm.invoke`, `None` when the call raised. A schema
   * that could not be read (`None`) fails at serialisation, inside the same
   * `try`, so it ends as "Error generating SQL query" and nothing is executed.
   * Otherwise the reply to the prompt built from the schema text and the
   * question decides the outcome.
   */
  function Ask(schema: Option<SchemaDict>, question: string, modelReady: bool,
               invoke: string -> Option<Reply>): (r: Outcome)
    ensures question == "" ==> r == NotAsked
    ensures question != "" && !modelReady ==> r == ClientUnavailable
    ensures question != "" && modelReady && schema.None? ==> r == GenerationFailed
    ensures question != "" && modelReady && schema.Some? ==>
              var reply := invoke(Prompt(Serialize(schema.value), question));
              r == if reply.None? then GenerationFailed else Respond(reply.value)
    ensures r.Execute? ==> schema.Some? && question != "" && modelReady
  {
    if question == "" then NotAsked
    else if !modelReady then ClientUnavailable
    else if schema.None? then GenerationFailed
    else match invoke(Prompt(Serialize(schema.value), question))
      case None => GenerationFailed
      case Some(reply) => Respond(reply)
  }

  /**
   * A catalog that could not be read in full gives no schema, so asking a
   * question with it ends in "Error generating SQL query", never in SQL.
   */
  lemma AskAfterFailedIntrospection(catalog: Option<seq<CatalogEntry>>, question: string,
                                     invoke: string -> Option<Reply>)
    requires question != ""
    requires catalog.None? || !AllReadable(catalog.value)
    ensures Ask(BuildSchema(catalog), question, true, invoke) == GenerationFailed
  {
    BuildSchemaSucceeds(catalog);
  }

  /**
   * The end-to-end example: a reply holding one fenced block with
   * `SELECT COUNT(*) FROM orders` executes exactly that query.
   */
  lemma OrdersExample(sql: string, reply: Reply)
    requires sql == "SELECT COUNT(*) FROM orders"
    requires reply == HasContent("```sql\n" + sql + "\n```", None)
    ensures Respond(reply) == Execute(sql)
  {
    OrdersBodyOneLine(sql);
    OrdersBodyStripped(sql);
    OrdersBodyNeedsNoRepair(sql);
    assert reply.content == OpenFence + sql + CloseFence;
    RespondLoneBlock(reply, sql);
  }

  /** A recognised reply that is one fenced block around a single line executes that line, stripped and repaired. */
  lemma RespondLoneBlock(reply: Reply, body: string)
    requires !reply.Other? && SelectContent(reply).content == OpenFence + body + CloseFence
    requires '\n' !in body && !AllSpace(body)
    ensures Respond(reply) == Execute(RepairCount(Strip(body)))
  {
    LoneBlock(body);
  }

  /** A reply that is one fenced block around a single line yields that line, stripped. */
  lemma LoneBlock(body: string)
    requires '\n' !in body
    ensures ExtractQuery(OpenFence + body + CloseFence) == Some(Strip(body))
  {
    var s := "" + OpenFence + body + CloseFence + "";
    assert s == OpenFence + body + CloseFence;
    forall k | |OpenFence| <= k < |OpenFence| + |body|
      ensures !OccursAt(CloseFence, s, k)
    {
      if k + |CloseFence| <= |s| {
        assert CloseFence[0] == '\n';
        assert s[k..k + |CloseFence|][0] == s[k] == body[k - |OpenFence|] != '\n';
      }
    }
    FirstBlockTaken("", body, "");
  }

  /*
   * Facts about the example's query. The text is passed in as `sql` rather
   * than written into the contracts, since a literal there is unfolded by the
   * solver wherever the lemma is used; and each fact is a lemma of its own,
   * because proving them together is too costly.
   */

  /** The example's query is one line and not blank. */
  lemma OrdersBodyOneLine(sql: string)
    requires sql == "SELECT COUNT(*) FROM orders"
    ensures '\n' !in sql && !AllSpace(sql)
  {
    assert !IsSpace(sql[0]);
  }

  /** The example's query is already stripped. */
  lemma OrdersBodyStripped(sql: string)
    requires sql == "SELECT COUNT(*) FROM orders"
    ensures Strip(sql) == sql
  {
    assert sql[0] == 'S' && sql[|sql| - 1] == 's';
    StripUnchanged(sql);
  }

  /** The example's query holds no "COUNT()", so the repair leaves it alone. */
  lemma OrdersBodyNeedsNoRepair(sql: string)
    requires sql == "SELECT COUNT(*) FROM orders"
    ensures RepairCount(sql) == sql
  {
    var before, after := "SELECT COUNT(*", " FROM orders";
    assert sql == before + ")" + after;
    assert ')' !in before && ')' !in after && before[8] == 'O';
    NoTargetAroundParen(before, after);
    ReplaceAbsent(sql, Target, Replacement);
  }
}
