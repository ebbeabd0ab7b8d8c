# QueryStream: the question-to-SQL pipeline

QueryStream is a Streamlit application. It reads the schema of an uploaded
SQLite database, asks a language model to write a SQL query answering a
question, and runs the query that comes back. This project models the text
pipeline at its centre, from the catalog rows to the one SQL string that
would be executed, and proves properties of it:

- `Schema`: `get_database_schema` as a method with the source's nested
  loops over the catalog rows. It is proved equal to a fold, `BuildSchema`.
  The module also holds the dict operations it relies on (`Lookup`,
  `Assign`, over an insertion-ordered association list) and the schema text
  the model is given (`Serialize`).
- `Response`: the reply shapes `llm.invoke` may return, and the text
  selected from them. It also finds the fenced SQL block the way
  `re.search(r'```sql\n(.*?)\n```', s, re.DOTALL)` does: the leftmost
  opening fence, then the first closing fence after it.
- `SqlRepair`: the `COUNT()` repair, with its guard exactly as written.
- `Querystream`: what one press of "Ask" ends in, as an `Outcome`:
  - nothing at all, for an empty question;
  - the error shown when the model client could not be built;
  - "Error generating SQL query";
  - "Unexpected response format";
  - silence;
  - "No SQL query found";
  - "No SQL query was generated";
  - or the SQL to execute.
- `Strings`: `strip`, `join`, `split` and `find` on Python strings.
  `replace` is modelled in `SqlRepair` and proved equal to a split
  followed by a join.

The catalog queries are inputs. A catalog query that raised is `None`, and
so is a `PRAGMA table_info` query that raised. The model call is a function
parameter. Execution stops at `Execute(sql)`.

The COUNT repair is modelled as the code has it. The guard asks that the
lower-cased query already start with `select count(*)`. Only then is every
upper-case `COUNT()` replaced by `COUNT(*)`. So `SELECT COUNT() FROM T`, the
query the repair seems meant for, is left as it is
(`SqlRepair.UpperCaseCountNotRepaired`). A guard without that condition
would repair this query. The model keeps the code's behaviour.

## Model

| member | source | states |
|---|---|---|
| Schema.GetDatabaseSchema | Querystream.py:11-29 | The nested loops that fill the dict return exactly `BuildSchema(catalog)`. That is: one step per listed table, which resets the table's list and appends field 1 of each of its PRAGMA rows. Any failed query or missing field gives `None`. |
| Schema.BuildSchemaSucceeds | Querystream.py:11-29 | The schema is built iff every catalog query ran and every field access succeeded. Otherwise the result is `None`, never a partial dict. |
| Schema.BuildSchemaKeys | Querystream.py:18-21 | The keys are the listed table names in catalog order. A repeated name keeps the place of its first occurrence. The keys are distinct and are exactly the listed names. |
| Schema.BuildSchemaColumns | Querystream.py:19-25 | A table's list is field 1 of its PRAGMA rows, in row order. A name listed again is reset and refilled, so its last listing decides the list. |
| Schema.Lookup | Querystream.py:25 | A key has a value iff it is a key of the dict. |
| Schema.Assign | Querystream.py:21 | A new key goes at the end and an existing key keeps its place. The key gets the new value and every other key keeps its own. |
| Schema.AssignTwice | Querystream.py:21-25 | Assigning a key twice equals assigning it once, with the second value. The appends of the inner loop rely on this. |
| Schema.SerializeLines | Querystream.py:96 | When no table or column name contains a line break: an empty schema gives "", and otherwise splitting the text on "\n" gives exactly one line per table, in dict order, with no trailing line. Line i is "Table: " + name + ", Columns: " + the columns joined with ", ". A table without columns ends in "Columns: ". |
| Response.SelectContent | Querystream.py:122-132 | The `'content'` key of a dict comes first, then the `.content` attribute, then `.text`. The error is flagged iff the reply has none of them, and then the text is "". |
| Response.SearchFence | Querystream.py:136 | The position found is a match. No match starts further left, and at that start no closing fence comes earlier. `None` iff the pattern matches nowhere. |
| Response.ExtractQuery | Querystream.py:136-138 | `None` iff no opening fence is followed by a closing fence. Otherwise the result is the matched group, stripped. |
| Response.FencedBodyIsFirstBlock | Querystream.py:136-138 | The group is the text strictly between the leftmost opening fence and the first closing fence after it, so it never contains a closing fence. |
| Strings.Strip | Querystream.py:138 | The result is a contiguous piece of the input with only whitespace around it, and it neither starts nor ends with whitespace. It is empty iff the input is all whitespace. |
| Strings.FindFrom | Querystream.py:136 | The leftmost occurrence at or after a position, or `None` when there is none. |
| Strings.SplitJoin | Querystream.py:96 | Pieces (at least one) that do not contain a one-character separator, joined and then split on it, come back unchanged. |
| Strings.SplitSpec | Querystream.py:142 | Splitting on a separator and joining back with it gives the text back, and no piece contains the separator. |
| SqlRepair.ReplaceIsJoinOfSplit | Querystream.py:142 | `s.replace(pat, rep)` equals `rep.join(s.split(pat))`: the text between occurrences is kept and each occurrence becomes `rep`. |
| SqlRepair.RepairCount | Querystream.py:141-142 | When the lower-cased query does not start with "select count(*)", it comes back unchanged. When it does, the result is the query's pieces between the occurrences of "COUNT()" (see `Strings.SplitSpec`), joined with "COUNT(*)". So each "COUNT()" becomes "COUNT(*)", nothing else changes, no "COUNT()" is left, the first 15 characters are kept, and the query never gets shorter. |
| SqlRepair.NoTargetAfterReplace | Querystream.py:142 | After `replace("COUNT()", "COUNT(*)")` no "COUNT()" remains anywhere. |
| SqlRepair.ReplaceAbsent | Querystream.py:142 | Replacing a pattern that does not occur changes nothing. |
| SqlRepair.RepairIdempotent | Querystream.py:141-142 | Repairing a repaired query changes nothing. |
| SqlRepair.UpperCaseCountNotRepaired | Querystream.py:141-142 | `SELECT COUNT() FROM T` fails the guard and is not repaired. |
| Querystream.Respond | Querystream.py:122-162 | Any SQL to execute is nonempty and starts with a non-space character. A reply alone never yields "not asked", the client error or "error generating". |
| Querystream.RespondBranches | Querystream.py:122-162 | Each outcome holds iff its condition holds. An unrecognised shape gives "unexpected format". Empty text gives silence. No fenced block gives "No SQL query found". A whitespace-only block gives "No SQL query was generated". Any other block gives `Execute` of the block's body, stripped and repaired. |
| Querystream.FirstBlockTaken | Querystream.py:136-138 | With no opening fence before it, the first fenced block is the one taken, whatever follows it. |
| Querystream.LoneBlock | Querystream.py:136-138 | A reply that is a single fenced line yields that line, stripped. |
| Querystream.OrdersExample | Querystream.py:122-150 | A reply holding one fenced block `SELECT COUNT(*) FROM orders` executes exactly that query. |
| Querystream.Prompt | Querystream.py:99-117 | The template with the schema text and the question substituted verbatim, each found at its place. |
| Querystream.Ask | Querystream.py:89-164 | An empty question does nothing. A missing model client gives the client error. A missing schema, or a model call that raised, gives "Error generating SQL query". Otherwise the outcome is `Respond` of the reply to the prompt built from the schema text and the question. SQL is executed only with a schema, a question and a client. |
| Querystream.AskAfterFailedIntrospection | Querystream.py:27-29 | A catalog that could not be read in full makes every nonempty question asked with a model client end in "Error generating SQL query", never in SQL. |

## Left out

- The Streamlit interface (sidebar, titles, display calls) is not modelled. Messages become `Outcome` constructors.
- Uploading the file to `tempdir` and the download button are plain file I/O and are not modelled.
- The sqlite catalog queries become input data. `pd.read_sql_query` is not modelled: the model stops at `Execute(sql)`, so "No data returned" and "Error executing SQL query" are not told apart.
- The `ChatGroq` client, `st.secrets` and the network call are not modelled. Whether a client was built is a boolean, and `llm.invoke` is a function parameter that returns `None` when it raises.
- LangChain's `PromptTemplate` is a constant text with the two values substituted verbatim. The continuation lines of the template carry the 32 spaces of indentation they have in the source.
- Opening and closing the connection (`finally: conn.close()`) is resource handling and is not modelled.
- Strings.Strip: removes a fixed whitespace set (space, \t, \n, \r, \x0b, \x0c), not Python's full Unicode whitespace set.
- SqlRepair.Lower: lower-cases A to Z only. Python's `lower()` also maps other characters into ASCII: U+0130 to "i̇" and U+212A to "k". Neither letter occurs in "select count(*)", so the guard decides the same way.
- Querystream.Respond: a reply's `content` or `text` is taken to be a string. Other values, and the exceptions they would raise later, are not modelled.
- The truthiness of `question` is modelled as "nonempty string". An empty schema dict is falsy in Python but still reaches the prompt, as the model has it.
