/**
 * The model reply: picking its text out of the shapes `llm.invoke` may
 * return, and finding the SQL in it, which `re.search` does with the pattern
 * ```sql\n(.*?)\n``` under `re.DOTALL`, followed by `.strip()`.
 */
module Response {
  import opened Wrappers
  import opened Strings

  /** The shapes of a reply, as the code tells them apart. */
  datatype Reply =
    | DictWithContent(content: string)                  // a dict with a 'content' key
    | HasContent(content: string, textAttribute: Option<string>) // an object with `.content`, perhaps also `.text`
    | HasText(text: string)                             // an object with `.text` and no `.content`
    | Other                                             // anything else, a dict without 'content' included

  /** The text taken from a reply, and whether the "unexpected format" error was shown. */
  datatype Selected = Selected(content: string, unexpected: bool)

  /**
   * The dict key 'content' first, then the `.content` attribute, then `.text`;
   * any other shape gives "" and the error.
   */
  function SelectContent(reply: Reply): (r: Selected)
    ensures r.unexpected <==> reply.Other?
    ensures r.unexpected ==> r.content == ""
    ensures reply.DictWithContent? || reply.HasContent? ==> r.content == reply.content
    ensures reply.HasText? ==> r.content == reply.text
  {
    match reply
    case DictWithContent(c) => Selected(c, false)
    case HasContent(c, _) => Selected(c, false)
    case HasText(t) => Selected(t, false)
    case Other => Selected("", true)
  }

  /** The opening fence, tagged `sql`. */
  const OpenFence: string := "```sql\n"

  /** The closing fence, with the line break before it. */
  const CloseFence: string := "\n```"

  /**
   * The pattern matches at `p` with the lazy group ending at `q`: an opening
   * fence at `p`, a closing fence at `q`, the group `s[p + 7..q]` between them.
   */
  predicate FenceAt(s: string, p: int, q: int) {
    OccursAt(OpenFence, s, p) && p + |OpenFence| <= q && OccursAt(CloseFence, s, q)
  }

  /**
   * `re.search`: the leftmost opening fence, then the first closing fence
   * after it. This is the regex's match: no match starts further left, and at
   * that start the lazy group is the shortest one. `None` exactly when the
   * pattern matches nowhere.
   */
  function SearchFence(s: string): (r: Option<(nat, nat)>)
    ensures r.Some? ==> FenceAt(s, r.value.0, r.value.1)
    ensures r.Some? ==> forall p, q :: FenceAt(s, p, q) ==>
                          r.value.0 < p || (r.value.0 == p && r.value.1 <= q)
    ensures r.None? <==> forall p, q :: !FenceAt(s, p, q)
  {
    match FindFrom(OpenFence, s, 0)
    case None => None
    case Some(p) =>
      match FindFrom(CloseFence, s, p + |OpenFence|)
      case None =>
        assert forall p', q' :: FenceAt(s, p', q') ==> p <= p' && p + |OpenFence| <= q';
        None
      case Some(q) =>
        assert FenceAt(s, p, q);
        Some((p, q))
  }

  /** `sql_match.group(1)`: the text between the fences of the match. */
  function FencedBody(s: string): (r: Option<string>)
    ensures r.None? <==> forall p, q :: !FenceAt(s, p, q)
  {
    match SearchFence(s)
    case None => None
    case Some((p, q)) => Some(s[p + |OpenFence|..q])
  }

  /** `sql_match.group(1).strip()`, or `None` when there is no match. */
  function ExtractQuery(s: string): (r: Option<string>)
    ensures r.None? <==> forall p, q :: !FenceAt(s, p, q)
    ensures r.Some? ==> r.value == Strip(FencedBody(s).value)
  {
    match FencedBody(s)
    case None => None
    case Some(body) => Some(Strip(body))
  }

  /**
   * The group is the text strictly between the leftmost opening fence and
   * the first closing fence after it, so it never contains a closing fence.
   */
  lemma FencedBodyIsFirstBlock(s: string)
    requires FencedBody(s).Some?
    ensures exists p, q :: FenceAt(s, p, q) && FencedBody(s).value == s[p + |OpenFence|..q]
              && (forall p' :: 0 <= p' < p ==> !OccursAt(OpenFence, s, p'))
              && (forall k :: p + |OpenFence| <= k < q ==> !OccursAt(CloseFence, s, k))
    ensures forall k :: !OccursAt(CloseFence, FencedBody(s).value, k)
  {
    var (p, q) := SearchFence(s).value;
    var body := s[p + |OpenFence|..q];
    forall k | OccursAt(CloseFence, body, k)
      ensures false
    {
      assert s[p + |OpenFence| + k..p + |OpenFence| + k + |CloseFence|] == body[k..k + |CloseFence|];
      assert FenceAt(s, p, p + |OpenFence| + k);
    }
  }
}
