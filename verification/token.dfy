/** The demo session token: `'demo-token-' + id` on issue (server.js:42, 64);
    on the way back a `startsWith` check followed by `replace` of the prefix
    (server.js:80-84). The token carries no signature: any string of this
    shape is accepted as proof of identity. */
module Token {
  import opened Wrappers
  import opened Strings

  const Prefix: string := "demo-token-"

  /** The token handed out for the user with id `id`. */
  function Issue(id: string): (t: string)
    ensures StartsWith(t, Prefix)
    ensures |t| == |Prefix| + |id|
  {
    Prefix + id
  }

  /** The id a token names, or None when the token lacks the prefix. */
  function Recover(t: string): (r: Option<string>)
    ensures r.Some? <==> StartsWith(t, Prefix)
    ensures r.Some? ==> Issue(r.value) == t
  {
    if StartsWith(t, Prefix) then
      // the first occurrence of the prefix is the prefix itself
      ReplaceFirstOfPrefix(t, Prefix, "");
      assert Prefix + t[|Prefix|..] == t;
      Some(ReplaceFirst(t, Prefix, ""))
    else None
  }

  /** Round trip: recovering an issued token gives back the id, for every id,
      including ids that themselves contain the prefix. */
  lemma RecoverIssue(id: string)
    ensures Recover(Issue(id)) == Some(id)
  {
  }

  /** Recover accepts exactly the issued tokens, and only for their own id. */
  lemma RecoverIff(t: string, id: string)
    ensures Recover(t) == Some(id) <==> t == Issue(id)
  {
  }

  /** Tokens of distinct ids are distinct. */
  lemma IssueInjective(a: string, b: string)
    ensures Issue(a) == Issue(b) <==> a == b
  {
  }

  /** The prefix holds no space, so a token holds a space only if its id does. */
  lemma IssueNoSpace(id: string)
    requires ' ' !in id
    ensures ' ' !in Issue(id)
  {
  }
}
