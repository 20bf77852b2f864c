/** The authorization gate of `/api/auth/me` (server.js:77-84): the header is
    split on single spaces, field [1] is taken as the token, and the token is
    turned back into a user id. The scheme word in field [0] is never looked at. */
module AuthHeader {
  import opened Wrappers
  import opened Strings
  import opened Token

  /** `authHeader && authHeader.split(' ')[1]`, kept only when truthy: None for
      a missing header, a header with no second field, or an empty second field. */
  function BearerField(header: Option<string>): (r: Option<string>)
    ensures r.Some? ==> header.Some? && r.value != "" && ' ' !in r.value
  {
    match header
    case None => None
    case Some(h) =>
      var fields := Split(h, ' ');
      if |fields| < 2 || fields[1] == "" then None else Some(fields[1])
  }

  /** `h` is a scheme word, one space and `token`, optionally followed by
      another space and anything at all. */
  ghost predicate Shaped(h: string, scheme: string, token: string, rest: string)
  {
    ' ' !in scheme && (h == scheme + " " + token || h == scheme + " " + token + " " + rest)
  }

  /** Field [1] of the header is exactly the non-empty, space-free word that
      follows the first space. */
  lemma BearerFieldShape(h: string, f: string)
    ensures BearerField(Some(h)) == Some(f) <==>
            f != "" && ' ' !in f && exists scheme, rest :: Shaped(h, scheme, f, rest)
  {
    if BearerField(Some(h)) == Some(f) {
      var fields := Split(h, ' ');
      JoinSplit(h, ' ');
      var tail := fields[1..];
      assert Join(fields, ' ') == fields[0] + " " + Join(tail, ' ');
      if |fields| == 2 {
        assert Join(tail, ' ') == f;
        assert Shaped(h, fields[0], f, "");
      } else {
        assert Join(tail, ' ') == f + " " + Join(tail[1..], ' ');
        assert Shaped(h, fields[0], f, Join(tail[1..], ' '));
      }
    }
    if f != "" && ' ' !in f && exists scheme, rest :: Shaped(h, scheme, f, rest) {
      var scheme, rest :| Shaped(h, scheme, f, rest);
      SplitNoSeparator(f, ' ');
      if h == scheme + " " + f {
        SplitAtSeparator(scheme, ' ', f);
      } else {
        assert h == scheme + [' '] + (f + [' '] + rest);
        SplitAtSeparator(scheme, ' ', f + [' '] + rest);
        SplitAtSeparator(f, ' ', rest);
      }
    }
  }

  /** The id named by the request's Authorization header, or None when the
      request must be answered 401. */
  function Gate(header: Option<string>): (r: Option<string>)
    ensures r.None? <==> BearerField(header).None? || !StartsWith(BearerField(header).value, Prefix)
    ensures r.Some? ==> BearerField(header) == Some(Issue(r.value))
    ensures r.None? ==> forall id :: BearerField(header) != Some(Issue(id))
  {
    match BearerField(header)
    case None => None
    case Some(t) => Recover(t)
  }

  /** The gate accepts `<scheme> <token>` for every issued token whose id holds
      no space, whatever the scheme word, and yields the token's id. */
  lemma GateAcceptsIssued(scheme: string, id: string)
    requires ' ' !in scheme && ' ' !in id
    ensures Gate(Some(scheme + " " + Issue(id))) == Some(id)
  {
    IssueNoSpace(id);
    BearerFieldShape(scheme + " " + Issue(id), Issue(id));
    assert Shaped(scheme + " " + Issue(id), scheme, Issue(id), "");
    RecoverIssue(id);
  }

  /** The scheme word is never checked: two headers that differ only in it get
      the same verdict. */
  lemma GateIgnoresScheme(scheme1: string, scheme2: string, rest: string)
    requires ' ' !in scheme1 && ' ' !in scheme2
    ensures Gate(Some(scheme1 + " " + rest)) == Gate(Some(scheme2 + " " + rest))
  {
    SplitAtSeparator(scheme1, ' ', rest);
    SplitAtSeparator(scheme2, ' ', rest);
  }
}
