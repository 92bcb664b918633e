/** `String.prototype.split(' ')`: cutting a query at every single space
    character. Consecutive, leading and trailing spaces produce empty tokens,
    and the empty string splits to one empty token. */
module Words {

  const Space: char := ' '

  /** A token that holds no separator. */
  predicate SpaceFree(t: string) {
    forall i :: 0 <= i < |t| ==> t[i] != Space
  }

  /** The pieces of `s` between separators, from left to right. */
  function Split(s: string): (r: seq<string>)
    ensures |r| >= 1
    ensures forall k :: 0 <= k < |r| ==> SpaceFree(r[k])
    decreases |s|
  {
    if s == [] then [""]
    else if s[0] == Space then [""] + Split(s[1..])
    else
      var rest := Split(s[1..]);
      [[s[0]] + rest[0]] + rest[1..]
  }

  /** `tokens.join(' ')`: the inverse of `Split`. */
  function Join(tokens: seq<string>): string
    requires |tokens| >= 1
    decreases |tokens|
  {
    if |tokens| == 1 then tokens[0] else tokens[0] + [Space] + Join(tokens[1..])
  }

  lemma {:induction false} JoinConsHead(c: char, tokens: seq<string>)
    requires |tokens| >= 1
    ensures Join([[c] + tokens[0]] + tokens[1..]) == [c] + Join(tokens)
  {
    var t := [[c] + tokens[0]] + tokens[1..];
    assert t[1..] == tokens[1..];
  }

  /** Joining the pieces with single spaces gives back the query. */
  lemma {:induction false} JoinSplit(s: string)
    ensures Join(Split(s)) == s
    decreases |s|
  {
    if s != [] {
      JoinSplit(s[1..]);
      if s[0] == Space {
        assert ([""] + Split(s[1..]))[1..] == Split(s[1..]);
      } else {
        JoinConsHead(s[0], Split(s[1..]));
      }
    }
  }

  lemma {:induction false} SplitSpaceFree(t: string)
    requires SpaceFree(t)
    ensures Split(t) == [t]
    decreases |t|
  {
    if t != [] {
      assert t[0] != Space;
      SplitSpaceFree(t[1..]);
      assert [t[0]] + t[1..] == t;
    }
  }

  lemma {:induction false} SplitAfterToken(t: string, u: string)
    requires SpaceFree(t)
    ensures Split(t + [Space] + u) == [t] + Split(u)
    decreases |t|
  {
    if t == [] {
      assert t + [Space] + u == [Space] + u;
      assert ([Space] + u)[1..] == u;
    } else {
      assert (t + [Space] + u)[1..] == t[1..] + [Space] + u;
      SplitAfterToken(t[1..], u);
      assert [t[0]] + t[1..] == t;
    }
  }

  /** Splitting a space-joined list of space-free tokens gives back the list. */
  lemma {:induction false} SplitJoin(tokens: seq<string>)
    requires |tokens| >= 1
    requires forall k :: 0 <= k < |tokens| ==> SpaceFree(tokens[k])
    ensures Split(Join(tokens)) == tokens
    decreases |tokens|
  {
    if |tokens| == 1 {
      SplitSpaceFree(tokens[0]);
    } else {
      SplitJoin(tokens[1..]);
      SplitAfterToken(tokens[0], Join(tokens[1..]));
    }
  }

  /** The first piece is empty exactly when the query is empty or starts with
      a space. */
  lemma {:induction false} FirstTokenEmptyIff(s: string)
    ensures Split(s)[0] == "" <==> s == "" || s[0] == Space
  {
  }

  /** A query of spaces only splits into empty pieces alone. */
  lemma {:induction false} SplitOnlySpaces(s: string)
    requires forall i :: 0 <= i < |s| ==> s[i] == Space
    ensures forall k :: 0 <= k < |Split(s)| ==> Split(s)[k] == ""
    decreases |s|
  {
    if s != [] {
      SplitOnlySpaces(s[1..]);
    }
  }

  /** A query holding a character other than a space has a non-empty piece. */
  lemma {:induction false} SplitHasNonEmptyToken(s: string, i: nat)
    requires i < |s| && s[i] != Space
    ensures exists k :: 0 <= k < |Split(s)| && Split(s)[k] != ""
    decreases |s|
  {
    if s[0] != Space {
      assert Split(s)[0] != "";
    } else {
      SplitHasNonEmptyToken(s[1..], i - 1);
      var k :| 0 <= k < |Split(s[1..])| && Split(s[1..])[k] != "";
      assert Split(s)[k + 1] == Split(s[1..])[k];
    }
  }
}
