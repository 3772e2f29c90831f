/** split_string (fs.c:8-36): the `/`-delimited components of a path, as strtok_r
    yields them: empty segments from leading, trailing or repeated delimiters
    are dropped. Only the resulting token sequence is modelled. */
module Paths {

  predicate IsToken(t: string)
  {
    |t| > 0 && '/' !in t
  }

  /** The tokens of s when the characters in cur already began a token. */
  function SplitFrom(s: string, cur: string): seq<string>
    decreases |s|
  {
    if s == [] then
      (if cur == [] then [] else [cur])
    else if s[0] == '/' then
      (if cur == [] then [] else [cur]) + SplitFrom(s[1..], [])
    else
      SplitFrom(s[1..], cur + [s[0]])
  }

  function Split(s: string): seq<string>
  {
    SplitFrom(s, [])
  }

  /** The components joined back with single delimiters. */
  function Join(ts: seq<string>): string
  {
    if |ts| == 0 then []
    else if |ts| == 1 then ts[0]
    else ts[0] + "/" + Join(ts[1..])
  }

  /** s with every delimiter removed. */
  function Strip(s: string): string
  {
    if s == [] then []
    else if s[0] == '/' then Strip(s[1..])
    else [s[0]] + Strip(s[1..])
  }

  function Flatten(ts: seq<string>): string
  {
    if ts == [] then [] else ts[0] + Flatten(ts[1..])
  }

  /** The scan of split_string: one pass over the path collecting tokens. */
  method SplitString(path: string) returns (tokens: seq<string>)
    ensures tokens == Split(path)
  {
    tokens := [];
    var cur: string := [];
    var i := 0;
    while i < |path|
      invariant 0 <= i <= |path|
      invariant tokens + SplitFrom(path[i..], cur) == Split(path)
    {
      assert path[i..][1..] == path[i + 1..];
      if path[i] == '/' {
        if cur != [] {
          tokens := tokens + [cur];
        }
        cur := [];
      } else {
        cur := cur + [path[i]];
      }
      i := i + 1;
    }
    if cur != [] {
      tokens := tokens + [cur];
    }
  }

  lemma {:induction false} SplitFromTokens(s: string, cur: string)
    requires '/' !in cur
    ensures forall i :: 0 <= i < |SplitFrom(s, cur)| ==> IsToken(SplitFrom(s, cur)[i])
    decreases |s|
  {
    if s == [] {
    } else if s[0] == '/' {
      SplitFromTokens(s[1..], []);
    } else {
      SplitFromTokens(s[1..], cur + [s[0]]);
    }
  }

  /** Every component is non-empty and free of delimiters. */
  lemma SplitTokens(s: string)
    ensures forall i :: 0 <= i < |Split(s)| ==> IsToken(Split(s)[i])
  {
    SplitFromTokens(s, []);
  }

  lemma {:induction false} FlattenAppend(a: seq<string>, b: seq<string>)
    ensures Flatten(a + b) == Flatten(a) + Flatten(b)
    decreases |a|
  {
    if a == [] {
      assert a + b == b;
    } else {
      assert (a + b)[0] == a[0] && (a + b)[1..] == a[1..] + b;
      FlattenAppend(a[1..], b);
    }
  }

  lemma {:induction false} SplitFromKeepsCharacters(s: string, cur: string)
    ensures Flatten(SplitFrom(s, cur)) == cur + Strip(s)
    decreases |s|
  {
    if s == [] {
    } else if s[0] == '/' {
      SplitFromKeepsCharacters(s[1..], []);
      FlattenAppend(if cur == [] then [] else [cur], SplitFrom(s[1..], []));
    } else {
      SplitFromKeepsCharacters(s[1..], cur + [s[0]]);
    }
  }

  /** The components hold exactly the non-delimiter characters, in order. */
  lemma SplitKeepsCharacters(s: string)
    ensures Flatten(Split(s)) == Strip(s)
  {
    SplitFromKeepsCharacters(s, []);
  }

  lemma {:induction false} SplitFromToken(t: string, r: string, cur: string)
    requires '/' !in t
    ensures SplitFrom(t + r, cur) == SplitFrom(r, cur + t)
    decreases |t|
  {
    if t == [] {
      assert t + r == r && cur + t == cur;
    } else {
      assert (t + r)[0] == t[0] && (t + r)[1..] == t[1..] + r;
      assert cur + [t[0]] + t[1..] == cur + t;
      SplitFromToken(t[1..], r, cur + [t[0]]);
    }
  }

  /** Splitting a join of components gives the components back. */
  lemma {:induction false} SplitJoin(ts: seq<string>)
    requires forall i :: 0 <= i < |ts| ==> IsToken(ts[i])
    ensures Split(Join(ts)) == ts
    decreases |ts|
  {
    if |ts| == 1 {
      SplitFromToken(ts[0], [], []);
      assert ts[0] + [] == ts[0] && [] + ts[0] == ts[0];
      assert SplitFrom([], ts[0]) == [ts[0]];
    } else if |ts| > 1 {
      var rest := "/" + Join(ts[1..]);
      SplitFromToken(ts[0], rest, []);
      assert Join(ts) == ts[0] + rest;
      assert [] + ts[0] == ts[0];
      assert rest[0] == '/' && rest[1..] == Join(ts[1..]);
      assert SplitFrom(rest, ts[0]) == [ts[0]] + SplitFrom(Join(ts[1..]), []);
      SplitJoin(ts[1..]);
      assert ts == [ts[0]] + ts[1..];
    }
  }

  /** The same holds for the absolute path "/c1/c2/...". */
  lemma SplitAbsolute(ts: seq<string>)
    requires forall i :: 0 <= i < |ts| ==> IsToken(ts[i])
    ensures Split("/" + Join(ts)) == ts
  {
    assert ("/" + Join(ts))[1..] == Join(ts);
    SplitJoin(ts);
  }
}
