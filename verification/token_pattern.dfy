/** Search patterns: a name's tokens joined by `\s*`, as the source builds
    them with `parts.join('\\s*')` and runs them with `String.prototype.match`.
    Tokens are read literally. `Spans` is what the regular expression means;
    `MatchAt` and `Leftmost` are how a match is found; the lemmas show the
    two agree when the tokens are non-empty and contain no whitespace, which
    is what splitting a name on `/\s+/` produces. */
module TokenPattern {
  import opened Wrappers
  import opened Text

  /** The regular expression `t1\s*t2\s*...\s*tn` matches `text[p..e]`. */
  ghost predicate Spans(text: string, p: nat, e: nat, toks: seq<string>)
    decreases |toks|
  {
    if |toks| == 0 then e == p
    else if |toks| == 1 then PrefixAt(text, p, toks[0]) && e == p + |toks[0]|
    else
      && PrefixAt(text, p, toks[0])
      && exists q :: p + |toks[0]| <= q <= |text| && SpaceRun(text, p + |toks[0]|, q) && Spans(text, q, e, toks[1..])
  }

  /** The pattern matches somewhere in `text`. */
  ghost predicate Occurs(text: string, toks: seq<string>) {
    exists p: nat, e: nat :: p <= |text| && Spans(text, p, e, toks)
  }

  /** End of the match of the pattern starting at `p`, with every `\s*`
      greedy; None when it does not match there. */
  function MatchAt(text: string, p: nat, toks: seq<string>): (r: Option<nat>)
    requires p <= |text|
    ensures r.Some? ==> p <= r.value <= |text|
    decreases |toks|
  {
    if |toks| == 0 then Some(p)
    else if !PrefixAt(text, p, toks[0]) then None
    else if |toks| == 1 then Some(p + |toks[0]|)
    else MatchAt(text, SkipSpaces(text, p + |toks[0]|), toks[1..])
  }

  /** With tokens that start with a non-space character, greedy matching
      loses nothing: the pattern matches `text[p..e]` exactly when the greedy
      match from `p` ends at `e`. So a match start determines its end. */
  lemma {:induction false} MatchAtIsSpans(text: string, p: nat, e: nat, toks: seq<string>)
    requires p <= |text| && Tokens(toks)
    ensures Spans(text, p, e, toks) <==> MatchAt(text, p, toks) == Some(e)
    decreases |toks|
  {
    if |toks| >= 2 && PrefixAt(text, p, toks[0]) {
      var m := p + |toks[0]|;
      var rest := toks[1..];
      TokensTail(toks);
      var q0 := SkipSpaces(text, m);
      MatchAtIsSpans(text, q0, e, rest);
      assert MatchAt(text, p, toks) == MatchAt(text, q0, rest);
      if Spans(text, p, e, toks) {
        var q :| m <= q <= |text| && SpaceRun(text, m, q) && Spans(text, q, e, rest);
        GreedyStop(text, m, q, rest[0]);
        assert Spans(text, q0, e, rest);
      }
      if MatchAt(text, q0, rest) == Some(e) {
        assert SpaceRun(text, m, q0) && Spans(text, q0, e, rest);
      }
    }
  }

  /** The tail of a token sequence is one. */
  lemma TokensTail(toks: seq<string>)
    requires |toks| >= 1 && Tokens(toks)
    ensures Tokens(toks[1..])
  {
    var rest := toks[1..];
    forall k | 0 <= k < |rest| ensures |rest[k]| > 0 && NoSpace(rest[k]) {
      assert rest[k] == toks[k + 1];
    }
  }

  /** A whitespace run followed by a token ends where greedy `\s*` stops. */
  lemma GreedyStop(text: string, m: nat, q: nat, t: string)
    requires m <= q <= |text| && SpaceRun(text, m, q)
    requires PrefixAt(text, q, t) && |t| > 0 && NoSpace(t)
    ensures q == SkipSpaces(text, m)
  {
    TokenAt(text, q, t);
  }

  /** A greedy match of a non-empty token sequence is non-empty and starts
      and ends with a non-space character (the first character of the first
      token and the last character of the last token). */
  lemma {:induction false} MatchEnds(text: string, p: nat, toks: seq<string>)
    requires p <= |text| && |toks| >= 1 && Tokens(toks)
    requires MatchAt(text, p, toks).Some?
    ensures p < MatchAt(text, p, toks).value
    ensures !IsSpace(text[p])
    ensures !IsSpace(text[MatchAt(text, p, toks).value - 1])
    decreases |toks|
  {
    var t := toks[0];
    assert PrefixAt(text, p, t);
    TokenAt(text, p, t);
    if |toks| >= 2 {
      var rest := toks[1..];
      TokensTail(toks);
      var q0 := SkipSpaces(text, p + |t|);
      assert MatchAt(text, p, toks) == MatchAt(text, q0, rest);
      MatchEnds(text, q0, rest);
    }
  }

  /** A token found in `text` starts and ends with a non-space character. */
  lemma TokenAt(text: string, p: nat, t: string)
    requires PrefixAt(text, p, t) && |t| > 0 && NoSpace(t)
    ensures p < |text| && !IsSpace(text[p]) && !IsSpace(text[p + |t| - 1])
  {
    assert text[p..p + |t|][0] == text[p];
    assert text[p..p + |t|][|t| - 1] == text[p + |t| - 1];
  }

  /** The leftmost position at or after `from` where the pattern matches,
      with the end of that match: what `text.match(regex)` reports as
      `match.index` and `match.index + match[0].length`. */
  function LeftmostFrom(text: string, toks: seq<string>, from: nat): (r: Option<(nat, nat)>)
    requires from <= |text|
    ensures r.Some? ==> from <= r.value.0 <= |text| && MatchAt(text, r.value.0, toks) == Some(r.value.1)
    ensures r.Some? ==> forall p :: from <= p < r.value.0 ==> MatchAt(text, p, toks).None?
    ensures r.None? ==> forall p :: from <= p <= |text| ==> MatchAt(text, p, toks).None?
    decreases |text| - from
  {
    match MatchAt(text, from, toks)
    case Some(e) => Some((from, e))
    case None => if from == |text| then None else LeftmostFrom(text, toks, from + 1)
  }

  /** `text.match(regex)` for the pattern of `toks`. */
  function Leftmost(text: string, toks: seq<string>): Option<(nat, nat)> {
    LeftmostFrom(text, toks, 0)
  }

  /** The search reports exactly the leftmost regular-expression match: it
      finds one iff the pattern occurs, what it finds is a match, and no match
      starts earlier. */
  lemma LeftmostIsRegexMatch(text: string, toks: seq<string>)
    requires Tokens(toks)
    ensures Leftmost(text, toks).Some? <==> Occurs(text, toks)
    ensures Leftmost(text, toks).Some? ==>
      var (s, e) := Leftmost(text, toks).value;
      && s <= e <= |text|
      && Spans(text, s, e, toks)
      && forall p: nat, e': nat :: p < s && Spans(text, p, e', toks) ==> false
  {
    var r := Leftmost(text, toks);
    if r.Some? {
      var (s, e) := r.value;
      MatchAtIsSpans(text, s, e, toks);
      forall p: nat, e': nat | p < s && Spans(text, p, e', toks) ensures false {
        MatchAtIsSpans(text, p, e', toks);
      }
    } else {
      forall p: nat, e: nat | p <= |text| && Spans(text, p, e, toks) ensures false {
        MatchAtIsSpans(text, p, e, toks);
      }
    }
  }
}
