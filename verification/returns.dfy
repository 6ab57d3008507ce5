/** The textual scan of a handler's (comment-stripped) source for its return
    values: `re.finditer('(^|\W)return($|\W)', text)` and the extraction of the
    first token after each match. */
module Returns {
  import opened Base
  import opened Text

  const Keyword: string := "return"

  /** Python's `$` without MULTILINE: the end of the text, or just before a
      newline that ends the text. */
  predicate AtEnd(s: string, k: nat)
  {
    k == |s| || (k + 1 == |s| && s[k] == '\n')
  }

  /** The group `($|\W)` can match at index `k`. */
  predicate ClosedAt(s: string, k: nat)
  {
    AtEnd(s, k) || (k < |s| && !IsWordChar(s[k]))
  }

  /** The first alternative `^return($|\W)`: only at the start of the text. */
  predicate StartMatch(s: string, p: nat)
  {
    p == 0 && OccursAt(s, Keyword, 0) && ClosedAt(s, |Keyword|)
  }

  /** The second alternative `\Wreturn($|\W)`: a non-word character at `p`
      followed by the keyword. */
  predicate SeparatedMatch(s: string, p: nat)
  {
    p < |s| && !IsWordChar(s[p]) && OccursAt(s, Keyword, p + 1) && ClosedAt(s, p + 1 + |Keyword|)
  }

  /** The pattern matches starting at `p`. */
  predicate MatchAt(s: string, p: nat)
  {
    StartMatch(s, p) || SeparatedMatch(s, p)
  }

  /** Where the keyword of the match at `p` starts. */
  function KeywordStart(s: string, p: nat): nat
  {
    if StartMatch(s, p) then p else p + 1
  }

  /** Where the match at `p` ends: the alternatives are tried left to right, so
      `$` (which consumes nothing) wins over `\W` (which consumes one character). */
  function MatchEnd(s: string, p: nat): (e: nat)
    requires MatchAt(s, p)
    ensures p < e <= |s|
  {
    var k := KeywordStart(s, p) + |Keyword|;
    if AtEnd(s, k) then k else k + 1
  }

  /** `finditer` from index `p`: each match is reported by its start, and the
      search resumes where the match ended, so matches never overlap. */
  function ScanReturns(s: string, p: nat): (r: seq<nat>)
    requires p <= |s|
    ensures forall k :: 0 <= k < |r| ==> p <= r[k] && MatchAt(s, r[k])
    ensures forall k :: 0 <= k < |r| - 1 ==> MatchEnd(s, r[k]) <= r[k + 1]
    ensures forall j, k :: 0 <= j < k < |r| ==> r[j] < r[k]
    decreases |s| - p
  {
    if p == |s| then []
    else if MatchAt(s, p) then [p] + ScanReturns(s, MatchEnd(s, p))
    else ScanReturns(s, p + 1)
  }

  /** `return_indexes`: the start index of every match, in text order. */
  function ReturnIndexes(s: string): seq<nat>
  {
    ScanReturns(s, 0)
  }

  /** Every reported index marks a whole-word `return`: the keyword is
      preceded by the start of the text or a non-word character, and followed
      by the end of the text or a non-word character. Embedded occurrences such
      as `returned` or `noreturn` are never reported. */
  lemma ReturnIndexesWholeWord(s: string, k: nat)
    requires k < |ReturnIndexes(s)|
    ensures var q := KeywordStart(s, ReturnIndexes(s)[k]);
            OccursAt(s, Keyword, q)
            && (q == 0 || !IsWordChar(s[q - 1]))
            && (q + |Keyword| == |s| || !IsWordChar(s[q + |Keyword|]))
  {
  }

  /** The scan misses a match only when that match starts strictly inside an
      earlier reported one, whose separator or keyword it would reuse. */
  lemma {:induction false} ScanReturnsComplete(s: string, p: nat, q: nat)
    requires p <= q < |s| && MatchAt(s, q)
    ensures var r := ScanReturns(s, p);
            q in r || exists k :: 0 <= k < |r| && r[k] < q < MatchEnd(s, r[k])
    decreases |s| - p
  {
    var r := ScanReturns(s, p);
    if p == q {
      assert r[0] == q;
    } else if MatchAt(s, p) {
      var e := MatchEnd(s, p);
      if q < e {
        assert r[0] == p;
      } else {
        ScanReturnsComplete(s, e, q);
        var rest := ScanReturns(s, e);
        assert r == [p] + rest;
        if q !in rest {
          var k :| 0 <= k < |rest| && rest[k] < q < MatchEnd(s, rest[k]);
          assert r[k + 1] == rest[k];
        }
      }
    } else {
      ScanReturnsComplete(s, p + 1, q);
    }
  }

  /** Characters that `str.strip('"\'')` removes. */
  predicate IsQuote(c: char)
  {
    c == '"' || c == '\''
  }

  /** The index of the first non-whitespace character at or after `i`. */
  function SkipSpaces(s: string, i: nat): (j: nat)
    requires i <= |s|
    ensures i <= j <= |s|
    ensures forall k :: i <= k < j ==> IsSpace(s[k])
    ensures j < |s| ==> !IsSpace(s[j])
    decreases |s| - i
  {
    if i == |s| || !IsSpace(s[i]) then i else SkipSpaces(s, i + 1)
  }

  /** The index of the first whitespace character at or after `i`. */
  function SkipToken(s: string, i: nat): (j: nat)
    requires i <= |s|
    ensures i <= j <= |s|
    ensures forall k :: i <= k < j ==> !IsSpace(s[k])
    ensures j < |s| ==> IsSpace(s[j])
    decreases |s| - i
  {
    if i == |s| || IsSpace(s[i]) then i else SkipToken(s, i + 1)
  }

  /** `s.split()[0]`, or `None` where Python raises IndexError. */
  function FirstToken(s: string): (r: Option<string>)
    ensures r.None? <==> forall k :: 0 <= k < |s| ==> IsSpace(s[k])
    ensures r.Some? ==> |r.value| > 0 && forall k :: 0 <= k < |r.value| ==> !IsSpace(r.value[k])
  {
    var a := SkipSpaces(s, 0);
    if a == |s| then None else Some(s[a..SkipToken(s, a)])
  }

  /** `t.lstrip('"\'')`. */
  function StripLeadingQuotes(t: string): (r: string)
    ensures |r| <= |t| && r == t[|t| - |r|..]
    ensures forall k :: 0 <= k < |t| - |r| ==> IsQuote(t[k])
    ensures |r| > 0 ==> !IsQuote(r[0])
    decreases |t|
  {
    if |t| > 0 && IsQuote(t[0]) then StripLeadingQuotes(t[1..]) else t
  }

  /** `t.rstrip('"\'')`. */
  function StripTrailingQuotes(t: string): (r: string)
    ensures |r| <= |t| && r == t[..|r|]
    ensures forall k :: |r| <= k < |t| ==> IsQuote(t[k])
    ensures |r| > 0 ==> !IsQuote(r[|r| - 1])
    decreases |t|
  {
    if |t| > 0 && IsQuote(t[|t| - 1]) then StripTrailingQuotes(t[..|t| - 1]) else t
  }

  /** `t.strip('"\'')`: the longest middle part of `t` with no quote at either end. */
  function StripQuotes(t: string): (r: string)
    ensures |r| > 0 ==> !IsQuote(r[0]) && !IsQuote(r[|r| - 1])
    ensures exists a :: QuotesAround(t, a, r)
  {
    var lead := StripLeadingQuotes(t);
    var r := StripTrailingQuotes(lead);
    TrimmedBothEnds(t, lead, r);
    r
  }

  /** `t` is `r` with `a` quotes before it and only quotes after it. */
  predicate QuotesAround(t: string, a: nat, r: string)
  {
    a + |r| <= |t| && r == t[a..a + |r|]
    && (forall k :: 0 <= k < a ==> IsQuote(t[k]))
    && (forall k :: a + |r| <= k < |t| ==> IsQuote(t[k]))
  }

  lemma QuotesAroundAt(t: string, a: nat, r: string, k: nat)
    requires QuotesAround(t, a, r) && k < |r|
    ensures a + k < |t| && r[k] == t[a + k]
  {
  }

  /** Quotes removed from the front of `t`, then from the back of what is
      left, are quotes around the remaining middle part. */
  lemma TrimmedBothEnds(t: string, lead: string, r: string)
    requires |lead| <= |t| && lead == t[|t| - |lead|..]
    requires forall k :: 0 <= k < |t| - |lead| ==> IsQuote(t[k])
    requires |r| <= |lead| && r == lead[..|r|]
    requires forall k :: |r| <= k < |lead| ==> IsQuote(lead[k])
    ensures QuotesAround(t, |t| - |lead|, r)
  {
    var a := |t| - |lead|;
    forall k | 0 <= k < |r|
      ensures r[k] == t[a + k]
    {
      assert r[k] == lead[k];
    }
    assert r == t[a..a + |r|];
    forall k | a + |r| <= k < |t|
      ensures IsQuote(t[k])
    {
      assert t[k] == lead[k - a];
    }
  }

  /** Removes one trailing `:`, if there is one. */
  function DropColon(t: string): string
  {
    if |t| > 0 && t[|t| - 1] == ':' then t[..|t| - 1] else t
  }

  /** What the handler returns at the match starting at `i`: the first token of
      `text[i + 7:]`, without surrounding quotes and without one trailing colon.
      Python slices past the end to an empty string, and then `split()[0]`
      raises. */
  function ReturnValue(text: string, i: nat): (r: Result<string>)
    ensures r.Err? <==> forall k :: i + |Keyword| + 1 <= k < |text| ==> IsSpace(text[k])
    ensures r.Err? ==> r.error == NoReturnValue(i)
  {
    var start := i + |Keyword| + 1;
    var rest := if start <= |text| then text[start..] else "";
    assert forall k :: start <= k < |text| ==> text[k] == rest[k - start];
    match FirstToken(rest)
    case None => Err(NoReturnValue(i))
    case Some(token) => Ok(DropColon(StripQuotes(token)))
  }

  /** A return value is one whitespace-free token that does not start with a quote. */
  lemma ReturnValueShape(text: string, i: nat)
    ensures var r := ReturnValue(text, i);
            r.Ok? ==> (forall k :: 0 <= k < |r.value| ==> !IsSpace(r.value[k]))
                      && (|r.value| > 0 ==> !IsQuote(r.value[0]))
  {
    var start := i + |Keyword| + 1;
    var rest := if start <= |text| then text[start..] else "";
    if FirstToken(rest).Some? {
      TokenValueShape(FirstToken(rest).value);
    }
  }

  /** Stripping quotes and a colon from a whitespace-free token leaves a
      whitespace-free value that does not start with a quote. */
  lemma TokenValueShape(token: string)
    requires forall k :: 0 <= k < |token| ==> !IsSpace(token[k])
    ensures var v := DropColon(StripQuotes(token));
            (forall k :: 0 <= k < |v| ==> !IsSpace(v[k])) && (|v| > 0 ==> !IsQuote(v[0]))
  {
    var stripped := StripQuotes(token);
    var off :| QuotesAround(token, off, stripped);
    var v := DropColon(stripped);
    assert v == stripped[..|v|];
    forall k | 0 <= k < |v|
      ensures !IsSpace(v[k])
    {
      assert v[k] == stripped[k];
      QuotesAroundAt(token, off, stripped, k);
    }
  }

  /** The values of the `return`s at the given match indexes, in index order. */
  function ReturnValues(text: string, indexes: seq<nat>): (vs: seq<Result<string>>)
    ensures |vs| == |indexes|
    ensures forall k :: 0 <= k < |indexes| ==> vs[k] == ReturnValue(text, indexes[k])
  {
    if |indexes| == 0 then [] else [ReturnValue(text, indexes[0])] + ReturnValues(text, indexes[1..])
  }

  /** Quotes around a body that neither starts nor ends with a quote are
      exactly what `strip` removes. */
  lemma StripQuotesAround(quote: string, body: string)
    requires |quote| <= 1 && forall k :: 0 <= k < |quote| ==> IsQuote(quote[k])
    requires |body| > 0 && !IsQuote(body[0]) && !IsQuote(body[|body| - 1])
    ensures StripQuotes(quote + body + quote) == body
  {
    var t := quote + body + quote;
    var tail := body + quote;
    assert tail[0] == body[0];
    assert StripLeadingQuotes(tail) == tail;
    if |quote| == 1 {
      assert t[0] == quote[0] && t[1..] == tail;
      assert tail[|tail| - 1] == quote[0];
      assert tail[..|tail| - 1] == body;
      assert StripTrailingQuotes(body) == body;
    } else {
      assert t == body && tail == body;
    }
  }

  /** The first token of whitespace, a token and then nothing or whitespace. */
  lemma FirstTokenAfterSpaces(rest: string, spaces: string, token: string, after: string)
    requires rest == spaces + token + after
    requires forall k :: 0 <= k < |spaces| ==> IsSpace(spaces[k])
    requires |token| > 0 && forall k :: 0 <= k < |token| ==> !IsSpace(token[k])
    requires |after| == 0 || IsSpace(after[0])
    ensures FirstToken(rest) == Some(token)
  {
    var a, b := |spaces|, |spaces| + |token|;
    forall k | 0 <= k < a
      ensures IsSpace(rest[k])
    {
      assert rest[k] == spaces[k];
    }
    assert rest[a] == token[0];
    assert SkipSpaces(rest, 0) == a;
    forall k | a <= k < b
      ensures !IsSpace(rest[k])
    {
      assert rest[k] == token[k - a];
    }
    assert b < |rest| ==> rest[b] == after[0];
    assert SkipToken(rest, a) == b;
    assert rest[a..b] == token;
  }

  /** A handler line `return "<name>"` (or with single quotes, or unquoted,
      optionally with the colon convention `"<name>:"`) yields `<name>`,
      whatever whitespace separates it from the keyword. */
  lemma LiteralReturnValue(text: string, i: nat, spaces: string, quote: string, name: string, colon: string, after: string)
    requires i + |Keyword| + 1 <= |text|
    requires text[i + |Keyword| + 1..] == spaces + (quote + (name + colon) + quote) + after
    requires forall k :: 0 <= k < |spaces| ==> IsSpace(spaces[k])
    requires |quote| <= 1 && forall k :: 0 <= k < |quote| ==> IsQuote(quote[k])
    requires colon == "" || colon == ":"
    requires |name| > 0 && !IsQuote(name[0]) && !IsQuote(name[|name| - 1]) && name[|name| - 1] != ':'
    requires forall k :: 0 <= k < |name| ==> !IsSpace(name[k])
    requires |after| == 0 || IsSpace(after[0])
    ensures ReturnValue(text, i) == Ok(name)
  {
    var body := name + colon;
    var token := quote + body + quote;
    NoSpaceInToken(quote, name, colon);
    FirstTokenAfterSpaces(text[i + |Keyword| + 1..], spaces, token, after);
    ReturnValueOfToken(text, i, token);
    assert body[|body| - 1] == (if colon == "" then name[|name| - 1] else ':');
    StripQuotesAround(quote, body);
    assert StripQuotes(token) == body;
    DropColonOnce(name);
    if colon == "" {
      assert body == name;
    }
    assert DropColon(body) == name;
  }

  /** Exactly one colon is dropped: `t + ":"` loses its last colon and keeps
      any earlier one (`a::` gives `a:`), and text not ending in a colon is
      left alone. */
  lemma DropColonOnce(t: string)
    ensures DropColon(t + ":") == t
    ensures |t| == 0 || t[|t| - 1] != ':' ==> DropColon(t) == t
  {
    assert (t + ":")[..|t|] == t;
  }

  lemma NoSpaceInToken(quote: string, name: string, colon: string)
    requires forall k :: 0 <= k < |quote| ==> IsQuote(quote[k])
    requires colon == "" || colon == ":"
    requires forall k :: 0 <= k < |name| ==> !IsSpace(name[k])
    ensures var token := quote + (name + colon) + quote;
            forall k :: 0 <= k < |token| ==> !IsSpace(token[k])
  {
    var body := name + colon;
    var token := quote + body + quote;
    forall k | 0 <= k < |token|
      ensures !IsSpace(token[k])
    {
      if k < |quote| {
        assert token[k] == quote[k];
      } else if k < |quote| + |name| {
        assert token[k] == name[k - |quote|];
      } else if k < |quote| + |body| {
        assert token[k] == ':';
      } else {
        assert token[k] == quote[k - |quote| - |body|];
      }
    }
  }

  lemma ReturnValueOfToken(text: string, i: nat, token: string)
    requires i + |Keyword| + 1 <= |text|
    requires FirstToken(text[i + |Keyword| + 1..]) == Some(token)
    ensures ReturnValue(text, i) == Ok(DropColon(StripQuotes(token)))
  {
  }
}
