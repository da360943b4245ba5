/** Shared vocabulary: an optional value (a C pointer that may be NULL), the
    C-locale `tolower`, and the tokenizer `strtok_r` used with a one-character
    delimiter set. */
module Common {

  /** A value that may be absent (a NULL pointer on the C side). */
  datatype Option<+T> = None | Some(value: T)

  /** `tolower` of the C locale: only 'A'..'Z' change. */
  function ToLower(c: char): (r: char)
    ensures r == c <==> !('A' <= c <= 'Z')
    ensures r == '\0' <==> c == '\0'
    ensures 'A' <= c <= 'Z' ==> r as int == c as int + 32
  {
    if 'A' <= c <= 'Z' then (c as int + 32) as char else c
  }

  /** A string with every character passed through `ToLower`. */
  function FoldCase(s: string): (r: string)
  {
    seq(|s|, i requires 0 <= i < |s| => ToLower(s[i]))
  }

  /** `n` occurs at offset `i` of `h` once both are folded to lower case. */
  ghost predicate FoldedAt(h: string, n: string, i: nat)
  {
    i + |n| <= |h| && FoldCase(h[i..i + |n|]) == FoldCase(n)
  }

  /** Concatenation regroups freely. */
  lemma ConcatAssoc<T>(x: seq<T>, y: seq<T>, z: seq<T>)
    ensures (x + y) + z == x + (y + z)
  {
  }

  /** Number of leading characters of `s` that are not the delimiter `d`. */
  function RunLength(s: string, d: char): (n: nat)
    ensures n <= |s|
    ensures forall k :: 0 <= k < n ==> s[k] != d
    ensures n < |s| ==> s[n] == d
    decreases |s|
  {
    if s == [] || s[0] == d then 0 else 1 + RunLength(s[1..], d)
  }

  /** One call of `strtok_r(s, d, &save)`: skip leading delimiters, return the
      next maximal run of non-delimiters (None when only delimiters remain) and
      the text the save pointer is left at. */
  function StrTok(s: string, d: char): (r: (Option<string>, string))
    ensures r.0.None? <==> forall k :: 0 <= k < |s| ==> s[k] == d
    ensures r.0.Some? ==> r.0.value != [] && d !in r.0.value && |r.1| < |s|
    decreases |s|
  {
    if s == [] then (None, [])
    else if s[0] == d then StrTok(s[1..], d)
    else
      var n := RunLength(s, d);
      (Some(s[..n]), s[n..])
  }

  /** Every token that repeated `strtok_r` calls return, in order: each is
      non-empty and free of the delimiter. */
  function Tokens(s: string, d: char): (r: seq<string>)
    ensures forall k :: 0 <= k < |r| ==> r[k] != [] && d !in r[k]
    decreases |s|
  {
    match StrTok(s, d)
    case (None, _) => []
    case (Some(t), rest) => [t] + Tokens(rest, d)
  }

  /** One `strtok_r` call peels the first of the remaining tokens. */
  lemma TokensStep(s: string, d: char)
    ensures StrTok(s, d).0.None? ==> Tokens(s, d) == []
    ensures StrTok(s, d).0.Some? ==> Tokens(s, d) == [StrTok(s, d).0.value] + Tokens(StrTok(s, d).1, d)
  {
  }

  /** A leading delimiter is skipped. */
  lemma TokensSkipDelimiter(s: string, d: char)
    requires s != [] && s[0] == d
    ensures Tokens(s, d) == Tokens(s[1..], d)
  {
  }

  lemma {:induction false} RunLengthStopsAtDelimiter(a: string, b: string, d: char)
    requires b != [] && b[0] == d
    ensures RunLength(a + b, d) == RunLength(a, d)
    decreases |a|
  {
    if a != [] && a[0] != d {
      assert (a + b)[1..] == a[1..] + b;
      RunLengthStopsAtDelimiter(a[1..], b, d);
    } else if a == [] {
      assert a + b == b;
    }
  }

  /** A text that starts with a non-delimiter yields its leading run first. */
  lemma TokensTakeRun(s: string, d: char)
    requires s != [] && s[0] != d
    ensures Tokens(s, d) == [s[..RunLength(s, d)]] + Tokens(s[RunLength(s, d)..], d)
  {
  }

  /** A delimiter splits the text: the tokens of `a;b` are those of `a`
      followed by those of `b`. */
  lemma {:induction false} TokensSplit(a: string, b: string, d: char)
    ensures Tokens(a + [d] + b, d) == Tokens(a, d) + Tokens(b, d)
    decreases |a|
  {
    if a == [] {
      SplitEmptyLeft(b, d);
    } else if a[0] == d {
      TokensSplit(a[1..], b, d);
      SplitLeadingDelimiter(a, b, d);
    } else {
      var n := RunLength(a, d);
      TokensSplit(a[n..], b, d);
      SplitLeadingRun(a, b, d);
    }
  }

  lemma SplitEmptyLeft(b: string, d: char)
    ensures Tokens([] + [d] + b, d) == Tokens([], d) + Tokens(b, d)
  {
    var s := [] + [d] + b;
    assert s[1..] == b;
    TokensSkipDelimiter(s, d);
  }

  lemma SplitLeadingDelimiter(a: string, b: string, d: char)
    requires a != [] && a[0] == d
    requires Tokens(a[1..] + [d] + b, d) == Tokens(a[1..], d) + Tokens(b, d)
    ensures Tokens(a + [d] + b, d) == Tokens(a, d) + Tokens(b, d)
  {
    var s := a + [d] + b;
    assert s[1..] == a[1..] + [d] + b;
    TokensSkipDelimiter(s, d);
    TokensSkipDelimiter(a, d);
  }

  lemma SplitLeadingRun(a: string, b: string, d: char)
    requires a != [] && a[0] != d
    requires Tokens(a[RunLength(a, d)..] + [d] + b, d) == Tokens(a[RunLength(a, d)..], d) + Tokens(b, d)
    ensures Tokens(a + [d] + b, d) == Tokens(a, d) + Tokens(b, d)
  {
    var s := a + [d] + b;
    var n := RunLength(a, d);
    RunOfConcat(a, b, d);
    TokensTakeRun(s, d);
    TokensTakeRun(a, d);
    assert Tokens(s, d) == [a[..n]] + (Tokens(a[n..], d) + Tokens(b, d));
    ConcatAssoc([a[..n]], Tokens(a[n..], d), Tokens(b, d));
  }

  lemma RunOfConcat(a: string, b: string, d: char)
    ensures RunLength(a + [d] + b, d) == RunLength(a, d)
    ensures (a + [d] + b)[..RunLength(a, d)] == a[..RunLength(a, d)]
    ensures (a + [d] + b)[RunLength(a, d)..] == a[RunLength(a, d)..] + [d] + b
  {
    RunLengthStopsAtDelimiter(a, [d] + b, d);
    assert a + [d] + b == a + ([d] + b);
  }

  /** A non-empty text without delimiters is a single token. */
  lemma SingleToken(x: string, d: char)
    requires x != [] && d !in x
    ensures Tokens(x, d) == [x]
  {
    assert RunLength(x, d) == |x|;
    assert x[..|x|] == x;
  }

  /** Consecutive delimiters collapse: no empty token is produced between them. */
  lemma DelimitersCollapse(a: string, b: string, d: char)
    ensures Tokens(a + [d, d] + b, d) == Tokens(a + [d] + b, d)
  {
    assert a + [d, d] + b == a + [d] + ([d] + b);
    TokensSplit(a, [d] + b, d);
    TokensSplit(a, b, d);
    assert ([d] + b)[1..] == b;
    TokensSkipDelimiter([d] + b, d);
  }

  /** Appending `body` and a delimiter to a text that is empty or ends in a
      delimiter adds exactly one token. */
  lemma TokensAppendLine(prefix: string, body: string, d: char)
    requires prefix == [] || prefix[|prefix| - 1] == d
    requires body != [] && d !in body
    ensures Tokens(prefix + body + [d], d) == Tokens(prefix, d) + [body]
  {
    LineToken(body, d);
    if prefix != [] {
      var p := prefix[..|prefix| - 1];
      var line := body + [d];
      LastDelimiterShape(prefix, body, d);
      calc {
        Tokens(prefix + body + [d], d);
        Tokens(p + [d] + line, d);
        { TokensSplit(p, line, d); }
        Tokens(p, d) + Tokens(line, d);
        { DropTrailingDelimiter(p, d); }
        Tokens(prefix, d) + [body];
      }
    }
  }

  /** A line followed by its delimiter is one token. */
  lemma LineToken(body: string, d: char)
    requires body != [] && d !in body
    ensures Tokens(body + [d], d) == [body]
    ensures Tokens([] + body + [d], d) == [body]
  {
    SingleToken(body, d);
    TokensSplit(body, [], d);
    assert body + [d] + [] == body + [d];
    assert [] + body + [d] == body + [d];
  }

  /** A trailing delimiter adds no token. */
  lemma DropTrailingDelimiter(p: string, d: char)
    ensures Tokens(p + [d], d) == Tokens(p, d)
  {
    TokensSplit(p, [], d);
    assert p + [d] + [] == p + [d];
  }

  lemma LastDelimiterShape(prefix: string, body: string, d: char)
    requires prefix != [] && prefix[|prefix| - 1] == d
    ensures prefix == prefix[..|prefix| - 1] + [d]
    ensures prefix + body + [d] == prefix[..|prefix| - 1] + [d] + (body + [d])
  {
  }
}
