/** The reverse file lookup of `xbps-query --ownedby` over a repository's
    files index: each entry's content is split into lines, each line is
    parsed into the three fields `hash;path;target` of a `struct file`, and
    the line is reported when it matches the search. */
module OwnedBy {
  import opened Common
  import opened FilesIndex

  /** The value of a `struct file`; None is a NULL pointer. */
  datatype FileFields = FileFields(hash: Option<string>, path: Option<string>, target: Option<string>)

  /** The `struct file` that `parse_line` fills in place. */
  class FileInfo {
    var hash: Option<string>
    var path: Option<string>
    var target: Option<string>

    constructor(init: FileFields)
      ensures Fields() == init
    {
      hash, path, target := init.hash, init.path, init.target;
    }

    function Fields(): FileFields
      reads this
    {
      FileFields(hash, path, target)
    }
  }

  /** A field as stored: exactly `%` means NULL, anything else is kept verbatim. */
  function FieldValue(tok: string): (r: Option<string>)
    ensures r.None? <==> tok == "%"
    ensures r.Some? ==> r.value == tok
  {
    if tok == "%" then None else Some(tok)
  }

  /** The `switch (field_nr++)`: field 0 is the hash, 1 the path, 2 the
      target; later fields go nowhere. */
  function Assign(f: FileFields, k: nat, v: Option<string>): (r: FileFields)
  {
    if k == 0 then f.(hash := v)
    else if k == 1 then f.(path := v)
    else if k == 2 then f.(target := v)
    else f
  }

  /** The struct after the fields `toks` were assigned in order: field k
      lands in slot k, slots beyond the number of fields keep their previous
      values, and fields after the third are ignored. */
  function AssignAll(prev: FileFields, toks: seq<string>): (r: FileFields)
    ensures r.hash == if |toks| > 0 then FieldValue(toks[0]) else prev.hash
    ensures r.path == if |toks| > 1 then FieldValue(toks[1]) else prev.path
    ensures r.target == if |toks| > 2 then FieldValue(toks[2]) else prev.target
  {
    if toks == [] then prev
    else Assign(AssignAll(prev, toks[..|toks| - 1]), |toks| - 1, FieldValue(toks[|toks| - 1]))
  }

  /** The struct after `parse_line` on `line`: a line without fields leaves
      it as it was, and a line with three or more fields sets all of it,
      whatever it held before. */
  function Parsed(prev: FileFields, line: string): (r: FileFields)
    ensures Tokens(line, ';') == [] ==> r == prev
    ensures var t := Tokens(line, ';');
      |t| >= 3 ==> r == FileFields(FieldValue(t[0]), FieldValue(t[1]), FieldValue(t[2]))
  {
    AssignAll(prev, Tokens(line, ';'))
  }

  /** `parse_line(file, line)`; the line must hold at least one field (the C
      code dereferences the first token unconditionally). */
  method ParseLine(file: FileInfo, line: string)
    requires Tokens(line, ';') != []
    modifies file
    ensures file.Fields() == Parsed(old(file.Fields()), line)
  {
    ghost var toks := Tokens(line, ';');
    ghost var prev := file.Fields();
    var tok := StrTok(line, ';');
    var field := tok.0;
    var rest := tok.1;
    var fieldNr := 0;
    while field.Some?
      invariant 0 <= fieldNr <= |toks|
      invariant field.Some? ==> fieldNr < |toks| && field.value == toks[fieldNr] && Tokens(rest, ';') == toks[fieldNr + 1..]
      invariant field.None? ==> fieldNr == |toks|
      invariant file.Fields() == AssignAll(prev, toks[..fieldNr])
      decreases |toks| - fieldNr
    {
      StoreField(file, fieldNr, field.value, prev, toks);
      fieldNr := fieldNr + 1;
      tok := StrTok(rest, ';');
      field := tok.0;
      rest := tok.1;
    }
    assert toks[..fieldNr] == toks;
  }

  /** One pass of the token loop: stores field number `fieldNr`. */
  method StoreField(file: FileInfo, fieldNr: nat, tok: string, ghost prev: FileFields, ghost toks: seq<string>)
    requires fieldNr < |toks| && tok == toks[fieldNr]
    requires file.Fields() == AssignAll(prev, toks[..fieldNr])
    modifies file
    ensures file.Fields() == AssignAll(prev, toks[..fieldNr + 1])
  {
    var value := if tok == "%" then None else Some(tok);
    if fieldNr == 0 {
      file.hash := value;
    } else if fieldNr == 1 {
      file.path := value;
    } else if fieldNr == 2 {
      file.target := value;
    }
    assert toks[..fieldNr + 1][..fieldNr] == toks[..fieldNr];
  }

  /** A file entry whose line parses back unchanged: the present fields are
      non-empty, hold no `;` or newline, and are not `%`. */
  predicate WellFormed(e: FileEntry)
  {
    && e.file != [] && ';' !in e.file && '\n' !in e.file && e.file != "%"
    && (e.sha256.Some? ==> e.sha256.value != [] && ';' !in e.sha256.value && '\n' !in e.sha256.value && e.sha256.value != "%")
    && (e.target.Some? ==> e.target.value != [] && ';' !in e.target.value && '\n' !in e.target.value && e.target.value != "%")
  }

  /** The fields a parsed line of `e` should carry. */
  function Expected(e: FileEntry): (r: FileFields)
  {
    FileFields(e.sha256, Some(e.file), e.target)
  }

  lemma LineBodyShape(e: FileEntry)
    ensures LineBody(e) == OrPercent(e.sha256) + [';'] + (e.file + [';'] + OrPercent(e.target))
  {
  }

  /** A serialised line splits into exactly its three fields. */
  lemma LineFields(e: FileEntry)
    requires WellFormed(e)
    ensures Tokens(LineBody(e), ';') == [OrPercent(e.sha256), e.file, OrPercent(e.target)]
  {
    LineBodyShape(e);
    TokensSplit(OrPercent(e.sha256), e.file + [';'] + OrPercent(e.target), ';');
    TokensSplit(e.file, OrPercent(e.target), ';');
    SingleToken(OrPercent(e.sha256), ';');
    SingleToken(e.file, ';');
    SingleToken(OrPercent(e.target), ';');
  }

  /** Round trip: parsing a line written by the serialiser recovers the
      entry, whatever the struct held before; `%` comes back as NULL. */
  lemma LineRoundTrip(prev: FileFields, e: FileEntry)
    requires WellFormed(e)
    ensures Parsed(prev, LineBody(e)) == Expected(e)
  {
    LineFields(e);
  }

  /** Empty fields do not exist: `;;` reads as `;`. */
  lemma EmptyFieldsCollapse(prev: FileFields, a: string, b: string)
    ensures Parsed(prev, a + ";;" + b) == Parsed(prev, a + ";" + b)
  {
    DelimitersCollapse(a, b, ';');
    assert a + ";;" + b == a + [';', ';'] + b;
    assert a + ";" + b == a + [';'] + b;
  }

  /** Anything after the third field is ignored. */
  lemma ExtraFieldsIgnored(prev: FileFields, line: string, extra: string)
    requires |Tokens(line, ';')| >= 3
    ensures Parsed(prev, line + ";" + extra) == Parsed(prev, line)
  {
    assert line + ";" + extra == line + [';'] + extra;
    TokensSplit(line, extra, ';');
    var t := Tokens(line + ";" + extra, ';');
    assert t[..3] == Tokens(line, ';')[..3];
  }

  /** `strcasestr(h, n) != NULL` over ASCII folding: the empty needle is
      found everywhere. */
  function StrCaseStr(h: string, n: string): (r: bool)
    ensures r <==> exists i: nat :: FoldedAt(h, n, i)
    decreases |h|
  {
    if |n| > |h| then false
    else if FoldCase(h[..|n|]) == FoldCase(n) then
      assert FoldedAt(h, n, 0);
      true
    else
      FoldedShift(h, n);
      StrCaseStr(h[1..], n)
  }

  lemma FoldedShift(h: string, n: string)
    requires |n| <= |h| && h != []
    requires FoldCase(h[..|n|]) != FoldCase(n)
    ensures (exists i: nat :: FoldedAt(h, n, i)) <==> exists i: nat :: FoldedAt(h[1..], n, i)
  {
    forall i: nat | FoldedAt(h, n, i)
      ensures FoldedAt(h[1..], n, i - 1)
    {
      assert h[..|n|] == h[0..0 + |n|];
      assert i > 0;
      assert h[1..][i - 1..i - 1 + |n|] == h[i..i + |n|];
    }
    forall i: nat | FoldedAt(h[1..], n, i)
      ensures FoldedAt(h, n, i + 1)
    {
      assert h[1..][i..i + |n|] == h[i + 1..i + 1 + |n|];
    }
  }

  /** `strcasecmp(a, b) == 0`: two strings compare equal exactly when they
      have the same length and agree character by character up to ASCII case;
      in particular they agree outside 'A'..'Z' and 'a'..'z'. */
  function StrCaseEq(a: string, b: string): (r: bool)
    ensures a == b ==> r
    ensures r ==> |a| == |b|
    ensures r ==> forall k :: 0 <= k < |a| && !('A' <= a[k] <= 'Z') && !('a' <= a[k] <= 'z') ==> b[k] == a[k]
    ensures r <==> |a| == |b| && forall k :: 0 <= k < |a| ==> ToLower(a[k]) == ToLower(b[k])
  {
    var r := FoldCase(a) == FoldCase(b);
    assert |a| == |b| && (forall k :: 0 <= k < |a| ==> ToLower(a[k]) == ToLower(b[k])) ==> r by {
      if |a| == |b| && forall k :: 0 <= k < |a| ==> ToLower(a[k]) == ToLower(b[k]) {
        assert FoldCase(a) == FoldCase(b);
      }
    }
    assert r ==> |a| == |b| && forall k :: 0 <= k < |a| ==> ToLower(a[k]) == ToLower(b[k]) by {
      if r {
        forall k | 0 <= k < |a|
          ensures ToLower(a[k]) == ToLower(b[k])
        {
          assert FoldCase(a)[k] == FoldCase(b)[k];
        }
      }
    }
    r
  }

  /** The search of one run: by hash, or by case-insensitive substring of the
      path or the link target. */
  datatype Search = ByHash(expr: string) | BySubstring(expr: string)

  /** Whether the parsed line is reported: a hash search matches a line whose
      hash equals the expression up to ASCII case; a substring search matches
      a line whose path, or whose link target when there is one, contains the
      expression up to ASCII case. */
  function LineMatches(f: FileFields, s: Search): (r: bool)
    ensures r && s.ByHash? ==> f.hash.Some?
    ensures r && s.BySubstring? ==> f.path.Some? || f.target.Some?
    ensures s.ByHash? ==> (r <==> f.hash.Some? && FoldCase(f.hash.value) == FoldCase(s.expr))
    ensures s.BySubstring? ==>
              (r <==> (f.path.Some? && exists i: nat :: FoldedAt(f.path.value, s.expr, i))
                      || (f.target.Some? && exists i: nat :: FoldedAt(f.target.value, s.expr, i)))
  {
    match s
    case ByHash(x) => f.hash.Some? && StrCaseEq(f.hash.value, x)
    case BySubstring(x) =>
      (f.path.Some? && StrCaseStr(f.path.value, x)) || (f.target.Some? && StrCaseStr(f.target.value, x))
  }

  lemma FoldCaseIdempotent(s: string)
    ensures FoldCase(FoldCase(s)) == FoldCase(s)
  {
  }

  /** The hash comparison ignores case: searching for a hash or its folded
      form reports the same lines, and a line without hash never matches. */
  lemma HashMatchIgnoresCase(f: FileFields, x: string)
    ensures LineMatches(f, ByHash(x)) == LineMatches(f, ByHash(FoldCase(x)))
    ensures LineMatches(f, ByHash(x)) ==> f.hash.Some?
  {
    FoldCaseIdempotent(x);
  }

  /** An empty substring is found in every path. */
  lemma EmptyExpressionMatchesEveryPath(f: FileFields)
    requires f.path.Some?
    ensures LineMatches(f, BySubstring(""))
  {
    assert FoldedAt(f.path.value, "", 0);
  }

  /** The lines reported while scanning `lines`, the struct carried from line
      to line: at most one per line, each one a match. */
  function ScanHits(prev: FileFields, lines: seq<string>, s: Search): (r: seq<FileFields>)
    ensures |r| <= |lines|
    ensures forall k :: 0 <= k < |r| ==> LineMatches(r[k], s)
    decreases |lines|
  {
    if lines == [] then []
    else
      var f := Parsed(prev, lines[0]);
      (if LineMatches(f, s) then [f] else []) + ScanHits(f, lines[1..], s)
  }

  /** The line holds at least one field. */
  ghost predicate HasField(line: string)
  {
    Tokens(line, ';') != []
  }

  /** Every line holds at least one field. */
  ghost predicate LinesHaveFields(lines: seq<string>)
  {
    forall k :: 0 <= k < |lines| ==> HasField(lines[k])
  }

  /** One pass of the line loop: parse the line into the struct, then report
      it if it matches. */
  method ScanLine(file: FileInfo, line: string, s: Search) returns (hit: seq<FileFields>)
    requires HasField(line)
    modifies file
    ensures file.Fields() == Parsed(old(file.Fields()), line)
    ensures hit == if LineMatches(file.Fields(), s) then [file.Fields()] else []
  {
    ParseLine(file, line);
    var f := file.Fields();
    hit := if LineMatches(f, s) then [f] else [];
  }

  /** `strtok_r(NULL, "\n", &end_line)`: the next line and what follows it. */
  method NextLine(text: string) returns (line: Option<string>, rest: string)
    ensures line.None? ==> Tokens(text, '\n') == []
    ensures line.Some? ==> Tokens(text, '\n') == [line.value] + Tokens(rest, '\n')
  {
    TokensStep(text, '\n');
    var tok := StrTok(text, '\n');
    line, rest := tok.0, tok.1;
  }

  /** The line loop over one index entry: `init` is what the uninitialised
      struct holds before the first line. The content must hold at least
      one line, each with a field. */
  method SearchEntry(content: string, s: Search, init: FileFields) returns (hits: seq<FileFields>)
    requires Tokens(content, '\n') != [] && LinesHaveFields(Tokens(content, '\n'))
    ensures hits == ScanHits(init, Tokens(content, '\n'), s)
  {
    var file := new FileInfo(init);
    var line, rest := NextLine(content);
    ghost var remaining := Tokens(content, '\n');
    hits := [];
    ghost var goal := ScanHits(init, remaining, s);
    while line.Some?
      invariant line.Some? ==> remaining == [line.value] + Tokens(rest, '\n')
      invariant line.None? ==> remaining == []
      invariant LinesHaveFields(remaining)
      invariant hits + ScanHits(file.Fields(), remaining, s) == goal
      decreases |remaining|
    {
      hits := ScanNext(file, line.value, s, hits, remaining, goal);
      remaining := remaining[1..];
      line, rest := NextLine(rest);
    }
  }

  /** One pass of the line loop, stated against what is left to scan. */
  method ScanNext(file: FileInfo, line: string, s: Search, hits: seq<FileFields>,
                  ghost remaining: seq<string>, ghost goal: seq<FileFields>)
    returns (next: seq<FileFields>)
    requires remaining != [] && remaining[0] == line && LinesHaveFields(remaining)
    requires hits + ScanHits(file.Fields(), remaining, s) == goal
    modifies file
    ensures next + ScanHits(file.Fields(), remaining[1..], s) == goal
  {
    assert HasField(remaining[0]);
    ghost var before := file.Fields();
    var hit := ScanLine(file, line, s);
    ScanFirst(before, remaining, s);
    next := hits + hit;
    ConcatAssoc(hits, hit, ScanHits(file.Fields(), remaining[1..], s));
  }

  lemma ScanFirst(prev: FileFields, lines: seq<string>, s: Search)
    requires lines != []
    ensures var f := Parsed(prev, lines[0]);
      ScanHits(prev, lines, s) == (if LineMatches(f, s) then [f] else []) + ScanHits(f, lines[1..], s)
  {
  }

  /** The fields of the entries whose hash equals `x` up to case, in order. */
  function HashHits(es: seq<FileEntry>, x: string): (r: seq<FileFields>)
  {
    if es == [] then []
    else (if es[0].sha256.Some? && StrCaseEq(es[0].sha256.value, x) then [Expected(es[0])] else [])
         + HashHits(es[1..], x)
  }

  lemma {:induction false} ScanBodies(prev: FileFields, es: seq<FileEntry>, x: string)
    requires forall k :: 0 <= k < |es| ==> WellFormed(es[k])
    ensures ScanHits(prev, Bodies(es), ByHash(x)) == HashHits(es, x)
    decreases |es|
  {
    if es != [] {
      LineRoundTrip(prev, es[0]);
      assert Bodies(es)[1..] == Bodies(es[1..]);
      ScanBodies(Expected(es[0]), es[1..], x);
    }
  }

  /** A hash search over an entry written by the serialiser reports exactly
      the files whose sha256 equals the searched hash up to case, in order. */
  lemma HashSearchOverSerialisedEntry(init: FileFields, es: seq<FileEntry>, x: string)
    requires forall k :: 0 <= k < |es| ==> WellFormed(es[k])
    ensures ScanHits(init, Tokens(FilesText(es), '\n'), ByHash(x)) == HashHits(es, x)
  {
    FilesTextLines(es);
    ScanBodies(init, es, x);
  }
}
