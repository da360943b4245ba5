/** The repository "files" index of `xbps-rindex`: one archive entry per
    package, named by its pkgver, whose content lists every file of the
    package as a line `sha256;file;target`. Covers the line serialiser, the
    archive name listing, the lookup of an indexed package by name, and the
    skip/replace decision with the merge of the old archive. */
module FilesIndex {
  import opened Common

  /** One entry of a files.plist array: `file` is always present, `target`
      only for links, `sha256` only for regular files. */
  datatype FileEntry = FileEntry(file: string, target: Option<string>, sha256: Option<string>)

  /** An optional field as written to the index: `%` stands for "absent". */
  function OrPercent(v: Option<string>): (r: string)
    ensures v.None? ==> r == "%"
    ensures v.Some? ==> r == v.value
  {
    if v.Some? then v.value else "%"
  }

  /** The text of one line, without its newline: never empty, and free of
      newlines when the entry's fields are. */
  function LineBody(e: FileEntry): (r: string)
    ensures r != []
    ensures NoNewline(e) ==> '\n' !in r
  {
    OrPercent(e.sha256) + ";" + e.file + ";" + OrPercent(e.target)
  }

  /** The serialised form of an array of entries: one line per entry, in
      order. It is empty exactly for no entries and otherwise ends in a
      newline. */
  function FilesText(es: seq<FileEntry>): (r: string)
    ensures r == [] <==> es == []
    ensures r != [] ==> r[|r| - 1] == '\n'
  {
    if es == [] then [] else FilesText(es[..|es| - 1]) + LineBody(es[|es| - 1]) + "\n"
  }

  /** A files.plist array that may be missing (`links` often is). */
  function ArrayText(files: Option<seq<FileEntry>>): (r: string)
  {
    if files.None? then [] else FilesText(files.value)
  }

  /** The content of a package's index entry: the arrays of its files
      dictionary serialised one after another, in key order. */
  function PackageText(arrays: seq<Option<seq<FileEntry>>>): (r: string)
  {
    if arrays == [] then [] else PackageText(arrays[..|arrays| - 1]) + ArrayText(arrays[|arrays| - 1])
  }

  /** Every entry of the present arrays, in key order. */
  function AllEntries(arrays: seq<Option<seq<FileEntry>>>): (r: seq<FileEntry>)
  {
    if arrays == [] then []
    else
      var last := arrays[|arrays| - 1];
      AllEntries(arrays[..|arrays| - 1]) + (if last.None? then [] else last.value)
  }

  /** The mutable string object the lines are appended to. */
  class TextBuffer {
    var text: string

    constructor(text: string)
      ensures this.text == text
    {
      this.text := text;
    }
  }

  /** Appends one line per entry of `files`; a missing array appends nothing. */
  method AddFilesToFile(dest: TextBuffer, files: Option<seq<FileEntry>>)
    modifies dest
    ensures dest.text == old(dest.text) + ArrayText(files)
  {
    if files.None? {
      return;
    }
    AppendEntries(dest, files.value);
  }

  /** The loop of `add_files_to_file`: one line per entry, in order. */
  method AppendEntries(dest: TextBuffer, es: seq<FileEntry>)
    modifies dest
    ensures dest.text == old(dest.text) + FilesText(es)
  {
    ghost var base := dest.text;
    var i := 0;
    while i < |es|
      invariant 0 <= i <= |es|
      invariant dest.text == base + FilesText(es[..i])
    {
      AppendNext(dest, es, i, base);
      i := i + 1;
    }
    assert es[..i] == es;
  }

  /** One iteration: the line of entry `i` extends the text written so far. */
  method AppendNext(dest: TextBuffer, es: seq<FileEntry>, i: nat, ghost base: string)
    requires i < |es| && dest.text == base + FilesText(es[..i])
    modifies dest
    ensures dest.text == base + FilesText(es[..i + 1])
  {
    ghost var done := FilesText(es[..i]);
    AppendLine(dest, es[i]);
    FilesTextSnoc(es, i);
    ConcatAssoc(base, done, LineBody(es[i]) + "\n");
  }

  /** The body of the loop: one entry's line, field by field. */
  method AppendLine(dest: TextBuffer, e: FileEntry)
    modifies dest
    ensures dest.text == old(dest.text) + (LineBody(e) + "\n")
  {
    var sha := if e.sha256.Some? then e.sha256.value else "%";
    var target := if e.target.Some? then e.target.value else "%";
    dest.text := dest.text + sha;
    dest.text := dest.text + ";";
    dest.text := dest.text + e.file;
    dest.text := dest.text + ";";
    dest.text := dest.text + target;
    dest.text := dest.text + "\n";
    assert dest.text == old(dest.text) + ((sha + ";" + e.file + ";" + target) + "\n");
  }

  lemma FilesTextSnoc(es: seq<FileEntry>, i: nat)
    requires i < |es|
    ensures FilesText(es[..i + 1]) == FilesText(es[..i]) + (LineBody(es[i]) + "\n")
  {
    assert es[..i + 1][..i] == es[..i];
  }

  /** Builds a package's index content from the arrays of its files
      dictionary, taken in key order. */
  method BuildPackageText(arrays: seq<Option<seq<FileEntry>>>) returns (content: string)
    ensures content == FilesText(AllEntries(arrays))
  {
    var buffer := new TextBuffer([]);
    var j := 0;
    while j < |arrays|
      invariant 0 <= j <= |arrays|
      invariant buffer.text == PackageText(arrays[..j])
    {
      AddFilesToFile(buffer, arrays[j]);
      assert arrays[..j + 1][..j] == arrays[..j];
      j := j + 1;
    }
    assert arrays[..j] == arrays;
    content := buffer.text;
    PackageTextIsFilesText(arrays);
  }

  /** The serialisation distributes over concatenation of arrays. */
  lemma {:induction false} FilesTextConcat(a: seq<FileEntry>, b: seq<FileEntry>)
    ensures FilesText(a + b) == FilesText(a) + FilesText(b)
    decreases |b|
  {
    if b == [] {
      assert a + b == a;
    } else {
      var b' := b[..|b| - 1];
      var line := LineBody(b[|b| - 1]) + "\n";
      FilesTextConcat(a, b');
      LastOfConcat(a, b);
      FilesTextLast(b);
      ConcatAssoc(FilesText(a), FilesText(b'), line);
    }
  }

  lemma FilesTextLast(b: seq<FileEntry>)
    requires b != []
    ensures FilesText(b) == FilesText(b[..|b| - 1]) + (LineBody(b[|b| - 1]) + "\n")
  {
  }

  lemma LastOfConcat(a: seq<FileEntry>, b: seq<FileEntry>)
    requires b != []
    ensures FilesText(a + b) == FilesText(a + b[..|b| - 1]) + (LineBody(b[|b| - 1]) + "\n")
  {
    assert (a + b)[..|a + b| - 1] == a + b[..|b| - 1];
    assert (a + b)[|a + b| - 1] == b[|b| - 1];
  }

  /** Serialising array after array is serialising all their entries at once. */
  lemma {:induction false} PackageTextIsFilesText(arrays: seq<Option<seq<FileEntry>>>)
    ensures PackageText(arrays) == FilesText(AllEntries(arrays))
    decreases |arrays|
  {
    if arrays != [] {
      var init := arrays[..|arrays| - 1];
      var last := arrays[|arrays| - 1];
      PackageTextIsFilesText(init);
      FilesTextConcat(AllEntries(init), if last.None? then [] else last.value);
    }
  }

  /** An entry whose fields hold no newline. */
  predicate NoNewline(e: FileEntry)
  {
    && '\n' !in e.file
    && (e.target.Some? ==> '\n' !in e.target.value)
    && (e.sha256.Some? ==> '\n' !in e.sha256.value)
  }

  /** The line bodies of the entries, in order. */
  function Bodies(es: seq<FileEntry>): (r: seq<string>)
    ensures |r| == |es| && forall k :: 0 <= k < |es| ==> r[k] == LineBody(es[k])
  {
    seq(|es|, k requires 0 <= k < |es| => LineBody(es[k]))
  }

  lemma BodiesSnoc(es: seq<FileEntry>)
    requires es != []
    ensures Bodies(es) == Bodies(es[..|es| - 1]) + [LineBody(es[|es| - 1])]
  {
  }

  /** Splitting the serialised text at newlines gives back exactly one line
      body per entry, in entry order. */
  lemma {:induction false} FilesTextLines(es: seq<FileEntry>)
    requires forall k :: 0 <= k < |es| ==> NoNewline(es[k])
    ensures Tokens(FilesText(es), '\n') == Bodies(es)
    decreases |es|
  {
    if es != [] {
      var init := es[..|es| - 1];
      var last := es[|es| - 1];
      FilesTextLines(init);
      TokensAppendLine(FilesText(init), LineBody(last), '\n');
      assert FilesText(es) == FilesText(init) + LineBody(last) + "\n";
      BodiesSnoc(es);
    }
  }

  /** The growable array of strings `existing_files` / `ignore_packages`. */
  class NameArray {
    var names: seq<string>

    constructor()
      ensures names == []
    {
      names := [];
    }
  }

  /** Archive entry names without the "HASHES" member, in order. */
  function WithoutHashes(names: seq<string>): (r: seq<string>)
    ensures |r| <= |names|
    ensures forall x :: x in r <==> x in names && x != "HASHES"
  {
    if names == [] then []
    else
      var init := WithoutHashes(names[..|names| - 1]);
      var last := names[|names| - 1];
      assert names == names[..|names| - 1] + [last];
      if last == "HASHES" then init else init + [last]
  }

  /** Filtering keeps the relative order: it distributes over concatenation. */
  lemma {:induction false} WithoutHashesConcat(a: seq<string>, b: seq<string>)
    ensures WithoutHashes(a + b) == WithoutHashes(a) + WithoutHashes(b)
    decreases |b|
  {
    if b == [] {
      assert a + b == a;
    } else {
      var b' := b[..|b| - 1];
      assert (a + b)[..|a + b| - 1] == a + b';
      assert (a + b)[|a + b| - 1] == b[|b| - 1];
      WithoutHashesConcat(a, b');
    }
  }

  /** A libarchive read handle: `pos` entries of the archive have been read. */
  class ArchiveReader {
    const entries: seq<ArchiveEntry>
    var pos: nat

    constructor(entries: seq<ArchiveEntry>)
      ensures this.entries == entries && pos == 0
    {
      this.entries := entries;
      pos := 0;
    }

    /** `archive_read_next_header`: the next entry, None at the end. */
    method NextHeader() returns (e: Option<ArchiveEntry>)
      modifies this
      ensures old(pos) < |entries| ==> e == Some(entries[old(pos)]) && pos == old(pos) + 1
      ensures old(pos) >= |entries| ==> e.None? && pos == old(pos)
    {
      if pos < |entries| {
        e := Some(entries[pos]);
        pos := pos + 1;
      } else {
        e := None;
      }
    }
  }

  /** Reads the archive to its end, appending the name of every entry except
      "HASHES", in archive order. */
  method ListPackages(dest: NameArray, ar: ArchiveReader)
    requires ar.pos <= |ar.entries|
    modifies dest, ar
    ensures ar.pos == |ar.entries|
    ensures dest.names == old(dest.names) + WithoutHashes(Names(ar.entries)[old(ar.pos)..])
  {
    ghost var names := Names(ar.entries);
    ghost var start := ar.pos;
    ghost var base := dest.names;
    while true
      invariant start <= ar.pos <= |ar.entries|
      invariant dest.names == base + WithoutHashes(names[start..ar.pos])
      decreases |ar.entries| - ar.pos
    {
      var e := ar.NextHeader();
      if e.None? {
        break;
      }
      assert names[start..ar.pos][..ar.pos - 1 - start] == names[start..ar.pos - 1];
      if e.value.name != "HASHES" {
        dest.names := dest.names + [e.value.name];
      }
    }
    assert names[start..ar.pos] == names[start..];
  }

  /** The scan of `match_pkgname_in_array` from position `i`: the first entry
      whose package name is `str`, giving up at the first entry whose name
      cannot be extracted. */
  function MatchFrom(names: seq<string>, str: string, nameOf: string -> Option<string>, i: nat): (r: Option<string>)
    requires i <= |names|
    ensures r.Some? ==> r.value in names[i..] && nameOf(r.value) == Some(str)
    decreases |names| - i
  {
    if i == |names| then None
    else if nameOf(names[i]).None? then None
    else if nameOf(names[i]).value == str then Some(names[i])
    else MatchFrom(names, str, nameOf, i + 1)
  }

  function MatchByName(names: seq<string>, str: string, nameOf: string -> Option<string>): (r: Option<string>)
    ensures r.Some? ==> r.value in names && nameOf(r.value) == Some(str)
  {
    MatchFrom(names, str, nameOf, 0)
  }

  /** Every name before position `j` is extractable and differs from `str`. */
  ghost predicate PassedBefore(names: seq<string>, str: string, nameOf: string -> Option<string>, j: nat)
    requires j <= |names|
  {
    forall k :: 0 <= k < j ==> nameOf(names[k]).Some? && nameOf(names[k]).value != str
  }

  lemma {:induction false} MatchSkipsPassed(names: seq<string>, str: string,
                                            nameOf: string -> Option<string>, i: nat, j: nat)
    requires i <= j <= |names| && PassedBefore(names, str, nameOf, j)
    ensures MatchFrom(names, str, nameOf, i) == MatchFrom(names, str, nameOf, j)
    decreases j - i
  {
    if i < j {
      MatchSkipsPassed(names, str, nameOf, i + 1, j);
    }
  }

  /** The first entry named `str` is returned when every earlier name is
      extractable. */
  lemma MatchFindsFirst(names: seq<string>, str: string, nameOf: string -> Option<string>, j: nat)
    requires j < |names| && PassedBefore(names, str, nameOf, j)
    requires nameOf(names[j]) == Some(str)
    ensures MatchByName(names, str, nameOf) == Some(names[j])
  {
    MatchSkipsPassed(names, str, nameOf, 0, j);
  }

  /** An entry whose package name cannot be extracted ends the search with no
      result, even when a later entry would match. */
  lemma MatchStopsAtUnnamable(names: seq<string>, str: string, nameOf: string -> Option<string>, j: nat)
    requires j < |names| && PassedBefore(names, str, nameOf, j)
    requires nameOf(names[j]).None?
    ensures MatchByName(names, str, nameOf).None?
  {
    MatchSkipsPassed(names, str, nameOf, 0, j);
  }

  /** Walks the array until a match (returned) or an unnamable entry (None). */
  method MatchPkgnameInArray(arr: NameArray, str: string, nameOf: string -> Option<string>)
    returns (r: Option<string>)
    ensures r == MatchByName(arr.names, str, nameOf)
  {
    var names := arr.names;
    var i := 0;
    while i < |names|
      invariant 0 <= i <= |names|
      invariant MatchByName(names, str, nameOf) == MatchFrom(names, str, nameOf, i)
    {
      var pkgname := nameOf(names[i]);
      if pkgname.None? {
        return None;
      }
      if pkgname.value == str {
        return Some(names[i]);
      }
      i := i + 1;
    }
    return None;
  }

  /** What happens to a candidate package. */
  datatype Verdict = Register | Replace(indexed: string) | Skip

  /** The decision for a candidate: `indexed` is the pkgver found in the old
      index (None when forced or not found), `cmp` the version comparison of
      the candidate against it, `revertsIndexed` whether the candidate
      reverts the indexed pkgver and `revertsSelf` whether it reverts its own. */
  function Decide(force: bool, indexed: Option<string>, cmp: int, revertsIndexed: bool, revertsSelf: bool): (v: Verdict)
    ensures v == Register <==> force || indexed.None?
    ensures !force && indexed.Some? ==>
      (v == Skip <==> cmp == 0 || (cmp < 0 && !revertsIndexed) || (cmp > 0 && revertsSelf))
    ensures v.Replace? ==> indexed == Some(v.indexed)
  {
    if force || indexed.None? then Register
    else
      var ret := if cmp < 0 && revertsIndexed then 1 else if cmp > 0 && revertsSelf then -1 else cmp;
      if ret <= 0 then Skip else Replace(indexed.value)
  }

  /** The metadata of a binary package offered for indexing. */
  datatype Candidate = Candidate(pkgname: string, pkgver: string, files: seq<Option<seq<FileEntry>>>)

  /** A member of the files archive. */
  datatype ArchiveEntry = ArchiveEntry(name: string, content: string)

  /** The library functions the decision depends on: `xbps_cmpver`,
      `xbps_pkg_reverts` and `xbps_pkg_name`. */
  datatype Versions = Versions(cmpver: (string, string) -> int,
                               reverts: (Candidate, string) -> bool,
                               pkgName: string -> Option<string>)

  /** The archive entry written for a registered candidate. */
  function EntryOf(c: Candidate): (r: ArchiveEntry)
  {
    ArchiveEntry(c.pkgver, FilesText(AllEntries(c.files)))
  }

  /** The verdict on one candidate against the names of the old index. */
  function Judge(existing: seq<string>, c: Candidate, force: bool, vs: Versions): (v: Verdict)
    ensures v.Replace? ==> v.indexed in existing
  {
    var m := if force then None else MatchByName(existing, c.pkgname, vs.pkgName);
    var cmp := if m.Some? then vs.cmpver(c.pkgver, m.value) else 0;
    Decide(force, m, cmp, m.Some? && vs.reverts(c, m.value), vs.reverts(c, c.pkgver))
  }

  /** Entries written and pkgvers to ignore after the candidates so far; a
      candidate whose props.plist cannot be read (None) is skipped. Every
      entry written is a readable candidate's, every ignored pkgver was found
      in the old index, and each ignored pkgver comes with an entry written. */
  function Process(existing: seq<string>, cands: seq<Option<Candidate>>, force: bool, vs: Versions)
    : (r: (seq<ArchiveEntry>, seq<string>))
    ensures |r.1| <= |r.0| <= |Readable(cands)|
    ensures forall e :: e in r.0 ==> e in Readable(cands)
    ensures forall x :: x in r.1 ==> x in existing
  {
    if cands == [] then ([], [])
    else
      var prev := Process(existing, cands[..|cands| - 1], force, vs);
      var c := cands[|cands| - 1];
      if c.None? then prev
      else
        match Judge(existing, c.value, force, vs)
        case Skip => prev
        case Replace(indexed) => (prev.0 + [EntryOf(c.value)], prev.1 + [indexed])
        case Register => (prev.0 + [EntryOf(c.value)], prev.1)
  }

  /** The old archive's entries that are not named in `ignore`, in order. */
  function Kept(olds: seq<ArchiveEntry>, ignore: seq<string>): (r: seq<ArchiveEntry>)
    ensures forall e :: e in r <==> e in olds && e.name !in ignore
  {
    if olds == [] then []
    else
      var init := Kept(olds[..|olds| - 1], ignore);
      var last := olds[|olds| - 1];
      assert olds == olds[..|olds| - 1] + [last];
      if last.name in ignore then init else init + [last]
  }

  function Names(entries: seq<ArchiveEntry>): (r: seq<string>)
    ensures |r| == |entries| && forall k :: 0 <= k < |r| ==> r[k] == entries[k].name
  {
    seq(|entries|, k requires 0 <= k < |entries| => entries[k].name)
  }

  /** The new archive: the registered candidates, then the old entries that
      were not replaced. Nothing else enters it. */
  function NewArchive(previous: Option<seq<ArchiveEntry>>, cands: seq<Option<Candidate>>, force: bool, vs: Versions)
    : (r: seq<ArchiveEntry>)
    ensures forall e :: e in r ==> e in Readable(cands) || (previous.Some? && e in previous.value)
  {
    var olds := if previous.None? then [] else previous.value;
    var p := Process(WithoutHashes(Names(olds)), cands, force, vs);
    p.0 + Kept(olds, p.1)
  }

  /** Everything before the merge: the old archive, when there is one, is
      opened and its names listed, which leaves its reader at the end; then
      every candidate is judged and written. */
  method IndexCandidates(previous: Option<seq<ArchiveEntry>>, cands: seq<Option<Candidate>>, force: bool, vs: Versions)
    returns (oldAr: ArchiveReader?, written: seq<ArchiveEntry>, ignore: seq<string>)
    ensures oldAr == null <==> previous.None?
    ensures oldAr != null ==> fresh(oldAr) && oldAr.entries == previous.value && oldAr.pos == |oldAr.entries|
    ensures var p := Process(WithoutHashes(Names(if previous.None? then [] else previous.value)), cands, force, vs);
      written == p.0 && ignore == p.1
  {
    var existing := new NameArray();
    oldAr := null;
    if previous.Some? {
      oldAr := new ArchiveReader(previous.value);
      ListPackages(existing, oldAr);
      assert Names(previous.value)[0..] == Names(previous.value);
    } else {
      assert WithoutHashes(Names([])) == [];
    }
    var ignored := new NameArray();
    written := RegisterCandidates(existing, ignored, cands, force, vs);
    ignore := ignored.names;
  }

  /** Writes the new files archive from the old one (None when it does not
      exist yet) and the candidates, in argument order; the merge reads the
      old archive through a reader opened afresh. */
  method FilesAdd(previous: Option<seq<ArchiveEntry>>, cands: seq<Option<Candidate>>, force: bool, vs: Versions)
    returns (archive: seq<ArchiveEntry>)
    ensures archive == NewArchive(previous, cands, force, vs)
  {
    var oldAr, written, ignore := IndexCandidates(previous, cands, force, vs);
    archive := written;
    if oldAr != null {
      var reopened := new ArchiveReader(oldAr.entries);
      var kept := CopyKept(reopened, ignore);
      assert reopened.entries[0..] == previous.value;
      archive := archive + kept;
    } else {
      assert archive + Kept([], ignore) == archive;
    }
  }

  /** `files_add` as the code stands: the merge reads through the reader
      that `list_packages` left at its end (rewinding the underlying FILE
      does not rewind it), so no old entry is copied. */
  method FilesAddAsWritten(previous: Option<seq<ArchiveEntry>>, cands: seq<Option<Candidate>>, force: bool, vs: Versions)
    returns (archive: seq<ArchiveEntry>)
    ensures archive == AsWrittenArchive(previous, cands, force, vs)
  {
    var oldAr, written, ignore := IndexCandidates(previous, cands, force, vs);
    archive := written;
    if oldAr != null {
      var kept := CopyKept(oldAr, ignore);
      assert oldAr.entries[|oldAr.entries|..] == [];
      archive := archive + kept;
    }
  }

  /** The archive the code as written produces: the intended archive cut
      short after the registered candidates, with nothing of the old one. */
  function AsWrittenArchive(previous: Option<seq<ArchiveEntry>>, cands: seq<Option<Candidate>>, force: bool, vs: Versions)
    : (r: seq<ArchiveEntry>)
    ensures r <= NewArchive(previous, cands, force, vs)
    ensures forall e :: e in r ==> e in Readable(cands)
  {
    Process(WithoutHashes(Names(if previous.None? then [] else previous.value)), cands, force, vs).0
  }

  /** The discrepancy: with an old archive and no candidate, the code as
      written leaves an empty archive where the whole old one should stay. */
  lemma OldIndexLost(olds: seq<ArchiveEntry>, force: bool, vs: Versions)
    requires olds != []
    ensures AsWrittenArchive(Some(olds), [], force, vs) == []
    ensures NewArchive(Some(olds), [], force, vs) == olds
  {
    KeptNothingIgnored(olds);
  }

  /** The loop over the candidates: appends each replaced pkgver to `ignore`
      and returns the entries written. */
  method RegisterCandidates(existing: NameArray, ignore: NameArray, cands: seq<Option<Candidate>>,
                            force: bool, vs: Versions)
    returns (written: seq<ArchiveEntry>)
    requires existing != ignore
    modifies ignore
    ensures written == Process(existing.names, cands, force, vs).0
    ensures ignore.names == old(ignore.names) + Process(existing.names, cands, force, vs).1
  {
    written := [];
    ghost var base := ignore.names;
    ghost var names := existing.names;
    assert cands[..0] == [];
    var i := 0;
    while i < |cands|
      invariant 0 <= i <= |cands| && existing.names == names
      invariant written == Process(names, cands[..i], force, vs).0
      invariant ignore.names == base + Process(names, cands[..i], force, vs).1
    {
      written := RegisterNext(existing, ignore, cands, i, force, vs, written, base);
      i := i + 1;
    }
    assert cands[..i] == cands;
  }

  /** One iteration: judges candidate `i` and records what it adds. */
  method RegisterNext(existing: NameArray, ignore: NameArray, cands: seq<Option<Candidate>>, i: nat,
                      force: bool, vs: Versions, written: seq<ArchiveEntry>, ghost base: seq<string>)
    returns (next: seq<ArchiveEntry>)
    requires existing != ignore && i < |cands|
    requires written == Process(existing.names, cands[..i], force, vs).0
    requires ignore.names == base + Process(existing.names, cands[..i], force, vs).1
    modifies ignore
    ensures next == Process(existing.names, cands[..i + 1], force, vs).0
    ensures ignore.names == base + Process(existing.names, cands[..i + 1], force, vs).1
  {
    ghost var names := existing.names;
    ProcessStep(names, cands, i, force, vs);
    next := written;
    var c := cands[i];
    if c.Some? {
      var cand := c.value;
      var m := None;
      if !force {
        m := MatchPkgnameInArray(existing, cand.pkgname, vs.pkgName);
      }
      var verdict := Decide(force, m, if m.Some? then vs.cmpver(cand.pkgver, m.value) else 0,
                            m.Some? && vs.reverts(cand, m.value), vs.reverts(cand, cand.pkgver));
      assert verdict == Judge(names, cand, force, vs);
      if verdict != Skip {
        if verdict.Replace? {
          ignore.names := ignore.names + [verdict.indexed];
        }
        var content := BuildPackageText(cand.files);
        next := next + [ArchiveEntry(cand.pkgver, content)];
      }
    }
  }

  /** Judging candidate `i` extends what the earlier candidates produced. */
  lemma ProcessStep(existing: seq<string>, cands: seq<Option<Candidate>>, i: nat, force: bool, vs: Versions)
    requires i < |cands|
    ensures var prev := Process(existing, cands[..i], force, vs);
      Process(existing, cands[..i + 1], force, vs) ==
        if cands[i].None? then prev
        else match Judge(existing, cands[i].value, force, vs)
          case Skip => prev
          case Replace(indexed) => (prev.0 + [EntryOf(cands[i].value)], prev.1 + [indexed])
          case Register => (prev.0 + [EntryOf(cands[i].value)], prev.1)
  {
    assert cands[..i + 1][..i] == cands[..i];
  }

  /** The merge: reads the rest of the old archive, copying each entry whose
      name is not in `ignore`. */
  method CopyKept(ar: ArchiveReader, ignore: seq<string>) returns (kept: seq<ArchiveEntry>)
    requires ar.pos <= |ar.entries|
    modifies ar
    ensures ar.pos == |ar.entries|
    ensures kept == Kept(ar.entries[old(ar.pos)..], ignore)
  {
    ghost var start := ar.pos;
    kept := [];
    var done := false;
    while !done
      invariant start <= ar.pos <= |ar.entries|
      invariant done ==> ar.pos == |ar.entries|
      invariant kept == Kept(ar.entries[start..ar.pos], ignore)
      decreases |ar.entries| - ar.pos, !done
    {
      kept, done := CopyNext(ar, ignore, kept, start);
    }
    assert ar.entries[start..ar.pos] == ar.entries[start..];
  }

  /** One pass of the merge loop: reads the next entry and copies it unless
      it is ignored; `done` when the archive is exhausted. */
  method CopyNext(ar: ArchiveReader, ignore: seq<string>, kept: seq<ArchiveEntry>, ghost start: nat)
    returns (next: seq<ArchiveEntry>, done: bool)
    requires start <= ar.pos <= |ar.entries|
    requires kept == Kept(ar.entries[start..ar.pos], ignore)
    modifies ar
    ensures done <==> old(ar.pos) == |ar.entries|
    ensures done ==> ar.pos == old(ar.pos) && next == kept
    ensures !done ==> ar.pos == old(ar.pos) + 1
    ensures next == Kept(ar.entries[start..ar.pos], ignore)
  {
    ghost var p := ar.pos;
    var e := ar.NextHeader();
    next := kept;
    done := e.None?;
    if !done {
      KeptStep(ar.entries, start, p, ignore);
      if e.value.name !in ignore {
        next := next + [e.value];
      }
    }
  }

  lemma KeptStep(olds: seq<ArchiveEntry>, start: nat, p: nat, ignore: seq<string>)
    requires start <= p < |olds|
    ensures Kept(olds[start..p + 1], ignore) ==
      Kept(olds[start..p], ignore) + (if olds[p].name in ignore then [] else [olds[p]])
  {
    assert olds[start..p + 1][..p - start] == olds[start..p];
  }

  /** The entries of the readable candidates, in argument order. */
  function Readable(cands: seq<Option<Candidate>>): (r: seq<ArchiveEntry>)
    ensures |r| <= |cands|
  {
    if cands == [] then []
    else
      var last := cands[|cands| - 1];
      Readable(cands[..|cands| - 1]) + (if last.Some? then [EntryOf(last.value)] else [])
  }

  /** With `force`, every readable candidate is registered, in argument
      order, and nothing of the old archive is dropped. */
  lemma {:induction false} ForceRegistersAll(existing: seq<string>, cands: seq<Option<Candidate>>, vs: Versions)
    ensures Process(existing, cands, true, vs) == (Readable(cands), [])
    decreases |cands|
  {
    if cands != [] {
      ForceRegistersAll(existing, cands[..|cands| - 1], vs);
      var last := cands[|cands| - 1];
      var prev := Process(existing, cands[..|cands| - 1], true, vs);
      if last.Some? {
        assert Judge(existing, last.value, true, vs) == Register;
        assert Process(existing, cands, true, vs) == (prev.0 + [EntryOf(last.value)], prev.1);
      } else {
        assert Process(existing, cands, true, vs) == prev;
        assert Readable(cands) == Readable(cands[..|cands| - 1]) + [];
        assert Readable(cands) == Readable(cands[..|cands| - 1]);
      }
    }
  }

  /** Hence the forced archive is the candidates followed by the whole old one. */
  lemma ForcedArchive(previous: Option<seq<ArchiveEntry>>, cands: seq<Option<Candidate>>, vs: Versions)
    ensures NewArchive(previous, cands, true, vs) == Readable(cands) + (if previous.None? then [] else previous.value)
  {
    var olds := if previous.None? then [] else previous.value;
    ForceRegistersAll(WithoutHashes(Names(olds)), cands, vs);
    KeptNothingIgnored(olds);
  }

  lemma {:induction false} KeptNothingIgnored(olds: seq<ArchiveEntry>)
    ensures Kept(olds, []) == olds
    decreases |olds|
  {
    if olds != [] {
      KeptNothingIgnored(olds[..|olds| - 1]);
      assert olds == olds[..|olds| - 1] + [olds[|olds| - 1]];
    }
  }

  /** A candidate that is skipped contributes nothing. */
  lemma SkippedAddsNothing(existing: seq<string>, cands: seq<Option<Candidate>>, c: Candidate,
                           force: bool, vs: Versions)
    requires Judge(existing, c, force, vs) == Skip
    ensures Process(existing, cands + [Some(c)], force, vs) == Process(existing, cands, force, vs)
  {
    assert (cands + [Some(c)])[..|cands|] == cands;
  }

  /** A replacing candidate adds its entry and removes the indexed one from
      the merged archive. */
  lemma ReplaceDropsIndexed(olds: seq<ArchiveEntry>, cands: seq<Option<Candidate>>, c: Candidate,
                            force: bool, vs: Versions)
    requires Judge(WithoutHashes(Names(olds)), c, force, vs).Replace?
    ensures var all := cands + [Some(c)];
      var p := Process(WithoutHashes(Names(olds)), all, force, vs);
      var indexed := Judge(WithoutHashes(Names(olds)), c, force, vs).indexed;
      && EntryOf(c) in NewArchive(Some(olds), all, force, vs)
      && (forall e :: e in olds && e.name == indexed ==> e !in Kept(olds, p.1))
  {
    var all := cands + [Some(c)];
    assert all[..|cands|] == cands;
  }
}
